/**
 * The directory layer of easy-fs (easy-fs/src/vfs.rs). The file system is
 * flat: one root directory whose disk inode holds a packed array of
 * 32-byte directory entries, so its size is always `DIRENT_SZ` times the
 * number of entries.
 *
 * Disk inodes are reduced to what these operations read and write: a byte
 * size and a link count per allocated inode, and the set of inode ids the
 * inode bitmap has free. Block allocation, the block cache and the bytes
 * of a file are below this model.
 */
module Vfs {
  import opened Wrappers

  const DIRENT_SZ: nat := 32
  const U32: nat := 0x1_0000_0000

  type InodeId = nat

  datatype DirEntry = DirEntry(name: string, inode: InodeId)

  /** The inode of the first entry named `name` (the reference for `find_inode_id`). */
  function Lookup(entries: seq<DirEntry>, name: string): (r: Option<InodeId>)
  {
    if entries == [] then None
    else if entries[0].name == name then Some(entries[0].inode)
    else Lookup(entries[1..], name)
  }

  /** The index of the first entry named `name` (`entries.iter().position`). */
  function Position(entries: seq<DirEntry>, name: string): (r: Option<nat>)
    ensures r.Some? ==> r.value < |entries| && entries[r.value].name == name
    ensures r.Some? ==> forall j :: 0 <= j < r.value ==> entries[j].name != name
    ensures r.None? ==> forall j :: 0 <= j < |entries| ==> entries[j].name != name
  {
    if entries == [] then None
    else if entries[0].name == name then Some(0)
    else match Position(entries[1..], name)
      case None => None
      case Some(k) => Some(k + 1)
  }

  /** `Lookup` answers with the entry `Position` finds, and nothing when no entry has the name. */
  lemma {:induction false} LookupFirst(entries: seq<DirEntry>, name: string)
    ensures Lookup(entries, name).None? <==> Position(entries, name).None?
    ensures Position(entries, name).Some? ==>
      Lookup(entries, name) == Some(entries[Position(entries, name).value].inode)
  {
    if entries != [] && entries[0].name != name {
      LookupFirst(entries[1..], name);
    }
  }

  /** The number of entries naming inode `id`. */
  function Count(entries: seq<DirEntry>, id: InodeId): nat
  {
    if entries == [] then 0
    else (if entries[0].inode == id then 1 else 0) + Count(entries[1..], id)
  }

  lemma {:induction false} CountAppend(entries: seq<DirEntry>, e: DirEntry, id: InodeId)
    ensures Count(entries + [e], id) == Count(entries, id) + (if e.inode == id then 1 else 0)
  {
    if entries != [] {
      assert (entries + [e])[1..] == entries[1..] + [e];
      CountAppend(entries[1..], e, id);
    }
  }

  lemma {:induction false} CountRemove(entries: seq<DirEntry>, k: nat, id: InodeId)
    requires k < |entries|
    ensures Count(entries[..k] + entries[k + 1..], id) + (if entries[k].inode == id then 1 else 0) == Count(entries, id)
  {
    if k > 0 {
      assert (entries[..k] + entries[k + 1..])[1..] == entries[1..][..k - 1] + entries[1..][k..];
      CountRemove(entries[1..], k - 1, id);
    } else {
      assert entries[..k] + entries[k + 1..] == entries[1..];
    }
  }

  /** An inode no entry names has count zero. */
  lemma {:induction false} CountAbsent(entries: seq<DirEntry>, id: InodeId)
    requires forall k :: 0 <= k < |entries| ==> entries[k].inode != id
    ensures Count(entries, id) == 0
  {
    if entries != [] {
      CountAbsent(entries[1..], id);
    }
  }

  /** Every entry names an inode counted by `Count`, so an entry's inode has a positive count. */
  lemma {:induction false} CountPositive(entries: seq<DirEntry>, k: nat)
    requires k < |entries|
    ensures Count(entries, entries[k].inode) > 0
  {
    if k > 0 {
      CountPositive(entries[1..], k - 1);
    }
  }

  /** The names of the entries, in directory order (what `ls` returns). */
  function Names(entries: seq<DirEntry>): (r: seq<string>)
    ensures |r| == |entries| && forall i :: 0 <= i < |entries| ==> r[i] == entries[i].name
  {
    seq(|entries|, i requires 0 <= i < |entries| => entries[i].name)
  }

  /** `increase_size`: a request below the current size changes nothing. */
  function Grown(size: nat, newSize: nat): (r: nat)
    ensures r >= size && r >= newSize && (r == size || r == newSize)
    ensures newSize < size ==> r == size
  {
    if newSize < size then size else newSize
  }

  class FileSystem {
    /** The root directory's entries, in on-disk order. */
    var entries: seq<DirEntry>
    /** Link count of every allocated inode. */
    var links: map<InodeId, nat>
    /** Byte size of every allocated inode. */
    var sizes: map<InodeId, nat>
    /** Inode ids the inode bitmap has free. */
    var free: set<InodeId>
    const root: InodeId

    ghost predicate Valid()
      reads this
    {
      && root in sizes && root in links
      && links.Keys == sizes.Keys
      && (forall i :: i in links ==> i !in free)
      && sizes[root] == |entries| * DIRENT_SZ
      && (forall k :: 0 <= k < |entries| ==> entries[k].inode in links && entries[k].inode != root)
      && (forall i :: i in links && i != root ==> links[i] == Count(entries, i))
    }

    constructor (root: InodeId, free: set<InodeId>)
      requires root !in free
      ensures Valid() && this.root == root && entries == [] && this.free == free
      ensures links == map[root := 1] && sizes == map[root := 0]
    {
      this.root := root;
      entries := [];
      links := map[root := 1];
      sizes := map[root := 0];
      this.free := free;
    }

    /** `find_inode_id`: the directory scan, stopping at the first entry with the name. */
    method FindInodeId(name: string) returns (r: Option<InodeId>)
      requires Valid()
      ensures r == Lookup(entries, name)
    {
      var fileCount := sizes[root] / DIRENT_SZ;
      assert fileCount == |entries|;
      for i := 0 to fileCount
        invariant Lookup(entries, name) == Lookup(entries[i..], name)
      {
        assert entries[i..][1..] == entries[i + 1..];
        if entries[i].name == name {
          return Some(entries[i].inode);
        }
      }
      assert entries[fileCount..] == [];
      return None;
    }

    /** `find`: the inode an entry of that name refers to. */
    method Find(name: string) returns (r: Option<InodeId>)
      requires Valid()
      ensures r == Lookup(entries, name)
      ensures r.Some? ==> r.value in links
    {
      r := FindInodeId(name);
      LookupFirst(entries, name);
    }

    /** `add_entry`: grow the directory by one slot and write the entry there. */
    method AddEntry(e: DirEntry)
      modifies this
      requires root in sizes && sizes[root] == |entries| * DIRENT_SZ
      ensures entries == old(entries) + [e] && sizes == old(sizes)[root := |entries| * DIRENT_SZ]
      ensures links == old(links) && free == old(free)
    {
      var fileCount := sizes[root] / DIRENT_SZ;
      var newSize := (fileCount + 1) * DIRENT_SZ;
      IncreaseSize(root, newSize);
      assert fileCount * DIRENT_SZ == |entries| * DIRENT_SZ;
      entries := entries + [e];
    }

    /**
     * `create`: None when the name exists; otherwise a fresh inode (one
     * link, empty) gets a new entry at the end of the directory.
     */
    method Create(name: string) returns (r: Option<InodeId>)
      requires Valid() && free != {}
      modifies this
      ensures Valid()
      ensures Lookup(old(entries), name).Some? ==> r.None? && unchanged(this)
      ensures Lookup(old(entries), name).None? ==>
        && r.Some? && r.value in old(free) && free == old(free) - {r.value}
        && entries == old(entries) + [DirEntry(name, r.value)]
        && links == old(links)[r.value := 1]
        && sizes == old(sizes)[r.value := 0][root := |entries| * DIRENT_SZ]
    {
      var existing := FindInodeId(name);
      if existing.Some? {
        return None;
      }
      var id :| id in free;
      free := free - {id};
      links := links[id := 1];
      sizes := sizes[id := 0];
      ghost var before := entries;
      CountAbsent(before, id);
      AddEntry(DirEntry(name, id));
      NewEntryCounts(before, DirEntry(name, id));
      r := Some(id);
    }

    /** A new entry adds one to its own inode's count and leaves the others. */
    lemma NewEntryCounts(before: seq<DirEntry>, e: DirEntry)
      ensures forall i :: Count(before + [e], i) == Count(before, i) + (if e.inode == i then 1 else 0)
    {
      forall i
        ensures Count(before + [e], i) == Count(before, i) + (if e.inode == i then 1 else 0)
      {
        CountAppend(before, e, i);
      }
    }

    /**
     * `link`: None when the name exists; otherwise a new entry for
     * `inodeId` and one more link on that inode.
     */
    method Link(name: string, inodeId: InodeId) returns (r: Option<InodeId>)
      requires Valid() && inodeId in links && inodeId != root
      modifies this
      ensures Valid()
      ensures Lookup(old(entries), name).Some? ==> r.None? && unchanged(this)
      ensures Lookup(old(entries), name).None? ==>
        && r == Some(inodeId)
        && entries == old(entries) + [DirEntry(name, inodeId)]
        && links == old(links)[inodeId := old(links)[inodeId] + 1]
        && sizes == old(sizes)[root := |entries| * DIRENT_SZ] && free == old(free)
    {
      var existing := FindInodeId(name);
      if existing.Some? {
        return None;
      }
      ghost var before := entries;
      AddEntry(DirEntry(name, inodeId));
      NewEntryCounts(before, DirEntry(name, inodeId));
      assert forall i :: Count(entries, i) == Count(before, i) + (if inodeId == i then 1 else 0);
      links := links[inodeId := links[inodeId] + 1];
      r := Some(inodeId);
    }

    /**
     * `remove_entry_by_name`: drop the first entry with the name, keep the
     * rest in order, and shrink the directory to fit; None when absent.
     */
    method RemoveEntryByName(name: string) returns (r: Option<InodeId>)
      requires root in sizes && sizes[root] == |entries| * DIRENT_SZ
      modifies this
      ensures Position(old(entries), name).None? ==> r.None? && unchanged(this)
      ensures Position(old(entries), name).Some? ==>
        var k := Position(old(entries), name).value;
        && r == Some(old(entries)[k].inode)
        && entries == old(entries)[..k] + old(entries)[k + 1..]
        && sizes == old(sizes)[root := |entries| * DIRENT_SZ]
      ensures links == old(links) && free == old(free)
    {
      var idx := Position(entries, name);
      if idx.None? {
        return None;
      }
      var k := idx.value;
      var ent := entries[k];
      entries := entries[..k] + entries[k + 1..];
      sizes := sizes[root := |entries| * DIRENT_SZ];
      r := Some(ent.inode);
    }

    /**
     * `unlink`: remove the entry and drop one link, returning the inode and
     * its previous link count; an inode whose last link goes is emptied and
     * returned to the bitmap.
     */
    method Unlink(name: string) returns (r: Option<(InodeId, nat)>)
      requires Valid()
      modifies this
      ensures Valid()
      ensures Position(old(entries), name).None? ==> r.None? && unchanged(this)
      ensures Position(old(entries), name).Some? ==>
        var k := Position(old(entries), name).value;
        var id := old(entries)[k].inode;
        && r == Some((id, old(links)[id]))
        && old(links)[id] >= 1
        && entries == old(entries)[..k] + old(entries)[k + 1..]
        && (old(links)[id] == 1 ==>
              && free == old(free) + {id}
              && links == old(links) - {id}
              && sizes == old(sizes)[root := |entries| * DIRENT_SZ] - {id})
        && (old(links)[id] > 1 ==>
              && free == old(free)
              && links == old(links)[id := old(links)[id] - 1]
              && sizes == old(sizes)[root := |entries| * DIRENT_SZ])
    {
      ghost var before := entries;
      var removed := RemoveEntryByName(name);
      if removed.None? {
        return None;
      }
      var id := removed.value;
      ghost var k := Position(before, name).value;
      RemoveRecounts(before, k, links, root);
      var links0 := DropLink(id);
      r := Some((id, links0));
    }

    /**
     * `dec_links` on an inode whose entry is already gone; at its last link
     * the inode is freed and emptied (`dealloc_inode`, `clear_internal`).
     */
    method DropLink(id: InodeId) returns (links0: nat)
      requires root in sizes && root in links && links.Keys == sizes.Keys
      requires (forall i :: i in links ==> i !in free) && sizes[root] == |entries| * DIRENT_SZ
      requires forall k :: 0 <= k < |entries| ==> entries[k].inode in links && entries[k].inode != root
      requires id in links && id != root && links[id] >= 1 && Count(entries, id) == links[id] - 1
      requires forall i :: i in links && i != root && i != id ==> links[i] == Count(entries, i)
      requires links[id] == 1 ==> forall k :: 0 <= k < |entries| ==> entries[k].inode != id
      modifies this
      ensures Valid() && links0 == old(links)[id] && entries == old(entries)
      ensures links0 == 1 ==> free == old(free) + {id} && links == old(links) - {id} && sizes == old(sizes) - {id}
      ensures links0 > 1 ==> free == old(free) && links == old(links)[id := links0 - 1] && sizes == old(sizes)
    {
      links0 := links[id];
      if links0 == 1 {
        free := free + {id};
        links := links - {id};
        sizes := sizes - {id};
      } else {
        links := links[id := links0 - 1];
      }
    }

    /** Removing entry `k` takes one from its inode's count and leaves the others. */
    static lemma RemoveRecounts(before: seq<DirEntry>, k: nat, links: map<InodeId, nat>, root: InodeId)
      requires k < |before| && before[k].inode in links && before[k].inode != root
      requires forall i :: i in links && i != root ==> links[i] == Count(before, i)
      ensures var id := before[k].inode;
        var after := before[..k] + before[k + 1..];
        && links[id] >= 1 && Count(after, id) == links[id] - 1
        && (forall i :: i in links && i != root && i != id ==> links[i] == Count(after, i))
        && (forall j :: 0 <= j < |after| ==> after[j] in before)
        && (links[id] == 1 ==> forall j :: 0 <= j < |after| ==> after[j].inode != id)
    {
      var after := before[..k] + before[k + 1..];
      CountPositive(before, k);
      forall i
        ensures Count(after, i) + (if before[k].inode == i then 1 else 0) == Count(before, i)
      {
        CountRemove(before, k, i);
      }
      forall j | 0 <= j < |after|
        ensures after[j] in before
      {
        if j < k {
          assert after[j] == before[j];
        } else {
          assert after[j] == before[j + 1];
        }
      }
      forall j | 0 <= j < |after|
        ensures Count(after, after[j].inode) > 0
      {
        CountPositive(after, j);
      }
    }

    /** `ls`: the scan that collects every entry's name. */
    method Ls() returns (names: seq<string>)
      requires Valid()
      ensures names == Names(entries) && |names| == sizes[root] / DIRENT_SZ
    {
      var fileCount := sizes[root] / DIRENT_SZ;
      assert fileCount == |entries|;
      names := [];
      for i := 0 to fileCount
        invariant names == Names(entries[..i])
      {
        assert entries[..i + 1] == entries[..i] + [entries[i]];
        names := names + [entries[i].name];
      }
      assert entries[..fileCount] == entries;
    }

    /** `increase_size` of inode `id`. */
    method IncreaseSize(id: InodeId, newSize: nat)
      requires id in sizes
      modifies this
      ensures sizes == old(sizes)[id := Grown(old(sizes)[id], newSize)]
      ensures entries == old(entries) && links == old(links) && free == old(free)
    {
      if newSize < sizes[id] {
        return;
      }
      sizes := sizes[id := newSize];
    }

    /**
     * `write_at(offset, buf)` on inode `id` grows it to at least the end of
     * the written range; that end is truncated to 32 bits first.
     */
    method WriteAt(id: InodeId, offset: nat, len: nat)
      requires id in sizes && id != root
      requires Valid()
      modifies this
      ensures Valid()
      ensures sizes == old(sizes)[id := Grown(old(sizes)[id], (offset + len) % U32)]
      ensures offset + len < U32 ==> sizes[id] >= offset + len
      ensures entries == old(entries) && links == old(links) && free == old(free)
    {
      IncreaseSize(id, (offset + len) % U32);
    }
  }
}
