/**
 * The bridge between file pages and page-table entries (os/src/mm/mfile.rs).
 * There is at most one `MFile` per file position (inode id, page offset),
 * holding the frame the page is loaded into, if any. A forward map sends
 * each tracked PTE to its position and a reverse map sends each position to
 * the PTEs mapping it.
 *
 * The inodes are reduced to the page of bytes each position holds (`disk`);
 * easy-fs's `read_at`/`write_at` on a whole page are reads and writes of
 * that map.
 */
module MFile {
  import opened Wrappers
  import opened Hw

  /** A page of a file: an inode id and a byte offset. */
  datatype FilePos = FilePos(inode: nat, offset: nat)

  datatype Ordering = Less | Equal | Greater

  function CompareNat(a: nat, b: nat): Ordering
  {
    if a < b then Less else if a == b then Equal else Greater
  }

  /** `FilePos::cmp`: by inode id, then by offset; equality is `cmp == Equal`. */
  function Cmp(a: FilePos, b: FilePos): (r: Ordering)
    ensures r == Equal <==> a == b
    ensures r == Less <==> a.inode < b.inode || (a.inode == b.inode && a.offset < b.offset)
  {
    var r1 := CompareNat(a.inode, b.inode);
    if r1 == Equal then CompareNat(a.offset, b.offset) else r1
  }

  function Flip(o: Ordering): Ordering
  {
    match o
    case Less => Greater
    case Equal => Equal
    case Greater => Less
  }

  /** Swapping the operands flips the answer, so the order is antisymmetric. */
  lemma CmpFlip(a: FilePos, b: FilePos)
    ensures Cmp(b, a) == Flip(Cmp(a, b))
  {
  }

  lemma CmpTransitive(a: FilePos, b: FilePos, c: FilePos)
    requires Cmp(a, b) == Less && Cmp(b, c) == Less
    ensures Cmp(a, c) == Less
  {
  }

  /** What reading the page at `pos` yields: a page never written reads as zeros. */
  function FileData(disk: map<FilePos, Bytes>, pos: FilePos): Bytes
  {
    if pos in disk then disk[pos] else ZeroPage()
  }

  /** What `sync` leaves on the disk: the page written back at its offset. */
  function Synced(disk: map<FilePos, Bytes>, pos: FilePos, page: Bytes): (d: map<FilePos, Bytes>)
    ensures FileData(d, pos) == page
    ensures forall q :: q != pos ==> FileData(d, q) == FileData(disk, q)
  {
    disk[pos := page]
  }

  /** What `MFile::load` leaves in a newly allocated frame, as written: the frame is never filled from the file. */
  function LoadedPageAsWritten(disk: map<FilePos, Bytes>, pos: FilePos): Bytes
  {
    ZeroPage()
  }

  /** What `MFile::load` evidently means to leave there: the file's page. */
  function LoadedPage(disk: map<FilePos, Bytes>, pos: FilePos): Bytes
  {
    FileData(disk, pos)
  }

  /** The frame as written holds the file's page exactly when that page reads as zeros. */
  lemma LoadedAsWrittenAgrees(disk: map<FilePos, Bytes>, pos: FilePos)
    ensures LoadedPageAsWritten(disk, pos) == LoadedPage(disk, pos) <==> FileData(disk, pos) == ZeroPage()
  {
  }

  /** As written, loading a page that holds data and syncing it back erases the data. */
  lemma LoadSyncAsWrittenLosesData()
    ensures var disk := map[FilePos(1, 0) := [1]];
      FileData(Synced(disk, FilePos(1, 0), LoadedPageAsWritten(disk, FilePos(1, 0))), FilePos(1, 0)) != FileData(disk, FilePos(1, 0))
  {
    var z := ZeroPage();
    assert |z| == PAGE_SIZE;
  }

  /** Loading a page and syncing it back leaves every page of every file as it was. */
  lemma LoadSyncRoundTrip(disk: map<FilePos, Bytes>, pos: FilePos, q: FilePos)
    ensures FileData(Synced(disk, pos, LoadedPage(disk, pos)), q) == FileData(disk, q)
  {
  }

  /** The manager's `spin::Mutex` (the `MFILE_MANAGER` static), which is not reentrant. */
  datatype Guard = Unlocked | Locked

  /** A step on that mutex: `lock()` takes the guard, dropping the guard releases it. */
  datatype LockStep = Take | Release

  /**
   * Running lock steps from state `g`: `None` once a `lock()` meets the mutex
   * already locked, where it spins for ever; otherwise the final state.
   */
  function RunLocks(g: Guard, steps: seq<LockStep>): Option<Guard>
    decreases steps
  {
    if steps == [] then Some(g)
    else match steps[0]
      case Take => if g == Locked then None else RunLocks(Locked, steps[1..])
      case Release => RunLocks(Unlocked, steps[1..])
  }

  /**
   * The lock steps of `share_fully` as written: the guard `lock` is still
   * alive when `MFILE_MANAGER.lock().map(..)` locks again; the temporary
   * guard goes at the end of that statement, `lock` at the return.
   */
  const ShareFullyStepsAsWritten: seq<LockStep> := [Take, Take, Release, Release]

  /** The steps of `share_fully` with `lock` dropped before `map`. */
  const ShareFullyStepsIntended: seq<LockStep> := [Take, Release, Take, Release]

  /** A `lock()` taken while the guard of the one before it is alive spins, whatever comes before or after. */
  lemma {:induction false} NestedTakeSpins(g: Guard, pre: seq<LockStep>, post: seq<LockStep>)
    ensures RunLocks(g, pre + [Take, Take] + post) == None
    decreases pre
  {
    var steps := pre + [Take, Take] + post;
    if pre == [] {
      assert steps[0] == Take && steps[1..][0] == Take;
    } else {
      assert steps[0] == pre[0] && steps[1..] == pre[1..] + [Take, Take] + post;
      var g' := if pre[0] == Take then Locked else Unlocked;
      NestedTakeSpins(g', pre[1..], post);
    }
  }

  /** As written, `share_fully` never returns: its second `lock()` spins on the manager it already holds. */
  lemma ShareFullySpins(g: Guard)
    ensures RunLocks(g, ShareFullyStepsAsWritten) == None
  {
    NestedTakeSpins(g, [], [Release, Release]);
    assert [] + [Take, Take] + [Release, Release] == ShareFullyStepsAsWritten;
  }

  /** With the first guard dropped before `map`, `share_fully` returns and leaves the manager unlocked. */
  lemma ShareFullyIntendedReturns()
    ensures RunLocks(Unlocked, ShareFullyStepsIntended) == Some(Unlocked)
  {
  }

  /** The frames holding loaded files. */
  function LoadedFrames(files: map<FilePos, Option<Ppn>>): set<Ppn>
  {
    set pos | pos in files && files[pos].Some? :: files[pos].value
  }

  /** The files no PTE maps: `Arc::strong_count == 1`, only the file set holds them. */
  function Unused(files: map<FilePos, Option<Ppn>>, mapping: map<Pte, FilePos>): set<FilePos>
  {
    set pos | pos in files && pos !in mapping.Values
  }

  /**
   * The tables agree: every tracked PTE maps a known file and is listed
   * under its position in the reverse map, and the reverse map lists
   * nothing else.
   */
  ghost predicate Linked(files: map<FilePos, Option<Ppn>>, mapping: map<Pte, FilePos>, rmap: map<FilePos, set<Pte>>)
  {
    && (forall p :: p in mapping ==> mapping[p] in files && mapping[p] in rmap && p in rmap[mapping[p]])
    && (forall pos, p :: Listed(mapping, rmap, pos, p))
  }

  /**
   * The machine agrees with the tables: tracked PTEs exist, a loaded file's
   * frame is allocated and is no other file's, and a present tracked PTE
   * points at the frame its file is loaded into.
   */
  ghost predicate Held(files: map<FilePos, Option<Ppn>>, mapping: map<Pte, FilePos>, ptes: map<Pte, Entry>, free: set<Ppn>, mem: map<Ppn, Bytes>)
  {
    && (forall p :: p in mapping ==> p in ptes)
    && (forall pos :: pos in files && files[pos].Some? ==> files[pos].value !in free && files[pos].value in mem)
    && (forall a, b :: SoleLoaded(files, a, b))
    && (forall p :: p in mapping && ptes[p].flags & FLAG_V != 0 ==>
          mapping[p] in files && files[mapping[p]].Some? && ptes[p].ppn == files[mapping[p]].value)
  }

  /** The reverse map lists `p` under `pos` only if `p` maps `pos`. */
  ghost predicate Listed(mapping: map<Pte, FilePos>, rmap: map<FilePos, set<Pte>>, pos: FilePos, p: Pte)
  {
    pos in rmap && p in rmap[pos] ==> p in mapping && mapping[p] == pos
  }

  /** A frame holds one file only: a file loaded into the same frame as `a` is `a`. */
  ghost predicate SoleLoaded(files: map<FilePos, Option<Ppn>>, a: FilePos, b: FilePos)
  {
    a in files && b in files && files[a].Some? && files[b].Some? && files[a].value == files[b].value ==> a == b
  }

  ghost predicate Consistent(files: map<FilePos, Option<Ppn>>, mapping: map<Pte, FilePos>, rmap: map<FilePos, set<Pte>>,
                             ptes: map<Pte, Entry>, free: set<Ppn>, mem: map<Ppn, Bytes>)
  {
    Linked(files, mapping, rmap) && Held(files, mapping, ptes, free, mem)
  }

  /** A loaded file's frame is allocated and has contents. */
  lemma LoadedInMem(files: map<FilePos, Option<Ppn>>, mapping: map<Pte, FilePos>, rmap: map<FilePos, set<Pte>>,
                    ptes: map<Pte, Entry>, free: set<Ppn>, mem: map<Ppn, Bytes>, f: Ppn)
    requires Consistent(files, mapping, rmap, ptes, free, mem) && f in LoadedFrames(files)
    ensures f !in free && f in mem
  {
  }

  /** Changes to the machine elsewhere (other PTEs, other frames) keep the bridge consistent. */
  lemma Stable(files: map<FilePos, Option<Ppn>>, mapping: map<Pte, FilePos>, rmap: map<FilePos, set<Pte>>,
               ptes: map<Pte, Entry>, free: set<Ppn>, mem: map<Ppn, Bytes>,
               ptes': map<Pte, Entry>, free': set<Ppn>, mem': map<Ppn, Bytes>)
    requires Consistent(files, mapping, rmap, ptes, free, mem)
    requires forall p :: p in mapping ==> p in ptes' && ptes'[p] == ptes[p]
    requires forall f :: f in LoadedFrames(files) ==> f !in free' && f in mem'
    ensures Consistent(files, mapping, rmap, ptes', free', mem')
  {
    forall pos | pos in files && files[pos].Some?
      ensures files[pos].value !in free' && files[pos].value in mem'
    {
      assert files[pos].value in LoadedFrames(files);
    }
  }

  /** A free frame is no file's frame. */
  lemma FreeNotLoaded(files: map<FilePos, Option<Ppn>>, mapping: map<Pte, FilePos>, rmap: map<FilePos, set<Pte>>,
                      ptes: map<Pte, Entry>, free: set<Ppn>, mem: map<Ppn, Bytes>, f: Ppn)
    requires Consistent(files, mapping, rmap, ptes, free, mem) && f in free
    ensures f !in LoadedFrames(files)
  {
  }

  /** Rewriting a PTE the bridge does not track keeps it consistent. */
  lemma Untouched(files: map<FilePos, Option<Ppn>>, mapping: map<Pte, FilePos>, rmap: map<FilePos, set<Pte>>,
                  ptes: map<Pte, Entry>, free: set<Ppn>, mem: map<Ppn, Bytes>, p: Pte, e: Entry)
    requires Consistent(files, mapping, rmap, ptes, free, mem) && p !in mapping
    ensures Consistent(files, mapping, rmap, ptes[p := e], free, mem)
  {
    Stable(files, mapping, rmap, ptes, free, mem, ptes[p := e], free, mem);
  }

  lemma MapKeeps(files: map<FilePos, Option<Ppn>>, mapping: map<Pte, FilePos>, rmap: map<FilePos, set<Pte>>,
                 ptes: map<Pte, Entry>, free: set<Ppn>, mem: map<Ppn, Bytes>, p: Pte, pos: FilePos)
    requires Consistent(files, mapping, rmap, ptes, free, mem)
    requires p !in mapping && p in ptes && ptes[p].flags & FLAG_V == 0
    ensures var files' := if pos in files then files else files[pos := None];
      var rmap' := rmap[pos := (if pos in rmap then rmap[pos] else {}) + {p}];
      Consistent(files', mapping[p := pos], rmap', ptes, free, mem)
  {
    ghost var files' := if pos in files then files else files[pos := None];
    forall a, b ensures SoleLoaded(files', a, b) {
      assert SoleLoaded(files, a, b);
    }
    var rmap' := rmap[pos := (if pos in rmap then rmap[pos] else {}) + {p}];
    ghost var mapping' := mapping[p := pos];
    forall x, q ensures Listed(mapping', rmap', x, q) {
      assert Listed(mapping, rmap, x, q);
    }
  }

  lemma UnmapKeeps(files: map<FilePos, Option<Ppn>>, mapping: map<Pte, FilePos>, rmap: map<FilePos, set<Pte>>,
                   ptes: map<Pte, Entry>, free: set<Ppn>, mem: map<Ppn, Bytes>, p: Pte, ptes': map<Pte, Entry>)
    requires Consistent(files, mapping, rmap, ptes, free, mem) && p in mapping
    requires forall q :: q in mapping && q != p ==> q in ptes' && ptes'[q] == ptes[q]
    ensures Consistent(files, mapping - {p}, rmap[mapping[p] := rmap[mapping[p]] - {p}], ptes', free, mem)
  {
    ghost var mapping' := mapping - {p};
    ghost var rmap' := rmap[mapping[p] := rmap[mapping[p]] - {p}];
    forall x, q ensures Listed(mapping', rmap', x, q) {
      assert Listed(mapping, rmap, x, q);
    }
  }

  lemma FileLoadKeeps(files: map<FilePos, Option<Ppn>>, mapping: map<Pte, FilePos>, rmap: map<FilePos, set<Pte>>,
                      ptes: map<Pte, Entry>, free: set<Ppn>, mem: map<Ppn, Bytes>, pos: FilePos, f: Ppn, data: Bytes)
    requires Consistent(files, mapping, rmap, ptes, free, mem)
    requires pos in files && files[pos].None? && f in free
    ensures Consistent(files[pos := Some(f)], mapping, rmap, ptes, free - {f}, mem[f := data])
  {
    ghost var files' := files[pos := Some(f)];
    forall a, b ensures SoleLoaded(files', a, b) {
      assert SoleLoaded(files, a, b);
    }
  }

  lemma PointKeeps(files: map<FilePos, Option<Ppn>>, mapping: map<Pte, FilePos>, rmap: map<FilePos, set<Pte>>,
                   ptes: map<Pte, Entry>, free: set<Ppn>, mem: map<Ppn, Bytes>, p: Pte, flags: bv8)
    requires Consistent(files, mapping, rmap, ptes, free, mem)
    requires p in mapping && mapping[p] in files && files[mapping[p]].Some?
    ensures Consistent(files, mapping, rmap, ptes[p := Entry(files[mapping[p]].value, flags)], free, mem)
  {
  }

  lemma SyncKeeps(files: map<FilePos, Option<Ppn>>, mapping: map<Pte, FilePos>, rmap: map<FilePos, set<Pte>>,
                  ptes: map<Pte, Entry>, free: set<Ppn>, mem: map<Ppn, Bytes>, pos: FilePos)
    requires Consistent(files, mapping, rmap, ptes, free, mem)
    requires pos in Unused(files, mapping) && files[pos].Some?
    ensures Consistent(files[pos := None], mapping, rmap, ptes, free + {files[pos].value}, mem)
  {
    ghost var files' := files[pos := None];
    forall a, b ensures SoleLoaded(files', a, b) {
      assert SoleLoaded(files, a, b);
    }
    forall a | a in files && a != pos && files[a].Some? ensures files[a].value != files[pos].value {
      assert SoleLoaded(files, a, pos);
    }
    forall p | p in mapping ensures mapping[p] != pos {
      assert mapping[p] in mapping.Values;
    }
  }

  lemma DropKeeps(files: map<FilePos, Option<Ppn>>, mapping: map<Pte, FilePos>, rmap: map<FilePos, set<Pte>>,
                  ptes: map<Pte, Entry>, free: set<Ppn>, mem: map<Ppn, Bytes>, pos: FilePos)
    requires Consistent(files, mapping, rmap, ptes, free, mem)
    requires pos in Unused(files, mapping)
    ensures Consistent(files - {pos}, mapping, rmap, ptes, free, mem)
  {
    ghost var files' := files - {pos};
    forall a, b ensures SoleLoaded(files', a, b) {
      assert SoleLoaded(files, a, b);
    }
    forall p | p in mapping ensures mapping[p] != pos {
      assert mapping[p] in mapping.Values;
    }
  }

  /** The pages `slim` writes back: every unused loaded file's frame, at its position. */
  function WrittenBack(disk: map<FilePos, Bytes>, files: map<FilePos, Option<Ppn>>, done: set<FilePos>, mem: map<Ppn, Bytes>): map<FilePos, Bytes>
    requires forall pos :: pos in done && pos in files && files[pos].Some? ==> files[pos].value in mem
  {
    map pos | pos in disk.Keys + (set q | q in done && q in files && files[q].Some?) ::
      if pos in done && pos in files && files[pos].Some? then mem[files[pos].value] else disk[pos]
  }

  /** The files left once those in `done` are dropped. */
  function Kept(files: map<FilePos, Option<Ppn>>, done: set<FilePos>): map<FilePos, Option<Ppn>>
  {
    map pos | pos in files && pos !in done :: files[pos]
  }

  /** Going from `done` to `done + {pos}` drops `pos`, writes back its page and releases its frame. */
  lemma SlimStep(files: map<FilePos, Option<Ppn>>, mapping: map<Pte, FilePos>, disk: map<FilePos, Bytes>, mem: map<Ppn, Bytes>,
                 done: set<FilePos>, pos: FilePos)
    requires pos in Unused(files, mapping) && pos !in done
    requires forall q :: q in files && files[q].Some? ==> files[q].value in mem
    ensures Kept(files, done + {pos}) == Kept(files, done) - {pos}
    ensures Kept(files, done)[pos] == files[pos]
    ensures files[pos].None? ==>
      && WrittenBack(disk, files, done + {pos}, mem) == WrittenBack(disk, files, done, mem)
      && Released(files, done + {pos}) == Released(files, done)
    ensures files[pos].Some? ==>
      && WrittenBack(disk, files, done + {pos}, mem) == Synced(WrittenBack(disk, files, done, mem), pos, mem[files[pos].value])
      && Released(files, done + {pos}) == Released(files, done) + {files[pos].value}
  {
    KeptStep(files, done, pos);
    WrittenBackStep(files, disk, mem, done, pos);
    ReleasedStep(files, done, pos);
  }

  lemma KeptStep(files: map<FilePos, Option<Ppn>>, done: set<FilePos>, pos: FilePos)
    requires pos in files && pos !in done
    ensures Kept(files, done + {pos}) == Kept(files, done) - {pos}
    ensures pos in Kept(files, done) && Kept(files, done)[pos] == files[pos]
  {
  }

  lemma WrittenBackStep(files: map<FilePos, Option<Ppn>>, disk: map<FilePos, Bytes>, mem: map<Ppn, Bytes>, done: set<FilePos>, pos: FilePos)
    requires pos in files && pos !in done
    requires forall q :: q in files && files[q].Some? ==> files[q].value in mem
    ensures files[pos].None? ==> WrittenBack(disk, files, done + {pos}, mem) == WrittenBack(disk, files, done, mem)
    ensures files[pos].Some? ==>
      WrittenBack(disk, files, done + {pos}, mem) == Synced(WrittenBack(disk, files, done, mem), pos, mem[files[pos].value])
  {
  }

  lemma ReleasedStep(files: map<FilePos, Option<Ppn>>, done: set<FilePos>, pos: FilePos)
    requires pos in files && pos !in done
    ensures files[pos].None? ==> Released(files, done + {pos}) == Released(files, done)
    ensures files[pos].Some? ==> Released(files, done + {pos}) == Released(files, done) + {files[pos].value}
  {
  }

  /** The frames `slim` releases. */
  function Released(files: map<FilePos, Option<Ppn>>, done: set<FilePos>): set<Ppn>
  {
    set pos | pos in done && pos in files && files[pos].Some? :: files[pos].value
  }

  class MFileManager {
    var files: map<FilePos, Option<Ppn>>
    var mapping: map<Pte, FilePos>
    var rmap: map<FilePos, set<Pte>>
    /** The file pages as the inodes hold them. */
    var disk: map<FilePos, Bytes>
    const hw: Machine

    ghost predicate Valid()
      reads this, hw
    {
      Consistent(files, mapping, rmap, hw.ptes, hw.free, hw.mem)
    }

    constructor (hw: Machine, disk: map<FilePos, Bytes>)
      ensures Valid() && this.hw == hw && this.disk == disk
      ensures files == map[] && mapping == map[] && rmap == map[]
    {
      this.hw := hw;
      this.disk := disk;
      files := map[];
      mapping := map[];
      rmap := map[];
    }

    /**
     * `MFile::loaded` for the file `p` maps (`MFileHandle::is_loaded`): a
     * loaded file's frame is allocated, and the PTE of a file not loaded is
     * not present.
     */
    function IsLoaded(p: Pte): (loaded: bool)
      requires p in mapping && mapping[p] in files
      reads this, hw
      ensures Valid() && loaded ==> files[mapping[p]].Some? && files[mapping[p]].value !in hw.free && files[mapping[p]].value in hw.mem
      ensures Valid() && !loaded ==> p in hw.ptes && !hw.Present(p)
    {
      files[mapping[p]].Some?
    }

    /**
     * `map`: track `p` as mapping `(inode, offset)`. The first mapping of a
     * position creates its (unloaded) file; later ones attach to the file
     * already there, so there is one file per position.
     */
    method Map(p: Pte, inode: nat, offset: nat)
      requires Valid() && p !in mapping && p in hw.ptes && !hw.Present(p)
      modifies this
      ensures Valid() && disk == old(disk)
      ensures var pos := FilePos(inode, offset);
        && mapping == old(mapping)[p := pos]
        && files == (if pos in old(files) then old(files) else old(files)[pos := None])
        && rmap == old(rmap)[pos := (if pos in old(rmap) then old(rmap)[pos] else {}) + {p}]
    {
      var pos := FilePos(inode, offset);
      MapKeeps(files, mapping, rmap, hw.ptes, hw.free, hw.mem, p, pos);
      if pos !in files {
        files := files[pos := None];
      }
      mapping := mapping[p := pos];
      var sharers := if pos in rmap then rmap[pos] else {};
      rmap := rmap[pos := sharers + {p}];
    }

    /** `MFileHandle::map`: the offset must be page-aligned. */
    method HandleMap(p: Pte, inode: nat, offset: nat)
      requires PageAligned(offset)
      requires Valid() && p !in mapping && p in hw.ptes && !hw.Present(p)
      modifies this
      ensures Valid() && disk == old(disk)
      ensures var pos := FilePos(inode, offset);
        && mapping == old(mapping)[p := pos]
        && files == (if pos in old(files) then old(files) else old(files)[pos := None])
        && rmap == old(rmap)[pos := (if pos in old(rmap) then old(rmap)[pos] else {}) + {p}]
    {
      Map(p, inode, offset);
    }

    /**
     * `share_fully` as intended: track `other` as mapping the same position
     * as `p`. The first guard is taken to be released before `map` locks the
     * manager again (see `ShareFullySpins` for the nested lock as written).
     */
    method ShareFully(p: Pte, other: Pte)
      requires Valid() && p in mapping && other !in mapping && other in hw.ptes && !hw.Present(other)
      modifies this
      ensures Valid() && disk == old(disk) && files == old(files)
      ensures mapping == old(mapping)[other := old(mapping)[p]]
      ensures rmap == old(rmap)[old(mapping)[p] := old(rmap)[old(mapping)[p]] + {other}]
    {
      var pos := GetFilePos(p);
      Map(other, pos.inode, pos.offset);
    }

    /**
     * `unmap`: an untracked PTE is left alone. A tracked one leaves both
     * maps, and is invalidated only when its file is loaded; the file stays
     * until `slim`.
     */
    method Unmap(p: Pte)
      requires Valid()
      modifies this, hw
      ensures Valid() && files == old(files) && disk == old(disk) && mapping == old(mapping) - {p}
      ensures hw.free == old(hw.free) && hw.mem == old(hw.mem)
      ensures p !in old(mapping) ==> rmap == old(rmap) && hw.ptes == old(hw.ptes)
      ensures p in old(mapping) ==>
        var pos := old(mapping)[p];
        && rmap == old(rmap)[pos := old(rmap)[pos] - {p}]
        && (old(files)[pos].Some? ==> hw.ptes == old(hw.ptes)[p := Invalidated(old(hw.ptes)[p])])
        && (old(files)[pos].None? ==> hw.ptes == old(hw.ptes))
    {
      if p !in mapping {
        return;
      }
      var pos := mapping[p];
      ghost var ptes' := if files[pos].Some? then hw.ptes[p := Invalidated(hw.ptes[p])] else hw.ptes;
      UnmapKeeps(files, mapping, rmap, hw.ptes, hw.free, hw.mem, p, ptes');
      if files[pos].Some? {
        hw.Invalidate(p);
      }
      rmap := rmap[pos := rmap[pos] - {p}];
      mapping := mapping - {p};
    }

    /**
     * `MFile::load` for `pos`: a loaded file keeps its frame; otherwise one
     * frame is allocated. As written nothing reads the file into it, so the
     * frame holds `LoadedPageAsWritten`, the zero page.
     */
    method FileLoad(pos: FilePos) returns (ppn: Ppn)
      requires Valid() && pos in files && (files[pos].None? ==> hw.free != {})
      modifies this, hw
      ensures Valid() && mapping == old(mapping) && rmap == old(rmap) && disk == old(disk)
      ensures hw.ptes == old(hw.ptes) && pos in files && files[pos] == Some(ppn)
      ensures old(files)[pos].Some? ==>
        ppn == old(files)[pos].value && files == old(files) && hw.free == old(hw.free) && hw.mem == old(hw.mem)
      ensures old(files)[pos].None? ==>
        && ppn in old(hw.free) && hw.free == old(hw.free) - {ppn}
        && files == old(files)[pos := Some(ppn)]
        && hw.mem == old(hw.mem)[ppn := LoadedPageAsWritten(disk, pos)]
    {
      if files[pos].Some? {
        return files[pos].value;
      }
      ghost var free0, mem0 := hw.free, hw.mem;
      ppn := hw.FrameAlloc();
      FileLoadKeeps(files, mapping, rmap, hw.ptes, free0, mem0, pos, ppn, LoadedPageAsWritten(disk, pos));
      files := files[pos := Some(ppn)];
    }

    /**
     * `load(p, flags)`: load `p`'s file and point `p`, and only `p`, at its
     * frame. Every PTE loaded for one position therefore gets the same frame.
     */
    method Load(p: Pte, flags: bv8)
      requires Valid() && p in mapping && (files[mapping[p]].None? ==> hw.free != {})
      modifies this, hw
      ensures Valid() && mapping == old(mapping) && rmap == old(rmap) && disk == old(disk)
      ensures var pos := mapping[p];
        && pos in files && files[pos].Some?
        && hw.ptes == old(hw.ptes)[p := Entry(files[pos].value, flags)]
        && (old(files)[pos].Some? ==> files == old(files) && hw.free == old(hw.free) && hw.mem == old(hw.mem))
        && (old(files)[pos].None? ==>
              && files == old(files)[pos := files[pos]]
              && files[pos].value in old(hw.free) && hw.free == old(hw.free) - {files[pos].value}
              && hw.mem == old(hw.mem)[files[pos].value := LoadedPageAsWritten(disk, pos)])
    {
      var ppn := FileLoad(mapping[p]);
      PointKeeps(files, mapping, rmap, hw.ptes, hw.free, hw.mem, p, flags);
      hw.SetPte(p, Entry(ppn, flags));
    }

    /** `get_file_pos`: the position `map` recorded for `p`, a tracked file that lists `p` among its PTEs. */
    function GetFilePos(p: Pte): (pos: FilePos)
      requires Valid() && p in mapping
      reads this, hw
      ensures pos in files && pos in rmap && p in rmap[pos]
    {
      mapping[p]
    }

    /** `strict_dup(p, frame)`: `p`'s file must be loaded; its page is copied into `dst`. */
    method StrictDup(p: Pte, dst: Ppn)
      requires Valid() && p in mapping && files[mapping[p]].Some?
      modifies hw
      ensures Valid() && hw.ptes == old(hw.ptes) && hw.free == old(hw.free)
      ensures hw.mem == old(hw.mem)[dst := old(hw.mem)[files[mapping[p]].value]]
    {
      var src := files[mapping[p]].value;
      Stable(files, mapping, rmap, hw.ptes, hw.free, hw.mem, hw.ptes, hw.free, hw.mem[dst := hw.mem[src]]);
      hw.CopyFrame(dst, src);
    }

    /**
     * `MFile::sync` of a file no PTE maps: a loaded page is written back at
     * its position and its frame released.
     */
    method Sync(pos: FilePos)
      requires Valid() && pos in Unused(files, mapping)
      modifies this, hw
      ensures Valid() && mapping == old(mapping) && rmap == old(rmap) && hw.ptes == old(hw.ptes) && hw.mem == old(hw.mem)
      ensures files == old(files)[pos := None]
      ensures old(files)[pos].None? ==> disk == old(disk) && hw.free == old(hw.free)
      ensures old(files)[pos].Some? ==>
        && disk == Synced(old(disk), pos, old(hw.mem)[old(files)[pos].value])
        && hw.free == old(hw.free) + {old(files)[pos].value}
    {
      match files[pos] {
        case None =>
          assert files[pos := None] == files;
        case Some(f) =>
          SyncKeeps(files, mapping, rmap, hw.ptes, hw.free, hw.mem, pos);
          disk := Synced(disk, pos, hw.mem[f]);
          files := files[pos := None];
          hw.FrameDealloc(f);
      }
    }

    /**
     * `slim`: every file no PTE maps is synced and dropped; the others stay
     * as they are.
     */
    method Slim()
      requires Valid()
      modifies this, hw
      ensures Valid() && mapping == old(mapping) && rmap == old(rmap) && hw.ptes == old(hw.ptes) && hw.mem == old(hw.mem)
      ensures files == map pos | pos in old(files) && pos !in Unused(old(files), old(mapping)) :: old(files)[pos]
      ensures disk == WrittenBack(old(disk), old(files), Unused(old(files), old(mapping)), old(hw.mem))
      ensures hw.free == old(hw.free) + Released(old(files), Unused(old(files), old(mapping)))
    {
      ghost var files0, disk0, free0 := files, disk, hw.free;
      var recycle := Unused(files, mapping);
      ghost var done: set<FilePos> := {};
      while recycle != {}
        invariant Valid() && mapping == old(mapping) && rmap == old(rmap) && hw.ptes == old(hw.ptes) && hw.mem == old(hw.mem)
        invariant done !! recycle && done + recycle == Unused(files0, mapping)
        invariant files == Kept(files0, done)
        invariant disk == WrittenBack(disk0, files0, done, hw.mem)
        invariant hw.free == free0 + Released(files0, done)
        decreases recycle
      {
        var pos :| pos in recycle;
        SlimStep(files0, mapping, disk0, hw.mem, done, pos);
        Recycle(pos);
        recycle := recycle - {pos};
        done := done + {pos};
      }
    }

    /** One round of `slim`'s loop: sync an unused file, then drop it from the file set. */
    method Recycle(pos: FilePos)
      requires Valid() && pos in Unused(files, mapping)
      modifies this, hw
      ensures Valid() && mapping == old(mapping) && rmap == old(rmap) && hw.ptes == old(hw.ptes) && hw.mem == old(hw.mem)
      ensures files == old(files) - {pos}
      ensures old(files)[pos].None? ==> disk == old(disk) && hw.free == old(hw.free)
      ensures old(files)[pos].Some? ==>
        && disk == Synced(old(disk), pos, old(hw.mem)[old(files)[pos].value])
        && hw.free == old(hw.free) + {old(files)[pos].value}
    {
      Sync(pos);
      DropKeeps(files, mapping, rmap, hw.ptes, hw.free, hw.mem, pos);
      files := files - {pos};
    }
  }
}
