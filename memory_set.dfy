/**
 * `MemorySet` of os/src/mm/memory_set.rs: one address space's list of map
 * areas over its page table, the frame manager and the file-page bridge
 * its pages are handles into, and the operations that change them:
 * creating an area (`MapArea::map` + `new_area`), `mmap`, `munmap`, the
 * page-fault dispatcher with the `Page` operations, `cown` and `fork`.
 *
 * A page table is named by an id; its PTEs are `Pte(table, vpn)`.
 */
module MemorySet {
  import opened Wrappers
  import opened Hw
  import opened Areas
  import MFrame
  import MFile

  /** `PageFaultType`. */
  datatype FaultType = LoadFault | StoreFault | InstructionFault

  /** What handling a fault comes to: a result code, or a kernel panic. */
  datatype Outcome = Code(code: int) | Panicked

  /** `VirtAddr::floor` and `VirtAddr::ceil`. */
  function Floor(va: nat): nat { va / PAGE_SIZE }
  function Ceil(va: nat): nat { (va + PAGE_SIZE - 1) / PAGE_SIZE }

  /** `VPNRange::new(start_va.floor(), end_va.ceil())`: the pages that meet `[startVa, endVa)`. */
  function VpnRange(startVa: nat, endVa: nat): (r: Range)
    requires startVa <= endVa
    ensures RangeWf(r)
    ensures forall v: nat :: Contains(r, v) <==> startVa < (v + 1) * PAGE_SIZE && v * PAGE_SIZE < endVa
  {
    var r := Range(Floor(startVa), Ceil(endVa));
    assert Floor(startVa) <= Ceil(endVa);
    forall v: nat ensures Contains(r, v) <==> startVa < (v + 1) * PAGE_SIZE && v * PAGE_SIZE < endVa {
      FloorCeil(startVa, endVa, v);
    }
    r
  }

  lemma FloorCeil(startVa: nat, endVa: nat, v: nat)
    ensures Floor(startVa) <= v <==> startVa < (v + 1) * PAGE_SIZE
    ensures v < Ceil(endVa) <==> v * PAGE_SIZE < endVa
  {
    var q := startVa / PAGE_SIZE;
    assert startVa == q * PAGE_SIZE + startVa % PAGE_SIZE;
    if q <= v {
      assert (v + 1) * PAGE_SIZE == v * PAGE_SIZE + PAGE_SIZE;
      assert q * PAGE_SIZE <= v * PAGE_SIZE;
    } else {
      assert v + 1 <= q;
      assert (v + 1) * PAGE_SIZE <= q * PAGE_SIZE;
    }
    var c := (endVa + PAGE_SIZE - 1) / PAGE_SIZE;
    assert endVa + PAGE_SIZE - 1 == c * PAGE_SIZE + (endVa + PAGE_SIZE - 1) % PAGE_SIZE;
    if v < c {
      assert v + 1 <= c;
      assert v * PAGE_SIZE + PAGE_SIZE <= c * PAGE_SIZE;
    } else {
      assert c <= v;
      assert c * PAGE_SIZE <= v * PAGE_SIZE;
    }
  }

  lemma FloorCeilOrder(startVa: nat, endVa: nat)
    requires startVa <= endVa
    ensures Floor(startVa) <= Ceil(endVa)
  {
  }

  /**
   * The two managers keep apart: no PTE is tracked by both, and no frame
   * the frame manager holds is a loaded file's frame.
   */
  ghost predicate Apart(fm: map<Pte, MFrame.MFrame>, files: map<MFile.FilePos, Option<Ppn>>, flm: map<Pte, MFile.FilePos>)
  {
    && (forall p :: p in fm ==> p !in flm)
    && (forall p :: p in fm && !fm[p].Lazy? ==> fm[p].frame !in MFile.LoadedFrames(files))
  }

  /**
   * The pages of page table `table` agree with the managers: each page is
   * `Pte(table, vpn)` and exists; a framed page is tracked by the frame
   * manager, a file page by the bridge, an identity page by neither; every
   * PTE of this table either manager tracks belongs to a page; and an entry
   * of this table that belongs to no page is not present.
   */
  ghost predicate Tracked(pages: map<nat, Page>, table: nat, fm: map<Pte, MFrame.MFrame>, flm: map<Pte, MFile.FilePos>, ptes: map<Pte, Entry>)
  {
    && (forall v :: v in pages ==> pages[v].pte == Pte(table, v) && Pte(table, v) in ptes)
    && (forall v :: v in pages && pages[v].FramedPage? ==> Pte(table, v) in fm)
    && (forall v :: v in pages && IsFilePage(pages[v]) ==> Pte(table, v) in flm)
    && (forall v :: v in pages && pages[v].IdentityPage? ==> Pte(table, v) !in fm && Pte(table, v) !in flm)
    && (forall p :: p in fm && p.table == table ==> p.vpn in pages)
    && (forall p :: p in flm && p.table == table ==> p.vpn in pages)
    && (forall p :: p in ptes && p.table == table && p.vpn !in pages ==> ptes[p].flags & FLAG_V == 0)
  }

  /** Changes that keep which PTEs of this table exist and are tracked, and leave the entries outside the pages alone, keep `Tracked`. */
  lemma TrackedFrame(pages: map<nat, Page>, table: nat, fm: map<Pte, MFrame.MFrame>, flm: map<Pte, MFile.FilePos>, ptes: map<Pte, Entry>,
                     fm': map<Pte, MFrame.MFrame>, flm': map<Pte, MFile.FilePos>, ptes': map<Pte, Entry>)
    requires Tracked(pages, table, fm, flm, ptes)
    requires forall p: Pte :: p.table == table ==> (p in fm' <==> p in fm) && (p in flm' <==> p in flm)
    requires forall p :: p in ptes ==> p in ptes'
    requires forall p :: p in ptes' && p.table == table ==> p in ptes && (p.vpn !in pages ==> ptes'[p] == ptes[p])
    ensures Tracked(pages, table, fm', flm', ptes')
  {
  }

  /** Untracking a page's PTE and leaving it not present keeps `Tracked` for the other pages. */
  lemma TrackedDrop(pages: map<nat, Page>, table: nat, fm: map<Pte, MFrame.MFrame>, flm: map<Pte, MFile.FilePos>, ptes: map<Pte, Entry>,
                    fm': map<Pte, MFrame.MFrame>, flm': map<Pte, MFile.FilePos>, ptes': map<Pte, Entry>, v: nat)
    requires Tracked(pages, table, fm, flm, ptes) && v in pages
    requires forall q :: q in fm' <==> q in fm && q != pages[v].pte
    requires forall q :: q in flm' <==> q in flm && q != pages[v].pte
    requires forall q :: q in ptes' <==> q in ptes
    requires forall q :: q in ptes && q != pages[v].pte ==> ptes'[q] == ptes[q]
    requires ptes'[pages[v].pte].flags & FLAG_V == 0
    ensures Tracked(pages - {v}, table, fm', flm', ptes')
  {
  }

  /** Adding the page of a vpn that had none, tracked as its kind requires, to the pages `u + pages` keeps `Tracked`. */
  lemma TrackedAdd(u: map<nat, Page>, pages: map<nat, Page>, table: nat, fm: map<Pte, MFrame.MFrame>, flm: map<Pte, MFile.FilePos>, ptes: map<Pte, Entry>,
                   fm': map<Pte, MFrame.MFrame>, flm': map<Pte, MFile.FilePos>, ptes': map<Pte, Entry>, v: nat, page: Page, pages': map<nat, Page>)
    requires Tracked(u + pages, table, fm, flm, ptes) && v !in u && v !in pages && page.pte == Pte(table, v) && pages' == pages[v := page]
    requires page.pte in ptes'
    requires forall q: Pte :: q != page.pte ==> (q in fm' <==> q in fm) && (q in flm' <==> q in flm)
    requires page.FramedPage? ==> page.pte in fm'
    requires IsFilePage(page) ==> page.pte in flm'
    requires page.IdentityPage? ==> page.pte !in fm' && page.pte !in flm'
    requires forall q :: q in ptes ==> q in ptes'
    requires forall q :: q in ptes' && q != page.pte && q.table == table ==> q in ptes && ptes'[q] == ptes[q]
    ensures Tracked(u + pages', table, fm', flm', ptes')
  {
    assert u + pages' == (u + pages)[v := page];
  }

  /** Loading a file into a frame the frame manager does not hold keeps the managers apart. */
  lemma ApartLoaded(fm: map<Pte, MFrame.MFrame>, files: map<MFile.FilePos, Option<Ppn>>, flm: map<Pte, MFile.FilePos>, pos: MFile.FilePos, g: Ppn)
    requires Apart(fm, files, flm)
    requires forall p :: p in fm && !fm[p].Lazy? ==> fm[p].frame != g
    ensures Apart(fm, files[pos := Some(g)], flm)
  {
    forall f | f in MFile.LoadedFrames(files[pos := Some(g)]) ensures f == g || f in MFile.LoadedFrames(files) {
      var x :| x in files[pos := Some(g)] && files[pos := Some(g)][x].Some? && files[pos := Some(g)][x].value == f;
      if x != pos {
        assert files[x].Some? && files[x].value == f;
      }
    }
  }

  /** A page that changes kind to framed, its PTE now tracked by the frame manager, keeps `Tracked`. */
  lemma TrackedRetype(pages: map<nat, Page>, table: nat, fm: map<Pte, MFrame.MFrame>, flm: map<Pte, MFile.FilePos>, ptes: map<Pte, Entry>,
                      fm': map<Pte, MFrame.MFrame>, flm': map<Pte, MFile.FilePos>, ptes': map<Pte, Entry>, v: nat, page: Page)
    requires Tracked(pages, table, fm, flm, ptes) && v in pages && page == FramedPage(Pte(table, v))
    requires forall q: Pte :: q != page.pte ==> (q in fm' <==> q in fm) && (q in flm' <==> q in flm)
    requires page.pte in fm'
    requires forall q :: q in ptes ==> q in ptes'
    requires forall q :: q in ptes' && q != page.pte ==> q in ptes && ptes'[q] == ptes[q]
    ensures Tracked(pages[v := page], table, fm', flm', ptes')
  {
  }

  /** The PTEs of `table` at `vpns`, removed from a manager's table. */
  function Unmapped<V>(m: map<Pte, V>, table: nat, vpns: set<nat>): map<Pte, V>
  {
    map p | p in m && !(p.table == table && p.vpn in vpns) :: m[p]
  }

  /** The pages with vpns outside `vpns`. */
  function Minus(pages: map<nat, Page>, vpns: set<nat>): map<nat, Page>
  {
    map v | v in pages && v !in vpns :: pages[v]
  }

  /** The vpns of `pages` inside `target`. */
  function Dropped(pages: map<nat, Page>, target: Range): set<nat>
  {
    set v | v in pages && Contains(target, v)
  }

  /** One round of `munmap`'s loop, on values: what the next area adds to the areas kept and to the pages dropped. */
  lemma MunmapStep(olds: seq<MapArea>, i: nat, target: Range)
    requires AreasWf(olds) && RangeWf(target) && i < |olds|
    ensures MunmapAreas(olds[..i + 1], target) == MunmapAreas(olds[..i], target) + Cut(olds[i], target)
    ensures Dropped(AllPages(olds[..i + 1]), target) == Dropped(AllPages(olds[..i]), target) + Inside(olds[i].pages, target).Keys
    ensures Inside(olds[i].pages, target).Keys !! Dropped(AllPages(olds[..i]), target)
    ensures forall v :: v in Inside(olds[i].pages, target) ==> v in AllPages(olds) && AllPages(olds)[v] == olds[i].pages[v]
  {
    var pre := olds[..i];
    assert olds[..i + 1][..i] == pre;
    assert AllPages(olds[..i + 1]) == AllPages(pre) + olds[i].pages;
    assert AreasWf(pre);
    forall v | v in Inside(olds[i].pages, target)
      ensures v !in AllPages(pre) && v in AllPages(olds) && AllPages(olds)[v] == olds[i].pages[v]
    {
      MunmapStepPage(olds, i, v);
    }
  }

  /** A page of area `olds[i]` is a page of no earlier area, and the areas' page at its vpn. */
  lemma MunmapStepPage(olds: seq<MapArea>, i: nat, v: nat)
    requires AreasWf(olds) && i < |olds| && v in olds[i].pages
    ensures v !in AllPages(olds[..i]) && v in AllPages(olds) && AllPages(olds)[v] == olds[i].pages[v]
  {
    var pre := olds[..i];
    assert AreasWf(pre);
    AllPagesAt(olds, v);
    AllPagesAt(pre, v);
    forall j | 0 <= j < |pre|
      ensures v !in pre[j].pages
    {
      assert pre[j] == olds[j];
      DisjointPages(olds, i, j, v);
    }
  }

  /** The pages left when every page inside the target is gone. */
  lemma MunmapAllGone(olds: seq<MapArea>, target: Range)
    requires AreasWf(olds) && RangeWf(target)
    ensures Minus(AllPages(olds), Dropped(AllPages(olds[..|olds|]), target)) == Outside(AllPages(olds), target)
  {
    assert olds[..|olds|] == olds;
  }

  /**
   * `Page::fown` as written, on the frame manager's view of the PTE: after
   * `map_strict` points it at the new frame `g` with W set, replacing the
   * page drops the file handle, whose `unmap` invalidates the same PTE
   * because the file is loaded.
   */
  function FownEntryAsWritten(flags: bv8, g: Ppn): Entry
  {
    Invalidated(Entry(g, flags | FLAG_W))
  }

  /** As written, `fown`'s PTE owns its new frame but is not present, which the frame manager's invariant forbids. */
  lemma FownAsWrittenBreaksBacked(p: Pte, g: Ppn, flags: bv8)
    ensures !MFrame.Backed(map[p := MFrame.Ownd(g)], map[p := FownEntryAsWritten(flags, g)], {}, map[g := ZeroPage()])
  {
    var m := map[p := MFrame.Ownd(g)];
    var ptes := map[p := FownEntryAsWritten(flags, g)];
    assert p in m && m[p].Ownd? && ptes[p].flags & FLAG_V == 0;
  }

  /** The permission checks of `MapArea::page_fault`, in their order; 0 when the access is allowed. */
  function PermissionCode(perm: bv8, kind: FaultType): (c: int)
    ensures c == -2 <==> perm & PERM_U == 0
    ensures c == -3 <==> perm & PERM_U != 0 && kind == InstructionFault && perm & PERM_X == 0
    ensures c == -4 <==> perm & PERM_U != 0 && kind == StoreFault && perm & PERM_W == 0
    ensures c == -5 <==> perm & PERM_U != 0 && kind == LoadFault && perm & PERM_R == 0
    ensures c == 0 <==> perm & PERM_U != 0 && (kind == InstructionFault ==> perm & PERM_X != 0)
                        && (kind == StoreFault ==> perm & PERM_W != 0) && (kind == LoadFault ==> perm & PERM_R != 0)
  {
    if perm & PERM_U == 0 then -2
    else if kind == InstructionFault && perm & PERM_X == 0 then -3
    else if kind == StoreFault && perm & PERM_W == 0 then -4
    else if kind == LoadFault && perm & PERM_R == 0 then -5
    else 0
  }

  /** What the dispatcher does about a permitted fault. */
  datatype Action = LoadOne | CopyOwn | FileOwn | LoadFileOwn | Impossible

  /**
   * The dispatch of `MapArea::page_fault` on (fault type, area type) once
   * the permissions allow the access, given whether the page's PTE is
   * present and writable and whether it is a framed lazy or framed COW page.
   * `Impossible` is a panic.
   */
  function Resolve(kind: FaultType, t: MapType, present: bool, writable: bool, lazy: bool, cow: bool): Action
  {
    match t
    case Identity => Impossible
    case FileShared => if !present then LoadOne else Impossible
    case Framed =>
      if lazy then (if !present then LoadOne else Impossible)
      else if kind == StoreFault && cow then CopyOwn
      else Impossible
    case FilePriv =>
      if kind == StoreFault then
        (if writable then Impossible else if present then FileOwn else LoadFileOwn)
      else if !present then LoadOne else Impossible
  }

  /**
   * The dispatcher only acts where the page needs it: it loads absent pages
   * only, copies on write only COW pages and only for stores, turns private
   * file pages into owned ones only for stores to read-only PTEs, and
   * panics on every identity area and on every present shared-file page.
   */
  lemma ResolveActsOnNeed(kind: FaultType, t: MapType, present: bool, writable: bool, lazy: bool, cow: bool)
    ensures var act := Resolve(kind, t, present, writable, lazy, cow);
      && (act == LoadOne ==> !present)
      && (act == CopyOwn ==> kind == StoreFault && t == Framed && cow && !lazy)
      && (act == FileOwn ==> kind == StoreFault && t == FilePriv && present && !writable)
      && (act == LoadFileOwn ==> kind == StoreFault && t == FilePriv && !present && !writable)
      && (t == Identity ==> act == Impossible)
      && (t == FileShared && present ==> act == Impossible)
  {
  }

  /** Taking one element out of a set leaves at most one fewer. */
  lemma FreeTakesOne(free0: set<Ppn>, free: set<Ppn>, f: Ppn)
    requires free == free0 || free == free0 - {f}
    ensures |free| + 1 >= |free0|
  {
    if free != free0 && f in free0 {
      assert free0 == free + {f};
    }
  }

  /** `ptes` differs from `ptes0` at most at `p`, which it holds. */
  ghost predicate ChangedAt(ptes0: map<Pte, Entry>, ptes: map<Pte, Entry>, p: Pte)
  {
    p in ptes && ptes == ptes0[p := ptes[p]]
  }

  /** The first area containing `v`, as `iter().find` finds it. */
  function FirstContaining(areas: seq<MapArea>, v: nat): (r: Option<nat>)
    ensures r.None? <==> forall i :: 0 <= i < |areas| ==> !Contains(areas[i].range, v)
    ensures r.Some? ==> r.value < |areas| && Contains(areas[r.value].range, v)
                        && forall i :: 0 <= i < r.value ==> !Contains(areas[i].range, v)
    decreases |areas|
  {
    if areas == [] then None
    else if Contains(areas[0].range, v) then Some(0)
    else
      var r := FirstContaining(areas[1..], v);
      assert forall i :: 0 < i < |areas| ==> areas[i] == areas[1..][i - 1];
      if r.None? then None else Some(r.value + 1)
  }

  lemma UnmappedOne<V>(m: map<Pte, V>, table: nat, a: set<nat>, v: nat)
    ensures Unmapped(m, table, a) - {Pte(table, v)} == Unmapped(m, table, a + {v})
  {
    var l := Unmapped(m, table, a) - {Pte(table, v)};
    var r := Unmapped(m, table, a + {v});
    assert forall p :: p in l <==> p in r;
  }

  /** Mapping a PTE the frame manager does not track to a file page keeps the managers apart. */
  lemma FileMapApart(fm: map<Pte, MFrame.MFrame>, files: map<MFile.FilePos, Option<Ppn>>, flm: map<Pte, MFile.FilePos>, p: Pte, pos: MFile.FilePos)
    requires Apart(fm, files, flm) && p !in fm
    ensures Apart(fm, if pos in files then files else files[pos := None], flm[p := pos])
  {
    var files' := if pos in files then files else files[pos := None];
    forall f | f in MFile.LoadedFrames(files') ensures f in MFile.LoadedFrames(files) {
      var q :| q in files' && files'[q].Some? && files'[q].value == f;
      assert q in files && files[q].Some?;
    }
  }

  /** Before `MapArea::map`'s loop: no page and no entry added yet. */
  lemma EmptyStart(u: map<nat, Page>, fm: map<Pte, MFrame.MFrame>, flm: map<Pte, MFile.FilePos>, t: MapType, table: nat, s: nat,
                   file: Option<nat>, fileOffset: nat)
    requires IsFileType(t) ==> file.Some?
    ensures map[] == NewPages(t, table, Range(s, s)) && u + map[] == u
    ensures fm == fm + (if t == Framed then LazyPtes(table, Range(s, s)) else map[])
    ensures flm == flm + (if IsFileType(t) then FilePtes(table, Range(s, s), file.value, fileOffset) else map[])
  {
  }

  /** Appending a well-formed area that meets no other keeps the areas well formed and adds its pages. */
  lemma AppendNew(areas: seq<MapArea>, a: MapArea, table: nat)
    requires AreasWf(areas) && RangeWf(a.range) && a.pages == NewPages(a.mapType, table, a.range)
    requires forall i :: 0 <= i < |areas| ==> !Intersects(areas[i].range, a.range)
    requires if IsFileType(a.mapType) then a.file.Some? && PageAligned(a.fileOffset) else a.file.None? && a.fileOffset == 0
    ensures AreasWf(areas + [a]) && AllPages(areas + [a]) == AllPages(areas) + a.pages
  {
    NewPagesAt(a.mapType, table, a.range);
    assert AreaWf(a);
    forall j | 0 <= j < 1 ensures forall b :: b in areas ==> !Intersects(b.range, [a][j].range) {
      forall b | b in areas ensures !Intersects(b.range, a.range) {
        var i :| 0 <= i < |areas| && areas[i] == b;
      }
    }
    AppendWf(areas, [a]);
    assert (areas + [a])[..|areas|] == areas;
  }

  /** Moving one element from `rest` to `gone` keeps them a partition of `all`. */
  lemma MoveOne<T>(rest: set<T>, gone: set<T>, all: set<T>, x: T)
    requires rest + gone == all && rest !! gone && x in rest
    ensures (rest - {x}) + (gone + {x}) == all && (rest - {x}) !! (gone + {x})
  {
  }

  lemma UnmappedNone<V>(m: map<Pte, V>, table: nat)
    ensures Unmapped(m, table, {}) == m
  {
  }

  /** When the target is covered, the PTEs dropped are exactly those of the target's pages. */
  lemma MunmapCovered(olds: seq<MapArea>, target: Range, fm: map<Pte, MFrame.MFrame>, flm: map<Pte, MFile.FilePos>, table: nat, ptes: map<Pte, Entry>)
    requires Tracked(AllPages(olds), table, fm, flm, ptes)
    requires forall v :: Contains(target, v) ==> v in AllPages(olds)
    ensures Unmapped(fm, table, Dropped(AllPages(olds), target)) == Unmapped(fm, table, RangeSet(target))
    ensures Unmapped(flm, table, Dropped(AllPages(olds), target)) == Unmapped(flm, table, RangeSet(target))
  {
    assert Dropped(AllPages(olds), target) == RangeSet(target);
  }

  /** The page `MapArea::map` creates for a vpn of an area of type `t`. */
  function NewPage(t: MapType, p: Pte): (page: Page)
    ensures page.pte == p && PageFits(t, page)
  {
    match t
    case Identity => IdentityPage(p)
    case Framed => FramedPage(p)
    case FileShared => FileSharedPage(p)
    case FilePriv => FilePrivPage(p)
  }

  /** The pages `MapArea::map` creates for range `r` of an area of type `t` in page table `table`, one vpn after another. */
  function NewPages(t: MapType, table: nat, r: Range): map<nat, Page>
    decreases r.end - r.start
  {
    if r.end <= r.start then map[]
    else NewPages(t, table, Range(r.start, r.end - 1))[r.end - 1 := NewPage(t, Pte(table, r.end - 1))]
  }

  /** The new pages are those of the vpns in the range, each of the area's kind on its own PTE. */
  lemma {:induction false} NewPagesAt(t: MapType, table: nat, r: Range)
    ensures forall w :: w in NewPages(t, table, r) <==> r.start <= w < r.end
    ensures forall w :: w in NewPages(t, table, r) ==> NewPages(t, table, r)[w] == NewPage(t, Pte(table, w))
    decreases r.end - r.start
  {
    if r.end > r.start {
      NewPagesAt(t, table, Range(r.start, r.end - 1));
    }
  }

  /** No vpn at or past the end of a range has a new page. */
  lemma {:induction false} NewPagesPast(t: MapType, table: nat, s: nat, v: nat, w: nat)
    requires v <= w
    ensures w !in NewPages(t, table, Range(s, v))
    decreases v - s
  {
    if v > s {
      NewPagesPast(t, table, s, v - 1, w);
    }
  }

  /** The pages built so far do not hold the next vpn. */
  lemma NewPagesFresh(t: MapType, table: nat, s: nat, v: nat, pages: map<nat, Page>)
    requires pages == NewPages(t, table, Range(s, v))
    ensures v !in pages
  {
    NewPagesPast(t, table, s, v, v);
  }

  /** The frame manager's entries for a new framed range: all lazy. */
  function LazyPtes(table: nat, r: Range): map<Pte, MFrame.MFrame>
    decreases r.end - r.start
  {
    if r.end <= r.start then map[]
    else LazyPtes(table, Range(r.start, r.end - 1))[Pte(table, r.end - 1) := MFrame.Lazy]
  }

  /** The bridge's entries for a new file-backed range: page `v` maps the file page `v - start` pages past `fileOffset`. */
  function FilePtes(table: nat, r: Range, inode: nat, fileOffset: nat): map<Pte, MFile.FilePos>
    decreases r.end - r.start
  {
    if r.end <= r.start then map[]
    else FilePtes(table, Range(r.start, r.end - 1), inode, fileOffset)[Pte(table, r.end - 1) := MFile.FilePos(inode, PagesPast(fileOffset, r.end - 1 - r.start))]
  }

  /**
   * The bridge's entries `MapArea::map` makes for a new file-backed range as
   * written: page `v` maps `(v - start) * PAGE_SIZE`, whatever the area's
   * `fileOffset`.
   */
  function FilePtesAsWritten(table: nat, r: Range, inode: nat, fileOffset: nat): map<Pte, MFile.FilePos>
  {
    FilePtes(table, r, inode, 0)
  }

  /** As written, `map_file_priv` at file offset 4096 maps its first page to offset 0, where 4096 is meant. */
  lemma MapFileOffsetAsWritten()
    ensures var table, r, inode := 0, Range(1, 2), 1;
      && FilePtesAsWritten(table, r, inode, 4096)[Pte(table, 1)] == MFile.FilePos(inode, 0)
      && FilePtes(table, r, inode, 4096)[Pte(table, 1)] == MFile.FilePos(inode, 4096)
  {
  }

  /** On a non-empty range the written and the intended offsets agree exactly when the area's offset is 0. */
  lemma FilePtesAsWrittenAgrees(table: nat, r: Range, inode: nat, fileOffset: nat)
    requires r.start < r.end
    ensures FilePtesAsWritten(table, r, inode, fileOffset) == FilePtes(table, r, inode, fileOffset) <==> fileOffset == 0
  {
    var p := Pte(table, r.start);
    FilePtesAt(table, r, inode, 0);
    FilePtesAt(table, r, inode, fileOffset);
    assert p in FilePtes(table, r, inode, fileOffset);
    assert FilePtes(table, r, inode, 0)[p] == MFile.FilePos(inode, PagesPast(0, 0));
    assert FilePtes(table, r, inode, fileOffset)[p] == MFile.FilePos(inode, PagesPast(fileOffset, 0));
  }

  /** The lazy entries are those of the range's PTEs. */
  lemma {:induction false} LazyPtesAt(table: nat, r: Range)
    ensures forall p: Pte :: p in LazyPtes(table, r) <==> p.table == table && r.start <= p.vpn < r.end
    ensures forall p :: p in LazyPtes(table, r) ==> LazyPtes(table, r)[p] == MFrame.Lazy
    decreases r.end - r.start
  {
    if r.end > r.start {
      LazyPtesAt(table, Range(r.start, r.end - 1));
    }
  }

  /** The file entries are those of the range's PTEs, each at its file page. */
  lemma {:induction false} FilePtesAt(table: nat, r: Range, inode: nat, fileOffset: nat)
    ensures forall p: Pte :: p in FilePtes(table, r, inode, fileOffset) <==> p.table == table && r.start <= p.vpn < r.end
    ensures forall p :: p in FilePtes(table, r, inode, fileOffset) ==>
              FilePtes(table, r, inode, fileOffset)[p] == MFile.FilePos(inode, PagesPast(fileOffset, p.vpn - r.start))
    decreases r.end - r.start
  {
    if r.end > r.start {
      FilePtesAt(table, Range(r.start, r.end - 1), inode, fileOffset);
    }
  }

  lemma PlusNone<K, V>(m: map<K, V>)
    ensures m + map[] == m
  {
  }

  lemma PlusUpdate<K, V>(m0: map<K, V>, m: map<K, V>, k: K, x: V)
    ensures (m0 + m)[k := x] == m0 + m[k := x]
  {
  }

  /** The area's pages after one more page. */
  lemma NewPagesNext(t: MapType, table: nat, s: nat, v: nat, next: nat, pages: map<nat, Page>, pages': map<nat, Page>)
    requires s <= v && next == v + 1
    requires pages == NewPages(t, table, Range(s, v)) && pages' == pages[v := NewPage(t, Pte(table, v))]
    ensures pages' == NewPages(t, table, Range(s, next))
  {
  }

  /** The frame manager's table after one more lazy page. */
  lemma LazyNext(t: MapType, fm0: map<Pte, MFrame.MFrame>, m: map<Pte, MFrame.MFrame>, m': map<Pte, MFrame.MFrame>, table: nat, s: nat, v: nat, next: nat)
    requires t == Framed && s <= v && next == v + 1
    requires m == fm0 + (if t == Framed then LazyPtes(table, Range(s, v)) else map[])
    requires m' == m[Pte(table, v) := MFrame.Lazy]
    ensures m' == fm0 + (if t == Framed then LazyPtes(table, Range(s, next)) else map[])
  {
    PlusUpdate(fm0, LazyPtes(table, Range(s, v)), Pte(table, v), MFrame.Lazy);
  }

  /** The bridge's table after one more file page. */
  lemma FileNext(t: MapType, flm0: map<Pte, MFile.FilePos>, m: map<Pte, MFile.FilePos>, m': map<Pte, MFile.FilePos>, table: nat, s: nat, v: nat, next: nat,
                 inode: nat, fileOffset: nat, k: nat)
    requires IsFileType(t) && s <= v && next == v + 1 && k == v - s
    requires m == flm0 + (if IsFileType(t) then FilePtes(table, Range(s, v), inode, fileOffset) else map[])
    requires m' == m[Pte(table, v) := MFile.FilePos(inode, PagesPast(fileOffset, k))]
    ensures m' == flm0 + (if IsFileType(t) then FilePtes(table, Range(s, next), inode, fileOffset) else map[])
  {
    PlusUpdate(flm0, FilePtes(table, Range(s, v), inode, fileOffset), Pte(table, v), MFile.FilePos(inode, PagesPast(fileOffset, k)));
  }

  /** The identity entries after one more identity page. */
  lemma IdentityNext(t: MapType, ptes: map<Pte, Entry>, ptes': map<Pte, Entry>, table: nat, s: nat, v: nat, next: nat, perm: bv8)
    requires t == Identity && next == v + 1
    requires t == Identity ==> forall w :: s <= w < v ==> Pte(table, w) in ptes && ptes[Pte(table, w)] == Entry(w, perm | FLAG_V)
    requires ptes' == ptes[Pte(table, v) := Entry(v, perm | FLAG_V)]
    ensures t == Identity ==> forall w :: s <= w < next ==> Pte(table, w) in ptes' && ptes'[Pte(table, w)] == Entry(w, perm | FLAG_V)
  {
  }

  /** The child's copy of `pages` for page table `table`: the same kinds over the child's PTEs. */
  function MovedPages(pages: map<nat, Page>, table: nat): map<nat, Page>
  {
    map v | v in pages :: pages[v].(pte := Pte(table, v))
  }

  /** The area `fork` and `fork_strict` give the child over page table `table`. */
  function ForkedArea(a: MapArea, table: nat): MapArea
  {
    a.(pages := MovedPages(a.pages, table))
  }

  /** A forked area is well formed: same range, same vpns, same kinds. */
  lemma ForkedAreaWf(a: MapArea, table: nat)
    requires AreaWf(a)
    ensures AreaWf(ForkedArea(a, table)) && ForkedArea(a, table).range == a.range
  {
    var b := ForkedArea(a, table);
    forall v | v in b.pages ensures PageFits(b.mapType, b.pages[v]) {
      assert PageFits(a.mapType, a.pages[v]);
    }
  }

  /** Is the area forked page by page with `fork_strict`? */
  predicate Strict(a: MapArea)
  {
    AnyCritical(a.range)
  }

  /** The frames `fork` allocates: one per page of each area it forks strictly. */
  function StrictNeed(areas: seq<MapArea>): nat
  {
    if areas == [] then 0
    else (if Strict(areas[0]) then areas[0].range.end - areas[0].range.start else 0) + StrictNeed(areas[1..])
  }

  /** Sharing a frame the frame manager holds with a PTE the bridge does not track keeps the managers apart. */
  lemma ApartShared(fm0: map<Pte, MFrame.MFrame>, fm: map<Pte, MFrame.MFrame>, ptes0: map<Pte, Entry>, ptes: map<Pte, Entry>, o: Pte, p: Pte,
                    files: map<MFile.FilePos, Option<Ppn>>, flm: map<Pte, MFile.FilePos>)
    requires MFrame.CowShared(fm0, fm, ptes0, ptes, o, p) && Apart(fm0, files, flm) && p !in flm
    ensures Apart(fm, files, flm)
  {
    forall q | q in fm && !fm[q].Lazy? ensures fm[q].frame !in MFile.LoadedFrames(files) {
      if q == p || q == o {
        assert !fm0[o].Lazy? && fm[q].frame == fm0[o].frame;
      } else {
        assert fm[q] == fm0[q];
      }
    }
  }

  /** `m` agrees with `m0` on every PTE `m0` has whose vpn lies outside `r`. */
  ghost predicate SameOff<X>(m0: map<Pte, X>, m: map<Pte, X>, r: Range)
  {
    forall q :: q in m0 && !Contains(r, q.vpn) ==> q in m && m[q] == m0[q]
  }

  /** Neither manager nor any PTE changed outside vpns `r`. */
  ghost predicate ElsewhereSame(fm0: map<Pte, MFrame.MFrame>, fm: map<Pte, MFrame.MFrame>, flm0: map<Pte, MFile.FilePos>, flm: map<Pte, MFile.FilePos>,
                          ptes0: map<Pte, Entry>, ptes: map<Pte, Entry>, r: Range)
  {
    SameOff(fm0, fm, r) && SameOff(flm0, flm, r) && SameOff(ptes0, ptes, r)
  }

  /** Frames are only taken from the free set, and a frame in use keeps its contents. */
  ghost predicate Kept(free0: set<Ppn>, mem0: map<Ppn, Bytes>, free: set<Ppn>, mem: map<Ppn, Bytes>)
  {
    free <= free0 && forall f :: f in mem0 && f !in free0 ==> f in mem && mem[f] == mem0[f]
  }

  /** Changes outside `r`, then outside the part `s` of `r`, are changes outside `r`. */
  lemma ElsewhereStep(fm0: map<Pte, MFrame.MFrame>, fm1: map<Pte, MFrame.MFrame>, fm: map<Pte, MFrame.MFrame>,
                    flm0: map<Pte, MFile.FilePos>, flm1: map<Pte, MFile.FilePos>, flm: map<Pte, MFile.FilePos>,
                    ptes0: map<Pte, Entry>, ptes1: map<Pte, Entry>, ptes: map<Pte, Entry>, r: Range, s: Range)
    requires ElsewhereSame(fm0, fm1, flm0, flm1, ptes0, ptes1, r) && ElsewhereSame(fm1, fm, flm1, flm, ptes1, ptes, s)
    requires r.start <= s.start && s.end <= r.end
    ensures ElsewhereSame(fm0, fm, flm0, flm, ptes0, ptes, r)
  {
  }

  /**
   * What `Page::fork` leaves at vpn `v` between the parent's table `pt` and
   * the child's `ct`, by the kind of the parent's page: an identity entry
   * copied; a framed page tracked alike on both sides and no longer owned,
   * one shared entry unless lazy; a file page mapping the same file page
   * from a child entry not present.
   */
  ghost predicate Forked(page: Page, pt: nat, ct: nat, v: nat, fm: map<Pte, MFrame.MFrame>, flm: map<Pte, MFile.FilePos>, ptes: map<Pte, Entry>)
  {
    var o, p := Pte(pt, v), Pte(ct, v);
    match page
    case IdentityPage(_) => o in ptes && p in ptes && ptes[p] == ptes[o]
    case FramedPage(_) =>
      && o in fm && p in fm && fm[p] == fm[o] && !fm[o].Ownd?
      && (!fm[o].Lazy? ==> o in ptes && p in ptes && ptes[p] == ptes[o])
    case _ => o in flm && p in flm && flm[p] == flm[o] && p in ptes && ptes[p].flags & FLAG_V == 0
  }

  /**
   * What `Page::fork_strict` leaves at vpn `v`: both sides own a frame of
   * their own, with the same contents, under entries with the same flags.
   */
  ghost predicate StrictForked(pt: nat, ct: nat, v: nat, fm: map<Pte, MFrame.MFrame>, ptes: map<Pte, Entry>, free: set<Ppn>, mem: map<Ppn, Bytes>)
  {
    var o, p := Pte(pt, v), Pte(ct, v);
    && o in fm && p in fm && fm[o].Ownd? && fm[p].Ownd? && fm[p].frame != fm[o].frame
    && o in ptes && p in ptes && ptes[p].flags == ptes[o].flags
    && fm[o].frame !in free && fm[p].frame !in free
    && fm[o].frame in mem && fm[p].frame in mem && mem[fm[p].frame] == mem[fm[o].frame]
  }

  lemma ForkedStays(page: Page, pt: nat, ct: nat, v: nat, fm0: map<Pte, MFrame.MFrame>, fm: map<Pte, MFrame.MFrame>,
                    flm0: map<Pte, MFile.FilePos>, flm: map<Pte, MFile.FilePos>, ptes0: map<Pte, Entry>, ptes: map<Pte, Entry>, r: Range)
    requires Forked(page, pt, ct, v, fm0, flm0, ptes0) && ElsewhereSame(fm0, fm, flm0, flm, ptes0, ptes, r) && !Contains(r, v)
    ensures Forked(page, pt, ct, v, fm, flm, ptes)
  {
  }

  lemma StrictForkedStays(pt: nat, ct: nat, v: nat, fm0: map<Pte, MFrame.MFrame>, fm: map<Pte, MFrame.MFrame>,
                          ptes0: map<Pte, Entry>, ptes: map<Pte, Entry>, free0: set<Ppn>, mem0: map<Ppn, Bytes>, free: set<Ppn>, mem: map<Ppn, Bytes>, r: Range)
    requires StrictForked(pt, ct, v, fm0, ptes0, free0, mem0) && SameOff(fm0, fm, r) && SameOff(ptes0, ptes, r) && !Contains(r, v)
    requires Kept(free0, mem0, free, mem)
    ensures StrictForked(pt, ct, v, fm, ptes, free, mem)
  {
  }

  lemma SameOffSelf<X>(m: map<Pte, X>, r: Range)
    ensures SameOff(m, m, r)
  {
  }

  /** Rewriting PTEs of vpn `v` only changes nothing outside `v`. */
  lemma SameOffPair<X>(m0: map<Pte, X>, m: map<Pte, X>, o: Pte, p: Pte, v: nat)
    requires o.vpn == v && p.vpn == v && o in m && p in m && m == m0[o := m[o]][p := m[p]]
    ensures SameOff(m0, m, Range(v, v + 1))
  {
  }

  lemma SameOffOne<X>(m0: map<Pte, X>, m: map<Pte, X>, p: Pte, v: nat)
    requires p.vpn == v && p in m && m == m0[p := m[p]]
    ensures SameOff(m0, m, Range(v, v + 1))
  {
  }

  /** `share_cow` from the parent's PTE to the child's leaves the framed page forked. */
  lemma ForkedOfShared(page: Page, pt: nat, ct: nat, v: nat, fm0: map<Pte, MFrame.MFrame>, fm: map<Pte, MFrame.MFrame>,
                       flm: map<Pte, MFile.FilePos>, ptes0: map<Pte, Entry>, ptes: map<Pte, Entry>)
    requires page.FramedPage? && MFrame.CowShared(fm0, fm, ptes0, ptes, Pte(pt, v), Pte(ct, v))
    ensures Forked(page, pt, ct, v, fm, flm, ptes)
  {
  }

  /**
   * Part way through forking area `a` from table `pt` to table `ct`: the
   * forked `pages` are the child's copies of those for vpns from the start
   * of the range up to `v`, each forked, and nothing outside the range
   * changed since the state `fm0`, `flm0`, `ptes0`.
   */
  ghost predicate PagesForked(a: MapArea, pt: nat, ct: nat, pages: map<nat, Page>, v: nat,
                              fm0: map<Pte, MFrame.MFrame>, flm0: map<Pte, MFile.FilePos>, ptes0: map<Pte, Entry>,
                              fm: map<Pte, MFrame.MFrame>, flm: map<Pte, MFile.FilePos>, ptes: map<Pte, Entry>)
  {
    && AreaWf(a) && a.range.start <= v <= a.range.end
    && (forall w :: w in pages <==> a.range.start <= w < v)
    && (forall w :: w in pages ==> w in a.pages && pages[w] == a.pages[w].(pte := Pte(ct, w)))
    && (forall w :: w in a.pages && w < v ==> Forked(a.pages[w], pt, ct, w, fm, flm, ptes))
    && ElsewhereSame(fm0, fm, flm0, flm, ptes0, ptes, a.range)
  }

  /** Forking the page at `v`, changing nothing at other vpns, extends `PagesForked` by `v`. */
  lemma PagesForkedStep(a: MapArea, pt: nat, ct: nat, pages: map<nat, Page>, v: nat,
                        fm0: map<Pte, MFrame.MFrame>, flm0: map<Pte, MFile.FilePos>, ptes0: map<Pte, Entry>,
                        fm1: map<Pte, MFrame.MFrame>, flm1: map<Pte, MFile.FilePos>, ptes1: map<Pte, Entry>,
                        fm: map<Pte, MFrame.MFrame>, flm: map<Pte, MFile.FilePos>, ptes: map<Pte, Entry>)
    requires PagesForked(a, pt, ct, pages, v, fm0, flm0, ptes0, fm1, flm1, ptes1) && v < a.range.end
    requires Forked(a.pages[v], pt, ct, v, fm, flm, ptes) && ElsewhereSame(fm1, fm, flm1, flm, ptes1, ptes, Range(v, v + 1))
    ensures PagesForked(a, pt, ct, pages[v := a.pages[v].(pte := Pte(ct, v))], v + 1, fm0, flm0, ptes0, fm, flm, ptes)
  {
    forall w | w in a.pages && w < v
      ensures Forked(a.pages[w], pt, ct, w, fm, flm, ptes)
    {
      ForkedStays(a.pages[w], pt, ct, w, fm1, fm, flm1, flm, ptes1, ptes, Range(v, v + 1));
    }
    ElsewhereStep(fm0, fm1, fm, flm0, flm1, flm, ptes0, ptes1, ptes, a.range, Range(v, v + 1));
  }

  lemma PagesForkedStart(a: MapArea, pt: nat, ct: nat, fm: map<Pte, MFrame.MFrame>, flm: map<Pte, MFile.FilePos>, ptes: map<Pte, Entry>)
    requires AreaWf(a)
    ensures PagesForked(a, pt, ct, map[], a.range.start, fm, flm, ptes, fm, flm, ptes)
  {
    SameOffSelf(fm, a.range);
    SameOffSelf(flm, a.range);
    SameOffSelf(ptes, a.range);
  }

  /** At the end of the range, the forked pages are the whole child copy of the area's pages. */
  lemma PagesForkedEnd(a: MapArea, pt: nat, ct: nat, pages: map<nat, Page>,
                       fm0: map<Pte, MFrame.MFrame>, flm0: map<Pte, MFile.FilePos>, ptes0: map<Pte, Entry>,
                       fm: map<Pte, MFrame.MFrame>, flm: map<Pte, MFile.FilePos>, ptes: map<Pte, Entry>)
    requires PagesForked(a, pt, ct, pages, a.range.end, fm0, flm0, ptes0, fm, flm, ptes)
    ensures pages == MovedPages(a.pages, ct) && ElsewhereSame(fm0, fm, flm0, flm, ptes0, ptes, a.range)
    ensures forall w :: w in a.pages ==> Forked(a.pages[w], pt, ct, w, fm, flm, ptes)
  {
    assert pages == MovedPages(a.pages, ct);
  }

  /** `fork_strict` can fork area `a` of table `pt`: every page is framed and owns its frame (otherwise it panics). */
  ghost predicate StrictReady(a: MapArea, pt: nat, fm: map<Pte, MFrame.MFrame>)
  {
    forall w :: w in a.pages ==> a.pages[w].FramedPage? && Pte(pt, w) in fm && fm[Pte(pt, w)].Ownd?
  }

  /**
   * Part way through `fork_strict` of area `a`: as `PagesForked`, each page
   * forked strictly, the pages still to come still owned by the parent, one
   * frame taken per page so far and frames in use left as they were.
   */
  ghost predicate PagesStrictForked(a: MapArea, pt: nat, ct: nat, pages: map<nat, Page>, v: nat,
                                    fm0: map<Pte, MFrame.MFrame>, flm0: map<Pte, MFile.FilePos>, ptes0: map<Pte, Entry>, free0: set<Ppn>, mem0: map<Ppn, Bytes>,
                                    fm: map<Pte, MFrame.MFrame>, flm: map<Pte, MFile.FilePos>, ptes: map<Pte, Entry>, free: set<Ppn>, mem: map<Ppn, Bytes>)
  {
    && AreaWf(a) && a.range.start <= v <= a.range.end
    && (forall w :: w in pages <==> a.range.start <= w < v)
    && (forall w :: w in pages ==> w in a.pages && pages[w] == a.pages[w].(pte := Pte(ct, w)))
    && (forall w :: w in a.pages ==> a.pages[w].FramedPage?)
    && (forall w :: w in a.pages && w < v ==> StrictForked(pt, ct, w, fm, ptes, free, mem))
    && (forall w :: w in a.pages && v <= w ==> Pte(pt, w) in fm && fm[Pte(pt, w)].Ownd?)
    && ElsewhereSame(fm0, fm, flm0, flm, ptes0, ptes, a.range)
    && Kept(free0, mem0, free, mem) && |free| + (v - a.range.start) == |free0|
  }

  lemma PagesStrictForkedStart(a: MapArea, pt: nat, ct: nat, fm: map<Pte, MFrame.MFrame>, flm: map<Pte, MFile.FilePos>, ptes: map<Pte, Entry>,
                               free: set<Ppn>, mem: map<Ppn, Bytes>)
    requires AreaWf(a) && StrictReady(a, pt, fm)
    ensures PagesStrictForked(a, pt, ct, map[], a.range.start, fm, flm, ptes, free, mem, fm, flm, ptes, free, mem)
  {
    SameOffSelf(fm, a.range);
    SameOffSelf(flm, a.range);
    SameOffSelf(ptes, a.range);
  }

  /** Forking the page at `v` strictly, changing nothing at other vpns, extends `PagesStrictForked` by `v`. */
  lemma PagesStrictForkedStep(a: MapArea, pt: nat, ct: nat, pages: map<nat, Page>, v: nat,
                              fm0: map<Pte, MFrame.MFrame>, flm0: map<Pte, MFile.FilePos>, ptes0: map<Pte, Entry>, free0: set<Ppn>, mem0: map<Ppn, Bytes>,
                              fm1: map<Pte, MFrame.MFrame>, flm1: map<Pte, MFile.FilePos>, ptes1: map<Pte, Entry>, free1: set<Ppn>, mem1: map<Ppn, Bytes>,
                              fm: map<Pte, MFrame.MFrame>, flm: map<Pte, MFile.FilePos>, ptes: map<Pte, Entry>, free: set<Ppn>, mem: map<Ppn, Bytes>)
    requires PagesStrictForked(a, pt, ct, pages, v, fm0, flm0, ptes0, free0, mem0, fm1, flm1, ptes1, free1, mem1) && v < a.range.end
    requires StrictForked(pt, ct, v, fm, ptes, free, mem) && ElsewhereSame(fm1, fm, flm1, flm, ptes1, ptes, Range(v, v + 1))
    requires Kept(free1, mem1, free, mem) && |free| + 1 == |free1|
    ensures PagesStrictForked(a, pt, ct, pages[v := a.pages[v].(pte := Pte(ct, v))], v + 1, fm0, flm0, ptes0, free0, mem0, fm, flm, ptes, free, mem)
  {
    forall w | w in a.pages && w < v
      ensures StrictForked(pt, ct, w, fm, ptes, free, mem)
    {
      StrictForkedStays(pt, ct, w, fm1, fm, ptes1, ptes, free1, mem1, free, mem, Range(v, v + 1));
    }
    ElsewhereStep(fm0, fm1, fm, flm0, flm1, flm, ptes0, ptes1, ptes, a.range, Range(v, v + 1));
  }

  lemma PagesStrictForkedEnd(a: MapArea, pt: nat, ct: nat, pages: map<nat, Page>,
                             fm0: map<Pte, MFrame.MFrame>, flm0: map<Pte, MFile.FilePos>, ptes0: map<Pte, Entry>, free0: set<Ppn>, mem0: map<Ppn, Bytes>,
                             fm: map<Pte, MFrame.MFrame>, flm: map<Pte, MFile.FilePos>, ptes: map<Pte, Entry>, free: set<Ppn>, mem: map<Ppn, Bytes>)
    requires PagesStrictForked(a, pt, ct, pages, a.range.end, fm0, flm0, ptes0, free0, mem0, fm, flm, ptes, free, mem)
    ensures pages == MovedPages(a.pages, ct) && StrictAreaForked(a, pt, ct, fm0, flm0, ptes0, free0, mem0, fm, flm, ptes, free, mem)
  {
    assert pages == MovedPages(a.pages, ct);
  }

  /** Page `w` of area `a` after `fork`: strictly forked in a critical area, forked otherwise. */
  ghost predicate AreaForkedAt(a: MapArea, pt: nat, ct: nat, w: nat, fm: map<Pte, MFrame.MFrame>, flm: map<Pte, MFile.FilePos>,
                               ptes: map<Pte, Entry>, free: set<Ppn>, mem: map<Ppn, Bytes>)
    requires w in a.pages
  {
    if Strict(a) then StrictForked(pt, ct, w, fm, ptes, free, mem) else Forked(a.pages[w], pt, ct, w, fm, flm, ptes)
  }

  /**
   * Part way through `MemorySet::fork` of `areas` from table `pt` to table
   * `ct`: the child's areas `c` are the forks of the first `k`, their pages
   * forked, the critical areas still to come still owned by the parent,
   * and one frame taken per page of each critical area forked so far.
   */
  ghost predicate AreasForked(areas: seq<MapArea>, pt: nat, ct: nat, c: seq<MapArea>, k: nat, free0: set<Ppn>, mem0: map<Ppn, Bytes>,
                              fm: map<Pte, MFrame.MFrame>, flm: map<Pte, MFile.FilePos>, ptes: map<Pte, Entry>, free: set<Ppn>, mem: map<Ppn, Bytes>)
  {
    && AreasWf(areas) && k <= |areas| && |c| == k
    && (forall j :: 0 <= j < k ==> c[j] == ForkedArea(areas[j], ct))
    && (forall j, w :: 0 <= j < k && w in areas[j].pages ==> AreaForkedAt(areas[j], pt, ct, w, fm, flm, ptes, free, mem))
    && (forall j :: k <= j < |areas| && Strict(areas[j]) ==> StrictReady(areas[j], pt, fm))
    && Kept(free0, mem0, free, mem) && |free| + StrictNeed(areas) == |free0| + StrictNeed(areas[k..])
  }

  lemma AreasForkedStart(areas: seq<MapArea>, pt: nat, ct: nat, fm: map<Pte, MFrame.MFrame>, flm: map<Pte, MFile.FilePos>,
                         ptes: map<Pte, Entry>, free: set<Ppn>, mem: map<Ppn, Bytes>)
    requires AreasWf(areas) && forall j :: 0 <= j < |areas| && Strict(areas[j]) ==> StrictReady(areas[j], pt, fm)
    ensures AreasForked(areas, pt, ct, [], 0, free, mem, fm, flm, ptes, free, mem)
  {
    assert areas[0..] == areas;
  }

  /** `StrictNeed` of a suffix: the first area's share plus the rest. */
  lemma StrictNeedAt(areas: seq<MapArea>, k: nat)
    requires k < |areas|
    ensures StrictNeed(areas[k..]) == (if Strict(areas[k]) then areas[k].range.end - areas[k].range.start else 0) + StrictNeed(areas[k + 1..])
  {
    assert areas[k..][1..] == areas[k + 1..];
  }

  /**
   * Area `a` of table `pt` forked with `fork_strict` into table `ct`, from
   * the state `fm0` … `mem0`: each page forked strictly, nothing outside
   * the range changed, one frame taken per page, frames in use kept.
   */
  ghost predicate StrictAreaForked(a: MapArea, pt: nat, ct: nat,
                                   fm0: map<Pte, MFrame.MFrame>, flm0: map<Pte, MFile.FilePos>, ptes0: map<Pte, Entry>, free0: set<Ppn>, mem0: map<Ppn, Bytes>,
                                   fm: map<Pte, MFrame.MFrame>, flm: map<Pte, MFile.FilePos>, ptes: map<Pte, Entry>, free: set<Ppn>, mem: map<Ppn, Bytes>)
  {
    && (forall w :: w in a.pages ==> StrictForked(pt, ct, w, fm, ptes, free, mem))
    && ElsewhereSame(fm0, fm, flm0, flm, ptes0, ptes, a.range)
    && Kept(free0, mem0, free, mem) && |free| + (a.range.end - a.range.start) == |free0|
  }

  /** `AreasForkedStep` for a critical area, forked with `fork_strict`. */
  lemma AreasForkedStrictStep(areas: seq<MapArea>, pt: nat, ct: nat, c: seq<MapArea>, k: nat, free0: set<Ppn>, mem0: map<Ppn, Bytes>,
                              fm1: map<Pte, MFrame.MFrame>, flm1: map<Pte, MFile.FilePos>, ptes1: map<Pte, Entry>, free1: set<Ppn>, mem1: map<Ppn, Bytes>,
                              fm: map<Pte, MFrame.MFrame>, flm: map<Pte, MFile.FilePos>, ptes: map<Pte, Entry>, free: set<Ppn>, mem: map<Ppn, Bytes>, na: MapArea)
    requires AreasForked(areas, pt, ct, c, k, free0, mem0, fm1, flm1, ptes1, free1, mem1) && k < |areas| && Strict(areas[k])
    requires na == ForkedArea(areas[k], ct)
    requires StrictAreaForked(areas[k], pt, ct, fm1, flm1, ptes1, free1, mem1, fm, flm, ptes, free, mem)
    ensures AreasForked(areas, pt, ct, c + [na], k + 1, free0, mem0, fm, flm, ptes, free, mem)
  {
    AreasForkedStep(areas, pt, ct, c, k, free0, mem0, fm1, flm1, ptes1, free1, mem1, fm, flm, ptes, free, mem, na);
  }

  /** `AreasForkedStep` for an area forked with `fork`, which takes no frame and writes none. */
  lemma AreasForkedSharedStep(areas: seq<MapArea>, pt: nat, ct: nat, c: seq<MapArea>, k: nat, free0: set<Ppn>, mem0: map<Ppn, Bytes>,
                              fm1: map<Pte, MFrame.MFrame>, flm1: map<Pte, MFile.FilePos>, ptes1: map<Pte, Entry>, free1: set<Ppn>, mem1: map<Ppn, Bytes>,
                              fm: map<Pte, MFrame.MFrame>, flm: map<Pte, MFile.FilePos>, ptes: map<Pte, Entry>, na: MapArea)
    requires AreasForked(areas, pt, ct, c, k, free0, mem0, fm1, flm1, ptes1, free1, mem1) && k < |areas| && !Strict(areas[k])
    requires na == ForkedArea(areas[k], ct)
    requires forall w :: w in areas[k].pages ==> Forked(areas[k].pages[w], pt, ct, w, fm, flm, ptes)
    requires ElsewhereSame(fm1, fm, flm1, flm, ptes1, ptes, areas[k].range)
    ensures AreasForked(areas, pt, ct, c + [na], k + 1, free0, mem0, fm, flm, ptes, free1, mem1)
  {
    AreasForkedStep(areas, pt, ct, c, k, free0, mem0, fm1, flm1, ptes1, free1, mem1, fm, flm, ptes, free1, mem1, na);
  }

  /** A critical area still to fork is ready for `fork_strict`, with a frame to spare for each of its pages. */
  lemma AreasForkedReady(areas: seq<MapArea>, pt: nat, ct: nat, c: seq<MapArea>, k: nat, free0: set<Ppn>, mem0: map<Ppn, Bytes>,
                         fm: map<Pte, MFrame.MFrame>, flm: map<Pte, MFile.FilePos>, ptes: map<Pte, Entry>, free: set<Ppn>, mem: map<Ppn, Bytes>)
    requires AreasForked(areas, pt, ct, c, k, free0, mem0, fm, flm, ptes, free, mem) && k < |areas| && Strict(areas[k])
    requires |free0| >= StrictNeed(areas)
    ensures StrictReady(areas[k], pt, fm) && |free| >= areas[k].range.end - areas[k].range.start
  {
    StrictNeedAt(areas, k);
  }

  /** The child's areas so far hold none of the vpns of the next area, and appending its fork keeps them well formed. */
  lemma ChildAppend(areas: seq<MapArea>, ct: nat, c: seq<MapArea>, k: nat, na: MapArea)
    requires AreasWf(areas) && k < |areas| && |c| == k && AreasWf(c)
    requires forall j :: 0 <= j < k ==> c[j] == ForkedArea(areas[j], ct)
    requires na == ForkedArea(areas[k], ct)
    ensures forall w :: Contains(areas[k].range, w) ==> w !in AllPages(c)
    ensures AreasWf(c + [na]) && AllPages(c + [na]) == AllPages(c) + na.pages
  {
    forall w | Contains(areas[k].range, w) ensures w !in AllPages(c) {
      AllPagesAt(c, w);
      if w in AllPages(c) {
        var j :| 0 <= j < |c| && w in c[j].pages;
        DisjointPages(areas, k, j, w);
      }
    }
    ForkedAreaWf(areas[k], ct);
    forall j | 0 <= j < 1 ensures forall b :: b in c ==> !Intersects(b.range, [na][j].range) {
      forall b | b in c ensures !Intersects(b.range, na.range) {
        var i :| 0 <= i < |c| && c[i] == b;
      }
    }
    AppendWf(c, [na]);
    assert (c + [na])[..|c|] == c;
  }

  /** One area forked (strictly when critical), nothing changed outside its range: `AreasForked` extends to it. */
  lemma AreasForkedStep(areas: seq<MapArea>, pt: nat, ct: nat, c: seq<MapArea>, k: nat, free0: set<Ppn>, mem0: map<Ppn, Bytes>,
                        fm1: map<Pte, MFrame.MFrame>, flm1: map<Pte, MFile.FilePos>, ptes1: map<Pte, Entry>, free1: set<Ppn>, mem1: map<Ppn, Bytes>,
                        fm: map<Pte, MFrame.MFrame>, flm: map<Pte, MFile.FilePos>, ptes: map<Pte, Entry>, free: set<Ppn>, mem: map<Ppn, Bytes>, na: MapArea)
    requires AreasForked(areas, pt, ct, c, k, free0, mem0, fm1, flm1, ptes1, free1, mem1) && k < |areas| && na == ForkedArea(areas[k], ct)
    requires forall w :: w in areas[k].pages ==> AreaForkedAt(areas[k], pt, ct, w, fm, flm, ptes, free, mem)
    requires ElsewhereSame(fm1, fm, flm1, flm, ptes1, ptes, areas[k].range) && Kept(free1, mem1, free, mem)
    requires |free| + (if Strict(areas[k]) then areas[k].range.end - areas[k].range.start else 0) == |free1|
    ensures AreasForked(areas, pt, ct, c + [na], k + 1, free0, mem0, fm, flm, ptes, free, mem)
  {
    var r := areas[k].range;
    forall j, w | 0 <= j < k + 1 && w in areas[j].pages
      ensures AreaForkedAt(areas[j], pt, ct, w, fm, flm, ptes, free, mem)
    {
      if j < k {
        DisjointPages(areas, j, k, w);
        if Strict(areas[j]) {
          StrictForkedStays(pt, ct, w, fm1, fm, ptes1, ptes, free1, mem1, free, mem, r);
        } else {
          ForkedStays(areas[j].pages[w], pt, ct, w, fm1, fm, flm1, flm, ptes1, ptes, r);
        }
      }
    }
    forall j | k + 1 <= j < |areas| && Strict(areas[j]) ensures StrictReady(areas[j], pt, fm) {
      forall w | w in areas[j].pages ensures Pte(pt, w) in fm && fm[Pte(pt, w)].Ownd? {
        DisjointPages(areas, j, k, w);
      }
    }
    StrictNeedAt(areas, k);
    assert forall j :: 0 <= j < k + 1 ==> (c + [na])[j] == ForkedArea(areas[j], ct);
  }

  /** Taking one frame out of a set shrinks it by one. */
  lemma FreeTakesExactlyOne(free0: set<Ppn>, free: set<Ppn>, f: Ppn)
    requires f in free0 && free == free0 - {f}
    ensures |free| + 1 == |free0|
  {
    assert free0 == free + {f};
  }

  class MemorySet {
    /** The id of this address space's page table. */
    const table: nat
    var areas: seq<MapArea>
    const frames: MFrame.MFrameManager
    const files: MFile.MFileManager
    const hw: Machine

    /** The managers and the machine agree with each other, and this table's pages are `pages`. */
    ghost predicate Holds(pages: map<nat, Page>)
      reads this, frames, files, hw
    {
      && frames.hw == hw && files.hw == hw
      && frames.Valid() && files.Valid()
      && Apart(frames.mapping, files.files, files.mapping)
      && Tracked(pages, table, frames.mapping, files.mapping, hw.ptes)
    }

    ghost predicate Valid()
      reads this, frames, files, hw
    {
      AreasWf(areas) && Holds(AllPages(areas))
    }

    /** `new_bare`: an empty address space over a page table with no entries yet. */
    constructor (table: nat, frames: MFrame.MFrameManager, files: MFile.MFileManager, hw: Machine)
      requires frames.hw == hw && files.hw == hw && frames.Valid() && files.Valid()
      requires Apart(frames.mapping, files.files, files.mapping)
      requires forall p :: p in hw.ptes ==> p.table != table
      ensures Valid() && areas == [] && this.table == table
      ensures this.frames == frames && this.files == files && this.hw == hw
    {
      this.table := table;
      this.frames := frames;
      this.files := files;
      this.hw := hw;
      areas := [];
    }

    /** Dropping one page: its handle's `drop` untracks its PTE and leaves it not present. */
    method DropPage(ghost pages: map<nat, Page>, v: nat, page: Page)
      requires Holds(pages) && v in pages && pages[v] == page
      modifies frames, files, hw
      ensures Holds(pages - {v})
      ensures frames.mapping == old(frames.mapping) - {page.pte} && files.mapping == old(files.mapping) - {page.pte}
      ensures !hw.Present(page.pte)
    {
      if page.IdentityPage? {
        DropIdentityPage(pages, v, page.pte);
      } else if page.FramedPage? {
        DropFramedPage(pages, v, page.pte);
      } else {
        DropFilePage(pages, v, page.pte);
      }
    }

    /** What the managers' `unmap`s leave behind keeps `Holds` for the other pages. */
    lemma DropKeeps(pages: map<nat, Page>, v: nat, fm0: map<Pte, MFrame.MFrame>, flm0: map<Pte, MFile.FilePos>, ptes0: map<Pte, Entry>)
      requires Tracked(pages, table, fm0, flm0, ptes0) && v in pages
      requires frames.hw == hw && files.hw == hw && frames.Valid() && files.Valid() && Apart(frames.mapping, files.files, files.mapping)
      requires frames.mapping == fm0 - {pages[v].pte} && files.mapping == flm0 - {pages[v].pte} && !hw.Present(pages[v].pte)
      requires forall q :: q in hw.ptes <==> q in ptes0
      requires forall q :: q in ptes0 && q != pages[v].pte ==> hw.ptes[q] == ptes0[q]
      ensures Holds(pages - {v})
    {
      TrackedDrop(pages, table, fm0, flm0, ptes0, frames.mapping, files.mapping, hw.ptes, v);
    }

    /** `MIdentityHandle::drop`: invalidate the PTE. */
    method DropIdentityPage(ghost pages: map<nat, Page>, v: nat, p: Pte)
      requires frames.hw == hw && files.hw == hw && frames.Valid() && files.Valid() && p in hw.ptes
      requires Apart(frames.mapping, files.files, files.mapping) && p !in frames.mapping && p !in files.mapping
      requires Tracked(pages, table, frames.mapping, files.mapping, hw.ptes) && v in pages && pages[v].pte == p
      modifies hw
      ensures frames.Valid() && files.Valid() && Apart(frames.mapping, files.files, files.mapping) && !hw.Present(p)
      ensures frames.mapping == old(frames.mapping) - {p} && files.mapping == old(files.mapping) - {p}
      ensures Holds(pages - {v})
    {
      assert frames.mapping - {p} == frames.mapping && files.mapping - {p} == files.mapping;
      hw.Invalidate(p);
      MFrame.Stable(frames.mapping, frames.rc, old(hw.ptes), hw.free, hw.mem, hw.ptes, hw.free, hw.mem);
      MFile.Stable(files.files, files.mapping, files.rmap, old(hw.ptes), hw.free, hw.mem, hw.ptes, hw.free, hw.mem);
      DropKeeps(pages, v, old(frames.mapping), old(files.mapping), old(hw.ptes));
    }

    /** `MFrameHandle::drop`: the frame manager's `unmap`. */
    method DropFramedPage(ghost pages: map<nat, Page>, v: nat, p: Pte)
      requires frames.hw == hw && files.hw == hw && frames.Valid() && files.Valid() && p in frames.mapping
      requires Apart(frames.mapping, files.files, files.mapping)
      requires Tracked(pages, table, frames.mapping, files.mapping, hw.ptes) && v in pages && pages[v].pte == p
      modifies frames, hw
      ensures frames.Valid() && files.Valid() && Apart(frames.mapping, files.files, files.mapping)
      ensures frames.mapping == old(frames.mapping) - {p} && files.mapping == old(files.mapping) - {p} && !hw.Present(p)
      ensures Holds(pages - {v})
    {
      assert frames.mapping[p].Lazy? ==> hw.ptes[p].flags & FLAG_V == 0;
      assert !frames.mapping[p].Lazy? ==> frames.mapping[p].frame !in MFile.LoadedFrames(files.files);
      assert files.mapping - {p} == files.mapping;
      frames.Unmap(p);
      MFile.Stable(files.files, files.mapping, files.rmap, old(hw.ptes), old(hw.free), hw.mem, hw.ptes, hw.free, hw.mem);
      DropKeeps(pages, v, old(frames.mapping), old(files.mapping), old(hw.ptes));
    }

    /** `MFileHandle::drop`: the bridge's `unmap`. */
    method DropFilePage(ghost pages: map<nat, Page>, v: nat, p: Pte)
      requires frames.hw == hw && files.hw == hw && frames.Valid() && files.Valid() && p in files.mapping
      requires Apart(frames.mapping, files.files, files.mapping)
      requires Tracked(pages, table, frames.mapping, files.mapping, hw.ptes) && v in pages && pages[v].pte == p
      modifies files, hw
      ensures frames.Valid() && files.Valid() && Apart(frames.mapping, files.files, files.mapping)
      ensures frames.mapping == old(frames.mapping) - {p} && files.mapping == old(files.mapping) - {p} && !hw.Present(p)
      ensures Holds(pages - {v})
    {
      assert old(files.files[files.mapping[p]]).None? ==> !hw.Present(p);
      assert frames.mapping - {p} == frames.mapping;
      files.Unmap(p);
      MFrame.Stable(frames.mapping, frames.rc, old(hw.ptes), hw.free, hw.mem, hw.ptes, hw.free, hw.mem);
      DropKeeps(pages, v, old(frames.mapping), old(files.mapping), old(hw.ptes));
    }

    /**
     * The state part way through dropping pages: the pages at `done` are
     * gone from `pages` and from both managers' tables, which were `fm0`
     * and `flm0` before.
     */
    ghost predicate DroppedFrom(pages: map<nat, Page>, done: set<nat>, fm0: map<Pte, MFrame.MFrame>, flm0: map<Pte, MFile.FilePos>)
      reads this, frames, files, hw
    {
      && Holds(Minus(pages, done))
      && frames.mapping == Unmapped(fm0, table, done)
      && files.mapping == Unmapped(flm0, table, done)
    }

    /** Dropping one more page. */
    method DropStep(ghost pages: map<nat, Page>, ghost done: set<nat>, ghost fm0: map<Pte, MFrame.MFrame>, ghost flm0: map<Pte, MFile.FilePos>,
                    v: nat, page: Page)
      requires DroppedFrom(pages, done, fm0, flm0) && v in pages && v !in done && pages[v] == page
      modifies frames, files, hw
      ensures DroppedFrom(pages, done + {v}, fm0, flm0)
    {
      ghost var cur := Minus(pages, done);
      assert cur[v] == page;
      DropPage(cur, v, page);
      assert cur - {v} == Minus(pages, done + {v});
      UnmappedOne(fm0, table, done, v);
      UnmappedOne(flm0, table, done, v);
    }

    /**
     * Dropping a removed area's pages: each page's PTE is untracked and
     * left not present.
     */
    method DropArea(ghost pages: map<nat, Page>, ghost done: set<nat>, ghost fm0: map<Pte, MFrame.MFrame>, ghost flm0: map<Pte, MFile.FilePos>,
                    dying: map<nat, Page>)
      requires DroppedFrom(pages, done, fm0, flm0)
      requires forall v :: v in dying ==> v in pages && pages[v] == dying[v] && v !in done
      modifies frames, files, hw
      ensures DroppedFrom(pages, done + dying.Keys, fm0, flm0)
    {
      var rest := dying.Keys;
      ghost var gone := done;
      while rest != {}
        invariant rest + gone == done + dying.Keys && rest !! gone
        invariant DroppedFrom(pages, gone, fm0, flm0)
        decreases rest
      {
        var v :| v in rest;
        MoveOne(rest, gone, done + dying.Keys, v);
        DropStep(pages, gone, fm0, flm0, v, dying[v]);
        rest := rest - {v};
        gone := gone + {v};
      }
      assert gone == done + dying.Keys;
    }

    /**
     * One round of `munmap`'s loop: area `olds[i]` is cut around the
     * target, its pieces outside are kept and its pages inside dropped.
     */
    method MunmapOne(olds: seq<MapArea>, i: nat, target: Range, ghost fm0: map<Pte, MFrame.MFrame>, ghost flm0: map<Pte, MFile.FilePos>)
      requires AreasWf(olds) && RangeWf(target) && i < |olds|
      requires areas == MunmapAreas(olds[..i], target)
      requires DroppedFrom(AllPages(olds), Dropped(AllPages(olds[..i]), target), fm0, flm0)
      modifies this, frames, files, hw
      ensures areas == MunmapAreas(olds[..i + 1], target)
      ensures DroppedFrom(AllPages(olds), Dropped(AllPages(olds[..i + 1]), target), fm0, flm0)
    {
      MunmapStep(olds, i, target);
      var kept, dying := CutArea(olds[i], target);
      areas := areas + kept;
      DropArea(AllPages(olds), Dropped(AllPages(olds[..i]), target), fm0, flm0, dying);
    }

    /**
     * `munmap(start_va, end_va)`: -1, with nothing changed, if the range
     * holds a critical page or a page no area has; otherwise every area is
     * cut around the range, the pages inside it are dropped, and 0.
     */
    method Munmap(startVa: nat, endVa: nat) returns (r: int)
      requires Valid() && startVa <= endVa
      modifies this, frames, files, hw
      ensures Valid()
      ensures var target := VpnRange(startVa, endVa);
        r == -1 <==> AnyCritical(target) || exists v :: Contains(target, v) && v !in old(AllPages(areas))
      ensures r == -1 ==> areas == old(areas) && unchanged(frames, files, hw)
      ensures r != -1 ==> r == 0
      ensures r == 0 ==> var target := VpnRange(startVa, endVa);
        && areas == MunmapAreas(old(areas), target)
        && frames.mapping == Unmapped(old(frames.mapping), table, RangeSet(target))
        && files.mapping == Unmapped(old(files.mapping), table, RangeSet(target))
    {
      var target := VpnRange(startVa, endVa);
      HasUnmappedIff(areas, target);
      if AnyCritical(target) {
        return -1;
      }
      if HasUnmapped(areas, target) {
        return -1;
      }
      MunmapCut(target);
      return 0;
    }

    /** `munmap`'s loop over the areas, for a target every page of which is mapped. */
    method MunmapCut(target: Range)
      requires Valid() && RangeWf(target) && forall v :: Contains(target, v) ==> v in AllPages(areas)
      modifies this, frames, files, hw
      ensures Valid() && areas == MunmapAreas(old(areas), target)
      ensures frames.mapping == Unmapped(old(frames.mapping), table, RangeSet(target))
      ensures files.mapping == Unmapped(old(files.mapping), table, RangeSet(target))
    {
      var olds := areas;
      MunmapLoop(olds, target);
      MunmapAllGone(olds, target);
      MunmapKeeps(olds, target);
      assert olds[..|olds|] == olds;
      MunmapCovered(olds, target, old(frames.mapping), old(files.mapping), table, old(hw.ptes));
    }

    /** The loop itself: each area of `olds` in turn cut around the target, the pages inside dropped. */
    method MunmapLoop(olds: seq<MapArea>, target: Range)
      requires AreasWf(olds) && RangeWf(target) && areas == olds && Holds(AllPages(olds))
      modifies this, frames, files, hw
      ensures areas == MunmapAreas(olds[..|olds|], target)
      ensures DroppedFrom(AllPages(olds), Dropped(AllPages(olds[..|olds|]), target), old(frames.mapping), old(files.mapping))
    {
      assert olds[..0] == [];
      assert Dropped(AllPages(olds[..0]), target) == {};
      assert Minus(AllPages(olds), {}) == AllPages(olds);
      UnmappedNone(frames.mapping, table);
      UnmappedNone(files.mapping, table);
      areas := [];
      var i := 0;
      while i < |olds|
        invariant i <= |olds|
        invariant areas == MunmapAreas(olds[..i], target)
        invariant DroppedFrom(AllPages(olds), Dropped(AllPages(olds[..i]), target), old(frames.mapping), old(files.mapping))
      {
        MunmapOne(olds, i, target, old(frames.mapping), old(files.mapping));
        i := i + 1;
      }
    }

    /** `MIdentityHandle::map` on the entry `create_force` gives: the PTE is set to `e`. */
    method AddIdentityPage(ghost u: map<nat, Page>, pages: map<nat, Page>, v: nat, e: Entry)
      returns (pages': map<nat, Page>)
      requires Holds(u + pages) && v !in u && v !in pages
      modifies hw
      ensures pages' == pages[v := NewPage(Identity, Pte(table, v))] && Holds(u + pages')
      ensures hw.ptes == old(hw.ptes)[Pte(table, v) := e] && hw.free == old(hw.free) && hw.mem == old(hw.mem)
    {
      var p := Pte(table, v);
      hw.CreateForce(p);
      ghost var e0 := hw.ptes[p];
      hw.SetPte(p, e);
      UpdateTwice(old(hw.ptes), p, e0, e);
      MFrame.Untouched(frames.mapping, frames.rc, old(hw.ptes), hw.free, hw.mem, p, e);
      MFile.Untouched(files.files, files.mapping, files.rmap, old(hw.ptes), hw.free, hw.mem, p, e);
      pages' := pages[v := NewPage(Identity, p)];
      TrackedAdd(u, pages, table, frames.mapping, files.mapping, old(hw.ptes), frames.mapping, files.mapping, hw.ptes, v, NewPage(Identity, p), pages');
    }

    /** `Page::framed_lazy` on the entry `create_force` gives: tracked lazy, not present. */
    method AddFramedPage(ghost u: map<nat, Page>, pages: map<nat, Page>, v: nat)
      returns (pages': map<nat, Page>)
      requires Holds(u + pages) && v !in u && v !in pages
      modifies frames, hw
      ensures pages' == pages[v := NewPage(Framed, Pte(table, v))] && Holds(u + pages')
      ensures frames.mapping == old(frames.mapping)[Pte(table, v) := MFrame.Lazy]
      ensures forall q :: q in old(hw.ptes) && q != Pte(table, v) ==> q in hw.ptes && hw.ptes[q] == old(hw.ptes)[q]
    {
      var p := Pte(table, v);
      hw.CreateForce(p);
      ghost var e0 := hw.ptes[p];
      MFrame.Untouched(frames.mapping, frames.rc, old(hw.ptes), hw.free, hw.mem, p, e0);
      MFile.Untouched(files.files, files.mapping, files.rmap, old(hw.ptes), hw.free, hw.mem, p, e0);
      frames.MapLazy(p);
      UpdateTwice(old(hw.ptes), p, e0, Invalidated(e0));
      MFile.Untouched(files.files, files.mapping, files.rmap, old(hw.ptes), hw.free, hw.mem, p, Invalidated(e0));
      pages' := pages[v := NewPage(Framed, p)];
      TrackedAdd(u, pages, table, old(frames.mapping), files.mapping, old(hw.ptes), frames.mapping, files.mapping, hw.ptes, v, NewPage(Framed, p), pages');
    }

    /**
     * `Page::file_shared` / `Page::file_priv` on the entry `create_force`
     * gives: the bridge maps it to the file page `k` pages past `fileOffset`,
     * the intended offset (as written `map` passes `k` pages past 0; see
     * `FilePtesAsWritten`).
     */
    method AddFilePage(ghost u: map<nat, Page>, pages: map<nat, Page>, v: nat, t: MapType, inode: nat, fileOffset: nat, k: nat)
      returns (pages': map<nat, Page>)
      requires Holds(u + pages) && v !in u && v !in pages && IsFileType(t) && PageAligned(fileOffset)
      modifies files, hw
      ensures pages' == pages[v := NewPage(t, Pte(table, v))] && Holds(u + pages')
      ensures files.mapping == old(files.mapping)[Pte(table, v) := MFile.FilePos(inode, PagesPast(fileOffset, k))]
      ensures forall q :: q in old(hw.ptes) && q != Pte(table, v) ==> q in hw.ptes && hw.ptes[q] == old(hw.ptes)[q]
    {
      var offset := PagesPast(fileOffset, k);
      PagesPastAligned(fileOffset, k);
      var p := Pte(table, v);
      hw.CreateForce(p);
      ghost var e0 := hw.ptes[p];
      MFrame.Untouched(frames.mapping, frames.rc, old(hw.ptes), hw.free, hw.mem, p, e0);
      MFile.Untouched(files.files, files.mapping, files.rmap, old(hw.ptes), hw.free, hw.mem, p, e0);
      FileMapApart(frames.mapping, files.files, files.mapping, p, MFile.FilePos(inode, offset));
      files.HandleMap(p, inode, offset);
      pages' := pages[v := NewPage(t, p)];
      TrackedAdd(u, pages, table, frames.mapping, old(files.mapping), old(hw.ptes), frames.mapping, files.mapping, hw.ptes, v, NewPage(t, p), pages');
    }

    /**
     * The loop of `MapArea::map`: a page of the area's kind for each vpn of
     * `range`, in ascending order. File page `v` maps the file at the
     * file `v - start` pages past the area's offset (the intended offset,
     * `FilePageOffset`, by `FilePageOffsetPages`; `FilePtesAsWritten` is the
     * offset as written).
     */
    method MapPages(ghost u: map<nat, Page>, range: Range, t: MapType, perm: bv8, file: Option<nat>, fileOffset: nat)
      returns (pages: map<nat, Page>)
      requires Holds(u) && RangeWf(range) && forall v :: Contains(range, v) ==> v !in u
      requires IsFileType(t) ==> file.Some? && PageAligned(fileOffset)
      modifies frames, files, hw
      ensures pages == NewPages(t, table, range) && Holds(u + pages)
      ensures frames.mapping == old(frames.mapping) + (if t == Framed then LazyPtes(table, range) else map[])
      ensures files.mapping == old(files.mapping) + (if IsFileType(t) then FilePtes(table, range, file.value, fileOffset) else map[])
      ensures t == Identity ==> forall v :: Contains(range, v) ==> Pte(table, v) in hw.ptes && hw.ptes[Pte(table, v)] == Entry(v, perm | FLAG_V)
    {
      EmptyStart(u, frames.mapping, files.mapping, t, table, range.start, file, fileOffset);
      pages := MapLoop(u, range, t, perm, file, fileOffset);
    }

    /** `MapArea::map`'s loop proper, from no page of `range` mapped yet to all of them. */
    method MapLoop(ghost u: map<nat, Page>, range: Range, t: MapType, perm: bv8, file: Option<nat>, fileOffset: nat)
      returns (pages: map<nat, Page>)
      requires RangeWf(range) && forall v :: Contains(range, v) ==> v !in u
      requires IsFileType(t) ==> file.Some? && PageAligned(fileOffset)
      requires PartlyMapped(u, map[], range.start, range.start, t, perm, file, fileOffset, frames.mapping, files.mapping)
      modifies frames, files, hw
      ensures PartlyMapped(u, pages, range.start, range.end, t, perm, file, fileOffset, old(frames.mapping), old(files.mapping))
    {
      ghost var fm0, flm0 := frames.mapping, files.mapping;
      pages := map[];
      var v := range.start;
      while v < range.end
        invariant range.start <= v <= range.end
        invariant PartlyMapped(u, pages, range.start, v, t, perm, file, fileOffset, fm0, flm0)
      {
        pages, v := MapStep(u, pages, range, v, t, perm, file, fileOffset, fm0, flm0);
      }
    }

    /**
     * Part way through `MapArea::map`: `pages` holds the pages of the vpns
     * from `s` to `v`, created and tracked on top of the pages `u` and the
     * managers' tables `fm0` and `flm0` from before.
     */
    ghost predicate PartlyMapped(u: map<nat, Page>, pages: map<nat, Page>, s: nat, v: nat, t: MapType, perm: bv8, file: Option<nat>, fileOffset: nat,
                                 fm0: map<Pte, MFrame.MFrame>, flm0: map<Pte, MFile.FilePos>)
      reads this, frames, files, hw
    {
      && (IsFileType(t) ==> file.Some?)
      && pages == NewPages(t, table, Range(s, v))
      && Holds(u + pages)
      && frames.mapping == fm0 + (if t == Framed then LazyPtes(table, Range(s, v)) else map[])
      && files.mapping == flm0 + (if IsFileType(t) then FilePtes(table, Range(s, v), file.value, fileOffset) else map[])
      && (t == Identity ==> forall w :: s <= w < v ==> Pte(table, w) in hw.ptes && hw.ptes[Pte(table, w)] == Entry(w, perm | FLAG_V))
    }

    /** One round of `MapArea::map`'s loop: the page of `v`, by the area type, inserted into the area's pages; `next` is the vpn after it. */
    method MapStep(ghost u: map<nat, Page>, pages: map<nat, Page>, range: Range, v: nat, t: MapType, perm: bv8, file: Option<nat>, fileOffset: nat,
                   ghost fm0: map<Pte, MFrame.MFrame>, ghost flm0: map<Pte, MFile.FilePos>)
      returns (pages': map<nat, Page>, next: nat)
      requires range.start <= v < range.end && v !in u
      requires IsFileType(t) ==> file.Some? && PageAligned(fileOffset)
      requires PartlyMapped(u, pages, range.start, v, t, perm, file, fileOffset, fm0, flm0)
      modifies frames, files, hw
      ensures next == v + 1 && PartlyMapped(u, pages', range.start, next, t, perm, file, fileOffset, fm0, flm0)
    {
      if t == Identity {
        pages', next := MapIdentityStep(u, pages, range.start, v, perm, file, fileOffset, fm0, flm0);
      } else if t == Framed {
        pages', next := MapFramedStep(u, pages, range.start, v, perm, file, fileOffset, fm0, flm0);
      } else {
        pages', next := MapFileStep(u, pages, range.start, v, t, perm, file, fileOffset, fm0, flm0);
      }
    }

    /** `MIdentityHandle::map` for `v`: the entry maps `v` itself with the area's permission. */
    method MapIdentityStep(ghost u: map<nat, Page>, pages: map<nat, Page>, s: nat, v: nat, perm: bv8, file: Option<nat>, fileOffset: nat,
                           ghost fm0: map<Pte, MFrame.MFrame>, ghost flm0: map<Pte, MFile.FilePos>)
      returns (pages': map<nat, Page>, next: nat)
      requires s <= v && v !in u
      requires PartlyMapped(u, pages, s, v, Identity, perm, file, fileOffset, fm0, flm0)
      modifies hw
      ensures next == v + 1 && PartlyMapped(u, pages', s, next, Identity, perm, file, fileOffset, fm0, flm0)
    {
      next := v + 1;
      NewPagesFresh(Identity, table, s, v, pages);
      pages' := AddIdentityPage(u, pages, v, Entry(v, perm | FLAG_V));
      NewPagesNext(Identity, table, s, v, next, pages, pages');
      IdentityNext(Identity, old(hw.ptes), hw.ptes, table, s, v, next, perm);
    }

    /** `Page::framed_lazy` for `v`. */
    method MapFramedStep(ghost u: map<nat, Page>, pages: map<nat, Page>, s: nat, v: nat, perm: bv8, file: Option<nat>, fileOffset: nat,
                         ghost fm0: map<Pte, MFrame.MFrame>, ghost flm0: map<Pte, MFile.FilePos>)
      returns (pages': map<nat, Page>, next: nat)
      requires s <= v && v !in u
      requires PartlyMapped(u, pages, s, v, Framed, perm, file, fileOffset, fm0, flm0)
      modifies frames, hw
      ensures next == v + 1 && PartlyMapped(u, pages', s, next, Framed, perm, file, fileOffset, fm0, flm0)
    {
      next := v + 1;
      NewPagesFresh(Framed, table, s, v, pages);
      pages' := AddFramedPage(u, pages, v);
      NewPagesNext(Framed, table, s, v, next, pages, pages');
      LazyNext(Framed, fm0, old(frames.mapping), frames.mapping, table, s, v, next);
    }

    /** `Page::file_shared` / `Page::file_priv` for `v`, at the file page `v - s` pages past `fileOffset`. */
    method MapFileStep(ghost u: map<nat, Page>, pages: map<nat, Page>, s: nat, v: nat, t: MapType, perm: bv8, file: Option<nat>, fileOffset: nat,
                       ghost fm0: map<Pte, MFrame.MFrame>, ghost flm0: map<Pte, MFile.FilePos>)
      returns (pages': map<nat, Page>, next: nat)
      requires s <= v && v !in u && IsFileType(t) && file.Some? && PageAligned(fileOffset)
      requires PartlyMapped(u, pages, s, v, t, perm, file, fileOffset, fm0, flm0)
      modifies files, hw
      ensures next == v + 1 && PartlyMapped(u, pages', s, next, t, perm, file, fileOffset, fm0, flm0)
    {
      next := v + 1;
      NewPagesFresh(t, table, s, v, pages);
      var k := v - s;
      pages' := AddFilePage(u, pages, v, t, file.value, fileOffset, k);
      NewPagesNext(t, table, s, v, next, pages, pages');
      FileNext(t, flm0, old(files.mapping), files.mapping, table, s, v, next, file.value, fileOffset, k);
    }

    /** `MapArea::map` followed by `new_area`: the new area appended, its pages created as `MapPages` does. */
    method MapNew(range: Range, t: MapType, perm: bv8, file: Option<nat>, fileOffset: nat)
      requires Valid() && RangeWf(range)
      requires forall i :: 0 <= i < |areas| ==> !Intersects(areas[i].range, range)
      requires if IsFileType(t) then file.Some? && PageAligned(fileOffset) else file.None? && fileOffset == 0
      modifies this, frames, files, hw
      ensures Valid()
      ensures areas == old(areas) + [MapArea(range, NewPages(t, table, range), t, perm, file, fileOffset)]
      ensures frames.mapping == old(frames.mapping) + (if t == Framed then LazyPtes(table, range) else map[])
      ensures files.mapping == old(files.mapping) + (if IsFileType(t) then FilePtes(table, range, file.value, fileOffset) else map[])
      ensures t == Identity ==> forall v :: Contains(range, v) ==> Pte(table, v) in hw.ptes && hw.ptes[Pte(table, v)] == Entry(v, perm | FLAG_V)
    {
      MissedRange(areas, range);
      var pages := MapPages(AllPages(areas), range, t, perm, file, fileOffset);
      var a := MapArea(range, pages, t, perm, file, fileOffset);
      AppendNew(areas, a, table);
      areas := areas + [a];
    }

    /**
     * `mmap(start_va, end_va, permission)`: -1, with nothing changed, if
     * the range holds a critical page or meets an existing area; otherwise
     * a new framed area of lazy pages over the range, and 0.
     */
    method Mmap(startVa: nat, endVa: nat, perm: bv8) returns (r: int)
      requires Valid() && startVa <= endVa
      modifies this, frames, files, hw
      ensures Valid()
      ensures var target := VpnRange(startVa, endVa);
        r == -1 <==> AnyCritical(target) || exists i :: 0 <= i < |old(areas)| && Intersects(old(areas)[i].range, target)
      ensures r != -1 ==> r == 0
      ensures r == -1 ==> areas == old(areas) && unchanged(frames, files, hw)
      ensures r == 0 ==> var target := VpnRange(startVa, endVa);
        && areas == old(areas) + [MapArea(target, NewPages(Framed, table, target), Framed, perm, None, 0)]
        && frames.mapping == old(frames.mapping) + LazyPtes(table, target)
        && files.mapping == old(files.mapping)
    {
      var target := VpnRange(startVa, endVa);
      if AnyCritical(target) || HasMapped(areas, target) {
        r := -1;
      } else {
        MapNew(target, Framed, perm, None, 0);
        PlusNone(old(files.mapping));
        r := 0;
      }
    }

    /** The fault's access is allowed by the PTE of `v` now: present, and writable for a store. */
    ghost predicate Resolved(v: nat, kind: FaultType)
      reads this, hw
    {
      && Pte(table, v) in hw.ptes
      && hw.ptes[Pte(table, v)].flags & FLAG_V != 0
      && (kind == StoreFault ==> hw.ptes[Pte(table, v)].flags & FLAG_W != 0)
    }

    /** `Page::load(flags)` on a framed page: the frame manager's `load`. */
    method LoadFramed(ghost pages: map<nat, Page>, v: nat, flags: bv8)
      requires Holds(pages) && v in pages && pages[v].FramedPage? && flags & FLAG_V != 0 && hw.free != {}
      requires !frames.mapping[Pte(table, v)].Cow?
      modifies frames, hw
      ensures Holds(pages) && hw.Present(Pte(table, v)) && frames.rc == old(frames.rc)
      ensures var p := Pte(table, v);
        && p in frames.mapping && frames.mapping[p].Ownd? && frames.mapping == old(frames.mapping)[p := frames.mapping[p]]
        && (old(frames.mapping[p]).Ownd? ==> frames.mapping == old(frames.mapping) && unchanged(hw))
        && (old(frames.mapping[p]).Lazy? ==>
              && hw.ptes == old(hw.ptes)[p := Entry(frames.mapping[p].frame, flags)]
              && hw.mem == old(hw.mem)[frames.mapping[p].frame := ZeroPage()])
    {
      var p := Pte(table, v);
      ghost var fm0, ptes0, free0, mem0 := frames.mapping, hw.ptes, hw.free, hw.mem;
      frames.Load(p, flags);
      if fm0[p].Lazy? {
        MFile.FreeNotLoaded(files.files, files.mapping, files.rmap, ptes0, free0, mem0, frames.mapping[p].frame);
        MFile.Stable(files.files, files.mapping, files.rmap, ptes0, free0, mem0, hw.ptes, hw.free, hw.mem);
      }
      TrackedFrame(pages, table, fm0, files.mapping, ptes0, frames.mapping, files.mapping, hw.ptes);
    }

    /** `Page::load(flags)` on a file page: the bridge's `load`, which points the PTE at the file's frame. */
    method LoadFile(ghost pages: map<nat, Page>, v: nat, flags: bv8)
      requires Holds(pages) && v in pages && IsFilePage(pages[v]) && hw.free != {}
      modifies files, hw
      ensures Holds(pages) && files.mapping == old(files.mapping) && files.rmap == old(files.rmap) && files.disk == old(files.disk)
      ensures var p := Pte(table, v);
        var pos := files.mapping[p];
        && pos in files.files && files.files[pos].Some?
        && hw.ptes == old(hw.ptes)[p := Entry(files.files[pos].value, flags)]
        && (old(files.files)[pos].Some? ==> files.files == old(files.files) && hw.free == old(hw.free) && hw.mem == old(hw.mem))
        && (old(files.files)[pos].None? ==>
              && files.files == old(files.files)[pos := files.files[pos]]
              && files.files[pos].value in old(hw.free) && hw.free == old(hw.free) - {files.files[pos].value}
              && hw.mem == old(hw.mem)[files.files[pos].value := MFile.LoadedPageAsWritten(files.disk, pos)])
    {
      var p := Pte(table, v);
      ghost var flm0, ptes0, free0, mem0 := files.mapping, hw.ptes, hw.free, hw.mem;
      ghost var files0 := files.files;
      files.Load(p, flags);
      var pos := files.mapping[p];
      MFrame.Stable(frames.mapping, frames.rc, ptes0, free0, mem0, hw.ptes, hw.free, hw.mem);
      if files0[pos].None? {
        ApartLoaded(frames.mapping, files0, files.mapping, pos, files.files[pos].value);
      }
      TrackedFrame(pages, table, frames.mapping, flm0, ptes0, frames.mapping, files.mapping, hw.ptes);
    }

    /**
     * `Page::load(flags)`: nothing for an identity page, the frame
     * manager's `load` for a framed one, the bridge's `load` for a file
     * page, with W cleared for a private one.
     */
    method LoadPage(ghost pages: map<nat, Page>, v: nat, page: Page, flags: bv8)
      requires Holds(pages) && v in pages && pages[v] == page && flags & FLAG_V != 0 && hw.free != {}
      requires page.FramedPage? ==> !frames.mapping[Pte(table, v)].Cow?
      modifies frames, files, hw
      ensures Holds(pages)
      ensures ChangedAt(old(hw.ptes), hw.ptes, Pte(table, v))
      ensures page.IdentityPage? ==> unchanged(frames, files, hw)
      ensures !page.IdentityPage? ==> hw.Present(Pte(table, v))
      ensures page.FramedPage? ==> unchanged(files) && frames.mapping[Pte(table, v)].Ownd?
      ensures page.FramedPage? && old(frames.mapping[Pte(table, v)]).Lazy? ==> hw.ptes[Pte(table, v)].flags == flags
      ensures page.FileSharedPage? ==> unchanged(frames) && hw.ptes[Pte(table, v)].flags == flags
      ensures page.FilePrivPage? ==> unchanged(frames) && hw.ptes[Pte(table, v)].flags == flags & !FLAG_W
      ensures page.FilePrivPage? ==> |hw.free| + 1 >= |old(hw.free)|
    {
      match page {
        case IdentityPage(_) =>
          assert hw.ptes == hw.ptes[Pte(table, v) := hw.ptes[Pte(table, v)]];
        case FramedPage(_) =>
          LoadFramed(pages, v, flags);
        case FileSharedPage(_) =>
          LoadFile(pages, v, flags);
        case FilePrivPage(_) =>
          ghost var free0 := hw.free;
          LoadFile(pages, v, flags & !FLAG_W);
          FreeTakesOne(free0, hw.free, files.files[files.mapping[Pte(table, v)]].value);
      }
    }

    /**
     * `Page::cown`: true, after the frame manager's `cown`, exactly for a
     * framed page that is COW; the page then owns a frame holding what the
     * shared one held, writable.
     */
    method CownPage(ghost pages: map<nat, Page>, v: nat, page: Page) returns (b: bool)
      requires Holds(pages) && v in pages && pages[v] == page && hw.free != {}
      modifies frames, hw
      ensures Holds(pages)
      ensures b <==> page.FramedPage? && old(frames.mapping[Pte(table, v)]).Cow?
      ensures !b ==> unchanged(frames, hw)
      ensures ChangedAt(old(hw.ptes), hw.ptes, Pte(table, v))
      ensures b ==> var p := Pte(table, v);
        && p in frames.mapping && frames.mapping[p].Ownd? && frames.mapping == old(frames.mapping)[p := frames.mapping[p]]
        && hw.ptes[p] == Entry(frames.mapping[p].frame, old(hw.ptes[p]).flags | FLAG_W)
        && hw.mem[frames.mapping[p].frame] == old(hw.mem)[old(frames.mapping[p]).frame]
    {
      var p := Pte(table, v);
      if !page.FramedPage? || !frames.IsCow(p) {
        assert hw.ptes == hw.ptes[p := hw.ptes[p]];
        return false;
      }
      if frames.rc[frames.mapping[p].frame] > 1 {
        CownCopyPage(pages, v);
      } else {
        CownSolePage(pages, v);
      }
      b := true;
    }

    /** The frame manager's `cown` of a COW page whose frame others share: a copy in a new frame. */
    method CownCopyPage(ghost pages: map<nat, Page>, v: nat)
      requires Holds(pages) && v in pages && pages[v].FramedPage? && hw.free != {}
      requires frames.mapping[Pte(table, v)].Cow? && frames.rc[frames.mapping[Pte(table, v)].frame] > 1
      modifies frames, hw
      ensures Holds(pages) && ChangedAt(old(hw.ptes), hw.ptes, Pte(table, v))
      ensures var p := Pte(table, v);
        && p in frames.mapping && frames.mapping[p].Ownd? && frames.mapping == old(frames.mapping)[p := frames.mapping[p]]
        && hw.ptes[p] == Entry(frames.mapping[p].frame, old(hw.ptes[p]).flags | FLAG_W)
        && hw.mem[frames.mapping[p].frame] == old(hw.mem)[old(frames.mapping[p]).frame]
    {
      var p := Pte(table, v);
      ghost var fm0, ptes0, free0, mem0 := frames.mapping, hw.ptes, hw.free, hw.mem;
      frames.CownCopy(p);
      MFile.FreeNotLoaded(files.files, files.mapping, files.rmap, ptes0, free0, mem0, frames.mapping[p].frame);
      MFile.Stable(files.files, files.mapping, files.rmap, ptes0, free0, mem0, hw.ptes, hw.free, hw.mem);
      TrackedFrame(pages, table, fm0, files.mapping, ptes0, frames.mapping, files.mapping, hw.ptes);
    }

    /** The frame manager's `cown` of a COW page that is its frame's last sharer: the frame is kept. */
    method CownSolePage(ghost pages: map<nat, Page>, v: nat)
      requires Holds(pages) && v in pages && pages[v].FramedPage?
      requires frames.mapping[Pte(table, v)].Cow? && frames.rc[frames.mapping[Pte(table, v)].frame] == 1
      modifies frames, hw
      ensures Holds(pages) && ChangedAt(old(hw.ptes), hw.ptes, Pte(table, v))
      ensures var p := Pte(table, v);
        && p in frames.mapping && frames.mapping == old(frames.mapping)[p := MFrame.Ownd(old(frames.mapping[p]).frame)]
        && hw.ptes[p] == Entry(frames.mapping[p].frame, old(hw.ptes[p]).flags | FLAG_W)
        && hw.mem == old(hw.mem)
    {
      var p := Pte(table, v);
      ghost var fm0, ptes0 := frames.mapping, hw.ptes;
      frames.CownSole(p);
      MFile.Untouched(files.files, files.mapping, files.rmap, ptes0, hw.free, hw.mem, p, hw.ptes[p]);
      TrackedFrame(pages, table, fm0, files.mapping, ptes0, frames.mapping, files.mapping, hw.ptes);
    }

    /**
     * `Page::fown` with the frame taken over as intended: a private file
     * page that is present and read-only becomes a framed page owning a new
     * frame that holds a copy of the file's page, writable; the bridge no
     * longer tracks its PTE. (As written, the dropped file handle then
     * invalidates the PTE: `FownEntryAsWritten`.) Any other page is left
     * alone and the result is false.
     */
    method FownPage(i: nat, v: nat, page: Page) returns (b: bool)
      requires Valid() && i < |areas| && v in areas[i].pages && areas[i].pages[v] == page
      requires page.FilePrivPage? ==> hw.free != {} && hw.Present(Pte(table, v)) && hw.ptes[Pte(table, v)].flags & FLAG_W == 0
      modifies this, frames, files, hw
      ensures Valid()
      ensures b <==> page.FilePrivPage?
      ensures !b ==> areas == old(areas) && unchanged(frames, files, hw)
      ensures ChangedAt(old(hw.ptes), hw.ptes, Pte(table, v))
      ensures b ==> var p := Pte(table, v);
        && areas == WithPage(old(areas), i, v, FramedPage(p))
        && p in frames.mapping && frames.mapping[p].Ownd? && frames.mapping == old(frames.mapping)[p := frames.mapping[p]]
        && files.mapping == old(files.mapping) - {p} && files.files == old(files.files)
        && hw.ptes[p] == Entry(frames.mapping[p].frame, old(hw.ptes[p]).flags | FLAG_W)
        && old(hw.ptes[p]).ppn in old(hw.mem) && hw.mem[frames.mapping[p].frame] == old(hw.mem)[old(hw.ptes[p]).ppn]
    {
      var p := Pte(table, v);
      if !page.FilePrivPage? {
        AllPagesAt(areas, v);
        assert hw.ptes == hw.ptes[p := hw.ptes[p]];
        return false;
      }
      AllPagesAt(areas, v);
      FownSwap(AllPages(areas), v);
      WithPageWf(areas, i, v, FramedPage(p));
      AllPagesReplace(areas, i, v, FramedPage(p));
      areas := WithPage(areas, i, v, FramedPage(p));
      b := true;
    }

    /** The managers' side of `FownPage`. */
    method FownSwap(ghost pages: map<nat, Page>, v: nat)
      requires Holds(pages) && v in pages && pages[v].FilePrivPage? && hw.free != {}
      requires hw.Present(Pte(table, v)) && hw.ptes[Pte(table, v)].flags & FLAG_W == 0
      modifies frames, files, hw
      ensures Holds(pages[v := FramedPage(Pte(table, v))])
      ensures ChangedAt(old(hw.ptes), hw.ptes, Pte(table, v))
      ensures var p := Pte(table, v);
        && p in frames.mapping && frames.mapping[p].Ownd? && frames.mapping == old(frames.mapping)[p := frames.mapping[p]]
        && files.mapping == old(files.mapping) - {p} && files.files == old(files.files)
        && hw.ptes[p] == Entry(frames.mapping[p].frame, old(hw.ptes[p]).flags | FLAG_W)
        && old(hw.ptes[p]).ppn in old(hw.mem) && hw.mem[frames.mapping[p].frame] == old(hw.mem)[old(hw.ptes[p]).ppn]
    {
      var p := Pte(table, v);
      var flags := hw.ptes[p].flags;
      var src := files.files[files.mapping[p]].value;
      ghost var fm0, flm0, ptes0 := frames.mapping, files.mapping, hw.ptes;
      FownUnmap(p);
      MFile.LoadedInMem(files.files, files.mapping, files.rmap, hw.ptes, hw.free, hw.mem, src);
      CopyInto(p, flags | FLAG_W, src);
      TrackedRetype(pages, table, fm0, flm0, ptes0, frames.mapping, files.mapping, hw.ptes, v, FramedPage(p));
    }

    /** The managers and the machine agree with each other. */
    ghost predicate Managed()
      reads this, frames, files, hw
    {
      && frames.hw == hw && files.hw == hw
      && frames.Valid() && files.Valid()
      && Apart(frames.mapping, files.files, files.mapping)
    }

    /** `fown`, first half: the bridge lets go of the loaded file page at `p`, leaving its PTE invalid. */
    method FownUnmap(p: Pte)
      requires Managed() && p in files.mapping && files.files[files.mapping[p]].Some?
      modifies files, hw
      ensures Managed() && p !in frames.mapping && p in hw.ptes
      ensures files.mapping == old(files.mapping) - {p} && files.files == old(files.files)
      ensures hw.ptes == old(hw.ptes)[p := Invalidated(old(hw.ptes)[p])] && hw.free == old(hw.free) && hw.mem == old(hw.mem)
    {
      ghost var ptes0, free0, mem0 := hw.ptes, hw.free, hw.mem;
      files.Unmap(p);
      MFrame.Stable(frames.mapping, frames.rc, ptes0, free0, mem0, hw.ptes, hw.free, hw.mem);
    }

    /** `create_force` of a PTE neither manager tracks: a new entry is not present. */
    method CreateUntracked(p: Pte)
      requires Managed() && p !in frames.mapping && p !in files.mapping
      modifies hw
      ensures Managed() && p in hw.ptes
      ensures hw.ptes == old(hw.ptes)[p := hw.ptes[p]] && (p !in old(hw.ptes) ==> hw.ptes[p].flags & FLAG_V == 0)
      ensures p in old(hw.ptes) ==> hw.ptes == old(hw.ptes)
      ensures hw.free == old(hw.free) && hw.mem == old(hw.mem)
    {
      ghost var ptes0 := hw.ptes;
      hw.CreateForce(p);
      MFrame.Untouched(frames.mapping, frames.rc, ptes0, hw.free, hw.mem, p, hw.ptes[p]);
      MFile.Untouched(files.files, files.mapping, files.rmap, ptes0, hw.free, hw.mem, p, hw.ptes[p]);
    }

    /**
     * A new owned frame for `p` under `flags`, holding a copy of the frame
     * `src` in use: `fown`'s second half and `fork_strict`'s copy.
     */
    method CopyInto(p: Pte, flags: bv8, src: Ppn)
      requires Managed() && p !in frames.mapping && p !in files.mapping && p in hw.ptes && flags & FLAG_V != 0 && hw.free != {}
      requires src in hw.mem && src !in hw.free
      modifies frames, hw
      ensures Managed() && files.mapping == old(files.mapping) && files.files == old(files.files)
      ensures p in frames.mapping && frames.mapping[p].Ownd? && frames.mapping == old(frames.mapping)[p := frames.mapping[p]]
      ensures var g := frames.mapping[p].frame;
        && g in old(hw.free) && hw.free == old(hw.free) - {g}
        && hw.ptes == old(hw.ptes)[p := Entry(g, flags)]
        && hw.mem == old(hw.mem)[g := old(hw.mem)[src]]
    {
      ghost var ptes1, free0, mem0 := hw.ptes, hw.free, hw.mem;
      frames.MapStrict(p, flags);
      var g := frames.mapping[p].frame;
      MFile.FreeNotLoaded(files.files, files.mapping, files.rmap, ptes1, free0, mem0, g);
      MFile.Stable(files.files, files.mapping, files.rmap, ptes1, free0, mem0, hw.ptes, hw.free, hw.mem);
      ghost var mem2 := hw.mem;
      hw.CopyFrame(g, src);
      MFrame.Stable(frames.mapping, frames.rc, hw.ptes, hw.free, mem2, hw.ptes, hw.free, hw.mem);
      MFile.Stable(files.files, files.mapping, files.rmap, hw.ptes, hw.free, mem2, hw.ptes, hw.free, hw.mem);
      CopyOverCleared(mem0, g, src, ZeroPage());
    }

    /**
     * What `MapArea::page_fault` does for a permitted fault at `v` of area
     * `i`, read off the PTE (present, writable) and the frame manager
     * (lazy, COW).
     */
    function FaultAction(i: nat, v: nat, kind: FaultType): Action
      requires Valid() && i < |areas| && v in areas[i].pages
      reads this, frames, files, hw
    {
      AllPagesAt(areas, v);
      var p := Pte(table, v);
      var page := areas[i].pages[v];
      Resolve(kind, areas[i].mapType, hw.Present(p), hw.ptes[p].flags & FLAG_W != 0,
              page.FramedPage? && frames.mapping[p].Lazy?, page.FramedPage? && frames.mapping[p].Cow?)
    }

    /**
     * `MapArea::page_fault` for `v` of area `i`: the permission code, a
     * panic exactly where the dispatch has no route, and otherwise 0 after
     * loading, copying on write or taking over the page. Only the PTE of
     * `v` and the page at `v` change. Every 0 leaves the access allowed,
     * except a store to a private file area's page that is already framed
     * (a COW page after `fork`): `fown` ignores it, and nothing changes.
     */
    method AreaPageFault(i: nat, v: nat, kind: FaultType) returns (r: Outcome)
      requires Valid() && i < |areas| && Contains(areas[i].range, v) && |hw.free| >= 2
      modifies this, frames, files, hw
      ensures Valid()
      ensures var c := PermissionCode(old(areas[i].perm), kind);
        && (c != 0 ==> r == Code(c))
        && (c == 0 ==> (r == Panicked <==> old(FaultAction(i, v, kind)) == Impossible))
        && (r.Code? ==> r.code == c)
      ensures r != Code(0) ==> areas == old(areas) && unchanged(frames, files, hw)
      ensures r == Code(0) ==>
        i < |areas| && v in areas[i].pages && areas == WithPage(old(areas), i, v, areas[i].pages[v]) && ChangedAt(old(hw.ptes), hw.ptes, Pte(table, v))
      ensures r == Code(0) && old(FaultAction(i, v, kind)) == FileOwn && old(areas[i].pages[v]).FramedPage? ==>
        areas == old(areas) && unchanged(frames, files, hw)
      ensures r == Code(0) && !(old(FaultAction(i, v, kind)) == FileOwn && old(areas[i].pages[v]).FramedPage?) ==>
        Resolved(v, kind)
    {
      var a := areas[i];
      var c := PermissionCode(a.perm, kind);
      if c != 0 {
        return Code(c);
      }
      AllPagesAt(areas, v);
      var page := a.pages[v];
      var act := FaultAction(i, v, kind);
      match act {
        case Impossible =>
          return Panicked;
        case LoadOne =>
          FaultLoad(i, v, kind);
          WithPageSame(areas, i, v);
        case CopyOwn =>
          FaultCown(i, v, kind);
          WithPageSame(areas, i, v);
        case FileOwn =>
          FaultFown(i, v, kind);
        case LoadFileOwn =>
          FaultLoadFown(i, v, kind);
      }
      r := Code(0);
    }

    /** The `load_one` route of `AreaPageFault`: the page is absent, so a framed one is lazy. */
    method FaultLoad(i: nat, v: nat, kind: FaultType)
      requires Valid() && i < |areas| && v in areas[i].pages && |hw.free| >= 2
      requires PermissionCode(areas[i].perm, kind) == 0 && FaultAction(i, v, kind) == LoadOne
      modifies frames, files, hw
      ensures Valid() && Resolved(v, kind) && ChangedAt(old(hw.ptes), hw.ptes, Pte(table, v))
    {
      var a := areas[i];
      var p := Pte(table, v);
      AllPagesAt(areas, v);
      var page := a.pages[v];
      ResolveActsOnNeed(kind, a.mapType, hw.Present(p), hw.ptes[p].flags & FLAG_W != 0,
                        page.FramedPage? && frames.mapping[p].Lazy?, page.FramedPage? && frames.mapping[p].Cow?);
      LoadPage(AllPages(areas), v, page, a.perm | FLAG_V);
    }

    /** The `cown` route of `AreaPageFault`: a store to a COW page. */
    method FaultCown(i: nat, v: nat, kind: FaultType)
      requires Valid() && i < |areas| && v in areas[i].pages && |hw.free| >= 2
      requires PermissionCode(areas[i].perm, kind) == 0 && FaultAction(i, v, kind) == CopyOwn
      modifies frames, hw
      ensures Valid() && Resolved(v, kind) && ChangedAt(old(hw.ptes), hw.ptes, Pte(table, v))
    {
      var a := areas[i];
      var p := Pte(table, v);
      AllPagesAt(areas, v);
      var page := a.pages[v];
      ResolveActsOnNeed(kind, a.mapType, hw.Present(p), hw.ptes[p].flags & FLAG_W != 0,
                        page.FramedPage? && frames.mapping[p].Lazy?, page.FramedPage? && frames.mapping[p].Cow?);
      var _ := CownPage(AllPages(areas), v, page);
    }

    /**
     * The `fown` route of `AreaPageFault`: a store to a present read-only
     * page of a private file area. An already framed page is left alone.
     */
    method FaultFown(i: nat, v: nat, kind: FaultType)
      requires Valid() && i < |areas| && v in areas[i].pages && |hw.free| >= 2
      requires PermissionCode(areas[i].perm, kind) == 0 && FaultAction(i, v, kind) == FileOwn
      modifies this, frames, files, hw
      ensures Valid() && ChangedAt(old(hw.ptes), hw.ptes, Pte(table, v))
      ensures i < |areas| && v in areas[i].pages && areas == WithPage(old(areas), i, v, areas[i].pages[v])
      ensures old(areas[i].pages[v]).FramedPage? ==> areas == old(areas) && unchanged(frames, files, hw)
      ensures !old(areas[i].pages[v]).FramedPage? ==> Resolved(v, kind)
    {
      var a := areas[i];
      var p := Pte(table, v);
      AllPagesAt(areas, v);
      var page := a.pages[v];
      ResolveActsOnNeed(kind, a.mapType, hw.Present(p), hw.ptes[p].flags & FLAG_W != 0,
                        page.FramedPage? && frames.mapping[p].Lazy?, page.FramedPage? && frames.mapping[p].Cow?);
      var b := FownPage(i, v, page);
      if !b {
        WithPageSame(areas, i, v);
      }
    }

    /** The load-then-`fown` route of `AreaPageFault`, for a store to an absent private file page. */
    method FaultLoadFown(i: nat, v: nat, kind: FaultType)
      requires Valid() && i < |areas| && v in areas[i].pages && |hw.free| >= 2
      requires PermissionCode(areas[i].perm, kind) == 0 && FaultAction(i, v, kind) == LoadFileOwn
      modifies this, frames, files, hw
      ensures Valid() && Resolved(v, kind) && ChangedAt(old(hw.ptes), hw.ptes, Pte(table, v))
      ensures i < |areas| && v in areas[i].pages && areas == WithPage(old(areas), i, v, areas[i].pages[v])
    {
      var a := areas[i];
      var p := Pte(table, v);
      AllPagesAt(areas, v);
      var page := a.pages[v];
      ResolveActsOnNeed(kind, a.mapType, hw.Present(p), hw.ptes[p].flags & FLAG_W != 0,
                        page.FramedPage? && frames.mapping[p].Lazy?, page.FramedPage? && frames.mapping[p].Cow?);
      ghost var ptes0 := hw.ptes;
      LoadPage(AllPages(areas), v, page, a.perm | FLAG_V);
      ghost var ptes1 := hw.ptes;
      var b := FownPage(i, v, page);
      UpdateTwice(ptes0, p, ptes1[p], hw.ptes[p]);
      if !b {
        WithPageSame(areas, i, v);
      }
    }

    /**
     * `MemorySet::page_fault`: -1 when no area contains the faulting page,
     * otherwise what the first area containing it answers. An allowed
     * access afterwards, or nothing changed, whenever it answers 0.
     */
    method PageFault(addr: nat, kind: FaultType) returns (r: Outcome)
      requires Valid() && |hw.free| >= 2
      modifies this, frames, files, hw
      ensures Valid()
      ensures r == Code(-1) <==> FirstContaining(old(areas), Floor(addr)).None?
      ensures var f := FirstContaining(old(areas), Floor(addr));
        f.Some? && r.Code? ==> r.code == PermissionCode(old(areas)[f.value].perm, kind)
      ensures r != Code(0) ==> areas == old(areas) && unchanged(frames, files, hw)
      ensures r == Code(0) ==> ChangedAt(old(hw.ptes), hw.ptes, Pte(table, Floor(addr)))
      ensures r == Code(0) ==> Resolved(Floor(addr), kind) || (areas == old(areas) && unchanged(frames, files, hw))
    {
      var v := Floor(addr);
      var f := FirstContaining(areas, v);
      if f.None? {
        return Code(-1);
      }
      r := AreaPageFault(f.value, v, kind);
    }

    /**
     * `MemorySet::cown`: true exactly when the first area containing `vpn`
     * has a COW framed page there, which then owns a writable frame.
     */
    method Cown(vpn: nat) returns (b: bool)
      requires Valid() && hw.free != {}
      modifies frames, hw
      ensures Valid()
      ensures b <==> var f := FirstContaining(old(areas), vpn);
        && f.Some? && old(areas)[f.value].pages[vpn].FramedPage?
        && Pte(table, vpn) in old(frames.mapping) && old(frames.mapping)[Pte(table, vpn)].Cow?
      ensures !b ==> unchanged(frames, hw)
      ensures b ==> Resolved(vpn, StoreFault) && ChangedAt(old(hw.ptes), hw.ptes, Pte(table, vpn))
    {
      var f := FirstContaining(areas, vpn);
      if f.None? {
        return false;
      }
      AllPagesAt(areas, vpn);
      var page := areas[f.value].pages[vpn];
      assert page.FramedPage? && frames.mapping[Pte(table, vpn)].Cow? ==> hw.Present(Pte(table, vpn));
      b := CownPage(AllPages(areas), vpn, page);
    }

    /** This address space and `parent` share the managers and the machine, over different page tables. */
    ghost predicate Beside(parent: MemorySet)
      reads this, parent
    {
      parent.frames == frames && parent.files == files && parent.hw == hw && parent.table != table
    }

    /** `Page::fork` of an identity page: the child's entry is a copy of the parent's. */
    method ForkIdentity(parent: MemorySet, ghost ppages: map<nat, Page>, ghost u: map<nat, Page>, pages: map<nat, Page>, v: nat)
      returns (pages': map<nat, Page>)
      requires Beside(parent) && parent.Holds(ppages) && v in ppages && ppages[v].IdentityPage?
      requires Holds(u + pages) && v !in u && v !in pages
      modifies hw
      ensures parent.Holds(ppages) && Holds(u + pages') && pages' == pages[v := IdentityPage(Pte(table, v))]
      ensures hw.ptes == old(hw.ptes)[Pte(table, v) := old(hw.ptes)[Pte(parent.table, v)]]
      ensures hw.free == old(hw.free) && hw.mem == old(hw.mem)
    {
      var e := hw.ptes[Pte(parent.table, v)];
      pages' := AddIdentityPage(u, pages, v, e);
      TrackedFrame(ppages, parent.table, frames.mapping, files.mapping, old(hw.ptes), frames.mapping, files.mapping, hw.ptes);
    }

    /** `Page::fork` of a framed page: the frame manager's `share_cow` from the parent's PTE to the child's. */
    method ForkFramed(parent: MemorySet, ghost ppages: map<nat, Page>, ghost u: map<nat, Page>, pages: map<nat, Page>, v: nat)
      returns (pages': map<nat, Page>)
      requires Beside(parent) && parent.Holds(ppages) && v in ppages && ppages[v].FramedPage?
      requires Holds(u + pages) && v !in u && v !in pages
      modifies frames, hw
      ensures parent.Holds(ppages) && Holds(u + pages') && pages' == pages[v := FramedPage(Pte(table, v))]
      ensures hw.free == old(hw.free) && hw.mem == old(hw.mem)
      ensures MFrame.CowShared(old(frames.mapping), frames.mapping, old(hw.ptes), hw.ptes, Pte(parent.table, v), Pte(table, v))
      ensures Pte(table, v) in hw.ptes && hw.ptes == old(hw.ptes)[Pte(parent.table, v) := hw.ptes[Pte(parent.table, v)]][Pte(table, v) := hw.ptes[Pte(table, v)]]
    {
      var o := Pte(parent.table, v);
      var p := Pte(table, v);
      ghost var fm0, flm := frames.mapping, files.mapping;
      frames.ForkShare(o, p);
      ApartShared(fm0, frames.mapping, old(hw.ptes), hw.ptes, o, p, files.files, flm);
      MFile.Stable(files.files, flm, files.rmap, old(hw.ptes), hw.free, hw.mem, hw.ptes, hw.free, hw.mem);
      pages' := pages[v := FramedPage(p)];
      TrackedAdd(u, pages, table, fm0, flm, old(hw.ptes), frames.mapping, flm, hw.ptes, v, FramedPage(p), pages');
      TrackedFrame(ppages, parent.table, fm0, flm, old(hw.ptes), frames.mapping, flm, hw.ptes);
    }

    /**
     * `Page::fork` of a file page: the bridge's `share_fully` as intended,
     * the child's PTE mapping the same file page, not present. (As written
     * `share_fully` never returns: `MFile.ShareFullySpins`.)
     */
    method ForkFile(parent: MemorySet, ghost ppages: map<nat, Page>, ghost u: map<nat, Page>, pages: map<nat, Page>, v: nat, page: Page)
      returns (pages': map<nat, Page>)
      requires Beside(parent) && parent.Holds(ppages) && v in ppages && ppages[v] == page && IsFilePage(page)
      requires Holds(u + pages) && v !in u && v !in pages
      modifies files, hw
      ensures parent.Holds(ppages) && Holds(u + pages') && pages' == pages[v := page.(pte := Pte(table, v))]
      ensures hw.free == old(hw.free) && hw.mem == old(hw.mem)
      ensures ChangedAt(old(hw.ptes), hw.ptes, Pte(table, v)) && !hw.Present(Pte(table, v))
      ensures files.files == old(files.files)
      ensures files.mapping == old(files.mapping)[Pte(table, v) := old(files.mapping)[Pte(parent.table, v)]]
    {
      var o := Pte(parent.table, v);
      var p := Pte(table, v);
      ghost var flm0 := files.mapping;
      hw.CreateForce(p);
      MFrame.Untouched(frames.mapping, frames.rc, old(hw.ptes), hw.free, hw.mem, p, hw.ptes[p]);
      MFile.Untouched(files.files, flm0, files.rmap, old(hw.ptes), hw.free, hw.mem, p, hw.ptes[p]);
      files.ShareFully(o, p);
      pages' := pages[v := page.(pte := p)];
      TrackedAdd(u, pages, table, frames.mapping, flm0, old(hw.ptes), frames.mapping, files.mapping, hw.ptes, v, page.(pte := p), pages');
      TrackedFrame(ppages, parent.table, frames.mapping, flm0, old(hw.ptes), frames.mapping, files.mapping, hw.ptes);
    }

    /** `Page::fork_strict`: the child gets a frame of its own holding a copy of the parent's owned frame, under the parent's flags. */
    method ForkStrictPage(parent: MemorySet, ghost ppages: map<nat, Page>, ghost u: map<nat, Page>, pages: map<nat, Page>, v: nat)
      returns (pages': map<nat, Page>)
      requires Beside(parent) && parent.Holds(ppages) && v in ppages && ppages[v].FramedPage?
      requires Pte(parent.table, v) in frames.mapping && frames.mapping[Pte(parent.table, v)].Ownd? && hw.free != {}
      requires Holds(u + pages) && v !in u && v !in pages
      modifies frames, hw
      ensures parent.Holds(ppages) && Holds(u + pages') && pages' == pages[v := FramedPage(Pte(table, v))]
      ensures StrictForked(parent.table, table, v, frames.mapping, hw.ptes, hw.free, hw.mem)
      ensures ElsewhereSame(old(frames.mapping), frames.mapping, old(files.mapping), files.mapping, old(hw.ptes), hw.ptes, Range(v, v + 1))
      ensures Kept(old(hw.free), old(hw.mem), hw.free, hw.mem) && |hw.free| + 1 == |old(hw.free)|
    {
      var o := Pte(parent.table, v);
      var p := Pte(table, v);
      var src := frames.mapping[o].frame;
      ghost var fm0, flm, ptes0, free0, mem0 := frames.mapping, files.mapping, hw.ptes, hw.free, hw.mem;
      CreateUntracked(p);
      CopyInto(p, hw.ptes[o].flags, src);
      FreeTakesExactlyOne(free0, hw.free, frames.mapping[p].frame);
      pages' := pages[v := FramedPage(p)];
      TrackedAdd(u, pages, table, fm0, flm, ptes0, frames.mapping, flm, hw.ptes, v, FramedPage(p), pages');
      TrackedFrame(ppages, parent.table, fm0, flm, ptes0, frames.mapping, flm, hw.ptes);
    }

    /** `Page::fork`, by the kind of the parent's page. */
    method ForkPage(parent: MemorySet, ghost ppages: map<nat, Page>, ghost u: map<nat, Page>, pages: map<nat, Page>, v: nat, page: Page)
      returns (pages': map<nat, Page>)
      requires Beside(parent) && parent.Holds(ppages) && v in ppages && ppages[v] == page
      requires Holds(u + pages) && v !in u && v !in pages
      modifies frames, files, hw
      ensures parent.Holds(ppages) && Holds(u + pages') && pages' == pages[v := page.(pte := Pte(table, v))]
      ensures hw.free == old(hw.free) && hw.mem == old(hw.mem)
      ensures Forked(page, parent.table, table, v, frames.mapping, files.mapping, hw.ptes)
      ensures ElsewhereSame(old(frames.mapping), frames.mapping, old(files.mapping), files.mapping, old(hw.ptes), hw.ptes, Range(v, v + 1))
    {
      match page
      case IdentityPage(_) =>
        pages' := ForkIdentity(parent, ppages, u, pages, v);
        SameOffSelf(frames.mapping, Range(v, v + 1));
        SameOffSelf(files.mapping, Range(v, v + 1));
        SameOffOne(old(hw.ptes), hw.ptes, Pte(table, v), v);
      case FramedPage(_) =>
        pages' := ForkFramed(parent, ppages, u, pages, v);
        ForkedOfShared(page, parent.table, table, v, old(frames.mapping), frames.mapping, files.mapping, old(hw.ptes), hw.ptes);
        SameOffPair(old(frames.mapping), frames.mapping, Pte(parent.table, v), Pte(table, v), v);
        SameOffSelf(files.mapping, Range(v, v + 1));
        SameOffPair(old(hw.ptes), hw.ptes, Pte(parent.table, v), Pte(table, v), v);
      case _ =>
        pages' := ForkFile(parent, ppages, u, pages, v, page);
        SameOffSelf(frames.mapping, Range(v, v + 1));
        SameOffOne(old(files.mapping), files.mapping, Pte(table, v), v);
        SameOffOne(old(hw.ptes), hw.ptes, Pte(table, v), v);
    }

    /** Part way through `MapArea::fork` of area `i` of `parent`: the pages of vpns from the start of its range up to `v` forked. */
    ghost predicate PartlyForked(parent: MemorySet, i: nat, u: map<nat, Page>, pages: map<nat, Page>, v: nat,
                                 fm0: map<Pte, MFrame.MFrame>, flm0: map<Pte, MFile.FilePos>, ptes0: map<Pte, Entry>)
      reads this, frames, files, hw, parent
    {
      && Beside(parent) && parent.Valid() && i < |parent.areas|
      && (forall w :: Contains(parent.areas[i].range, w) ==> w !in u)
      && Holds(u + pages)
      && PagesForked(parent.areas[i], parent.table, table, pages, v, fm0, flm0, ptes0, frames.mapping, files.mapping, hw.ptes)
    }

    /** One turn of `MapArea::fork`'s loop: the page at `v` forked with `Page::fork`. */
    method ForkStep(parent: MemorySet, i: nat, ghost u: map<nat, Page>, pages: map<nat, Page>, v: nat,
                    ghost fm0: map<Pte, MFrame.MFrame>, ghost flm0: map<Pte, MFile.FilePos>, ghost ptes0: map<Pte, Entry>)
      returns (pages': map<nat, Page>)
      requires PartlyForked(parent, i, u, pages, v, fm0, flm0, ptes0) && v < parent.areas[i].range.end
      modifies frames, files, hw
      ensures PartlyForked(parent, i, u, pages', v + 1, fm0, flm0, ptes0)
      ensures hw.free == old(hw.free) && hw.mem == old(hw.mem)
    {
      var a := parent.areas[i];
      AllPagesAt(parent.areas, v);
      ghost var fm1, flm1, ptes1 := frames.mapping, files.mapping, hw.ptes;
      pages' := ForkPage(parent, AllPages(parent.areas), u, pages, v, a.pages[v]);
      PagesForkedStep(a, parent.table, table, pages, v, fm0, flm0, ptes0, fm1, flm1, ptes1, frames.mapping, files.mapping, hw.ptes);
    }

    /** `MapArea::fork`: every page of area `i` of `parent` forked into this table, in vpn order. */
    method ForkArea(parent: MemorySet, i: nat, ghost u: map<nat, Page>) returns (na: MapArea)
      requires Beside(parent) && parent.Valid() && i < |parent.areas|
      requires Holds(u) && forall w :: Contains(parent.areas[i].range, w) ==> w !in u
      modifies frames, files, hw
      ensures na == ForkedArea(parent.areas[i], table) && parent.Valid() && Holds(u + na.pages)
      ensures hw.free == old(hw.free) && hw.mem == old(hw.mem)
      ensures forall w :: w in parent.areas[i].pages ==>
        Forked(parent.areas[i].pages[w], parent.table, table, w, frames.mapping, files.mapping, hw.ptes)
      ensures ElsewhereSame(old(frames.mapping), frames.mapping, old(files.mapping), files.mapping, old(hw.ptes), hw.ptes, parent.areas[i].range)
    {
      var a := parent.areas[i];
      ghost var fm0, flm0, ptes0 := frames.mapping, files.mapping, hw.ptes;
      assert u + map[] == u;
      PagesForkedStart(a, parent.table, table, fm0, flm0, ptes0);
      var pages := map[];
      var v := a.range.start;
      while v < a.range.end
        invariant PartlyForked(parent, i, u, pages, v, fm0, flm0, ptes0)
        invariant hw.free == old(hw.free) && hw.mem == old(hw.mem)
        decreases a.range.end - v
      {
        pages := ForkStep(parent, i, u, pages, v, fm0, flm0, ptes0);
        v := v + 1;
      }
      PagesForkedEnd(a, parent.table, table, pages, fm0, flm0, ptes0, frames.mapping, files.mapping, hw.ptes);
      na := ForkedArea(a, table);
    }

    /** Part way through `MapArea::fork_strict` of area `i` of `parent`. */
    ghost predicate PartlyStrictForked(parent: MemorySet, i: nat, u: map<nat, Page>, pages: map<nat, Page>, v: nat,
                                       fm0: map<Pte, MFrame.MFrame>, flm0: map<Pte, MFile.FilePos>, ptes0: map<Pte, Entry>, free0: set<Ppn>, mem0: map<Ppn, Bytes>)
      reads this, frames, files, hw, parent
    {
      && Beside(parent) && parent.Valid() && i < |parent.areas|
      && (forall w :: Contains(parent.areas[i].range, w) ==> w !in u)
      && Holds(u + pages)
      && PagesStrictForked(parent.areas[i], parent.table, table, pages, v, fm0, flm0, ptes0, free0, mem0,
                           frames.mapping, files.mapping, hw.ptes, hw.free, hw.mem)
    }

    /** One turn of `MapArea::fork_strict`'s loop: the page at `v` forked with `Page::fork_strict`. */
    method ForkStrictStep(parent: MemorySet, i: nat, ghost u: map<nat, Page>, pages: map<nat, Page>, v: nat,
                          ghost fm0: map<Pte, MFrame.MFrame>, ghost flm0: map<Pte, MFile.FilePos>, ghost ptes0: map<Pte, Entry>,
                          ghost free0: set<Ppn>, ghost mem0: map<Ppn, Bytes>)
      returns (pages': map<nat, Page>)
      requires PartlyStrictForked(parent, i, u, pages, v, fm0, flm0, ptes0, free0, mem0) && v < parent.areas[i].range.end && hw.free != {}
      modifies frames, hw
      ensures PartlyStrictForked(parent, i, u, pages', v + 1, fm0, flm0, ptes0, free0, mem0)
    {
      var a := parent.areas[i];
      AllPagesAt(parent.areas, v);
      ghost var fm1, flm1, ptes1, free1, mem1 := frames.mapping, files.mapping, hw.ptes, hw.free, hw.mem;
      pages' := ForkStrictPage(parent, AllPages(parent.areas), u, pages, v);
      PagesStrictForkedStep(a, parent.table, table, pages, v, fm0, flm0, ptes0, free0, mem0, fm1, flm1, ptes1, free1, mem1,
                            frames.mapping, files.mapping, hw.ptes, hw.free, hw.mem);
    }

    /** `MapArea::fork_strict`: every page of area `i` of `parent` copied into a frame of its own, in vpn order. */
    method ForkStrictArea(parent: MemorySet, i: nat, ghost u: map<nat, Page>) returns (na: MapArea)
      requires Beside(parent) && parent.Valid() && i < |parent.areas|
      requires Holds(u) && forall w :: Contains(parent.areas[i].range, w) ==> w !in u
      requires StrictReady(parent.areas[i], parent.table, frames.mapping)
      requires |hw.free| >= parent.areas[i].range.end - parent.areas[i].range.start
      modifies frames, hw
      ensures na == ForkedArea(parent.areas[i], table) && parent.Valid() && Holds(u + na.pages)
      ensures StrictAreaForked(parent.areas[i], parent.table, table, old(frames.mapping), old(files.mapping), old(hw.ptes), old(hw.free), old(hw.mem),
                               frames.mapping, files.mapping, hw.ptes, hw.free, hw.mem)
    {
      var a := parent.areas[i];
      ghost var fm0, flm0, ptes0, free0, mem0 := frames.mapping, files.mapping, hw.ptes, hw.free, hw.mem;
      assert u + map[] == u;
      PagesStrictForkedStart(a, parent.table, table, fm0, flm0, ptes0, free0, mem0);
      var pages := map[];
      var v := a.range.start;
      while v < a.range.end
        invariant PartlyStrictForked(parent, i, u, pages, v, fm0, flm0, ptes0, free0, mem0)
        decreases a.range.end - v
      {
        pages := ForkStrictStep(parent, i, u, pages, v, fm0, flm0, ptes0, free0, mem0);
        v := v + 1;
      }
      PagesStrictForkedEnd(a, parent.table, table, pages, fm0, flm0, ptes0, free0, mem0, frames.mapping, files.mapping, hw.ptes, hw.free, hw.mem);
      na := ForkedArea(a, table);
    }

    /** `new_area`: the area pushed onto this address space, which leaves the address space it was forked from as it was. */
    method NewArea(na: MapArea, ghost parent: MemorySet)
      requires AreasWf(areas + [na]) && Holds(AllPages(areas) + na.pages) && Beside(parent) && parent.Valid()
      modifies this
      ensures Valid() && areas == old(areas) + [na] && parent.Valid()
    {
      assert (areas + [na])[..|areas|] == areas;
      areas := areas + [na];
    }

    /** `fork`'s loop, one area: `area.fork` of area `k` (not critical) pushed onto `child`. */
    method ForkNext(child: MemorySet, k: nat, ghost free0: set<Ppn>, ghost mem0: map<Ppn, Bytes>)
      requires Valid() && child.Valid() && child.Beside(this) && k < |areas| && !Strict(areas[k])
      requires AreasForked(areas, table, child.table, child.areas, k, free0, mem0, frames.mapping, files.mapping, hw.ptes, hw.free, hw.mem)
      modifies child, frames, files, hw
      ensures Valid() && child.Valid()
      ensures AreasForked(areas, table, child.table, child.areas, k + 1, free0, mem0, frames.mapping, files.mapping, hw.ptes, hw.free, hw.mem)
    {
      ghost var c, fm1, flm1, ptes1, free1, mem1 := child.areas, frames.mapping, files.mapping, hw.ptes, hw.free, hw.mem;
      ChildAppend(areas, child.table, c, k, ForkedArea(areas[k], child.table));
      var na := child.ForkArea(this, k, AllPages(c));
      child.NewArea(na, this);
      AreasForkedSharedStep(areas, table, child.table, c, k, free0, mem0, fm1, flm1, ptes1, free1, mem1,
                            frames.mapping, files.mapping, hw.ptes, na);
    }

    /** `fork`'s loop, one critical area: `area.fork_strict` of area `k` pushed onto `child`. */
    method ForkNextStrict(child: MemorySet, k: nat, ghost free0: set<Ppn>, ghost mem0: map<Ppn, Bytes>)
      requires Valid() && child.Valid() && child.Beside(this) && k < |areas| && Strict(areas[k])
      requires AreasForked(areas, table, child.table, child.areas, k, free0, mem0, frames.mapping, files.mapping, hw.ptes, hw.free, hw.mem)
      requires |free0| >= StrictNeed(areas)
      modifies child, frames, files, hw
      ensures Valid() && child.Valid()
      ensures AreasForked(areas, table, child.table, child.areas, k + 1, free0, mem0, frames.mapping, files.mapping, hw.ptes, hw.free, hw.mem)
    {
      ghost var c, fm1, flm1, ptes1, free1, mem1 := child.areas, frames.mapping, files.mapping, hw.ptes, hw.free, hw.mem;
      ChildAppend(areas, child.table, c, k, ForkedArea(areas[k], child.table));
      AreasForkedReady(areas, table, child.table, c, k, free0, mem0, fm1, flm1, ptes1, free1, mem1);
      var na := child.ForkStrictArea(this, k, AllPages(c));
      child.NewArea(na, this);
      AreasForkedStrictStep(areas, table, child.table, c, k, free0, mem0, fm1, flm1, ptes1, free1, mem1,
                            frames.mapping, files.mapping, hw.ptes, hw.free, hw.mem, na);
    }

    /**
     * `MemorySet::fork`: a new address space over page table `ct` whose
     * areas are the forks of this one's, critical areas with `fork_strict`,
     * the others with `fork`, in order.
     */
    method Fork(ct: nat) returns (child: MemorySet)
      requires Valid() && ct != table && forall q :: q in hw.ptes ==> q.table != ct
      requires forall k :: 0 <= k < |areas| && Strict(areas[k]) ==> StrictReady(areas[k], table, frames.mapping)
      requires |hw.free| >= StrictNeed(areas)
      modifies frames, files, hw
      ensures fresh(child) && child.table == ct && child.Beside(this) && Valid() && child.Valid()
      ensures |child.areas| == |areas| && forall k :: 0 <= k < |areas| ==> child.areas[k] == ForkedArea(areas[k], ct)
      ensures forall k, w :: 0 <= k < |areas| && w in areas[k].pages ==>
        AreaForkedAt(areas[k], table, ct, w, frames.mapping, files.mapping, hw.ptes, hw.free, hw.mem)
      ensures Kept(old(hw.free), old(hw.mem), hw.free, hw.mem) && |hw.free| + StrictNeed(areas) == |old(hw.free)|
    {
      child := new MemorySet(ct, frames, files, hw);
      ghost var free0, mem0 := hw.free, hw.mem;
      AreasForkedStart(areas, table, ct, frames.mapping, files.mapping, hw.ptes, hw.free, hw.mem);
      var k := 0;
      while k < |areas|
        invariant fresh(child) && child.table == ct && child.Beside(this) && Valid() && child.Valid()
        invariant AreasForked(areas, table, ct, child.areas, k, free0, mem0, frames.mapping, files.mapping, hw.ptes, hw.free, hw.mem)
        decreases |areas| - k
      {
        if Strict(areas[k]) {
          ForkNextStrict(child, k, free0, mem0);
        } else {
          ForkNext(child, k, free0, mem0);
        }
        k := k + 1;
      }
      assert areas[|areas|..] == [];
    }
  }
}
