/**
 * The value side of os/src/mm/memory_set.rs: virtual page ranges, map
 * areas with their per-page table, `split`/`merge`, the critical pages,
 * `has_mapped`/`has_unmapped`, and what `munmap` leaves of a list of areas.
 *
 * `VPNRange` (os/src/mm/address.rs) is not part of this model. It is taken
 * to be the half-open range `[start, end)` with `start <= end`; `intersects`
 * means a common page; `exclude(other)` returns the part left of `other`,
 * the part right of it and the intersection, each a range (empty ranges
 * pinned to an end of the original one).
 */
module Areas {
  import opened Wrappers
  import opened Hw

  /** `MapPermission` bits; the same positions as the PTE flags they become. */
  const PERM_R: bv8 := 2
  const PERM_W: bv8 := 4
  const PERM_X: bv8 := 8
  const PERM_U: bv8 := 16

  /**
   * The virtual pages of TRAMPOLINE (the last page of the Sv39 space) and
   * TRAP_CONTEXT_BASE (the page below it). os/src/config.rs is not part of
   * this model; these are rCore's values under Sv39's 39-bit addresses.
   */
  const TRAMPOLINE_VPN: nat := 0x7FF_FFFF
  const TRAP_CONTEXT_VPN: nat := 0x7FF_FFFE

  /** `is_critical`. */
  predicate IsCritical(vpn: nat)
  {
    vpn == TRAMPOLINE_VPN || vpn == TRAP_CONTEXT_VPN
  }

  function Max(a: nat, b: nat): nat { if a < b then b else a }
  function Min(a: nat, b: nat): nat { if a < b then a else b }

  /** A `VPNRange`: the pages `start .. end - 1`. */
  datatype Range = Range(start: nat, end: nat)

  predicate RangeWf(r: Range) { r.start <= r.end }

  predicate Contains(r: Range, v: nat) { r.start <= v < r.end }

  predicate IsEmpty(r: Range) { r.end <= r.start }

  function Size(r: Range): nat { if r.start < r.end then r.end - r.start else 0 }

  /** `intersects`: a page lies in both. */
  predicate Intersects(a: Range, b: Range)
  {
    Max(a.start, b.start) < Min(a.end, b.end)
  }

  lemma IntersectsIff(a: Range, b: Range)
    ensures Intersects(a, b) <==> exists v :: Contains(a, v) && Contains(b, v)
  {
    if Intersects(a, b) {
      assert Contains(a, Max(a.start, b.start)) && Contains(b, Max(a.start, b.start));
    }
  }

  /** The pages in both ranges, as a range starting at the later start. */
  function Overlap(a: Range, b: Range): (r: Range)
    ensures forall v :: Contains(r, v) <==> Contains(a, v) && Contains(b, v)
    ensures RangeWf(r) && (IsEmpty(r) <==> !Intersects(a, b))
  {
    var lo := Max(a.start, b.start);
    Range(lo, Max(lo, Min(a.end, b.end)))
  }

  /** `range.exclude(other)`: (left of `other`, right of `other`, intersection). */
  function Exclude(r: Range, other: Range): (parts: (Range, Range, Range))
    ensures parts.2 == Overlap(r, other)
  {
    (Range(r.start, Max(r.start, Min(r.end, other.start))),
     Range(Min(r.end, Max(r.start, other.end)), r.end),
     Overlap(r, other))
  }

  /** `range.into_iter().any(is_critical)`. */
  function AnyCritical(r: Range): (b: bool)
    ensures b <==> exists v :: Contains(r, v) && IsCritical(v)
  {
    Contains(r, TRAMPOLINE_VPN) || Contains(r, TRAP_CONTEXT_VPN)
  }

  datatype MapType = Identity | Framed | FileShared | FilePriv

  /** `Page`: what tracks one virtual page, with the PTE it owns. */
  datatype Page = IdentityPage(pte: Pte) | FramedPage(pte: Pte) | FileSharedPage(pte: Pte) | FilePrivPage(pte: Pte)

  predicate IsFilePage(p: Page) { p.FileSharedPage? || p.FilePrivPage? }

  /** `MapArea`; `file` is the backing inode's id. */
  datatype MapArea = MapArea(range: Range, pages: map<nat, Page>, mapType: MapType, perm: bv8, file: Option<nat>, fileOffset: nat)

  predicate IsFileType(t: MapType) { t == FileShared || t == FilePriv }

  /** The pages an area of each type holds; a private file page becomes framed once written. */
  predicate PageFits(t: MapType, p: Page)
  {
    match t
    case Identity => p.IdentityPage?
    case Framed => p.FramedPage?
    case FileShared => p.FileSharedPage?
    case FilePriv => p.FilePrivPage? || p.FramedPage?
  }

  /**
   * A well-formed area: a page for each vpn of its range and no other, of
   * the kinds its type allows; a file-backed area has a file and a page-
   * aligned offset, any other has neither (the asserts of `MapArea::map`).
   */
  ghost predicate AreaWf(a: MapArea)
  {
    && RangeWf(a.range)
    && (forall v :: v in a.pages <==> Contains(a.range, v))
    && (forall v :: v in a.pages ==> PageFits(a.mapType, a.pages[v]))
    && (if IsFileType(a.mapType) then a.file.Some? && PageAligned(a.fileOffset) else a.file.None? && a.fileOffset == 0)
  }

  function Below(pages: map<nat, Page>, vpn: nat): map<nat, Page>
  {
    map v | v in pages && v < vpn :: pages[v]
  }

  function AtOrAbove(pages: map<nat, Page>, vpn: nat): map<nat, Page>
  {
    map v | v in pages && vpn <= v :: pages[v]
  }

  /**
   * `split(vpn)`: `(self[start..vpn), self[vpn..end))`. A vpn at or before
   * the start, or at or after the end, leaves the area whole and yields an
   * empty area at `vpn`; the right half of a file area starts that many
   * pages further into the file.
   */
  function Split(a: MapArea, vpn: nat): (halves: (MapArea, MapArea))
    ensures vpn <= a.range.start ==> halves.1 == a && halves.0.range == Range(vpn, vpn) && halves.0.pages == map[]
    ensures a.range.end <= vpn && a.range.start < vpn ==> halves.0 == a && halves.1.range == Range(vpn, vpn) && halves.1.pages == map[]
    ensures a.range.start < vpn < a.range.end ==>
      && halves.0.range == Range(a.range.start, vpn) && halves.1.range == Range(vpn, a.range.end)
      && halves.0.pages == Below(a.pages, vpn) && halves.1.pages == AtOrAbove(a.pages, vpn)
      && halves.0.fileOffset == a.fileOffset
      && halves.1.fileOffset == (if a.file.Some? then a.fileOffset + (vpn - a.range.start) * PAGE_SIZE else 0)
    ensures halves.0.mapType == a.mapType && halves.1.mapType == a.mapType
    ensures halves.0.perm == a.perm && halves.1.perm == a.perm && halves.0.file == a.file && halves.1.file == a.file
  {
    var other := MapArea(Range(vpn, vpn), map[], a.mapType, a.perm, a.file, a.fileOffset);
    if vpn <= a.range.start then (other, a)
    else if vpn >= a.range.end then (a, other)
    else
      var leftHalfSize := (vpn - a.range.start) * PAGE_SIZE;
      (MapArea(Range(a.range.start, vpn), Below(a.pages, vpn), a.mapType, a.perm, a.file, a.fileOffset),
       MapArea(Range(vpn, a.range.end), AtOrAbove(a.pages, vpn), a.mapType, a.perm, a.file,
               if a.file.Some? then a.fileOffset + leftHalfSize else 0))
  }

  /** Both halves of a well-formed area are well formed and their pages partition the original's by `< vpn`. */
  lemma SplitPartition(a: MapArea, vpn: nat)
    requires AreaWf(a)
    ensures var (l, r) := Split(a, vpn);
      && AreaWf(l) && AreaWf(r)
      && l.pages == Below(a.pages, vpn) && r.pages == AtOrAbove(a.pages, vpn)
      && l.pages.Keys !! r.pages.Keys && l.pages + r.pages == a.pages
  {
    var (l, r) := Split(a, vpn);
    if vpn <= a.range.start {
      assert Below(a.pages, vpn) == map[];
      assert AtOrAbove(a.pages, vpn) == a.pages;
    } else if vpn >= a.range.end {
      assert Below(a.pages, vpn) == a.pages;
      assert AtOrAbove(a.pages, vpn) == map[];
    }
    assert l.pages + r.pages == a.pages;
  }

  /**
   * `split`'s loop: the pages are moved one at a time into the left or the
   * right map by comparing their vpn with `vpn`.
   */
  method SplitArea(a: MapArea, vpn: nat) returns (l: MapArea, r: MapArea)
    ensures (l, r) == Split(a, vpn)
  {
    var other := MapArea(Range(vpn, vpn), map[], a.mapType, a.perm, a.file, a.fileOffset);
    if vpn <= a.range.start {
      return other, a;
    } else if vpn >= a.range.end {
      return a, other;
    }
    var mapl: map<nat, Page> := map[];
    var mapr: map<nat, Page> := map[];
    var rest := a.pages.Keys;
    while rest != {}
      invariant rest <= a.pages.Keys
      invariant mapl == map v | v in a.pages && v !in rest && v < vpn :: a.pages[v]
      invariant mapr == map v | v in a.pages && v !in rest && vpn <= v :: a.pages[v]
      decreases rest
    {
      var i :| i in rest;
      if i < vpn {
        mapl := mapl[i := a.pages[i]];
      } else {
        mapr := mapr[i := a.pages[i]];
      }
      rest := rest - {i};
    }
    assert mapl == Below(a.pages, vpn) && mapr == AtOrAbove(a.pages, vpn);
    var leftHalfSize := (vpn - a.range.start) * PAGE_SIZE;
    l := MapArea(Range(a.range.start, vpn), mapl, a.mapType, a.perm, a.file, a.fileOffset);
    r := MapArea(Range(vpn, a.range.end), mapr, a.mapType, a.perm, a.file,
                 if a.file.Some? then a.fileOffset + leftHalfSize else 0);
  }

  /** The asserts of `merge`: adjacency, the same type, permission and file, and a continuous file offset. */
  predicate Mergeable(a: MapArea, b: MapArea)
  {
    && a.range.end == b.range.start && a.mapType == b.mapType && a.perm == b.perm && a.file == b.file
    && (IsFileType(a.mapType) ==> a.fileOffset + Size(a.range) * PAGE_SIZE == b.fileOffset)
  }

  /** `merge`: an empty side yields the other; otherwise the ranges and the page maps are united. */
  function Merge(a: MapArea, b: MapArea): (m: MapArea)
    requires Mergeable(a, b)
    ensures Size(a.range) == 0 ==> m == b
    ensures Size(a.range) > 0 && Size(b.range) == 0 ==> m == a
    ensures Size(a.range) > 0 && Size(b.range) > 0 ==>
      m == a.(range := Range(a.range.start, b.range.end), pages := a.pages + b.pages)
  {
    if Size(a.range) == 0 then b
    else if Size(b.range) == 0 then a
    else a.(range := Range(a.range.start, b.range.end), pages := a.pages + b.pages)
  }

  /** Merging two well-formed mergeable areas gives a well-formed area covering both, holding both page maps. */
  lemma MergeUnites(a: MapArea, b: MapArea)
    requires AreaWf(a) && AreaWf(b) && Mergeable(a, b)
    ensures var m := Merge(a, b);
      && AreaWf(m)
      && (forall v :: Contains(m.range, v) <==> Contains(a.range, v) || Contains(b.range, v))
      && m.pages == a.pages + b.pages
  {
    if Size(a.range) == 0 {
      assert a.pages == map[];
    } else if Size(b.range) == 0 {
      assert b.pages == map[];
    }
  }

  /** Splitting inside a well-formed area and merging the halves gives the area back. */
  lemma MergeSplit(a: MapArea, vpn: nat)
    requires AreaWf(a) && a.range.start <= vpn < a.range.end
    ensures var (l, r) := Split(a, vpn);
      Mergeable(l, r) && Merge(l, r) == a
  {
    var (l, r) := Split(a, vpn);
    SplitPartition(a, vpn);
    if vpn > a.range.start {
      assert l.pages + r.pages == a.pages;
    }
  }

  /** The file offset of page `vpn`, counted from the area's file offset. */
  function FilePageOffset(a: MapArea, vpn: nat): (offset: nat)
    requires a.range.start <= vpn
    ensures offset >= a.fileOffset
    ensures offset % PAGE_SIZE == a.fileOffset % PAGE_SIZE
  {
    a.fileOffset + (vpn - a.range.start) * PAGE_SIZE
  }

  /** The byte offset `k` pages past `base`, written without multiplication. */
  function PagesPast(base: nat, k: nat): nat
    decreases k
  {
    if k == 0 then base else PagesPast(base, k - 1) + PAGE_SIZE
  }

  lemma {:induction false} PagesPastIs(base: nat, k: nat)
    ensures PagesPast(base, k) == base + k * PAGE_SIZE
    decreases k
  {
    if k > 0 {
      PagesPastIs(base, k - 1);
    }
  }

  /** An aligned base stays aligned any number of pages on. */
  lemma {:induction false} PagesPastAligned(base: nat, k: nat)
    requires PageAligned(base)
    ensures PageAligned(PagesPast(base, k))
    decreases k
  {
    if k > 0 {
      PagesPastAligned(base, k - 1);
    }
  }

  /** `FilePageOffset` counted page by page. */
  lemma FilePageOffsetPages(a: MapArea, vpn: nat)
    requires a.range.start <= vpn
    ensures FilePageOffset(a, vpn) == PagesPast(a.fileOffset, vpn - a.range.start)
  {
    PagesPastIs(a.fileOffset, vpn - a.range.start);
  }

  /** Each page of either half keeps the file offset it had in the whole area. */
  lemma SplitKeepsFilePages(a: MapArea, vpn: nat, v: nat)
    requires AreaWf(a) && IsFileType(a.mapType) && a.range.start < vpn < a.range.end
    requires Contains(a.range, v)
    ensures var (l, r) := Split(a, vpn);
      && (v < vpn ==> FilePageOffset(l, v) == FilePageOffset(a, v))
      && (vpn <= v ==> FilePageOffset(r, v) == FilePageOffset(a, v))
  {
    var r := Split(a, vpn).1;
    if vpn <= v {
      calc {
        FilePageOffset(r, v);
        a.fileOffset + (vpn - a.range.start) * PAGE_SIZE + (v - vpn) * PAGE_SIZE;
        { assert (vpn - a.range.start) + (v - vpn) == v - a.range.start; }
        FilePageOffset(a, v);
      }
    }
  }

  /** A list of well-formed, pairwise non-overlapping areas. */
  ghost predicate AreasWf(areas: seq<MapArea>)
  {
    && (forall i :: 0 <= i < |areas| ==> AreaWf(areas[i]))
    && (forall i, j :: 0 <= i < j < |areas| ==> !Intersects(areas[i].range, areas[j].range))
  }

  /** Two distinct areas of a well-formed list share no page. */
  lemma DisjointPages(areas: seq<MapArea>, i: nat, j: nat, v: nat)
    requires AreasWf(areas) && i < |areas| && j < |areas| && i != j && v in areas[i].pages
    ensures v !in areas[j].pages
  {
    if i < j {
      IntersectsIff(areas[i].range, areas[j].range);
    } else {
      IntersectsIff(areas[j].range, areas[i].range);
    }
  }

  /** Every page of every area, by vpn. */
  function AllPages(areas: seq<MapArea>): map<nat, Page>
    decreases |areas|
  {
    if areas == [] then map[] else AllPages(areas[..|areas| - 1]) + areas[|areas| - 1].pages
  }

  lemma {:induction false} AllPagesAppend(xs: seq<MapArea>, ys: seq<MapArea>)
    ensures AllPages(xs + ys) == AllPages(xs) + AllPages(ys)
    decreases |ys|
  {
    if ys == [] {
      assert xs + ys == xs;
    } else {
      var ys' := ys[..|ys| - 1];
      assert (xs + ys)[..|xs + ys| - 1] == xs + ys';
      AllPagesAppend(xs, ys');
    }
  }

  /** A vpn has a page iff some area has a page for it; in non-overlapping areas, that area's page. */
  lemma {:induction false} AllPagesAt(areas: seq<MapArea>, v: nat)
    requires AreasWf(areas)
    ensures v in AllPages(areas) <==> exists i :: 0 <= i < |areas| && v in areas[i].pages
    ensures forall i :: 0 <= i < |areas| && v in areas[i].pages ==> AllPages(areas)[v] == areas[i].pages[v]
    decreases |areas|
  {
    if areas != [] {
      if v in areas[|areas| - 1].pages {
        AllPagesAtLast(areas, v);
      } else {
        var init := areas[..|areas| - 1];
        assert forall i :: 0 <= i < |init| ==> init[i] == areas[i];
        assert AreasWf(init);
        AllPagesAt(init, v);
        AllPagesAtInit(areas, v);
      }
    }
  }

  /** `AllPagesAt` for a vpn of the last area. */
  lemma AllPagesAtLast(areas: seq<MapArea>, v: nat)
    requires AreasWf(areas) && areas != [] && v in areas[|areas| - 1].pages
    ensures v in AllPages(areas) <==> exists i :: 0 <= i < |areas| && v in areas[i].pages
    ensures forall i :: 0 <= i < |areas| && v in areas[i].pages ==> AllPages(areas)[v] == areas[i].pages[v]
  {
    forall i | 0 <= i < |areas| - 1 ensures v !in areas[i].pages {
      DisjointPages(areas, |areas| - 1, i, v);
    }
  }

  /** `AllPagesAt` for a vpn the last area lacks, given it for the areas before. */
  lemma AllPagesAtInit(areas: seq<MapArea>, v: nat)
    requires areas != [] && v !in areas[|areas| - 1].pages
    requires var init := areas[..|areas| - 1];
      && (v in AllPages(init) <==> exists i :: 0 <= i < |init| && v in init[i].pages)
      && (forall i :: 0 <= i < |init| && v in init[i].pages ==> AllPages(init)[v] == init[i].pages[v])
    ensures v in AllPages(areas) <==> exists i :: 0 <= i < |areas| && v in areas[i].pages
    ensures forall i :: 0 <= i < |areas| && v in areas[i].pages ==> AllPages(areas)[v] == areas[i].pages[v]
  {
    var init := areas[..|areas| - 1];
    assert forall i :: 0 <= i < |init| ==> init[i] == areas[i];
  }

  /** The area list with the page at `v` of area `i` replaced by `x`. */
  function WithPage(areas: seq<MapArea>, i: nat, v: nat, x: Page): (r: seq<MapArea>)
    requires i < |areas|
    ensures |r| == |areas| && r[i].range == areas[i].range && r[i].pages == areas[i].pages[v := x]
    ensures forall j :: 0 <= j < |areas| && j != i ==> r[j] == areas[j]
  {
    areas[i := areas[i].(pages := areas[i].pages[v := x])]
  }

  /** Putting back the page already at `v` changes nothing. */
  lemma WithPageSame(areas: seq<MapArea>, i: nat, v: nat)
    requires i < |areas| && v in areas[i].pages
    ensures WithPage(areas, i, v, areas[i].pages[v]) == areas
  {
    assert areas[i].pages[v := areas[i].pages[v]] == areas[i].pages;
  }

  /** Replacing a page by one the area's type allows keeps the areas well formed. */
  lemma WithPageWf(areas: seq<MapArea>, i: nat, v: nat, x: Page)
    requires AreasWf(areas) && i < |areas| && v in areas[i].pages && PageFits(areas[i].mapType, x)
    ensures AreasWf(WithPage(areas, i, v, x))
  {
    var r := WithPage(areas, i, v, x);
    assert forall j :: 0 <= j < |r| ==> r[j].range == areas[j].range;
    assert AreaWf(r[i]);
  }

  /** Replacing the page at `v` of area `i` replaces the areas' page at `v` and no other. */
  lemma {:induction false} AllPagesReplace(areas: seq<MapArea>, i: nat, v: nat, x: Page)
    requires AreasWf(areas) && i < |areas| && v in areas[i].pages
    ensures AllPages(WithPage(areas, i, v, x)) == AllPages(areas)[v := x]
    decreases |areas|
  {
    var last := |areas| - 1;
    var init := areas[..last];
    if i == last {
      AllPagesReplaceLast(areas, v, x);
    } else {
      assert forall j :: 0 <= j < |init| ==> init[j] == areas[j];
      assert AreasWf(init);
      AllPagesReplace(init, i, v, x);
      DisjointPages(areas, i, last, v);
      AllPagesReplaceInit(areas, i, v, x);
    }
  }

  lemma AllPagesReplaceLast(areas: seq<MapArea>, v: nat, x: Page)
    requires areas != []
    ensures AllPages(WithPage(areas, |areas| - 1, v, x)) == AllPages(areas)[v := x]
  {
    var last := |areas| - 1;
    var r := WithPage(areas, last, v, x);
    assert r[..last] == areas[..last];
    UpdatePlus(AllPages(areas[..last]), areas[last].pages, v, x);
  }

  lemma AllPagesReplaceInit(areas: seq<MapArea>, i: nat, v: nat, x: Page)
    requires i < |areas| - 1 && v !in areas[|areas| - 1].pages
    requires AllPages(WithPage(areas[..|areas| - 1], i, v, x)) == AllPages(areas[..|areas| - 1])[v := x]
    ensures AllPages(WithPage(areas, i, v, x)) == AllPages(areas)[v := x]
  {
    var last := |areas| - 1;
    var r := WithPage(areas, i, v, x);
    WithPagePrefix(areas, i, v, x);
    AllPagesLast(r);
    UpdateUnderPlus(AllPages(areas[..last]), areas[last].pages, v, x);
  }

  lemma AllPagesLast(areas: seq<MapArea>)
    requires areas != []
    ensures AllPages(areas) == AllPages(areas[..|areas| - 1]) + areas[|areas| - 1].pages
  {
  }

  lemma WithPagePrefix(areas: seq<MapArea>, i: nat, v: nat, x: Page)
    requires i < |areas| - 1
    ensures WithPage(areas, i, v, x)[..|areas| - 1] == WithPage(areas[..|areas| - 1], i, v, x)
  {
  }

  lemma UpdatePlus<K, V>(m: map<K, V>, n: map<K, V>, k: K, x: V)
    ensures m + n[k := x] == (m + n)[k := x]
  {
  }

  lemma UpdateUnderPlus<K, V>(m: map<K, V>, n: map<K, V>, k: K, x: V)
    requires k !in n
    ensures m[k := x] + n == (m + n)[k := x]
  {
  }

  /** `has_mapped`: some area overlaps the range. */
  function HasMapped(areas: seq<MapArea>, r: Range): (b: bool)
    ensures b <==> exists i :: 0 <= i < |areas| && Intersects(areas[i].range, r)
    decreases |areas|
  {
    if areas == [] then false
    else
      var init := areas[..|areas| - 1];
      assert forall i :: 0 <= i < |init| ==> init[i] == areas[i];
      HasMapped(init, r) || Intersects(areas[|areas| - 1].range, r)
  }

  /** The number of pages of `r` the areas' intersections with it add up to. */
  function CountOverlap(areas: seq<MapArea>, r: Range): nat
    decreases |areas|
  {
    if areas == [] then 0 else CountOverlap(areas[..|areas| - 1], r) + Size(Overlap(areas[|areas| - 1].range, r))
  }

  /** `has_unmapped`: the intersections do not add up to the whole range. */
  predicate HasUnmapped(areas: seq<MapArea>, r: Range)
  {
    CountOverlap(areas, r) != Size(r)
  }

  function RangeSet(r: Range): set<nat>
  {
    set v | r.start <= v < r.end && Contains(r, v)
  }

  lemma {:induction false} RangeSetSize(r: Range)
    ensures |RangeSet(r)| == Size(r)
    decreases Size(r)
  {
    if r.start < r.end {
      var r' := Range(r.start, r.end - 1);
      assert RangeSet(r) == RangeSet(r') + {r.end - 1};
      RangeSetSize(r');
    } else {
      assert RangeSet(r) == {};
    }
  }

  /** The pages of `r` some area has. */
  function CoveredPart(areas: seq<MapArea>, r: Range): set<nat>
  {
    set v | r.start <= v < r.end && v in AllPages(areas)
  }

  /** In non-overlapping areas, the intersections add up to the number of pages of `r` covered. */
  lemma {:induction false} CountOverlapCovered(areas: seq<MapArea>, r: Range)
    requires AreasWf(areas)
    ensures CountOverlap(areas, r) == |CoveredPart(areas, r)|
    decreases |areas|
  {
    if areas == [] {
      assert CoveredPart(areas, r) == {};
    } else {
      var init := areas[..|areas| - 1];
      assert forall i :: 0 <= i < |init| ==> init[i] == areas[i];
      assert AreasWf(init);
      CountOverlapCovered(init, r);
      CoveredAppend(areas, r);
      RangeSetSize(Overlap(areas[|areas| - 1].range, r));
    }
  }

  /** The covered part of `r` grows by the last area's overlap with it, which the earlier areas do not cover. */
  lemma CoveredAppend(areas: seq<MapArea>, r: Range)
    requires AreasWf(areas) && areas != []
    ensures var init := areas[..|areas| - 1];
      var o := Overlap(areas[|areas| - 1].range, r);
      && CoveredPart(areas, r) == CoveredPart(init, r) + RangeSet(o)
      && CoveredPart(init, r) !! RangeSet(o)
  {
    var n := |areas| - 1;
    var init := areas[..n];
    assert forall i :: 0 <= i < n ==> init[i] == areas[i];
    assert AreasWf(init);
    forall v | v in CoveredPart(init, r) ensures v !in areas[n].pages {
      AllPagesAt(init, v);
      var i :| 0 <= i < n && v in init[i].pages;
      DisjointPages(areas, i, n, v);
    }
  }

  lemma SubsetSameSize<T>(a: set<T>, b: set<T>)
    requires a <= b && |a| == |b|
    ensures a == b
  {
    assert |b - a| == |b| - |a|;
  }

  /** In non-overlapping areas, `has_unmapped` is false exactly when every page of the range has an area. */
  lemma HasUnmappedIff(areas: seq<MapArea>, r: Range)
    requires AreasWf(areas)
    ensures !HasUnmapped(areas, r) <==> forall v :: Contains(r, v) ==> v in AllPages(areas)
  {
    CountOverlapCovered(areas, r);
    RangeSetSize(r);
    var c := CoveredPart(areas, r);
    assert c <= RangeSet(r);
    if forall v :: Contains(r, v) ==> v in AllPages(areas) {
      assert RangeSet(r) <= c;
      assert c == RangeSet(r);
      assert CountOverlap(areas, r) == Size(r);
    }
    if !HasUnmapped(areas, r) {
      SubsetSameSize(c, RangeSet(r));
      forall v | Contains(r, v) ensures v in AllPages(areas) {
        assert v in RangeSet(r);
      }
    }
  }

  /**
   * What `munmap`'s loop makes of one area: an area that misses the target
   * is kept; otherwise it is split at both ends of the intersection, the
   * middle is dropped and the non-empty sides are kept, left first.
   */
  function Cut(a: MapArea, target: Range): seq<MapArea>
  {
    var (l, _, rem) := Exclude(a.range, target);
    if IsEmpty(rem) then [a]
    else
      var (larea, rarea) := Split(a, l.end);
      var (_, rarea') := Split(rarea, rem.end);
      (if !IsEmpty(larea.range) then [larea] else []) + (if !IsEmpty(rarea'.range) then [rarea'] else [])
  }

  /** The areas `munmap` leaves, in order. */
  function MunmapAreas(areas: seq<MapArea>, target: Range): seq<MapArea>
    decreases |areas|
  {
    if areas == [] then [] else MunmapAreas(areas[..|areas| - 1], target) + Cut(areas[|areas| - 1], target)
  }

  /** The pages outside `target`. */
  function Outside(pages: map<nat, Page>, target: Range): map<nat, Page>
  {
    map v | v in pages && !Contains(target, v) :: pages[v]
  }

  /**
   * An area missing the target is kept whole; one overlapping it survives as
   * its part left of the target and its part right of it, whichever is
   * non-empty, each as `split` cuts it off.
   */
  lemma CutRemainders(a: MapArea, target: Range)
    requires AreaWf(a) && RangeWf(target)
    ensures !Intersects(a.range, target) ==> Cut(a, target) == [a]
    ensures Intersects(a.range, target) ==>
      Cut(a, target) == (if a.range.start < target.start then [Split(a, target.start).0] else [])
                      + (if target.end < a.range.end then [Split(a, target.end).1] else [])
  {
    var (l, _, rem) := Exclude(a.range, target);
    if Intersects(a.range, target) {
      var lo := Max(a.range.start, target.start);
      var hi := Min(a.range.end, target.end);
      assert l.end == lo && rem.end == hi;
      var (larea, rarea) := Split(a, lo);
      var (_, rarea') := Split(rarea, hi);
      SplitPartition(a, lo);
      if a.range.start < lo {
        assert larea == Split(a, target.start).0;
      }
      if hi < a.range.end {
        var b := Split(a, target.end).1;
        assert rarea'.range == b.range;
        assert rarea'.pages == b.pages;
        if a.file.Some? {
          assert rarea'.fileOffset == a.fileOffset + (lo - a.range.start) * PAGE_SIZE + (hi - lo) * PAGE_SIZE;
          assert (lo - a.range.start) + (hi - lo) == hi - a.range.start;
        }
        assert rarea' == b;
      }
    }
  }

  /** The pieces of an overlapped area: its part left of the target and its part right of it, whichever is non-empty. */
  function Remainders(a: MapArea, target: Range): seq<MapArea>
  {
    (if a.range.start < target.start then [Split(a, target.start).0] else [])
    + (if target.end < a.range.end then [Split(a, target.end).1] else [])
  }

  lemma RemaindersWf(a: MapArea, target: Range)
    requires AreaWf(a) && RangeWf(target) && Intersects(a.range, target)
    ensures forall b :: b in Remainders(a, target) ==>
      AreaWf(b) && !Intersects(b.range, target) && a.range.start <= b.range.start && b.range.end <= a.range.end
    ensures forall i, j :: 0 <= i < j < |Remainders(a, target)| ==>
      !Intersects(Remainders(a, target)[i].range, Remainders(a, target)[j].range)
  {
    SplitPartition(a, target.start);
    SplitPartition(a, target.end);
  }

  lemma RemaindersPages(a: MapArea, target: Range)
    requires AreaWf(a) && RangeWf(target) && Intersects(a.range, target)
    ensures AllPages(Remainders(a, target)) == Outside(a.pages, target)
  {
    var ls := if a.range.start < target.start then [Split(a, target.start).0] else [];
    var rs := if target.end < a.range.end then [Split(a, target.end).1] else [];
    assert Remainders(a, target) == ls + rs;
    AllPagesAppend(ls, rs);
    assert AllPages(ls) == if ls == [] then map[] else Below(a.pages, target.start);
    assert AllPages(rs) == if rs == [] then map[] else AtOrAbove(a.pages, target.end);
    assert AllPages(ls + rs) == Outside(a.pages, target);
  }

  /** The areas `Cut` keeps are well formed, do not meet the target, hold exactly the pages outside it, and lie inside the original. */
  lemma CutPieces(a: MapArea, target: Range)
    requires AreaWf(a) && RangeWf(target)
    ensures forall b :: b in Cut(a, target) ==>
      AreaWf(b) && !Intersects(b.range, target) && a.range.start <= b.range.start && b.range.end <= a.range.end
    ensures forall i, j :: 0 <= i < j < |Cut(a, target)| ==> !Intersects(Cut(a, target)[i].range, Cut(a, target)[j].range)
    ensures AllPages(Cut(a, target)) == Outside(a.pages, target)
  {
    if Intersects(a.range, target) {
      CutMet(a, target);
    } else {
      CutMissed(a, target);
    }
  }

  /** `CutPieces` for an area the target misses: the area is kept whole. */
  lemma CutMissed(a: MapArea, target: Range)
    requires AreaWf(a) && RangeWf(target) && !Intersects(a.range, target)
    ensures forall b :: b in Cut(a, target) ==>
      AreaWf(b) && !Intersects(b.range, target) && a.range.start <= b.range.start && b.range.end <= a.range.end
    ensures Cut(a, target) == [a]
    ensures AllPages(Cut(a, target)) == Outside(a.pages, target)
  {
    CutRemainders(a, target);
    assert AllPages([a]) == a.pages;
    forall v | v in a.pages ensures !Contains(target, v) {
      IntersectsIff(a.range, target);
    }
  }

  /** `CutPieces` for an area the target meets: what is kept are the remainders. */
  lemma CutMet(a: MapArea, target: Range)
    requires AreaWf(a) && RangeWf(target) && Intersects(a.range, target)
    ensures forall b :: b in Cut(a, target) ==>
      AreaWf(b) && !Intersects(b.range, target) && a.range.start <= b.range.start && b.range.end <= a.range.end
    ensures forall i, j :: 0 <= i < j < |Cut(a, target)| ==> !Intersects(Cut(a, target)[i].range, Cut(a, target)[j].range)
    ensures AllPages(Cut(a, target)) == Outside(a.pages, target)
  {
    CutRemainders(a, target);
    assert Cut(a, target) == Remainders(a, target);
    RemaindersWf(a, target);
    RemaindersPages(a, target);
  }

  /** Nothing `munmap` keeps meets a range that none of the original areas meets. */
  lemma {:induction false} MunmapDisjointFrom(areas: seq<MapArea>, target: Range, x: Range)
    requires AreasWf(areas) && RangeWf(target) && RangeWf(x)
    requires forall i :: 0 <= i < |areas| ==> !Intersects(areas[i].range, x)
    ensures forall b :: b in MunmapAreas(areas, target) ==> !Intersects(b.range, x)
    decreases |areas|
  {
    if areas != [] {
      var init := areas[..|areas| - 1];
      var last := areas[|areas| - 1];
      assert AreasWf(init);
      MunmapDisjointFrom(init, target, x);
      CutPieces(last, target);
    }
  }

  lemma {:induction false} MunmapMisses(areas: seq<MapArea>, target: Range)
    requires AreasWf(areas) && RangeWf(target)
    ensures forall b :: b in MunmapAreas(areas, target) ==> !Intersects(b.range, target)
    decreases |areas|
  {
    if areas != [] {
      var init := areas[..|areas| - 1];
      assert AreasWf(init);
      MunmapMisses(init, target);
      CutPieces(areas[|areas| - 1], target);
    }
  }

  lemma OutsideUnion(x: map<nat, Page>, y: map<nat, Page>, target: Range)
    ensures Outside(x + y, target) == Outside(x, target) + Outside(y, target)
  {
  }

  lemma {:induction false} MunmapPages(areas: seq<MapArea>, target: Range)
    requires AreasWf(areas) && RangeWf(target)
    ensures AllPages(MunmapAreas(areas, target)) == Outside(AllPages(areas), target)
    decreases |areas|
  {
    if areas != [] {
      var init := areas[..|areas| - 1];
      var last := areas[|areas| - 1];
      assert AreasWf(init);
      MunmapPages(init, target);
      CutPieces(last, target);
      AllPagesAppend(MunmapAreas(init, target), Cut(last, target));
      assert AllPages(areas) == AllPages(init) + last.pages;
      OutsideUnion(AllPages(init), last.pages, target);
    }
  }

  lemma {:induction false} MunmapWf(areas: seq<MapArea>, target: Range)
    requires AreasWf(areas) && RangeWf(target)
    ensures AreasWf(MunmapAreas(areas, target))
    decreases |areas|
  {
    if areas != [] {
      var init := areas[..|areas| - 1];
      var last := areas[|areas| - 1];
      assert AreasWf(init);
      MunmapWf(init, target);
      CutPieces(last, target);
      var m := MunmapAreas(init, target);
      var c := Cut(last, target);
      forall j | 0 <= j < |c| ensures forall b :: b in m ==> !Intersects(b.range, c[j].range) {
        assert c[j] in c;
        forall i | 0 <= i < |init| ensures !Intersects(init[i].range, c[j].range) {
          assert init[i] == areas[i];
        }
        MunmapDisjointFrom(init, target, c[j].range);
      }
      AppendWf(m, c);
    }
  }

  /**
   * `munmap`'s outcome: the areas left are well formed and non-overlapping,
   * none meets the target, and together they hold exactly the pages that
   * were outside it.
   */
  lemma MunmapKeeps(areas: seq<MapArea>, target: Range)
    requires AreasWf(areas) && RangeWf(target)
    ensures AreasWf(MunmapAreas(areas, target))
    ensures forall b :: b in MunmapAreas(areas, target) ==> !Intersects(b.range, target)
    ensures AllPages(MunmapAreas(areas, target)) == Outside(AllPages(areas), target)
  {
    MunmapWf(areas, target);
    MunmapMisses(areas, target);
    MunmapPages(areas, target);
  }

  /** A range no area intersects holds no vpn any area has. */
  lemma MissedRange(areas: seq<MapArea>, r: Range)
    requires AreasWf(areas) && forall i :: 0 <= i < |areas| ==> !Intersects(areas[i].range, r)
    ensures forall v :: Contains(r, v) ==> v !in AllPages(areas)
  {
    forall v | Contains(r, v) ensures v !in AllPages(areas) {
      AllPagesAt(areas, v);
      if v in AllPages(areas) {
        var i :| 0 <= i < |areas| && v in areas[i].pages;
        IntersectsIff(areas[i].range, r);
      }
    }
  }

  /** Two lists of well-formed areas that do not meet each other form one. */
  lemma AppendWf(m: seq<MapArea>, c: seq<MapArea>)
    requires AreasWf(m) && AreasWf(c)
    requires forall j :: 0 <= j < |c| ==> forall b :: b in m ==> !Intersects(b.range, c[j].range)
    ensures AreasWf(m + c)
  {
    forall i, j | 0 <= i < j < |m + c| ensures !Intersects((m + c)[i].range, (m + c)[j].range) {
      if j >= |m| && i < |m| {
        assert (m + c)[i] in m;
        assert (m + c)[j] == c[j - |m|];
      }
    }
  }

  /** The pages inside `target`. */
  function Inside(pages: map<nat, Page>, target: Range): map<nat, Page>
  {
    map v | v in pages && Contains(target, v) :: pages[v]
  }

  /** The middle piece `munmap` drops holds exactly the area's pages inside the target. */
  lemma CutMiddle(a: MapArea, target: Range)
    requires AreaWf(a) && RangeWf(target) && Intersects(a.range, target)
    ensures var (l, _, rem) := Exclude(a.range, target);
      var (_, rarea) := Split(a, l.end);
      Split(rarea, rem.end).0.pages == Inside(a.pages, target)
  {
    var (l, _, rem) := Exclude(a.range, target);
    var (_, rarea) := Split(a, l.end);
    SplitPartition(a, l.end);
    SplitPartition(rarea, rem.end);
  }

  /**
   * The body of `munmap`'s loop for one area: the pieces kept, by two
   * `split`s around the target, and the pages of the middle piece dropped.
   */
  method CutArea(a: MapArea, target: Range) returns (kept: seq<MapArea>, dying: map<nat, Page>)
    requires AreaWf(a) && RangeWf(target)
    ensures kept == Cut(a, target) && dying == Inside(a.pages, target)
  {
    var (l, _, rem) := Exclude(a.range, target);
    if IsEmpty(rem) {
      MissNothingInside(a, target);
      return [a], map[];
    }
    var larea, rarea := SplitArea(a, l.end);
    var marea, rarea' := SplitArea(rarea, rem.end);
    kept := [];
    if !IsEmpty(larea.range) {
      kept := kept + [larea];
    }
    if !IsEmpty(rarea'.range) {
      kept := kept + [rarea'];
    }
    CutMiddle(a, target);
    dying := marea.pages;
  }

  /** An area that misses the target has no page inside it. */
  lemma MissNothingInside(a: MapArea, target: Range)
    requires AreaWf(a) && !Intersects(a.range, target)
    ensures Inside(a.pages, target) == map[]
  {
    forall v | v in a.pages ensures !Contains(target, v) {
      IntersectsIff(a.range, target);
    }
  }

  /** An area that misses the target comes out of `munmap` unchanged. */
  lemma KeptWhole(a: MapArea, target: Range)
    requires AreaWf(a) && RangeWf(target) && !Intersects(a.range, target)
    ensures Cut(a, target) == [a]
  {
    CutRemainders(a, target);
  }
}
