/**
 * The frame-mapping state machine (os/src/mm/mframe.rs). Every tracked PTE
 * is `Lazy` (no frame yet), `Ownd` (an exclusively owned frame) or `Cow`
 * (a frame shared copy-on-write). The `Arc` around a shared frame is the
 * explicit reference count `rc`, which always equals the number of PTEs
 * sharing that frame; a frame whose last reference goes is freed.
 */
module MFrame {
  import opened Hw

  datatype MFrame = Lazy | Ownd(frame: Ppn) | Cow(frame: Ppn)

  /** The PTEs holding a reference to shared frame `f`. */
  function Sharers(m: map<Pte, MFrame>, f: Ppn): set<Pte>
  {
    set p | p in m && m[p] == Cow(f)
  }

  /** Setting one entry adds it to, or removes it from, the sharers of each frame. */
  lemma SharersUpdate(m: map<Pte, MFrame>, p: Pte, v: MFrame, f: Ppn)
    ensures Sharers(m[p := v], f) == if v == Cow(f) then Sharers(m, f) + {p} else Sharers(m, f) - {p}
  {
    var lhs := Sharers(m[p := v], f);
    var rhs := if v == Cow(f) then Sharers(m, f) + {p} else Sharers(m, f) - {p};
    forall q
      ensures q in lhs <==> q in rhs
    {
      if q == p {
        assert q in m[p := v] && m[p := v][q] == v;
      } else {
        assert q in m[p := v] <==> q in m;
        assert q in m ==> m[p := v][q] == m[q];
      }
    }
  }

  lemma SharersRemove(m: map<Pte, MFrame>, p: Pte, f: Ppn)
    ensures Sharers(m - {p}, f) == Sharers(m, f) - {p}
  {
    var lhs := Sharers(m - {p}, f);
    forall q
      ensures q in lhs <==> q in Sharers(m, f) - {p}
    {
      if q != p {
        assert q in m - {p} <==> q in m;
      }
    }
  }

  /** A set of one element is that element. */
  lemma Singleton<T>(s: set<T>, x: T)
    requires |s| == 1 && x in s
    ensures s == {x}
  {
    var rest := s - {x};
    assert |rest| == 0;
    assert rest == {};
    assert s == rest + {x};
  }

  /**
   * The reference counts: every shared frame has a count, and the count of
   * a frame is its number of sharers, at least one.
   */
  ghost predicate Counted(m: map<Pte, MFrame>, rc: map<Ppn, nat>)
  {
    && (forall p :: p in m && m[p].Cow? ==> m[p].frame in rc)
    && (forall f :: f in rc ==> rc[f] == |Sharers(m, f)| && rc[f] >= 1)
  }

  /**
   * The machine agrees with the table: a `Lazy` PTE is not present; any
   * other is present, points at its frame, and that frame is allocated; an
   * owned frame belongs to one PTE only.
   */
  ghost predicate Backed(m: map<Pte, MFrame>, ptes: map<Pte, Entry>, free: set<Ppn>, mem: map<Ppn, Bytes>)
  {
    && (forall p :: p in m ==> p in ptes)
    && (forall p :: p in m && m[p].Lazy? ==> ptes[p].flags & FLAG_V == 0)
    && (forall p :: p in m && !m[p].Lazy? ==>
          && m[p].frame !in free && m[p].frame in mem
          && ptes[p].ppn == m[p].frame && ptes[p].flags & FLAG_V != 0)
    && (forall p, q :: SoleOwner(m, p, q))
  }

  /** An owned frame is held by `p` alone: a PTE `q` holding the same frame is `p`. */
  ghost predicate SoleOwner(m: map<Pte, MFrame>, p: Pte, q: Pte)
  {
    p in m && q in m && m[p].Ownd? && !m[q].Lazy? && m[q].frame == m[p].frame ==> p == q
  }

  /** The frame manager's invariant over its table `m`, the counts `rc` and the machine. */
  ghost predicate Consistent(m: map<Pte, MFrame>, rc: map<Ppn, nat>, ptes: map<Pte, Entry>, free: set<Ppn>, mem: map<Ppn, Bytes>)
  {
    Counted(m, rc) && Backed(m, ptes, free, mem)
  }

  /** Changes to the machine elsewhere (other PTEs, frames it does not hold) keep the frame manager consistent. */
  lemma Stable(m: map<Pte, MFrame>, rc: map<Ppn, nat>, ptes: map<Pte, Entry>, free: set<Ppn>, mem: map<Ppn, Bytes>,
               ptes': map<Pte, Entry>, free': set<Ppn>, mem': map<Ppn, Bytes>)
    requires Consistent(m, rc, ptes, free, mem)
    requires forall p :: p in m ==> p in ptes' && ptes'[p] == ptes[p]
    requires forall p :: p in m && !m[p].Lazy? ==> m[p].frame !in free' && m[p].frame in mem'
    ensures Consistent(m, rc, ptes', free', mem')
  {
  }

  /** Rewriting a PTE the manager does not track keeps it consistent. */
  lemma Untouched(m: map<Pte, MFrame>, rc: map<Ppn, nat>, ptes: map<Pte, Entry>, free: set<Ppn>, mem: map<Ppn, Bytes>, p: Pte, e: Entry)
    requires Consistent(m, rc, ptes, free, mem) && p !in m
    ensures Consistent(m, rc, ptes[p := e], free, mem)
  {
    Stable(m, rc, ptes, free, mem, ptes[p := e], free, mem);
  }

  /** An owned frame has no sharers. */
  lemma OwnedNotShared(m: map<Pte, MFrame>, rc: map<Ppn, nat>, ptes: map<Pte, Entry>, free: set<Ppn>, mem: map<Ppn, Bytes>, p: Pte)
    requires Consistent(m, rc, ptes, free, mem) && p in m && m[p].Ownd?
    ensures Sharers(m, m[p].frame) == {} && m[p].frame !in rc
  {
    forall q | q in m && m[q] == Cow(m[p].frame) ensures q == p {
      assert SoleOwner(m, p, q);
    }
  }

  lemma MapLazyKeeps(m: map<Pte, MFrame>, rc: map<Ppn, nat>, ptes: map<Pte, Entry>, free: set<Ppn>, mem: map<Ppn, Bytes>, p: Pte)
    requires Consistent(m, rc, ptes, free, mem) && p !in m && p in ptes
    ensures Consistent(m[p := Lazy], rc, ptes[p := Invalidated(ptes[p])], free, mem)
  {
    ghost var m' := m[p := Lazy];
    forall x, y ensures SoleOwner(m', x, y) {
      assert SoleOwner(m, x, y) && SoleOwner(m, y, x) && SoleOwner(m, x, p) && SoleOwner(m, p, y);
    }
    forall f ensures Sharers(m[p := Lazy], f) == Sharers(m, f) - {p} {
      SharersUpdate(m, p, Lazy, f);
    }
  }

  lemma LoadKeeps(m: map<Pte, MFrame>, rc: map<Ppn, nat>, ptes: map<Pte, Entry>, free: set<Ppn>, mem: map<Ppn, Bytes>,
                  p: Pte, f: Ppn, flags: bv8)
    requires Consistent(m, rc, ptes, free, mem) && p in m && m[p].Lazy? && f in free && flags & FLAG_V != 0
    ensures Consistent(m[p := Ownd(f)], rc, ptes[p := Entry(f, flags)], free - {f}, mem[f := ZeroPage()])
  {
    ghost var m' := m[p := Ownd(f)];
    forall x, y ensures SoleOwner(m', x, y) {
      assert SoleOwner(m, x, y) && SoleOwner(m, y, x) && SoleOwner(m, x, p) && SoleOwner(m, p, y);
    }
    forall g ensures Sharers(m[p := Ownd(f)], g) == Sharers(m, g) - {p} {
      SharersUpdate(m, p, Ownd(f), g);
    }
  }

  lemma CownCopyKeeps(m: map<Pte, MFrame>, rc: map<Ppn, nat>, ptes: map<Pte, Entry>, free: set<Ppn>, mem: map<Ppn, Bytes>,
                      p: Pte, g: Ppn)
    requires Consistent(m, rc, ptes, free, mem) && p in m && m[p].Cow? && rc[m[p].frame] > 1 && g in free
    ensures var f := m[p].frame;
      Consistent(m[p := Ownd(g)], rc[f := rc[f] - 1], ptes[p := Entry(g, ptes[p].flags | FLAG_W)], free - {g}, mem[g := mem[f]])
  {
    CownCopyCounted(m, rc, p, g);
    CownCopyBacked(m, ptes, free, mem, p, g);
  }

  lemma CownCopyCounted(m: map<Pte, MFrame>, rc: map<Ppn, nat>, p: Pte, g: Ppn)
    requires Counted(m, rc) && p in m && m[p].Cow? && rc[m[p].frame] > 1
    ensures var f := m[p].frame;
      Counted(m[p := Ownd(g)], rc[f := rc[f] - 1])
  {
    forall h ensures Sharers(m[p := Ownd(g)], h) == Sharers(m, h) - {p} {
      SharersUpdate(m, p, Ownd(g), h);
    }
    assert p in Sharers(m, m[p].frame);
  }

  lemma CownCopyBacked(m: map<Pte, MFrame>, ptes: map<Pte, Entry>, free: set<Ppn>, mem: map<Ppn, Bytes>, p: Pte, g: Ppn)
    requires Backed(m, ptes, free, mem) && p in m && m[p].Cow? && g in free
    ensures var f := m[p].frame;
      f in mem && Backed(m[p := Ownd(g)], ptes[p := Entry(g, ptes[p].flags | FLAG_W)], free - {g}, mem[g := mem[f]])
  {
    ghost var m' := m[p := Ownd(g)];
    forall x, y ensures SoleOwner(m', x, y) {
      assert SoleOwner(m, x, y) && SoleOwner(m, y, x) && SoleOwner(m, x, p) && SoleOwner(m, p, y);
    }
  }

  lemma CownSoleKeeps(m: map<Pte, MFrame>, rc: map<Ppn, nat>, ptes: map<Pte, Entry>, free: set<Ppn>, mem: map<Ppn, Bytes>, p: Pte)
    requires Consistent(m, rc, ptes, free, mem) && p in m && m[p].Cow? && rc[m[p].frame] == 1
    ensures var f := m[p].frame;
      Consistent(m[p := Ownd(f)], rc - {f}, ptes[p := Entry(f, ptes[p].flags | FLAG_W)], free, mem)
  {
    var f := m[p].frame;
    assert p in Sharers(m, f);
    Singleton(Sharers(m, f), p);
    forall q | q in m && m[q] == Cow(f) ensures q == p {
      assert q in Sharers(m, f);
    }
    forall h ensures Sharers(m[p := Ownd(f)], h) == Sharers(m, h) - {p} {
      SharersUpdate(m, p, Ownd(f), h);
    }
    ghost var m' := m[p := Ownd(f)];
    forall x, y ensures SoleOwner(m', x, y) {
      assert SoleOwner(m, x, y) && SoleOwner(m, y, x) && SoleOwner(m, x, p) && SoleOwner(m, p, y);
    }
  }

  lemma UnmapLazyKeeps(m: map<Pte, MFrame>, rc: map<Ppn, nat>, ptes: map<Pte, Entry>, free: set<Ppn>, mem: map<Ppn, Bytes>, p: Pte)
    requires Consistent(m, rc, ptes, free, mem) && p in m && m[p].Lazy?
    ensures Consistent(m - {p}, rc, ptes, free, mem)
  {
    ghost var m' := m - {p};
    forall x, y ensures SoleOwner(m', x, y) {
      assert SoleOwner(m, x, y) && SoleOwner(m, y, x) && SoleOwner(m, x, p) && SoleOwner(m, p, y);
    }
    forall h ensures Sharers(m - {p}, h) == Sharers(m, h) - {p} {
      SharersRemove(m, p, h);
    }
  }

  lemma UnmapOwnedKeeps(m: map<Pte, MFrame>, rc: map<Ppn, nat>, ptes: map<Pte, Entry>, free: set<Ppn>, mem: map<Ppn, Bytes>, p: Pte)
    requires Consistent(m, rc, ptes, free, mem) && p in m && m[p].Ownd?
    ensures Consistent(m - {p}, rc, ptes[p := Invalidated(ptes[p])], free + {m[p].frame}, mem)
  {
    ghost var m' := m - {p};
    forall x, y ensures SoleOwner(m', x, y) {
      assert SoleOwner(m, x, y) && SoleOwner(m, y, x) && SoleOwner(m, x, p) && SoleOwner(m, p, y);
    }
    forall q | q in m && q != p && !m[q].Lazy? ensures m[q].frame != m[p].frame {
      assert SoleOwner(m, p, q);
    }
    forall h ensures Sharers(m - {p}, h) == Sharers(m, h) - {p} {
      SharersRemove(m, p, h);
    }
  }

  lemma UnmapSharedKeeps(m: map<Pte, MFrame>, rc: map<Ppn, nat>, ptes: map<Pte, Entry>, free: set<Ppn>, mem: map<Ppn, Bytes>, p: Pte)
    requires Consistent(m, rc, ptes, free, mem) && p in m && m[p].Cow? && rc[m[p].frame] > 1
    ensures var f := m[p].frame;
      Consistent(m - {p}, rc[f := rc[f] - 1], ptes[p := Invalidated(ptes[p])], free, mem)
  {
    UnmapSharedCounted(m, rc, p);
    UnmapCowBacked(m, ptes, free, mem, p);
  }

  lemma UnmapSharedCounted(m: map<Pte, MFrame>, rc: map<Ppn, nat>, p: Pte)
    requires Counted(m, rc) && p in m && m[p].Cow? && rc[m[p].frame] > 1
    ensures var f := m[p].frame;
      Counted(m - {p}, rc[f := rc[f] - 1])
  {
    forall h ensures Sharers(m - {p}, h) == Sharers(m, h) - {p} {
      SharersRemove(m, p, h);
    }
    assert p in Sharers(m, m[p].frame);
  }

  /** Unmapping a shared PTE, with its frame kept allocated, keeps the machine backing the rest. */
  lemma UnmapCowBacked(m: map<Pte, MFrame>, ptes: map<Pte, Entry>, free: set<Ppn>, mem: map<Ppn, Bytes>, p: Pte)
    requires Backed(m, ptes, free, mem) && p in m && m[p].Cow?
    ensures Backed(m - {p}, ptes[p := Invalidated(ptes[p])], free, mem)
  {
    ghost var m' := m - {p};
    forall x, y ensures SoleOwner(m', x, y) {
      assert SoleOwner(m, x, y);
    }
  }

  lemma UnmapLastKeeps(m: map<Pte, MFrame>, rc: map<Ppn, nat>, ptes: map<Pte, Entry>, free: set<Ppn>, mem: map<Ppn, Bytes>, p: Pte)
    requires Consistent(m, rc, ptes, free, mem) && p in m && m[p].Cow? && rc[m[p].frame] == 1
    ensures var f := m[p].frame;
      Consistent(m - {p}, rc - {f}, ptes[p := Invalidated(ptes[p])], free + {f}, mem)
  {
    UnmapLastSole(m, rc, p);
    UnmapLastCounted(m, rc, p);
    UnmapLastBacked(m, ptes, free, mem, p);
  }

  /** The last sharer of a frame is the only PTE holding it. */
  lemma UnmapLastSole(m: map<Pte, MFrame>, rc: map<Ppn, nat>, p: Pte)
    requires Counted(m, rc) && p in m && m[p].Cow? && rc[m[p].frame] == 1
    ensures forall q | q in m && m[q] == Cow(m[p].frame) :: q == p
  {
    var f := m[p].frame;
    assert p in Sharers(m, f);
    Singleton(Sharers(m, f), p);
    forall q | q in m && m[q] == Cow(f) ensures q == p {
      assert q in Sharers(m, f);
    }
  }

  lemma UnmapLastCounted(m: map<Pte, MFrame>, rc: map<Ppn, nat>, p: Pte)
    requires Counted(m, rc) && p in m && m[p].Cow? && rc[m[p].frame] == 1
    ensures Counted(m - {p}, rc - {m[p].frame})
  {
    var f := m[p].frame;
    assert p in Sharers(m, f);
    Singleton(Sharers(m, f), p);
    forall h ensures Sharers(m - {p}, h) == Sharers(m, h) - {p} {
      SharersRemove(m, p, h);
    }
    forall q | q in m - {p} && (m - {p})[q].Cow? ensures (m - {p})[q].frame in rc - {f} {
      assert q in Sharers(m, m[q].frame);
    }
  }

  lemma UnmapLastBacked(m: map<Pte, MFrame>, ptes: map<Pte, Entry>, free: set<Ppn>, mem: map<Ppn, Bytes>, p: Pte)
    requires Backed(m, ptes, free, mem) && p in m && m[p].Cow?
    requires forall q | q in m && m[q] == Cow(m[p].frame) :: q == p
    ensures Backed(m - {p}, ptes[p := Invalidated(ptes[p])], free + {m[p].frame}, mem)
  {
    var f := m[p].frame;
    forall q | q in m && q != p && m[q].Ownd? ensures m[q].frame != f {
      assert SoleOwner(m, q, p);
    }
    ghost var m' := m - {p};
    forall x, y ensures SoleOwner(m', x, y) {
      assert SoleOwner(m, x, y);
    }
  }

  lemma ShareLazyKeeps(m: map<Pte, MFrame>, rc: map<Ppn, nat>, ptes: map<Pte, Entry>, free: set<Ppn>, mem: map<Ppn, Bytes>, b: Pte)
    requires Consistent(m, rc, ptes, free, mem) && b !in m && b in ptes && ptes[b].flags & FLAG_V == 0
    ensures Consistent(m[b := Lazy], rc, ptes, free, mem)
  {
    ghost var m' := m[b := Lazy];
    forall x, y ensures SoleOwner(m', x, y) {
      assert SoleOwner(m, x, y) && SoleOwner(m, y, x) && SoleOwner(m, x, b) && SoleOwner(m, b, y);
    }
    forall h ensures Sharers(m[b := Lazy], h) == Sharers(m, h) - {b} {
      SharersUpdate(m, b, Lazy, h);
    }
  }

  lemma ShareOwnedKeeps(m: map<Pte, MFrame>, rc: map<Ppn, nat>, ptes: map<Pte, Entry>, free: set<Ppn>, mem: map<Ppn, Bytes>,
                        o: Pte, b: Pte)
    requires Consistent(m, rc, ptes, free, mem) && o in m && m[o].Ownd? && b !in m && b in ptes
    ensures var f := m[o].frame;
      var e := Entry(f, ptes[o].flags & !FLAG_W);
      Consistent(m[o := Cow(f)][b := Cow(f)], rc[f := 2], ptes[o := e][b := e], free, mem)
  {
    ShareOwnedCounted(m, rc, ptes, free, mem, o, b);
    ShareOwnedBacked(m, ptes, free, mem, o, b);
  }

  lemma ShareOwnedBacked(m: map<Pte, MFrame>, ptes: map<Pte, Entry>, free: set<Ppn>, mem: map<Ppn, Bytes>, o: Pte, b: Pte)
    requires Backed(m, ptes, free, mem) && o in m && m[o].Ownd? && b !in m && b in ptes
    ensures var f := m[o].frame;
      var e := Entry(f, ptes[o].flags & !FLAG_W);
      Backed(m[o := Cow(f)][b := Cow(f)], ptes[o := e][b := e], free, mem)
  {
    var f := m[o].frame;
    var e := Entry(f, ptes[o].flags & !FLAG_W);
    assert e.flags & FLAG_V != 0;
    var m2 := m[o := Cow(f)][b := Cow(f)];
    var ptes2 := ptes[o := e][b := e];
    forall p | p in m2 && !m2[p].Lazy?
      ensures m2[p].frame !in free && m2[p].frame in mem && ptes2[p].ppn == m2[p].frame && ptes2[p].flags & FLAG_V != 0
    {
      if p != o && p != b {
        assert m2[p] == m[p] && ptes2[p] == ptes[p];
      }
    }
    forall p, q ensures SoleOwner(m2, p, q) {
      assert SoleOwner(m, p, q) && SoleOwner(m, p, o) && SoleOwner(m, o, q);
    }
  }

  lemma ShareOwnedCounted(m: map<Pte, MFrame>, rc: map<Ppn, nat>, ptes: map<Pte, Entry>, free: set<Ppn>, mem: map<Ppn, Bytes>,
                          o: Pte, b: Pte)
    requires Consistent(m, rc, ptes, free, mem) && o in m && m[o].Ownd? && b !in m
    ensures Counted(m[o := Cow(m[o].frame)][b := Cow(m[o].frame)], rc[m[o].frame := 2])
  {
    var f := m[o].frame;
    OwnedNotShared(m, rc, ptes, free, mem, o);
    var m1 := m[o := Cow(f)];
    forall h ensures Sharers(m1, h) == if h == f then Sharers(m, h) + {o} else Sharers(m, h) - {o} {
      SharersUpdate(m, o, Cow(f), h);
    }
    forall h ensures Sharers(m1[b := Cow(f)], h) == if h == f then Sharers(m1, h) + {b} else Sharers(m1, h) - {b} {
      SharersUpdate(m1, b, Cow(f), h);
    }
    assert Sharers(m1[b := Cow(f)], f) == {o, b};
  }

  lemma ShareCowKeeps(m: map<Pte, MFrame>, rc: map<Ppn, nat>, ptes: map<Pte, Entry>, free: set<Ppn>, mem: map<Ppn, Bytes>,
                      o: Pte, b: Pte)
    requires Consistent(m, rc, ptes, free, mem) && o in m && m[o].Cow? && b !in m && b in ptes
    ensures var f := m[o].frame;
      Consistent(m[b := Cow(f)], rc[f := rc[f] + 1], ptes[b := Entry(f, ptes[o].flags)], free, mem)
  {
    ShareCowCounted(m, rc, o, b);
    ShareCowBacked(m, ptes, free, mem, o, b);
  }

  lemma ShareCowCounted(m: map<Pte, MFrame>, rc: map<Ppn, nat>, o: Pte, b: Pte)
    requires Counted(m, rc) && o in m && m[o].Cow? && b !in m
    ensures var f := m[o].frame;
      f in rc && Counted(m[b := Cow(f)], rc[f := rc[f] + 1])
  {
    var f := m[o].frame;
    forall h ensures Sharers(m[b := Cow(f)], h) == if h == f then Sharers(m, h) + {b} else Sharers(m, h) - {b} {
      SharersUpdate(m, b, Cow(f), h);
    }
  }

  lemma ShareCowBacked(m: map<Pte, MFrame>, ptes: map<Pte, Entry>, free: set<Ppn>, mem: map<Ppn, Bytes>, o: Pte, b: Pte)
    requires Backed(m, ptes, free, mem) && o in m && m[o].Cow? && b !in m && b in ptes
    ensures var f := m[o].frame;
      Backed(m[b := Cow(f)], ptes[b := Entry(f, ptes[o].flags)], free, mem)
  {
    ghost var m' := m[b := Cow(m[o].frame)];
    forall x, y ensures SoleOwner(m', x, y) {
      assert SoleOwner(m, x, y) && SoleOwner(m, y, x) && SoleOwner(m, x, o) && SoleOwner(m, o, y);
    }
  }

  /**
   * After `share_cow` of origin `o` to borrower `p`: both track the same
   * state; a lazy origin stays lazy; otherwise both are COW of the
   * origin's frame with the same entry, an owned origin losing W.
   */
  ghost predicate CowShared(fm0: map<Pte, MFrame>, fm: map<Pte, MFrame>, ptes0: map<Pte, Entry>, ptes: map<Pte, Entry>, o: Pte, p: Pte)
  {
    && o in fm0 && o in fm && p in fm && fm[p] == fm[o] && fm == fm0[o := fm[o]][p := fm[p]]
    && (fm0[o].Lazy? ==> fm[o].Lazy?)
    && (!fm0[o].Lazy? ==>
          && fm[o] == Cow(fm0[o].frame) && o in ptes0 && o in ptes && p in ptes
          && ptes[p] == ptes[o] && ptes[o].ppn == fm0[o].frame)
    && (fm0[o].Ownd? ==> ptes[o].flags == ptes0[o].flags & !FLAG_W)
    && (fm0[o].Cow? ==> ptes[o] == ptes0[o])
  }

  /** `share_cow`'s effect, stated by cases on the origin, is `CowShared`; `ptes0` is the machine before the borrower's entry was created. */
  lemma CowSharedOf(fm0: map<Pte, MFrame>, fm: map<Pte, MFrame>, ptes0: map<Pte, Entry>, ptes1: map<Pte, Entry>, ptes: map<Pte, Entry>, o: Pte, p: Pte)
    requires o in fm0 && o != p && o in ptes0 && p in ptes1 && ptes1 == ptes0[p := ptes1[p]]
    requires !fm0[o].Lazy? ==> ptes1[o].ppn == fm0[o].frame
    requires fm0[o].Lazy? ==> fm == fm0[p := Lazy] && ptes == ptes1
    requires fm0[o].Ownd? ==>
      var f := fm0[o].frame;
      var e := Entry(f, ptes1[o].flags & !FLAG_W);
      fm == fm0[o := Cow(f)][p := Cow(f)] && ptes == ptes1[o := e][p := e]
    requires fm0[o].Cow? ==>
      var f := fm0[o].frame;
      fm == fm0[p := Cow(f)] && ptes == ptes1[p := Entry(f, ptes1[o].flags)]
    ensures CowShared(fm0, fm, ptes0, ptes, o, p)
    ensures p in ptes && ptes == ptes0[o := ptes[o]][p := ptes[p]]
  {
    if fm0[o].Lazy? {
      assert fm == fm0[o := fm[o]][p := fm[p]];
      assert ptes0[o := ptes0[o]] == ptes0;
    } else if fm0[o].Cow? {
      assert fm == fm0[o := fm[o]][p := fm[p]];
      assert ptes0[o := ptes0[o]] == ptes0;
    }
  }

  class MFrameManager {
    var mapping: map<Pte, MFrame>
    /** The strong count of each shared frame's `Arc`. */
    var rc: map<Ppn, nat>
    const hw: Machine

    ghost predicate Valid()
      reads this, hw
    {
      Consistent(mapping, rc, hw.ptes, hw.free, hw.mem)
    }

    constructor (hw: Machine)
      ensures Valid() && this.hw == hw && mapping == map[] && rc == map[]
    {
      this.hw := hw;
      mapping := map[];
      rc := map[];
    }

    /** `is_lazy`: a tracked PTE is lazy exactly when it is not present. */
    function IsLazy(p: Pte): (lazy: bool)
      requires p in mapping
      reads this, hw
      ensures Valid() ==> (lazy <==> !hw.Present(p))
    {
      mapping[p].Lazy?
    }

    /** `is_owned`: an owned PTE is present on an allocated frame (that no PTE shares, by `OwnedNotShared`). */
    function IsOwned(p: Pte): (owned: bool)
      requires p in mapping
      reads this, hw
      ensures Valid() && owned ==>
        && hw.Present(p) && hw.ptes[p].ppn == mapping[p].frame
        && hw.ptes[p].ppn !in hw.free && hw.ptes[p].ppn in hw.mem
    {
      mapping[p].Ownd?
    }

    /** `is_cow`: a copy-on-write PTE is present on a counted frame it is one of the sharers of. */
    function IsCow(p: Pte): (cow: bool)
      requires p in mapping
      reads this, hw
      ensures Valid() && cow ==>
        && hw.Present(p) && hw.ptes[p].ppn in rc
        && p in Sharers(mapping, hw.ptes[p].ppn) && rc[hw.ptes[p].ppn] >= 1
    {
      mapping[p].Cow?
    }

    /** `map_lazy`: track the PTE as `Lazy` and invalidate it. */
    method MapLazy(p: Pte)
      requires Valid() && p !in mapping && p in hw.ptes
      modifies this, hw
      ensures Valid() && mapping == old(mapping)[p := Lazy] && rc == old(rc)
      ensures hw.ptes == old(hw.ptes)[p := Invalidated(old(hw.ptes[p]))]
      ensures hw.free == old(hw.free) && hw.mem == old(hw.mem)
    {
      MapLazyKeeps(mapping, rc, hw.ptes, hw.free, hw.mem, p);
      mapping := mapping[p := Lazy];
      hw.Invalidate(p);
    }

    /**
     * `load`: a `Lazy` entry gets one newly allocated frame, the PTE points
     * at it with `flags`, and it becomes `Ownd`; an `Ownd` entry is left
     * alone. (Loading a `Cow` entry panics; callers pass V in `flags`.)
     */
    method Load(p: Pte, flags: bv8)
      requires Valid() && p in mapping && !mapping[p].Cow? && flags & FLAG_V != 0
      requires mapping[p].Lazy? ==> hw.free != {}
      modifies this, hw
      ensures Valid() && rc == old(rc) && p in mapping
      ensures old(mapping[p]).Ownd? ==> mapping == old(mapping) && unchanged(hw)
      ensures old(mapping[p]).Lazy? ==>
        && mapping[p].Ownd? && mapping == old(mapping)[p := mapping[p]]
        && mapping[p].frame in old(hw.free) && hw.free == old(hw.free) - {mapping[p].frame}
        && hw.ptes == old(hw.ptes)[p := Entry(mapping[p].frame, flags)]
        && hw.mem == old(hw.mem)[mapping[p].frame := ZeroPage()]
    {
      if mapping[p].Ownd? {
        return;
      }
      ghost var m0, rc0, ptes0, free0, mem0 := mapping, rc, hw.ptes, hw.free, hw.mem;
      var f := hw.FrameAlloc();
      hw.SetPte(p, Entry(f, flags));
      LoadKeeps(m0, rc0, ptes0, free0, mem0, p, f, flags);
      mapping := mapping[p := Ownd(f)];
    }

    /** `map_strict`: `map_lazy` then `load`, so the PTE ends up owning a new frame. */
    method MapStrict(p: Pte, flags: bv8)
      requires Valid() && p !in mapping && p in hw.ptes && flags & FLAG_V != 0 && hw.free != {}
      modifies this, hw
      ensures Valid() && rc == old(rc) && p in mapping
      ensures mapping[p].Ownd? && mapping == old(mapping)[p := mapping[p]]
      ensures mapping[p].frame in old(hw.free) && hw.free == old(hw.free) - {mapping[p].frame}
      ensures hw.ptes == old(hw.ptes)[p := Entry(mapping[p].frame, flags)]
      ensures hw.mem == old(hw.mem)[mapping[p].frame := ZeroPage()]
    {
      MapLazy(p);
      Load(p, flags);
    }

    /**
     * `cown`: a `Cow` entry becomes `Ownd` and writable. While others still
     * share the frame it gets a private copy in one new frame and drops one
     * reference; as the last sharer it keeps the frame. `Ownd` is left
     * alone; `Lazy` panics.
     */
    method Cown(p: Pte)
      requires Valid() && p in mapping && !mapping[p].Lazy?
      requires mapping[p].Cow? && rc[mapping[p].frame] > 1 ==> hw.free != {}
      modifies this, hw
      ensures Valid() && p in mapping
      ensures old(mapping[p]).Ownd? ==> mapping == old(mapping) && rc == old(rc) && unchanged(hw)
      ensures old(mapping[p]).Cow? && old(rc[mapping[p].frame]) > 1 ==>
        var f := old(mapping[p]).frame;
        && mapping[p].Ownd? && mapping == old(mapping)[p := mapping[p]]
        && mapping[p].frame in old(hw.free) && hw.free == old(hw.free) - {mapping[p].frame}
        && rc == old(rc)[f := old(rc[f]) - 1]
        && hw.mem == old(hw.mem)[mapping[p].frame := old(hw.mem[f])]
        && hw.ptes == old(hw.ptes)[p := Entry(mapping[p].frame, old(hw.ptes[p]).flags | FLAG_W)]
      ensures old(mapping[p]).Cow? && old(rc[mapping[p].frame]) == 1 ==>
        var f := old(mapping[p]).frame;
        && mapping == old(mapping)[p := Ownd(f)] && rc == old(rc) - {f}
        && hw.free == old(hw.free) && hw.mem == old(hw.mem)
        && hw.ptes == old(hw.ptes)[p := Entry(f, old(hw.ptes[p]).flags | FLAG_W)]
    {
      if mapping[p].Ownd? {
        return;
      }
      if rc[mapping[p].frame] > 1 {
        CownCopy(p);
      } else {
        CownSole(p);
      }
    }

    /** `cown` while others share the frame: copy it into a new frame and drop one reference. */
    method CownCopy(p: Pte)
      requires Valid() && p in mapping && mapping[p].Cow? && rc[mapping[p].frame] > 1 && hw.free != {}
      modifies this, hw
      ensures Valid() && p in mapping
      ensures var f := old(mapping[p]).frame;
        && mapping[p].Ownd? && mapping == old(mapping)[p := mapping[p]]
        && mapping[p].frame in old(hw.free) && hw.free == old(hw.free) - {mapping[p].frame}
        && rc == old(rc)[f := old(rc[f]) - 1]
        && hw.mem == old(hw.mem)[mapping[p].frame := old(hw.mem[f])]
        && hw.ptes == old(hw.ptes)[p := Entry(mapping[p].frame, old(hw.ptes[p]).flags | FLAG_W)]
    {
      var f := mapping[p].frame;
      var flags := hw.ptes[p].flags;
      ghost var m0, rc0, ptes0, free0, mem0 := mapping, rc, hw.ptes, hw.free, hw.mem;
      var g := hw.FrameAlloc();
      CownCopyKeeps(m0, rc0, ptes0, free0, mem0, p, g);
      hw.CopyFrame(g, f);
      CopyOverCleared(mem0, g, f, ZeroPage());
      hw.SetPte(p, Entry(g, flags | FLAG_W));
      mapping := mapping[p := Ownd(g)];
      rc := rc[f := rc[f] - 1];
    }

    /** `cown` by the last sharer: it keeps the frame, which becomes writable. */
    method CownSole(p: Pte)
      requires Valid() && p in mapping && mapping[p].Cow? && rc[mapping[p].frame] == 1
      modifies this, hw
      ensures Valid()
      ensures var f := old(mapping[p]).frame;
        && mapping == old(mapping)[p := Ownd(f)] && rc == old(rc) - {f}
        && hw.free == old(hw.free) && hw.mem == old(hw.mem)
        && hw.ptes == old(hw.ptes)[p := Entry(f, old(hw.ptes[p]).flags | FLAG_W)]
    {
      var f := mapping[p].frame;
      CownSoleKeeps(mapping, rc, hw.ptes, hw.free, hw.mem, p);
      hw.SetPte(p, Entry(f, hw.ptes[p].flags | FLAG_W));
      mapping := mapping[p := Ownd(f)];
      rc := rc - {f};
    }

    /**
     * `unmap`: untrack the PTE (it must be tracked) and invalidate it unless
     * it was `Lazy`; an owned frame, or a shared frame's last reference, is
     * freed.
     */
    method Unmap(p: Pte)
      requires Valid() && p in mapping
      modifies this, hw
      ensures Valid() && mapping == old(mapping) - {p} && hw.mem == old(hw.mem)
      ensures old(mapping[p]).Lazy? ==> rc == old(rc) && unchanged(hw)
      ensures !old(mapping[p]).Lazy? ==> hw.ptes == old(hw.ptes)[p := Invalidated(old(hw.ptes[p]))]
      ensures old(mapping[p]).Ownd? ==> rc == old(rc) && hw.free == old(hw.free) + {old(mapping[p]).frame}
      ensures old(mapping[p]).Cow? && old(rc[mapping[p].frame]) > 1 ==>
        rc == old(rc)[old(mapping[p]).frame := old(rc[mapping[p].frame]) - 1] && hw.free == old(hw.free)
      ensures old(mapping[p]).Cow? && old(rc[mapping[p].frame]) == 1 ==>
        rc == old(rc) - {old(mapping[p]).frame} && hw.free == old(hw.free) + {old(mapping[p]).frame}
    {
      match mapping[p] {
        case Lazy =>
          UnmapLazyKeeps(mapping, rc, hw.ptes, hw.free, hw.mem, p);
          mapping := mapping - {p};
        case Ownd(_) =>
          DropOwned(p);
        case Cow(_) =>
          DropShared(p);
      }
    }

    /** `unmap` of an `Ownd` entry: the PTE is invalidated and the frame freed. */
    method DropOwned(p: Pte)
      requires Valid() && p in mapping && mapping[p].Ownd?
      modifies this, hw
      ensures Valid() && mapping == old(mapping) - {p} && rc == old(rc) && hw.mem == old(hw.mem)
      ensures hw.ptes == old(hw.ptes)[p := Invalidated(old(hw.ptes[p]))]
      ensures hw.free == old(hw.free) + {old(mapping[p]).frame}
    {
      var f := mapping[p].frame;
      UnmapOwnedKeeps(mapping, rc, hw.ptes, hw.free, hw.mem, p);
      mapping := mapping - {p};
      hw.Invalidate(p);
      hw.FrameDealloc(f);
    }

    /** `unmap` of a `Cow` entry: the PTE is invalidated and drops one reference; the last one frees the frame. */
    method DropShared(p: Pte)
      requires Valid() && p in mapping && mapping[p].Cow?
      modifies this, hw
      ensures Valid() && mapping == old(mapping) - {p} && hw.mem == old(hw.mem)
      ensures hw.ptes == old(hw.ptes)[p := Invalidated(old(hw.ptes[p]))]
      ensures old(rc[mapping[p].frame]) > 1 ==>
        rc == old(rc)[old(mapping[p]).frame := old(rc[mapping[p].frame]) - 1] && hw.free == old(hw.free)
      ensures old(rc[mapping[p].frame]) == 1 ==>
        rc == old(rc) - {old(mapping[p]).frame} && hw.free == old(hw.free) + {old(mapping[p]).frame}
    {
      var f := mapping[p].frame;
      if rc[f] == 1 {
        UnmapLastKeeps(mapping, rc, hw.ptes, hw.free, hw.mem, p);
        rc := rc - {f};
        mapping := mapping - {p};
        hw.Invalidate(p);
        hw.FrameDealloc(f);
      } else {
        UnmapSharedKeeps(mapping, rc, hw.ptes, hw.free, hw.mem, p);
        rc := rc[f := rc[f] - 1];
        mapping := mapping - {p};
        hw.Invalidate(p);
      }
    }

    /**
     * `share_cow(origin, borrow)` for a fork. `Ownd`: both PTEs become `Cow`
     * of the frame without W and the count is 2. `Cow`: the borrower joins
     * with the origin's flags and the count rises by 1. `Lazy`: the
     * borrower is `Lazy` too and no frame is allocated.
     */
    method ShareCow(origin: Pte, borrow: Pte)
      requires Valid() && origin in mapping && borrow !in mapping && borrow in hw.ptes
      requires mapping[origin].Lazy? ==> hw.ptes[borrow].flags & FLAG_V == 0
      modifies this, hw
      ensures Valid() && hw.free == old(hw.free) && hw.mem == old(hw.mem)
      ensures old(mapping[origin]).Lazy? ==> mapping == old(mapping)[borrow := Lazy] && rc == old(rc) && unchanged(hw)
      ensures old(mapping[origin]).Ownd? ==>
        var f := old(mapping[origin]).frame;
        var e := Entry(f, old(hw.ptes[origin]).flags & !FLAG_W);
        && mapping == old(mapping)[origin := Cow(f)][borrow := Cow(f)]
        && rc == old(rc)[f := 2]
        && hw.ptes == old(hw.ptes)[origin := e][borrow := e]
      ensures old(mapping[origin]).Cow? ==>
        var f := old(mapping[origin]).frame;
        && mapping == old(mapping)[borrow := Cow(f)]
        && rc == old(rc)[f := old(rc[f]) + 1]
        && hw.ptes == old(hw.ptes)[borrow := Entry(f, old(hw.ptes[origin]).flags)]
    {
      match mapping[origin] {
        case Lazy =>
          ShareLazyKeeps(mapping, rc, hw.ptes, hw.free, hw.mem, borrow);
          mapping := mapping[borrow := Lazy];
        case Ownd(f) =>
          ShareOwned(origin, borrow);
        case Cow(f) =>
          ShareShared(origin, borrow);
      }
    }

    /**
     * `Page::fork` on the frame side: the borrower's PTE is created if it
     * did not exist (not present), then `share_cow` from the origin.
     */
    method ForkShare(origin: Pte, borrow: Pte)
      requires Valid() && origin in mapping && borrow !in mapping && origin != borrow
      requires borrow in hw.ptes ==> hw.ptes[borrow].flags & FLAG_V == 0
      modifies this, hw
      ensures Valid() && hw.free == old(hw.free) && hw.mem == old(hw.mem)
      ensures CowShared(old(mapping), mapping, old(hw.ptes), hw.ptes, origin, borrow)
      ensures borrow in hw.ptes && hw.ptes == old(hw.ptes)[origin := hw.ptes[origin]][borrow := hw.ptes[borrow]]
    {
      ghost var m0, ptes0 := mapping, hw.ptes;
      hw.CreateForce(borrow);
      ghost var ptes1 := hw.ptes;
      Untouched(m0, rc, ptes0, hw.free, hw.mem, borrow, ptes1[borrow]);
      ShareCow(origin, borrow);
      CowSharedOf(m0, mapping, ptes0, ptes1, hw.ptes, origin, borrow);
    }

    /** `share_cow` of an `Ownd` origin: both PTEs share the frame read-only, counted twice. */
    method ShareOwned(origin: Pte, borrow: Pte)
      requires Valid() && origin in mapping && mapping[origin].Ownd? && borrow !in mapping && borrow in hw.ptes
      modifies this, hw
      ensures Valid() && hw.free == old(hw.free) && hw.mem == old(hw.mem)
      ensures var f := old(mapping[origin]).frame;
        var e := Entry(f, old(hw.ptes[origin]).flags & !FLAG_W);
        && mapping == old(mapping)[origin := Cow(f)][borrow := Cow(f)]
        && rc == old(rc)[f := 2]
        && hw.ptes == old(hw.ptes)[origin := e][borrow := e]
    {
      var f := mapping[origin].frame;
      ShareOwnedKeeps(mapping, rc, hw.ptes, hw.free, hw.mem, origin, borrow);
      var flags := hw.ptes[origin].flags & !FLAG_W;
      hw.SetPte(origin, Entry(f, flags));
      hw.SetPte(borrow, Entry(f, flags));
      mapping := mapping[origin := Cow(f)][borrow := Cow(f)];
      rc := rc[f := 2];
    }

    /** `share_cow` of a `Cow` origin: the borrower joins the sharers with the origin's flags. */
    method ShareShared(origin: Pte, borrow: Pte)
      requires Valid() && origin in mapping && mapping[origin].Cow? && borrow !in mapping && borrow in hw.ptes
      modifies this, hw
      ensures Valid() && hw.free == old(hw.free) && hw.mem == old(hw.mem)
      ensures var f := old(mapping[origin]).frame;
        && mapping == old(mapping)[borrow := Cow(f)]
        && rc == old(rc)[f := old(rc[f]) + 1]
        && hw.ptes == old(hw.ptes)[borrow := Entry(f, old(hw.ptes[origin]).flags)]
    {
      var f := mapping[origin].frame;
      ShareCowKeeps(mapping, rc, hw.ptes, hw.free, hw.mem, origin, borrow);
      mapping := mapping[borrow := Cow(f)];
      rc := rc[f := rc[f] + 1];
      hw.SetPte(borrow, Entry(f, hw.ptes[origin].flags));
    }
  }
}
