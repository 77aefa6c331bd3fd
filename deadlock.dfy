/**
 * Deadlock detection for the semaphores of a process (os/src/task/deadlock.rs).
 *
 * `alloc[t][l]` is how many units of lock `l` thread `t` holds, `q[t][l]` how
 * many it is waiting for, and `avail[l]` how many are free. Rows and columns
 * are created lazily by `prepare_lock_state`, so rows may be ragged; a cell
 * outside a row reads as 0 (`Cell`).
 *
 * The lock objects are abstract: `locks[l]` says whether slot `l` holds one,
 * and every `up()` the detector issues on a lock is appended to `ups`.
 */
module Deadlock {
  import opened Wrappers

  function Cell(row: seq<nat>, l: nat): nat
  {
    if l < |row| then row[l] else 0
  }

  /** `all_zero`. */
  predicate AllZero(row: seq<nat>)
  {
    forall l :: 0 <= l < |row| ==> row[l] == 0
  }

  /** `le_vec`: pointwise `<=` of two vectors of the same length. */
  predicate LeVec(v1: seq<nat>, v2: seq<nat>)
    requires |v1| == |v2|
  {
    forall l :: 0 <= l < |v1| ==> v1[l] <= v2[l]
  }

  /** `add_to`: the pointwise sum of two vectors of the same length. */
  function VecAdd(dst: seq<nat>, src: seq<nat>): (r: seq<nat>)
    requires |dst| == |src|
    ensures |r| == |dst| && forall l :: 0 <= l < |dst| ==> r[l] == dst[l] + src[l]
  {
    if dst == [] then [] else [dst[0] + src[0]] + VecAdd(dst[1..], src[1..])
  }

  function Zeros(n: nat): (r: seq<nat>)
    ensures |r| == n && AllZero(r)
  {
    if n == 0 then [] else Zeros(n - 1) + [0]
  }

  /** One row after `prepare_lock_state`: padded with zeros to at least `n` cells. */
  function PadRow(row: seq<nat>, n: nat): (r: seq<nat>)
    ensures |r| == if |row| >= n then |row| else n
    ensures r[..|row|] == row
    ensures forall l :: |row| <= l < |r| ==> r[l] == 0
  {
    if |row| >= n then row else row + Zeros(n - |row|)
  }

  /**
   * A matrix after `prepare_lock_state(nt, nl)`: at least `nt` rows, the
   * first `nt` of them with at least `nl` cells; new cells are 0, existing
   * cells keep their values and nothing shrinks.
   */
  function Pad(rows: seq<seq<nat>>, nt: nat, nl: nat): (r: seq<seq<nat>>)
    ensures |r| == if |rows| >= nt then |rows| else nt
    ensures forall i :: 0 <= i < nt ==> |r[i]| >= nl
    ensures forall i :: 0 <= i < |rows| ==> |r[i]| >= |rows[i]| && r[i][..|rows[i]|] == rows[i]
    ensures forall i :: nt <= i < |rows| ==> r[i] == rows[i]
    ensures forall i :: 0 <= i < |r| ==> |r[i]| <= Max(nl, if i < |rows| then |rows[i]| else 0)
  {
    var n := if |rows| >= nt then |rows| else nt;
    var r := seq(n, i requires 0 <= i < n =>
      if i < nt then PadRow(if i < |rows| then rows[i] else [], nl) else rows[i]);
    assert forall i :: 0 <= i < n ==>
      r[i] == if i < nt then PadRow(if i < |rows| then rows[i] else [], nl) else rows[i];
    r
  }

  function Max(a: nat, b: nat): nat { if a >= b then a else b }

  /** Every cell of a padded matrix is the original cell, or 0 where there was none. */
  lemma PadCells(rows: seq<seq<nat>>, nt: nat, nl: nat)
    ensures var r := Pad(rows, nt, nl);
      forall i, l :: 0 <= i < |r| && 0 <= l < |r[i]| ==> r[i][l] == Cell(if i < |rows| then rows[i] else [], l)
  {
    var r := Pad(rows, nt, nl);
    forall i, l | 0 <= i < |r| && 0 <= l < |r[i]|
      ensures r[i][l] == Cell(if i < |rows| then rows[i] else [], l)
    {
      if i < |rows| && l < |rows[i]| {
        assert r[i][..|rows[i]|][l] == rows[i][l];
      }
    }
  }

  /** Padding twice to the same or smaller bounds changes nothing more. */
  lemma PadIdempotent(rows: seq<seq<nat>>, nt: nat, nl: nat)
    ensures Pad(Pad(rows, nt, nl), nt, nl) == Pad(rows, nt, nl)
  {
    var p := Pad(rows, nt, nl);
    var pp := Pad(p, nt, nl);
    assert |pp| == |p|;
    forall i | 0 <= i < |p| ensures pp[i] == p[i] {
      if i < nt {
        assert |p[i]| >= nl;
        assert pp[i] == PadRow(p[i], nl);
      }
    }
  }

  /** One more unit in cell `(t, l)`. */
  function Bump(rows: seq<seq<nat>>, t: nat, l: nat): (r: seq<seq<nat>>)
    requires t < |rows| && l < |rows[t]|
  {
    rows[t := rows[t][l := rows[t][l] + 1]]
  }

  /** The sum of column `l` over the rows in `F` among the first `n`. */
  function Held(alloc: seq<seq<nat>>, F: set<nat>, l: nat, n: nat): nat
    requires n <= |alloc|
  {
    if n == 0 then 0
    else Held(alloc, F, l, n - 1) + (if n - 1 in F then Cell(alloc[n - 1], l) else 0)
  }

  lemma {:induction false} HeldNone(alloc: seq<seq<nat>>, F: set<nat>, l: nat, n: nat)
    requires n <= |alloc| && forall i :: 0 <= i < n ==> i !in F
    ensures Held(alloc, F, l, n) == 0
  {
    if n > 0 {
      HeldNone(alloc, F, l, n - 1);
    }
  }

  /** Adding one more row to the summed set adds that row's cell. */
  lemma {:induction false} HeldAdd(alloc: seq<seq<nat>>, F: set<nat>, x: nat, l: nat, n: nat)
    requires x < n <= |alloc| && x !in F
    ensures Held(alloc, F + {x}, l, n) == Held(alloc, F, l, n) + Cell(alloc[x], l)
  {
    if x < n - 1 {
      HeldAdd(alloc, F, x, l, n - 1);
    } else {
      HeldSame(alloc, F + {x}, F, l, n - 1);
    }
  }

  /** Sets that agree below `n` have the same sum. */
  lemma {:induction false} HeldSame(alloc: seq<seq<nat>>, F: set<nat>, G: set<nat>, l: nat, n: nat)
    requires n <= |alloc|
    requires forall i :: 0 <= i < n ==> (i in F <==> i in G)
    ensures Held(alloc, F, l, n) == Held(alloc, G, l, n)
  {
    if n > 0 {
      HeldSame(alloc, F, G, l, n - 1);
    }
  }

  /** A set whose extra rows are all zero sums to no more than a larger one. */
  lemma {:induction false} HeldMono(alloc: seq<seq<nat>>, F: set<nat>, G: set<nat>, l: nat, n: nat)
    requires n <= |alloc|
    requires forall i :: 0 <= i < n && i in F && i !in G ==> AllZero(alloc[i])
    ensures Held(alloc, F, l, n) <= Held(alloc, G, l, n)
  {
    if n > 0 {
      HeldMono(alloc, F, G, l, n - 1);
      if n - 1 in F && n - 1 !in G {
        assert Cell(alloc[n - 1], l) == 0;
      }
    }
  }

  function Elems(s: seq<nat>): set<nat>
  {
    set x | x in s
  }

  /** Request row `qrow` can be satisfied once the threads in `F` have released what they hold. */
  ghost predicate Fits(qrow: seq<nat>, avail: seq<nat>, alloc: seq<seq<nat>>, F: set<nat>, n: nat)
    requires n <= |alloc|
  {
    forall l :: 0 <= l < |avail| ==> Cell(qrow, l) <= avail[l] + Held(alloc, F, l, n)
  }

  /**
   * A safe order: distinct threads below `n`, each of whose requests fits in
   * what is free plus what the threads before it hold.
   */
  ghost predicate Safe(alloc: seq<seq<nat>>, q: seq<seq<nat>>, avail: seq<nat>, n: nat, s: seq<nat>)
    requires n <= |alloc| && n <= |q|
  {
    && (forall k :: 0 <= k < |s| ==> s[k] < n)
    && (forall j, k :: 0 <= j < k < |s| ==> s[j] != s[k])
    && (forall k :: 0 <= k < |s| ==> Fits(q[s[k]], avail, alloc, Elems(s[..k]), n))
  }

  /** Every thread that holds something appears in `s`. */
  ghost predicate Covers(alloc: seq<seq<nat>>, n: nat, s: seq<nat>)
    requires n <= |alloc|
  {
    forall i :: 0 <= i < n && !AllZero(alloc[i]) ==> i in s
  }

  /**
   * The reference definition of deadlock: no safe order lets every thread
   * that holds a lock run to completion.
   */
  ghost predicate Deadlocked(alloc: seq<seq<nat>>, q: seq<seq<nat>>, avail: seq<nat>)
    requires |alloc| <= |q|
  {
    !exists s :: Safe(alloc, q, avail, |alloc|, s) && Covers(alloc, |alloc|, s)
  }

  /** A process in which no thread holds a unit of any lock is never deadlocked. */
  lemma NoHolderNoDeadlock(alloc: seq<seq<nat>>, q: seq<seq<nat>>, avail: seq<nat>)
    requires |alloc| <= |q| && forall i :: 0 <= i < |alloc| ==> AllZero(alloc[i])
    ensures !Deadlocked(alloc, q, avail)
  {
    assert Safe(alloc, q, avail, |alloc|, []) && Covers(alloc, |alloc|, []);
  }

  /** Unfinished entries of the `finish` vector. */
  function FalseCount(s: seq<bool>): nat
  {
    if s == [] then 0 else (if s[0] then 0 else 1) + FalseCount(s[1..])
  }

  lemma {:induction false} FalseCountMark(s: seq<bool>, i: nat)
    requires i < |s| && !s[i]
    ensures FalseCount(s[i := true]) == FalseCount(s) - 1
  {
    if i > 0 {
      FalseCountMark(s[1..], i - 1);
      assert s[i := true][1..] == s[1..][i - 1 := true];
    } else {
      assert s[i := true][1..] == s[1..];
    }
  }

  /**
   * When the marking stops with an unfinished lock holder, no safe order
   * covers every holder: the first holder of such an order outside the
   * finished set would have been marked.
   */
  lemma NoSafeOrder(alloc: seq<seq<nat>>, q: seq<seq<nat>>, avail: seq<nat>, order: seq<nat>, s: seq<nat>)
    requires |alloc| <= |q|
    requires exists i :: 0 <= i < |alloc| && !AllZero(alloc[i]) && i !in order
    requires forall i :: 0 <= i < |alloc| && !AllZero(alloc[i]) && i !in order ==>
      !Fits(q[i], avail, alloc, Elems(order), |alloc|)
    ensures !(Safe(alloc, q, avail, |alloc|, s) && Covers(alloc, |alloc|, s))
  {
    if !(Safe(alloc, q, avail, |alloc|, s) && Covers(alloc, |alloc|, s)) {
      return;
    }
    var n := |alloc|;
    var i0 :| 0 <= i0 < n && !AllZero(alloc[i0]) && i0 !in order;
    var k := 0;
    while !(!AllZero(alloc[s[k]]) && s[k] !in order)
      invariant 0 <= k < |s|
      invariant i0 in s[k..]
      invariant forall j :: 0 <= j < k ==> AllZero(alloc[s[j]]) || s[j] in order
      decreases |s| - k
    {
      assert s[k] != i0;
      k := k + 1;
    }
    var x := s[k];
    assert Fits(q[x], avail, alloc, Elems(s[..k]), n);
    forall l | 0 <= l < |avail| ensures Cell(q[x], l) <= avail[l] + Held(alloc, Elems(order), l, n) {
      forall i | 0 <= i < n && i in Elems(s[..k]) && i !in Elems(order) ensures AllZero(alloc[i]) {
        var j :| 0 <= j < k && s[j] == i;
      }
      HeldMono(alloc, Elems(s[..k]), Elems(order), l, n);
    }
    assert Fits(q[x], avail, alloc, Elems(order), n);
  }

  /**
   * The inner `for` loop of `has_deadlock`: the first unfinished thread whose
   * requests are covered by `w`, if any.
   */
  method FindReady(q: seq<seq<nat>>, w: seq<nat>, finish: seq<bool>) returns (found: Option<nat>)
    requires |finish| <= |q| && forall i :: 0 <= i < |finish| ==> |q[i]| == |w|
    ensures found.Some? ==> found.value < |finish| && !finish[found.value] && LeVec(q[found.value], w)
    ensures found.Some? ==> forall j :: 0 <= j < found.value ==> finish[j] || !LeVec(q[j], w)
    ensures found.None? ==> forall j :: 0 <= j < |finish| ==> finish[j] || !LeVec(q[j], w)
  {
    for i := 0 to |finish|
      invariant forall j :: 0 <= j < i ==> finish[j] || !LeVec(q[j], w)
    {
      var cond1 := !finish[i];
      var cond2 := LeVec(q[i], w);
      if cond1 && cond2 {
        return Some(i);
      }
    }
    return None;
  }

  /** Marking a thread whose requests fit extends the safe order, and adds its allocation to what is held. */
  lemma MarkStep(alloc: seq<seq<nat>>, q: seq<seq<nat>>, avail: seq<nat>, n: nat, order: seq<nat>, i: nat)
    requires n <= |alloc| && n <= |q| && i < n && i !in order
    requires Safe(alloc, q, avail, n, order) && Fits(q[i], avail, alloc, Elems(order), n)
    ensures Safe(alloc, q, avail, n, order + [i])
    ensures forall l :: Held(alloc, Elems(order + [i]), l, n) == Held(alloc, Elems(order), l, n) + Cell(alloc[i], l)
  {
    assert Elems(order + [i]) == Elems(order) + {i};
    forall l ensures Held(alloc, Elems(order + [i]), l, n) == Held(alloc, Elems(order), l, n) + Cell(alloc[i], l) {
      HeldAdd(alloc, Elems(order), i, l, n);
    }
    var s := order + [i];
    forall k | 0 <= k < |s| ensures Fits(q[s[k]], avail, alloc, Elems(s[..k]), n) {
      if k < |order| {
        assert s[..k] == order[..k];
      } else {
        assert s[..k] == order;
      }
    }
  }

  /**
   * The marking loop of `has_deadlock` on matrices already sized by
   * `prepare_lock_state`: holders start unfinished, and any unfinished thread
   * whose requests fit in the work vector `W` is marked finished and its
   * allocation added to `W`, until no thread can be marked. The asserts of
   * `le_vec` and `add_to` become the length requirements.
   */
  method Detect(alloc: seq<seq<nat>>, q: seq<seq<nat>>, avail: seq<nat>) returns (deadlock: bool)
    requires |alloc| <= |q|
    requires forall i :: 0 <= i < |alloc| ==> |q[i]| == |avail|
    requires forall i :: 0 <= i < |alloc| && !AllZero(alloc[i]) ==> |alloc[i]| == |avail|
    ensures deadlock <==> Deadlocked(alloc, q, avail)
  {
    var n := |alloc|;
    var finish := InitFinish(alloc);
    var w := avail;
    ghost var order: seq<nat> := [];
    forall l | 0 <= l < |avail| ensures Held(alloc, Elems(order), l, n) == 0 {
      HeldNone(alloc, Elems(order), l, n);
    }
    var done := false;
    while !done
      invariant Marking(alloc, q, avail, finish, w, order)
      invariant done ==> forall j :: 0 <= j < n && !finish[j] ==> !Fits(q[j], avail, alloc, Elems(order), n)
      decreases FalseCount(finish) + (if done then 0 else 1)
    {
      var found := FindReady(q, w, finish);
      WorkFits(alloc, q, avail, Elems(order), w);
      if found.None? {
        done := true;
      } else {
        var i := found.value;
        MarkKeeps(alloc, q, avail, finish, w, order, i);
        finish := finish[i := true];
        w := VecAdd(w, alloc[i]);
        order := order + [i];
      }
    }
    deadlock := !(forall j :: 0 <= j < n ==> finish[j]);
    DetectVerdict(alloc, q, avail, order, finish);
  }

  /**
   * What the marking loop of `has_deadlock` keeps: a thread is finished when
   * it holds nothing or is in the safe order built so far, and the work
   * vector is what is free plus what that order holds.
   */
  ghost predicate Marking(alloc: seq<seq<nat>>, q: seq<seq<nat>>, avail: seq<nat>, finish: seq<bool>, w: seq<nat>, order: seq<nat>)
    requires |alloc| <= |q|
  {
    && |finish| == |alloc| && |w| == |avail|
    && (forall j :: 0 <= j < |alloc| ==> (finish[j] <==> AllZero(alloc[j]) || j in order))
    && Safe(alloc, q, avail, |alloc|, order)
    && (forall k :: 0 <= k < |order| ==> !AllZero(alloc[order[k]]))
    && (forall l :: 0 <= l < |avail| ==> w[l] == avail[l] + Held(alloc, Elems(order), l, |alloc|))
  }

  /** Marking a ready unfinished thread keeps the loop's invariant and finishes one more thread. */
  lemma MarkKeeps(alloc: seq<seq<nat>>, q: seq<seq<nat>>, avail: seq<nat>, finish: seq<bool>, w: seq<nat>, order: seq<nat>, i: nat)
    requires |alloc| <= |q|
    requires forall j :: 0 <= j < |alloc| && !AllZero(alloc[j]) ==> |alloc[j]| == |avail|
    requires Marking(alloc, q, avail, finish, w, order)
    requires i < |alloc| && !finish[i] && Fits(q[i], avail, alloc, Elems(order), |alloc|)
    ensures |w| == |alloc[i]|
    ensures Marking(alloc, q, avail, finish[i := true], VecAdd(w, alloc[i]), order + [i])
    ensures FalseCount(finish[i := true]) == FalseCount(finish) - 1
  {
    var n := |alloc|;
    MarkStep(alloc, q, avail, n, order, i);
    FalseCountMark(finish, i);
    var w' := VecAdd(w, alloc[i]);
    forall l | 0 <= l < |avail| ensures w'[l] == avail[l] + Held(alloc, Elems(order + [i]), l, n) {
      assert Cell(alloc[i], l) == alloc[i][l];
    }
  }

  /** The `finish` vector `has_deadlock` starts from: threads holding nothing are finished. */
  method InitFinish(alloc: seq<seq<nat>>) returns (finish: seq<bool>)
    ensures |finish| == |alloc|
    ensures forall j :: 0 <= j < |alloc| ==> (finish[j] <==> AllZero(alloc[j]))
  {
    var n := |alloc|;
    finish := seq(n, _ => false);
    for i := 0 to n
      invariant |finish| == n
      invariant forall j :: 0 <= j < n ==> (finish[j] <==> j < i && AllZero(alloc[j]))
    {
      if AllZero(alloc[i]) {
        finish := finish[i := true];
      }
    }
  }

  /** `le_vec` against the work vector is the same test as fitting in what is free plus what `F` holds. */
  lemma WorkFits(alloc: seq<seq<nat>>, q: seq<seq<nat>>, avail: seq<nat>, F: set<nat>, w: seq<nat>)
    requires |alloc| <= |q| && |w| == |avail|
    requires forall i :: 0 <= i < |alloc| ==> |q[i]| == |avail|
    requires forall l :: 0 <= l < |avail| ==> w[l] == avail[l] + Held(alloc, F, l, |alloc|)
    ensures forall j :: 0 <= j < |alloc| ==> (LeVec(q[j], w) <==> Fits(q[j], avail, alloc, F, |alloc|))
  {
    forall j | 0 <= j < |alloc|
      ensures LeVec(q[j], w) <==> Fits(q[j], avail, alloc, F, |alloc|)
    {
      assert forall l :: 0 <= l < |avail| ==> Cell(q[j], l) == q[j][l];
    }
  }

  /**
   * When the marking stops, some thread is unfinished exactly when no safe
   * order covers every lock holder.
   */
  lemma DetectVerdict(alloc: seq<seq<nat>>, q: seq<seq<nat>>, avail: seq<nat>, order: seq<nat>, finish: seq<bool>)
    requires |alloc| <= |q| && |finish| == |alloc|
    requires forall j :: 0 <= j < |alloc| ==> (finish[j] <==> AllZero(alloc[j]) || j in order)
    requires Safe(alloc, q, avail, |alloc|, order)
    requires forall j :: 0 <= j < |alloc| && !finish[j] ==> !Fits(q[j], avail, alloc, Elems(order), |alloc|)
    ensures !(forall j :: 0 <= j < |alloc| ==> finish[j]) <==> Deadlocked(alloc, q, avail)
  {
    var n := |alloc|;
    if !(forall j :: 0 <= j < n ==> finish[j]) {
      if s :| Safe(alloc, q, avail, n, s) && Covers(alloc, n, s) {
        NoSafeOrder(alloc, q, avail, order, s);
      }
    } else {
      assert Safe(alloc, q, avail, n, order) && Covers(alloc, n, order);
    }
  }

  /** The up() calls `release_all_locks` issues for an allocation row: lock `l`, `row[l]` times, in lock order. */
  function UpCalls(row: seq<nat>): seq<nat>
  {
    if row == [] then [] else UpCalls(row[..|row| - 1]) + Repeat(|row| - 1, row[|row| - 1])
  }

  function Repeat(x: nat, k: nat): (r: seq<nat>)
    ensures |r| == k && forall j :: 0 <= j < k ==> r[j] == x
  {
    if k == 0 then [] else Repeat(x, k - 1) + [x]
  }

  /** `up` is called on lock `l` exactly `row[l]` times, and on no lock outside the row. */
  lemma {:induction false} UpCallsCount(row: seq<nat>, l: nat)
    ensures multiset(UpCalls(row))[l] == Cell(row, l)
  {
    if row != [] {
      var init := row[..|row| - 1];
      UpCallsCount(init, l);
      var x := |row| - 1;
      RepeatCount(x, row[x], l);
      if l < x {
        assert Cell(init, l) == Cell(row, l);
      }
    }
  }

  lemma {:induction false} RepeatCount(x: nat, k: nat, l: nat)
    ensures multiset(Repeat(x, k))[l] == if l == x then k else 0
  {
    if k > 0 {
      RepeatCount(x, k - 1, l);
    }
  }

  /**
   * The `for_each` of `release_all_locks` on one allocation row: each cell is
   * counted down to 0, calling `up` on its lock once per unit.
   */
  method DrainRow(row0: seq<nat>, ups0: seq<nat>) returns (row: seq<nat>, ups: seq<nat>)
    ensures row == Zeros(|row0|)
    ensures ups == ups0 + UpCalls(row0)
  {
    row, ups := row0, ups0;
    assert Zeros(0) + row0[0..] == row0;
    for l := 0 to |row0|
      invariant row == Zeros(l) + row0[l..]
      invariant ups == ups0 + UpCalls(row0[..l])
    {
      DrainStep(row0, l, row);
      row, ups := DrainCell(row, ups, l);
    }
    assert row0[..|row0|] == row0;
  }

  /** One cell drained: the row gains a zero and `up` runs once per unit of the cell. */
  lemma DrainStep(row0: seq<nat>, l: nat, row: seq<nat>)
    requires l < |row0| && row == Zeros(l) + row0[l..]
    ensures l < |row| && row[l] == row0[l]
    ensures row[l := 0] == Zeros(l + 1) + row0[l + 1..]
    ensures UpCalls(row0[..l + 1]) == UpCalls(row0[..l]) + Repeat(l, row0[l])
  {
    assert row0[l..] == [row0[l]] + row0[l + 1..];
    assert row0[..l + 1][..l] == row0[..l];
    assert Zeros(l) + [0] == Zeros(l + 1);
  }

  /** The inner loop of the drain: cell `l` counted down to 0, one `up` on `l` per unit. */
  method DrainCell(row0: seq<nat>, ups0: seq<nat>, l: nat) returns (row: seq<nat>, ups: seq<nat>)
    requires l < |row0|
    ensures row == row0[l := 0]
    ensures ups == ups0 + Repeat(l, row0[l])
  {
    row, ups := row0, ups0;
    while row[l] > 0
      invariant |row| == |row0| && row[l] <= row0[l]
      invariant row == row0[l := row[l]]
      invariant ups == ups0 + Repeat(l, row0[l] - row[l])
    {
      ups := ups + [l];
      row := row[l := row[l] - 1];
    }
  }

  /** The detector state of one process. */
  class DeadlockDetection {
    var locks: seq<bool>
    var alloc: seq<seq<nat>>
    var q: seq<seq<nat>>
    var avail: seq<nat>
    var ups: seq<nat>

    /**
     * The shape every syscall keeps: as many request rows as allocation rows
     * (they are always grown together), no row wider than the lock table
     * (lock ids passed in are always below it) and no more `avail` cells
     * than lock slots (a semaphore created with detection off gets none).
     */
    ghost predicate Shaped()
      reads this
    {
      && |avail| <= |locks| && |alloc| == |q|
      && (forall i :: 0 <= i < |alloc| ==> |alloc[i]| <= |locks|)
      && (forall i :: 0 <= i < |q| ==> |q[i]| <= |locks|)
    }

    /** The shape kept when detection is on from the start: also one `avail` cell per lock slot. */
    ghost predicate Valid()
      reads this
    {
      Shaped() && |avail| == |locks|
    }

    /** `new`: the given lock slots and empty matrices. */
    constructor (slots: seq<bool>)
      ensures locks == slots && alloc == [] && q == [] && avail == [] && ups == []
    {
      locks := slots;
      alloc := [];
      q := [];
      avail := [];
      ups := [];
    }

    /** `prepare_lock_state`. */
    method PrepareLockState(nt: nat, nl: nat)
      modifies this
      ensures alloc == Pad(old(alloc), nt, nl) && q == Pad(old(q), nt, nl)
      ensures locks == old(locks) && avail == old(avail) && ups == old(ups)
      ensures old(Shaped()) && nl <= |locks| ==> Shaped()
      ensures old(Valid()) && nl <= |locks| ==> Valid()
    {
      alloc := PadRows(alloc, nt, nl);
      q := PadRows(q, nt, nl);
    }

    /**
     * A new lock stored under slot `id` (a free slot or the next index) while
     * detection is on: the matrices are grown to `nt x (id+1)`, then a free
     * slot's count is stored as `avail[id] = res`, which panics (`ok` false)
     * when `avail` has no cell `id`, and a pushed lock's count is pushed onto
     * `avail`, landing at index `id` only if `avail` was as long as the table.
     */
    method AddLock(nt: nat, id: nat, res: nat) returns (ok: bool)
      requires Shaped() && id <= |locks|
      modifies this
      ensures ok <==> id == |old(locks)| || id < |old(avail)|
      ensures locks == (if id < |old(locks)| then old(locks)[id := true] else old(locks) + [true])
      ensures ok ==> avail == (if id < |old(avail)| then old(avail)[id := res] else old(avail) + [res])
      ensures !ok ==> avail == old(avail)
      ensures alloc == Pad(old(alloc), nt, id + 1) && q == Pad(old(q), nt, id + 1)
      ensures ups == old(ups) && Shaped()
      ensures old(Valid()) ==> ok && Valid() && avail[id] == res
    {
      if id < |locks| {
        locks := locks[id := true];
        PrepareLockState(nt, id + 1);
        if id >= |avail| {
          return false;
        }
        avail := avail[id := res];
      } else {
        locks := locks + [true];
        PrepareLockState(nt, id + 1);
        avail := avail + [res];
      }
      ok := true;
    }

    /** `pre_wait`: one more unit of `l` requested by `tid`. */
    method PreWait(tid: nat, l: nat)
      requires tid < |q| && l < |q[tid]|
      modifies this
      ensures q == old(q)[tid := old(q[tid])[l := old(q[tid][l]) + 1]]
      ensures locks == old(locks) && alloc == old(alloc) && avail == old(avail) && ups == old(ups)
      ensures old(Shaped()) ==> Shaped()
      ensures old(Valid()) ==> Valid()
    {
      q := q[tid := q[tid][l := q[tid][l] + 1]];
    }

    /** `post_wait_succ`: the request of `tid` for `l` is granted (avail[l] must be positive). */
    method PostWaitSucc(tid: nat, l: nat)
      requires tid < |q| && l < |q[tid]| && q[tid][l] > 0
      requires l < |avail| && avail[l] > 0
      requires tid < |alloc| && l < |alloc[tid]|
      modifies this
      ensures q == old(q)[tid := old(q[tid])[l := old(q[tid][l]) - 1]]
      ensures avail == old(avail)[l := old(avail[l]) - 1]
      ensures alloc == old(alloc)[tid := old(alloc[tid])[l := old(alloc[tid][l]) + 1]]
      ensures forall k :: 0 <= k < |avail| ==> Total(alloc, avail, k) == old(Total(alloc, avail, k))
      ensures locks == old(locks) && ups == old(ups)
      ensures old(Valid()) ==> Valid()
    {
      ghost var a0, v0 := alloc, avail;
      q := q[tid := q[tid][l := q[tid][l] - 1]];
      avail := avail[l := avail[l] - 1];
      alloc := alloc[tid := alloc[tid][l := alloc[tid][l] + 1]];
      forall k | 0 <= k < |avail| ensures Total(alloc, avail, k) == Total(a0, v0, k) {
        ColSumUpdate(a0, tid, l, a0[tid][l] + 1, k);
      }
    }

    /**
     * `release_all_locks`: everything `tid` holds goes back to `avail`, the
     * row is zeroed, and `up` is called once per unit held, lock by lock.
     */
    method ReleaseAllLocks(tid: nat)
      requires tid < |alloc| && |alloc[tid]| == |avail|
      requires forall l :: 0 <= l < |alloc[tid]| && alloc[tid][l] > 0 ==> l < |locks| && locks[l]
      modifies this
      ensures avail == VecAdd(old(avail), old(alloc[tid]))
      ensures alloc == old(alloc)[tid := Zeros(|old(alloc[tid])|)]
      ensures ups == old(ups) + UpCalls(old(alloc[tid]))
      ensures locks == old(locks) && q == old(q)
      ensures old(Valid()) ==> Valid()
    {
      avail := VecAdd(avail, alloc[tid]);
      var zeroed, calls := DrainRow(alloc[tid], ups);
      alloc := alloc[tid := zeroed];
      ups := calls;
    }

    /** `post_wait_fail`: the wait is abandoned and every lock `tid` holds is released. */
    method PostWaitFail(tid: nat, l: nat)
      requires tid < |q| && l < |q[tid]| && q[tid][l] > 0
      requires tid < |alloc| && |alloc[tid]| == |avail|
      requires forall k :: 0 <= k < |alloc[tid]| && alloc[tid][k] > 0 ==> k < |locks| && locks[k]
      modifies this
      ensures q == old(q)[tid := old(q[tid])[l := old(q[tid][l]) - 1]]
      ensures avail == VecAdd(old(avail), old(alloc[tid]))
      ensures alloc == old(alloc)[tid := Zeros(|old(alloc[tid])|)]
      ensures ups == old(ups) + UpCalls(old(alloc[tid]))
      ensures locks == old(locks)
      ensures old(Valid()) ==> Valid()
    {
      q := q[tid := q[tid][l := q[tid][l] - 1]];
      ReleaseAllLocks(tid);
    }

    /** `pre_release`: size the matrices, then `tid` must hold a unit of `l`. */
    method PreRelease(tid: nat, l: nat)
      requires Pad(alloc, tid + 1, l + 1)[tid][l] > 0
      modifies this
      ensures alloc == Pad(old(alloc), tid + 1, l + 1) && q == Pad(old(q), tid + 1, l + 1)
      ensures alloc[tid][l] > 0
      ensures locks == old(locks) && avail == old(avail) && ups == old(ups)
      ensures old(Shaped()) && l < |locks| ==> Shaped()
      ensures old(Valid()) && l < |locks| ==> Valid()
    {
      PrepareLockState(tid + 1, l + 1);
    }

    /** `post_release`: one unit of `l` goes from `tid`'s allocation back to `avail`. */
    method PostRelease(tid: nat, l: nat)
      requires l < |avail| && tid < |alloc| && l < |alloc[tid]| && alloc[tid][l] > 0
      modifies this
      ensures avail == old(avail)[l := old(avail[l]) + 1]
      ensures alloc == old(alloc)[tid := old(alloc[tid])[l := old(alloc[tid][l]) - 1]]
      ensures forall k :: 0 <= k < |avail| ==> Total(alloc, avail, k) == old(Total(alloc, avail, k))
      ensures locks == old(locks) && q == old(q) && ups == old(ups)
      ensures old(Shaped()) ==> Shaped()
      ensures old(Valid()) ==> Valid()
    {
      ghost var a0, v0 := alloc, avail;
      avail := avail[l := avail[l] + 1];
      alloc := alloc[tid := alloc[tid][l := alloc[tid][l] - 1]];
      forall k | 0 <= k < |avail| ensures Total(alloc, avail, k) == Total(a0, v0, k) {
        ColSumUpdate(a0, tid, l, a0[tid][l] - 1, k);
      }
    }

    /**
     * `has_deadlock`: size every row to the lock table, then run the marking
     * loop. Its first `le_vec(&q[0], &W)` asserts that a request row is as
     * long as `avail`, so with any thread and `avail` shorter than the lock
     * table the kernel panics (`None`).
     */
    method HasDeadlock() returns (r: Option<bool>)
      requires Shaped()
      modifies this
      ensures alloc == Pad(old(alloc), |old(alloc)|, |locks|) && q == Pad(old(q), |old(alloc)|, |locks|)
      ensures locks == old(locks) && avail == old(avail) && ups == old(ups)
      ensures Shaped() && (old(Valid()) ==> Valid())
      ensures r.None? <==> |alloc| > 0 && |avail| != |locks|
      ensures r.Some? ==> (r.value <==> Deadlocked(alloc, q, avail))
    {
      PrepareLockState(|alloc|, |locks|);
      if |alloc| > 0 && |avail| != |locks| {
        return None;
      }
      var d := Detect(alloc, q, avail);
      r := Some(d);
    }

    /**
     * `has_deadlock_if_wait_for`: the answer `has_deadlock` would give with
     * one more request of `tid` for `l`; the request is withdrawn afterwards.
     * When `has_deadlock` panics (`None`) the request stays raised.
     */
    method HasDeadlockIfWaitFor(tid: nat, l: nat) returns (r: Option<bool>)
      requires Shaped() && l < |locks|
      modifies this
      ensures var a1 := Pad(old(alloc), tid + 1, l + 1);
        var q1 := Pad(old(q), tid + 1, l + 1);
        var q2 := Bump(q1, tid, l);
        && alloc == Pad(a1, |a1|, |locks|)
        && (r.None? <==> |avail| != |locks|)
        && (r.None? ==> q == Pad(q2, |a1|, |locks|))
        && (r.Some? ==> q == Pad(q1, |a1|, |locks|) && (r.value <==> Deadlocked(alloc, Pad(q2, |a1|, |locks|), avail)))
      ensures locks == old(locks) && avail == old(avail) && ups == old(ups)
      ensures Shaped() && (old(Valid()) ==> Valid())
    {
      ghost var a1 := Pad(alloc, tid + 1, l + 1);
      PrepareLockState(tid + 1, l + 1);
      ghost var q1 := q;
      PreWait(tid, l);
      ghost var q2 := q;
      assert q2 == Bump(q1, tid, l) && alloc == a1 && |a1| > 0;
      r := HasDeadlock();
      if r.None? {
        assert |avail| != |locks|;
        assert q == Pad(q2, |a1|, |locks|);
        return;
      }
      PadBump(q1, tid, l, |alloc|, |locks|);
      ghost var b := Pad(q1, |alloc|, |locks|);
      q := q[tid := q[tid][l := q[tid][l] - 1]];
      assert q[tid] == b[tid];
      assert q == b;
    }
  }

  /** `avail[l]` plus every thread's allocation of `l`: what `post_wait_succ` and `post_release` conserve. */
  function Total(alloc: seq<seq<nat>>, avail: seq<nat>, l: nat): nat
    requires l < |avail|
  {
    avail[l] + ColSum(alloc, l)
  }

  function ColSum(rows: seq<seq<nat>>, l: nat): nat
  {
    if rows == [] then 0 else Cell(rows[0], l) + ColSum(rows[1..], l)
  }

  /** Changing one cell changes only its own column's sum, by the difference. */
  lemma {:induction false} ColSumUpdate(rows: seq<seq<nat>>, t: nat, l: nat, v: nat, k: nat)
    requires t < |rows| && l < |rows[t]|
    ensures var row: seq<nat> := rows[t][l := v];
      ColSum(rows[t := row], k) + (if k == l then rows[t][l] else 0) == ColSum(rows, k) + (if k == l then v else 0)
  {
    var row: seq<nat> := rows[t][l := v];
    var rows' := rows[t := row];
    if t == 0 {
      assert rows'[1..] == rows[1..];
    } else {
      assert rows'[1..] == rows[1..][t - 1 := row];
      ColSumUpdate(rows[1..], t - 1, l, v, k);
    }
  }

  /** Raising a cell before padding and after padding give the same matrix. */
  lemma PadBump(q1: seq<seq<nat>>, tid: nat, l: nat, nt: nat, nl: nat)
    requires tid < |q1| && l < |q1[tid]|
    ensures var b := Pad(q1, nt, nl);
      tid < |b| && l < |b[tid]| &&
      Pad(Bump(q1, tid, l), nt, nl) == Bump(b, tid, l)
  {
    var b := Pad(q1, nt, nl);
    var lhs := Pad(Bump(q1, tid, l), nt, nl);
    var rhs := Bump(b, tid, l);
    assert |lhs| == |rhs|;
    forall i | 0 <= i < |lhs| ensures lhs[i] == rhs[i] {
      assert |lhs[i]| == |rhs[i]|;
    }
  }

  /** The while loops of `prepare_lock_state` on one matrix. */
  method PadRows(rows: seq<seq<nat>>, nt: nat, nl: nat) returns (r: seq<seq<nat>>)
    ensures r == Pad(rows, nt, nl)
  {
    r := rows;
    while |r| < nt
      invariant |rows| <= |r| && r[..|rows|] == rows && (|r| == |rows| || |r| <= nt)
      invariant forall i :: |rows| <= i < |r| ==> r[i] == []
    {
      r := r + [[]];
    }
    for i := 0 to nt
      invariant |r| == |Pad(rows, nt, nl)|
      invariant forall j :: 0 <= j < i ==> r[j] == Pad(rows, nt, nl)[j]
      invariant forall j :: i <= j < |r| ==> r[j] == if j < |rows| then rows[j] else []
    {
      var row := PadRowInPlace(r[i], nl);
      r := r[i := row];
    }
  }

  /** The inner while loop of `prepare_lock_state`: push zeros until the row has `n` cells. */
  method PadRowInPlace(row: seq<nat>, n: nat) returns (r: seq<nat>)
    ensures r == PadRow(row, n)
  {
    r := row;
    while |r| < n
      invariant r == row + Zeros(|r| - |row|)
      invariant |row| <= |r| && (|row| < n ==> |r| <= n) && (|row| >= n ==> r == row)
    {
      r := r + [0];
    }
    if |row| < n {
      assert r == row + Zeros(n - |row|);
    }
  }
}
