/**
 * The global ready queue with stride accounting (os/src/task/manager.rs).
 *
 * Tasks are identified by an abstract `TaskId` (the identity of the shared
 * task control block). The scheduling fields of each block, `stride` and
 * `priority`, live in tables owned by the manager, since the manager is the
 * only code here that reads or writes them. Strides are 64-bit unsigned
 * integers; the overflow test of the source uses a wrapping addition, and
 * the renormalised stride is computed with wrap-around as a release build
 * does.
 */
module TaskManager {
  import opened Wrappers

  type TaskId = nat
  type Pid = nat

  const BIG_STRIDE: nat := 0x100000
  const USIZE: nat := 0x1_0000_0000_0000_0000

  /** `a.wrapping_add(b)` on usize: the sum modulo 2^64. */
  function WrappingAdd(a: nat, b: nat): (r: nat)
    requires a < USIZE && b < USIZE
    ensures r < USIZE && (r == a + b || r == a + b - USIZE)
    ensures r == a + b <==> a + b < USIZE
  {
    if a + b < USIZE then a + b else a + b - USIZE
  }

  /** The pass of a task: `BIG_STRIDE / priority` (division by zero panics). */
  function Pass(priority: nat): (r: nat)
    requires priority > 0
    ensures r <= BIG_STRIDE
    ensures priority >= 2 ==> r <= BIG_STRIDE / 2
  {
    BIG_STRIDE / priority
  }

  /**
   * For a stride below 2^64 and a pass that fits, the wrapping test fails exactly
   * on overflow or on a zero pass (a priority above BIG_STRIDE).
   */
  lemma WrapDetectsOverflow(a: nat, b: nat)
    requires a < USIZE && b <= BIG_STRIDE
    ensures WrappingAdd(a, b) > a <==> 0 < b && a + b < USIZE
    ensures a + b >= USIZE ==> WrappingAdd(a, b) == a + b - USIZE
  {
  }

  function Min(a: nat, b: nat): nat { if a <= b then a else b }

  /**
   * `min_stride_pos`: the index of the first minimal stride of the queue,
   * or None for an empty queue (`min_by_key` keeps the first of equal minima).
   */
  function MinStridePos(s: seq<nat>): (r: Option<nat>)
    ensures r.None? <==> |s| == 0
    ensures r.Some? ==> r.value < |s|
    ensures r.Some? ==> forall j :: 0 <= j < |s| ==> s[r.value] <= s[j]
    ensures r.Some? ==> forall j :: 0 <= j < r.value ==> s[j] > s[r.value]
  {
    if |s| == 0 then None
    else match MinStridePos(s[1..])
      case None => Some(0)
      case Some(k) => if s[k + 1] < s[0] then Some(k + 1) else Some(0)
  }

  /** Every stride of the queue minus `m`. */
  function SubAll(s: seq<nat>, m: nat): (r: seq<nat>)
    requires forall i :: 0 <= i < |s| ==> m <= s[i]
    ensures |r| == |s| && forall i :: 0 <= i < |s| ==> r[i] + m == s[i]
  {
    if s == [] then [] else [s[0] - m] + SubAll(s[1..], m)
  }

  /**
   * What `unify_stride` leaves behind: the new strides of the queued tasks,
   * in queue order, and the new stride of the added task.
   */
  function Unify(queued: seq<nat>, stride: nat, pass: nat): (seq<nat>, nat)
    requires stride < USIZE && pass < USIZE
  {
    if WrappingAdd(stride, pass) > stride then (queued, stride + pass)
    else match MinStridePos(queued)
      case None => (queued, 0)
      case Some(k) =>
        var m := Min(queued[k], stride);
        (SubAll(queued, m), WrappingAdd(stride - m, pass))
  }

  /** The renormalising branch of `Unify`, once the minimum has been located. */
  lemma UnifyRenormalises(queued: seq<nat>, stride: nat, pass: nat, k: nat)
    requires stride < USIZE && pass < USIZE
    requires !(WrappingAdd(stride, pass) > stride) && MinStridePos(queued) == Some(k)
    ensures forall j :: 0 <= j < |queued| ==> Min(queued[k], stride) <= queued[j]
    ensures Unify(queued, stride, pass).0 == SubAll(queued, Min(queued[k], stride))
    ensures Unify(queued, stride, pass).1 == WrappingAdd(stride - Min(queued[k], stride), pass)
  {
  }

  /** Without overflow the added task's stride grows by its pass and no queued stride changes. */
  lemma UnifyNoOverflow(queued: seq<nat>, stride: nat, pass: nat)
    requires stride < USIZE && 0 < pass <= BIG_STRIDE && stride + pass < USIZE
    ensures Unify(queued, stride, pass) == (queued, stride + pass)
  {
    WrapDetectsOverflow(stride, pass);
  }

  /** On overflow (or a zero pass) with an empty queue the stride is reset to 0. */
  lemma UnifyOverflowEmpty(stride: nat, pass: nat)
    requires stride < USIZE && pass <= BIG_STRIDE && (stride + pass >= USIZE || pass == 0)
    ensures Unify([], stride, pass) == ([], 0)
  {
    WrapDetectsOverflow(stride, pass);
  }

  /**
   * On overflow with a non-empty queue, `m`, the smaller of the queue's
   * minimum and the added task's stride, is subtracted from every queued stride
   * and from the added task's stride before its pass is added; the differences
   * between queued strides, and their order, are unchanged.
   */
  lemma {:induction false} UnifyOverflow(queued: seq<nat>, stride: nat, pass: nat)
    requires stride < USIZE && pass <= BIG_STRIDE && (stride + pass >= USIZE || pass == 0) && queued != []
    ensures var r := Unify(queued, stride, pass);
      var m := Min(queued[MinStridePos(queued).value], stride);
      && (forall j :: 0 <= j < |queued| ==> m <= queued[j])
      && |r.0| == |queued|
      && (forall j :: 0 <= j < |queued| ==> r.0[j] == queued[j] - m)
      && r.1 == WrappingAdd(stride - m, pass)
      && (forall i, j :: 0 <= i < |queued| && 0 <= j < |queued| ==>
            r.0[i] as int - r.0[j] as int == queued[i] as int - queued[j] as int && (r.0[i] <= r.0[j] <==> queued[i] <= queued[j]))
      && (m == stride || exists j :: 0 <= j < |queued| && r.0[j] == 0)
  {
    WrapDetectsOverflow(stride, pass);
    var k := MinStridePos(queued).value;
    var m := Min(queued[k], stride);
    var r := Unify(queued, stride, pass);
    assert r.0 == SubAll(queued, m);
    if m != stride {
      assert r.0[k] == 0;
    }
  }

  /** The strides `st` assigns to the tasks of `q`, in order. */
  function StridesOf(q: seq<TaskId>, st: map<TaskId, nat>): (r: seq<nat>)
    requires forall i :: 0 <= i < |q| ==> q[i] in st
    ensures |r| == |q| && forall i :: 0 <= i < |q| ==> r[i] == st[q[i]]
  {
    if q == [] then [] else [st[q[0]]] + StridesOf(q[1..], st)
  }

  /** Lowering every queued stride by `m` and then setting an unqueued task's stride lowers the sequence of strides by `m`. */
  lemma StridesAfterSub(q: seq<TaskId>, st0: map<TaskId, nat>, st: map<TaskId, nat>, t: TaskId, m: nat, x: nat)
    requires forall i :: 0 <= i < |q| ==> q[i] in st0 && m <= st0[q[i]]
    requires st.Keys == st0.Keys && t in st0 && t !in q
    requires forall j :: 0 <= j < |q| ==> st[q[j]] == st0[q[j]] - m
    ensures forall i :: 0 <= i < |q| ==> q[i] in st[t := x]
    ensures StridesOf(q, st[t := x]) == SubAll(StridesOf(q, st0), m)
  {
    var a := StridesOf(q, st[t := x]);
    var b := SubAll(StridesOf(q, st0), m);
    assert |a| == |b|;
    forall i | 0 <= i < |q| ensures a[i] == b[i] {
      assert q[i] != t;
    }
  }

  /** The loop of `unify_stride` that lowers the stride of every queued task by `m`. */
  method SubQueued(q: seq<TaskId>, st0: map<TaskId, nat>, m: nat) returns (st: map<TaskId, nat>)
    requires forall i :: 0 <= i < |q| ==> q[i] in st0 && m <= st0[q[i]]
    requires forall i, j :: 0 <= i < j < |q| ==> q[i] != q[j]
    ensures st.Keys == st0.Keys
    ensures forall j :: 0 <= j < |q| ==> st[q[j]] == st0[q[j]] - m
    ensures forall u :: u in st && u !in q ==> st[u] == st0[u]
    ensures forall u :: u in st ==> st[u] <= st0[u]
  {
    st := st0;
    var i := 0;
    while i < |q|
      invariant 0 <= i <= |q|
      invariant st.Keys == st0.Keys
      invariant forall j :: 0 <= j < i ==> st[q[j]] == st0[q[j]] - m
      invariant forall j :: i <= j < |q| ==> st[q[j]] == st0[q[j]]
      invariant forall u :: u in st && u !in q ==> st[u] == st0[u]
      invariant forall u :: u in st ==> st[u] <= st0[u]
    {
      st := st[q[i] := st[q[i]] - m];
      i := i + 1;
    }
  }

  /**
   * The body of `unify_stride` on the stride table `st0`: `q` is the ready
   * queue, `t` the added task and `pass` its pass.
   */
  method UnifyStrides(q: seq<TaskId>, st0: map<TaskId, nat>, t: TaskId, pass: nat) returns (st: map<TaskId, nat>)
    requires forall i :: 0 <= i < |q| ==> q[i] in st0
    requires forall i, j :: 0 <= i < j < |q| ==> q[i] != q[j]
    requires t in st0 && t !in q && pass <= BIG_STRIDE
    requires forall u :: u in st0 ==> st0[u] < USIZE
    ensures st.Keys == st0.Keys
    ensures forall u :: u in st ==> st[u] < USIZE
    ensures StridesOf(q, st) == Unify(StridesOf(q, st0), st0[t], pass).0
    ensures st[t] == Unify(StridesOf(q, st0), st0[t], pass).1
    ensures forall u :: u in st && u != t && u !in q ==> st[u] == st0[u]
  {
    var before := StridesOf(q, st0);
    var own := st0[t];
    WrapDetectsOverflow(own, pass);
    if WrappingAdd(own, pass) > own {
      st := st0[t := own + pass];
      assert StridesOf(q, st) == before;
      return;
    }
    var pos := MinStridePos(before);
    match pos {
      case None =>
        st := st0[t := 0];
        assert StridesOf(q, st) == before;
      case Some(k) =>
        st := Renormalise(q, st0, t, pass, k);
    }
  }

  /** The overflow branch of `unify_stride` with a non-empty queue whose minimum stride sits at `k`. */
  method Renormalise(q: seq<TaskId>, st0: map<TaskId, nat>, t: TaskId, pass: nat, k: nat) returns (st: map<TaskId, nat>)
    requires forall i :: 0 <= i < |q| ==> q[i] in st0
    requires forall i, j :: 0 <= i < j < |q| ==> q[i] != q[j]
    requires t in st0 && t !in q && pass <= BIG_STRIDE
    requires forall u :: u in st0 ==> st0[u] < USIZE
    requires WrappingAdd(st0[t], pass) <= st0[t] && MinStridePos(StridesOf(q, st0)) == Some(k)
    ensures st.Keys == st0.Keys
    ensures forall u :: u in st ==> st[u] < USIZE
    ensures StridesOf(q, st) == Unify(StridesOf(q, st0), st0[t], pass).0
    ensures st[t] == Unify(StridesOf(q, st0), st0[t], pass).1
    ensures forall u :: u in st && u != t && u !in q ==> st[u] == st0[u]
  {
    var before := StridesOf(q, st0);
    var own := st0[t];
    var m := Min(before[k], own);
    UnifyRenormalises(before, own, pass, k);
    var lowered := SubQueued(q, st0, m);
    var newStride := WrappingAdd(own - m, pass);
    StridesAfterSub(q, st0, lowered, t, m, newStride);
    st := lowered[t := newStride];
    LoweredFrame(q, st0, lowered, t, newStride, st);
  }

  /** Lowering queued strides and then setting the added task's own keeps the key set, the usize bound and every other task. */
  lemma LoweredFrame(q: seq<TaskId>, st0: map<TaskId, nat>, lowered: map<TaskId, nat>, t: TaskId, x: nat, st: map<TaskId, nat>)
    requires lowered.Keys == st0.Keys && t in st0 && x < USIZE && st == lowered[t := x]
    requires forall u :: u in st0 ==> st0[u] < USIZE
    requires forall u :: u in lowered && u !in q ==> lowered[u] == st0[u]
    requires forall u :: u in lowered ==> lowered[u] <= st0[u]
    ensures st.Keys == st0.Keys
    ensures forall u :: u in st ==> st[u] < USIZE
    ensures forall u :: u in st && u != t && u !in q ==> st[u] == st0[u]
  {
  }

  /** The ready queue together with the scheduling fields of every known task. */
  class TaskManager {
    var queue: seq<TaskId>
    var stride: map<TaskId, nat>
    var priority: map<TaskId, nat>

    /** Every queued task is known, appears once, strides are usize and priorities nonzero. */
    ghost predicate Valid()
      reads this
    {
      && (forall i :: 0 <= i < |queue| ==> queue[i] in stride)
      && (forall i, j :: 0 <= i < j < |queue| ==> queue[i] != queue[j])
      && (forall t :: t in stride ==> stride[t] < USIZE && t in priority && priority[t] > 0)
    }

    /** The strides of the queued tasks, front to back. */
    function Strides(): (s: seq<nat>)
      reads this
      requires Valid()
      ensures |s| == |queue|
    {
      StridesOf(queue, stride)
    }

    constructor ()
      ensures Valid() && queue == [] && stride == map[] && priority == map[]
    {
      queue := [];
      stride := map[];
      priority := map[];
    }

    /** A new task joins the table with stride 0 (outside the queue). */
    method Register(t: TaskId, prio: nat)
      requires Valid() && t !in stride && prio > 0
      modifies this
      ensures Valid()
      ensures queue == old(queue)
      ensures stride == old(stride)[t := 0] && priority == old(priority)[t := prio]
    {
      stride := stride[t := 0];
      priority := priority[t := prio];
    }

    /**
     * `unify_stride`: advances the stride of `t` by its pass, renormalising
     * all strides on overflow. The added task must not be queued: the overflow branch
     * borrows every queued task while holding the borrow of `t`.
     */
    method UnifyStride(t: TaskId)
      requires Valid() && t in stride && t !in queue
      modifies this
      ensures Valid()
      ensures queue == old(queue) && priority == old(priority) && stride.Keys == old(stride.Keys)
      ensures var r := Unify(old(Strides()), old(stride[t]), Pass(old(priority[t])));
        Strides() == r.0 && stride[t] == r.1
      ensures forall u :: u in stride && u != t && u !in queue ==> stride[u] == old(stride[u])
    {
      stride := UnifyStrides(queue, stride, t, Pass(priority[t]));
    }

    /** `add`: account the stride of `t`, then put it at the back of the queue. */
    method Add(t: TaskId)
      requires Valid() && t in stride && t !in queue
      modifies this
      ensures Valid()
      ensures queue == old(queue) + [t] && |queue| == |old(queue)| + 1
      ensures var r := Unify(old(Strides()), old(stride[t]), Pass(old(priority[t])));
        Strides() == r.0 + [r.1]
      ensures priority == old(priority) && stride.Keys == old(stride.Keys)
    {
      UnifyStride(t);
      ghost var s := Strides();
      queue := queue + [t];
      assert Strides() == s + [stride[t]];
    }

    /** `fetch`: FIFO, the front of the queue whatever the strides; None when empty. */
    method Fetch() returns (r: Option<TaskId>)
      requires Valid()
      modifies this
      ensures Valid()
      ensures old(queue) == [] ==> r == None && queue == []
      ensures old(queue) != [] ==> r == Some(old(queue)[0]) && queue == old(queue)[1..]
      ensures stride == old(stride) && priority == old(priority)
    {
      if queue == [] {
        r := None;
      } else {
        r := Some(queue[0]);
        queue := queue[1..];
      }
    }
  }

  /** `PID2TCB`: the table from process id to task. */
  class PidTable {
    var tasks: map<Pid, TaskId>

    constructor ()
      ensures tasks == map[]
    {
      tasks := map[];
    }

    /** `pid2task`: the block registered under `pid`, if any. */
    function Lookup(pid: Pid): (r: Option<TaskId>)
      reads this
      ensures r.Some? <==> pid in tasks
      ensures r.Some? ==> r.value == tasks[pid]
    {
      if pid in tasks then Some(tasks[pid]) else None
    }

    /** `remove_from_pid2task`: panics when the pid is absent. */
    method Remove(pid: Pid)
      requires pid in tasks
      modifies this
      ensures tasks == old(tasks) - {pid}
      ensures Lookup(pid) == None
    {
      tasks := tasks - {pid};
    }
  }

  /** `add_task`: register `pid -> t`, then add `t` to the ready queue. */
  method AddTask(table: PidTable, tm: TaskManager, t: TaskId, pid: Pid)
    requires tm.Valid() && t in tm.stride && t !in tm.queue
    modifies table, tm
    ensures tm.Valid()
    ensures table.tasks == old(table.tasks)[pid := t] && table.Lookup(pid) == Some(t)
    ensures tm.queue == old(tm.queue) + [t]
    ensures var r := Unify(old(tm.Strides()), old(tm.stride[t]), Pass(old(tm.priority[t])));
      tm.Strides() == r.0 + [r.1]
  {
    table.tasks := table.tasks[pid := t];
    tm.Add(t);
  }
}
