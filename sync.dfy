/**
 * The synchronisation syscalls of a process (os/src/syscall/sync.rs): id
 * allocation for mutexes, semaphores and condition variables, and the
 * deadlock bookkeeping around semaphore `up` and `down`.
 *
 * The primitives are abstract: a slot list records only which ids are in
 * use, every `up`/`down` issued on a semaphore is appended to `semOps`, and
 * whether a blocking `down` returns success is a parameter.
 */
module Sync {
  import opened Wrappers
  import opened Deadlock

  /** The id a create syscall hands out: the lowest empty slot, or the next index. */
  function FirstFree(slots: seq<bool>): (id: nat)
    ensures id <= |slots|
    ensures id < |slots| ==> !slots[id]
    ensures forall j :: 0 <= j < id ==> slots[j]
  {
    if slots == [] || !slots[0] then 0 else 1 + FirstFree(slots[1..])
  }

  /** The slot list after storing a new object under `FirstFree(slots)`. */
  function Occupy(slots: seq<bool>): (r: seq<bool>)
  {
    var id := FirstFree(slots);
    if id < |slots| then slots[id := true] else slots + [true]
  }

  /** Creating an object fills exactly the returned slot and keeps every other one. */
  lemma OccupyFills(slots: seq<bool>)
    ensures var id := FirstFree(slots);
      && |Occupy(slots)| == (if id < |slots| then |slots| else |slots| + 1)
      && Occupy(slots)[id]
      && forall j :: 0 <= j < |slots| && j != id ==> Occupy(slots)[j] == slots[j]
  {
  }

  /** The id is `|slots|` exactly when every slot is in use. */
  lemma {:induction false} FirstFreeFull(slots: seq<bool>)
    ensures FirstFree(slots) == |slots| <==> forall j :: 0 <= j < |slots| ==> slots[j]
  {
    if slots != [] && slots[0] {
      FirstFreeFull(slots[1..]);
      assert forall j :: 1 <= j < |slots| ==> slots[j] == slots[1..][j - 1];
    }
  }

  datatype SemOp = Up(id: nat) | Down(id: nat)

  /** What a semaphore syscall does: return a code, exit the calling thread, or panic the kernel. */
  datatype SysOutcome = Returned(code: int) | Exited(exitCode: int) | KernelPanic

  const DEAD: int := -0xDEAD

  class ProcessSync {
    var mutexes: seq<bool>
    var condvars: seq<bool>
    var sem: DeadlockDetection
    var detection: bool
    var semOps: seq<SemOp>

    constructor ()
      ensures mutexes == [] && condvars == [] && !detection && semOps == []
      ensures fresh(sem) && sem.locks == [] && sem.alloc == [] && sem.q == [] && sem.avail == []
    {
      mutexes := [];
      condvars := [];
      sem := new DeadlockDetection([]);
      detection := false;
      semOps := [];
    }

    /** `sys_mutex_create` (spin or blocking alike). */
    method MutexCreate() returns (id: nat)
      modifies this
      ensures id == FirstFree(old(mutexes)) && mutexes == Occupy(old(mutexes))
      ensures condvars == old(condvars) && sem == old(sem) && detection == old(detection) && semOps == old(semOps)
    {
      id := FirstFree(mutexes);
      if id < |mutexes| {
        mutexes := mutexes[id := true];
      } else {
        mutexes := mutexes + [true];
        id := |mutexes| - 1;
      }
    }

    /** `sys_condvar_create`. */
    method CondvarCreate() returns (id: nat)
      modifies this
      ensures id == FirstFree(old(condvars)) && condvars == Occupy(old(condvars))
      ensures mutexes == old(mutexes) && sem == old(sem) && detection == old(detection) && semOps == old(semOps)
    {
      id := FirstFree(condvars);
      if id < |condvars| {
        condvars := condvars[id := true];
      } else {
        condvars := condvars + [true];
        id := |condvars| - 1;
      }
    }

    /**
     * `sys_semaphore_create` for thread `tid`, with `res` units. With
     * detection off only the slot is filled, so `avail` gets no cell for the
     * new semaphore. With detection on, the matrices are sized to
     * `(tid+1) x (id+1)`; then a reused slot's count is stored at `avail[id]`,
     * which panics when `avail` is too short for it, and a pushed slot's
     * count is pushed onto `avail`, at index `id` only when no semaphore was
     * created with detection off.
     */
    method SemaphoreCreate(tid: nat, res: nat) returns (r: SysOutcome)
      requires sem.Shaped()
      modifies this, sem
      ensures var id := FirstFree(old(sem.locks));
        && sem.locks == Occupy(old(sem.locks))
        && (r == KernelPanic <==> detection && id < |old(sem.locks)| && id >= |old(sem.avail)|)
        && (r != KernelPanic ==> r == Returned(id))
        && (detection ==> && sem.alloc == Pad(old(sem.alloc), tid + 1, id + 1)
                          && sem.q == Pad(old(sem.q), tid + 1, id + 1)
                          && sem.avail == (if r == KernelPanic then old(sem.avail)
                                           else if id < |old(sem.avail)| then old(sem.avail)[id := res]
                                           else old(sem.avail) + [res]))
      ensures sem == old(sem) && detection == old(detection) && semOps == old(semOps)
      ensures mutexes == old(mutexes) && condvars == old(condvars) && sem.ups == old(sem.ups)
      ensures !detection ==> sem.alloc == old(sem.alloc) && sem.q == old(sem.q) && sem.avail == old(sem.avail)
      ensures sem.Shaped() && (detection && old(sem.Valid()) ==> sem.Valid() && r != KernelPanic)
    {
      var id := FirstFree(sem.locks);
      if detection {
        var ok := sem.AddLock(tid + 1, id, res);
        r := if ok then Returned(id) else KernelPanic;
      } else {
        sem.locks := Occupy(sem.locks);
        r := Returned(id);
      }
    }

    /**
     * `SemaphoreCreate` with the count recorded whether detection is on or
     * not: `avail` then keeps one cell per semaphore, at its own index.
     */
    method SemaphoreCreateIntended(tid: nat, res: nat) returns (r: SysOutcome)
      requires sem.Valid()
      modifies sem
      ensures var id := FirstFree(old(sem.locks));
        && r == Returned(id) && sem.locks == Occupy(old(sem.locks))
        && id < |sem.avail| && sem.avail[id] == res && |old(sem.avail)| <= |sem.avail|
        && forall j :: 0 <= j < |old(sem.avail)| && j != id ==> sem.avail[j] == old(sem.avail[j])
      ensures sem.Valid() && sem.ups == old(sem.ups)
    {
      var id := FirstFree(sem.locks);
      var ok := sem.AddLock(tid + 1, id, res);
      r := Returned(id);
    }

    /**
     * `sys_semaphore_up` by thread `tid`. With detection on, `pre_release`
     * sizes the matrices and asserts that `tid` holds a unit (else the kernel
     * panics); after the `up`, `post_release` moves that unit back to
     * `avail[id]`, which panics when `avail` has no cell `id`.
     */
    method SemaphoreUp(tid: nat, id: nat) returns (r: SysOutcome)
      requires id < |sem.locks| && sem.locks[id] && sem.Shaped()
      modifies this, sem
      ensures sem == old(sem) && detection == old(detection) && mutexes == old(mutexes) && condvars == old(condvars)
      ensures sem.locks == old(sem.locks) && sem.ups == old(sem.ups) && sem.Shaped()
      ensures !detection ==> && r == Returned(0) && semOps == old(semOps) + [Up(id)]
                             && sem.alloc == old(sem.alloc) && sem.q == old(sem.q) && sem.avail == old(sem.avail)
      ensures detection ==> var a1 := Pad(old(sem.alloc), tid + 1, id + 1);
        && sem.q == Pad(old(sem.q), tid + 1, id + 1)
        && (a1[tid][id] == 0 ==> r == KernelPanic && semOps == old(semOps) && sem.alloc == a1 && sem.avail == old(sem.avail))
        && (a1[tid][id] > 0 && id >= |old(sem.avail)| ==>
              r == KernelPanic && semOps == old(semOps) + [Up(id)] && sem.alloc == a1 && sem.avail == old(sem.avail))
        && (a1[tid][id] > 0 && id < |old(sem.avail)| ==>
              && r == Returned(0) && semOps == old(semOps) + [Up(id)]
              && sem.alloc == a1[tid := a1[tid][id := a1[tid][id] - 1]]
              && sem.avail == old(sem.avail)[id := old(sem.avail[id]) + 1])
      ensures old(sem.Valid()) ==> sem.Valid() && (r == KernelPanic <==> detection && Pad(old(sem.alloc), tid + 1, id + 1)[tid][id] == 0)
    {
      if !detection {
        semOps := semOps + [Up(id)];
        return Returned(0);
      }
      r := UpDetecting(tid, id);
    }

    /** The detecting path of `sys_semaphore_up`: `pre_release`, the `up`, then `post_release`. */
    method UpDetecting(tid: nat, id: nat) returns (r: SysOutcome)
      requires id < |sem.locks| && sem.Shaped()
      modifies this, sem
      ensures sem == old(sem) && detection == old(detection) && mutexes == old(mutexes) && condvars == old(condvars)
      ensures sem.locks == old(sem.locks) && sem.ups == old(sem.ups) && sem.Shaped()
      ensures var a1 := Pad(old(sem.alloc), tid + 1, id + 1);
        && sem.q == Pad(old(sem.q), tid + 1, id + 1)
        && (a1[tid][id] == 0 ==> r == KernelPanic && semOps == old(semOps) && sem.alloc == a1 && sem.avail == old(sem.avail))
        && (a1[tid][id] > 0 && id >= |old(sem.avail)| ==>
              r == KernelPanic && semOps == old(semOps) + [Up(id)] && sem.alloc == a1 && sem.avail == old(sem.avail))
        && (a1[tid][id] > 0 && id < |old(sem.avail)| ==>
              && r == Returned(0) && semOps == old(semOps) + [Up(id)]
              && sem.alloc == a1[tid := a1[tid][id := a1[tid][id] - 1]]
              && sem.avail == old(sem.avail)[id := old(sem.avail[id]) + 1])
      ensures old(sem.Valid()) ==> sem.Valid() && (r == KernelPanic <==> Pad(old(sem.alloc), tid + 1, id + 1)[tid][id] == 0)
    {
      if Pad(sem.alloc, tid + 1, id + 1)[tid][id] == 0 {
        sem.PrepareLockState(tid + 1, id + 1);
        return KernelPanic;
      }
      sem.PreRelease(tid, id);
      semOps := semOps + [Up(id)];
      if id >= |sem.avail| {
        return KernelPanic;
      }
      sem.PostRelease(tid, id);
      r := Returned(0);
    }

    /**
     * `sys_semaphore_down` by thread `tid`; `downOk` is what the blocking
     * `down` returns. Without detection: the `down`, then 0. With detection
     * on, `has_deadlock` panics the kernel when `avail` is shorter than the
     * lock table (a semaphore was created with detection off), and
     * `post_wait_succ` does when a `down` is granted while the semaphore's
     * `avail` cell is 0 (its `up`s came with detection off).
     */
    method SemaphoreDown(tid: nat, id: nat, downOk: bool) returns (r: SysOutcome)
      requires id < |sem.locks| && sem.locks[id] && sem.Shaped()
      requires detection && !downOk ==>
        forall k :: 0 <= k < |Pad(sem.alloc, tid + 1, id + 1)[tid]| && Pad(sem.alloc, tid + 1, id + 1)[tid][k] > 0 ==> sem.locks[k]
      modifies this, sem
      ensures sem == old(sem) && detection == old(detection) && mutexes == old(mutexes) && condvars == old(condvars)
      ensures sem.locks == old(sem.locks) && sem.Shaped()
      ensures !detection ==> && r == Returned(0) && semOps == old(semOps) + [Down(id)]
                             && sem.alloc == old(sem.alloc) && sem.q == old(sem.q) && sem.avail == old(sem.avail)
                             && sem.ups == old(sem.ups)
      ensures detection && |old(sem.avail)| != |sem.locks| ==>
        && r == KernelPanic && semOps == old(semOps) && sem.avail == old(sem.avail) && sem.ups == old(sem.ups)
        && sem.alloc == Prepared(old(sem.alloc), tid, id, |sem.locks|)
        && sem.q == Bump(Prepared(old(sem.q), tid, id, |sem.locks|), tid, id)
      ensures detection && |old(sem.avail)| == |sem.locks| ==>
        && DownEffect(old(sem.alloc), old(sem.q), old(sem.avail), old(sem.ups), old(semOps),
                      |sem.locks|, tid, id, downOk,
                      r, sem.alloc, sem.q, sem.avail, sem.ups, semOps)
        && sem.Valid()
    {
      if !detection {
        semOps := semOps + [Down(id)];
        return Returned(0);
      }
      r := DownDetecting(tid, id, downOk);
    }

    /**
     * The detecting path: size the matrices, panic when `has_deadlock` does,
     * return -0xDEAD without a `down` when the wait would deadlock,
     * otherwise wait.
     */
    method DownDetecting(tid: nat, id: nat, downOk: bool) returns (r: SysOutcome)
      requires id < |sem.locks| && sem.locks[id] && detection && sem.Shaped()
      requires !downOk ==>
        forall k :: 0 <= k < |Pad(sem.alloc, tid + 1, id + 1)[tid]| && Pad(sem.alloc, tid + 1, id + 1)[tid][k] > 0 ==> sem.locks[k]
      modifies this, sem
      ensures sem == old(sem) && detection && mutexes == old(mutexes) && condvars == old(condvars)
      ensures sem.locks == old(sem.locks) && sem.Shaped()
      ensures |old(sem.avail)| != |sem.locks| ==>
        && r == KernelPanic && semOps == old(semOps) && sem.avail == old(sem.avail) && sem.ups == old(sem.ups)
        && sem.alloc == Prepared(old(sem.alloc), tid, id, |sem.locks|)
        && sem.q == Bump(Prepared(old(sem.q), tid, id, |sem.locks|), tid, id)
      ensures |old(sem.avail)| == |sem.locks| ==>
        && DownEffect(old(sem.alloc), old(sem.q), old(sem.avail), old(sem.ups), old(semOps),
                      |sem.locks|, tid, id, downOk,
                      r, sem.alloc, sem.q, sem.avail, sem.ups, semOps)
        && sem.Valid()
    {
      if |sem.avail| != |sem.locks| {
        var dead := CheckDeadlock(tid, id);
        return KernelPanic;
      }
      r := DownAligned(tid, id, downOk);
    }

    /** The detecting path when `avail` has one cell per semaphore, so `has_deadlock` cannot panic. */
    method DownAligned(tid: nat, id: nat, downOk: bool) returns (r: SysOutcome)
      requires id < |sem.locks| && sem.locks[id] && sem.Valid()
      requires !downOk ==>
        forall k :: 0 <= k < |Pad(sem.alloc, tid + 1, id + 1)[tid]| && Pad(sem.alloc, tid + 1, id + 1)[tid][k] > 0 ==> sem.locks[k]
      modifies this, sem
      ensures sem == old(sem) && detection == old(detection) && mutexes == old(mutexes) && condvars == old(condvars)
      ensures sem.locks == old(sem.locks) && sem.Valid()
      ensures DownEffect(old(sem.alloc), old(sem.q), old(sem.avail), old(sem.ups), old(semOps),
                         |sem.locks|, tid, id, downOk,
                         r, sem.alloc, sem.q, sem.avail, sem.ups, semOps)
    {
      ghost var a0, q0, v0, u0, o0 := sem.alloc, sem.q, sem.avail, sem.ups, semOps;
      ghost var width := |sem.locks|;
      ghost var a2 := Prepared(a0, tid, id, width);
      if !downOk {
        PreparedRowLive(a0, tid, id, sem.locks);
      }
      var dead := CheckDeadlock(tid, id);
      if dead.None? {
        assert false;
        return KernelPanic;
      }
      if dead.value {
        r := Returned(DEAD);
        DownEffectDead(a0, q0, v0, u0, o0, width, tid, id, downOk, r, sem.alloc, sem.q, sem.avail, sem.ups, semOps);
        return;
      }
      r := DownLive(tid, id, downOk, a0, q0, v0, u0, o0);
    }

    /** The wait of the detecting path, once `has_deadlock_if_wait_for` has found no deadlock. */
    method DownLive(tid: nat, id: nat, downOk: bool, ghost a0: seq<seq<nat>>, ghost q0: seq<seq<nat>>,
                    ghost v0: seq<nat>, ghost u0: seq<nat>, ghost o0: seq<SemOp>) returns (r: SysOutcome)
      requires sem.Valid() && id < |sem.locks|
      requires var a2 := Prepared(a0, tid, id, |sem.locks|);
        var q2 := Prepared(q0, tid, id, |sem.locks|);
        && sem.alloc == a2 && sem.q == q2 && sem.avail == v0 && sem.ups == u0 && semOps == o0
        && |a2| == |q2| && tid < |a2| && id < |a2[tid]| && id < |q2[tid]| && |a2[tid]| == |v0|
        && !Deadlocked(a2, Bump(q2, tid, id), v0)
        && (!downOk ==> forall k :: 0 <= k < |a2[tid]| && a2[tid][k] > 0 ==> k < |sem.locks| && sem.locks[k])
      modifies this, sem
      ensures sem == old(sem) && detection == old(detection) && mutexes == old(mutexes) && condvars == old(condvars)
      ensures sem.locks == old(sem.locks) && sem.Valid()
      ensures DownEffect(a0, q0, v0, u0, o0, |sem.locks|, tid, id, downOk,
                         r, sem.alloc, sem.q, sem.avail, sem.ups, semOps)
    {
      ghost var a2, q2 := sem.alloc, sem.q;
      r := WaitDown(tid, id, downOk);
      assert semOps == o0 + [Down(id)];
      if downOk && v0[id] == 0 {
        assert sem.q == Bump(q2, tid, id) && sem.alloc == a2;
      } else {
        assert sem.q == q2;
        assert downOk ==> sem.alloc == a2[tid := a2[tid][id := a2[tid][id] + 1]];
      }
      DownEffectLive(a0, q0, v0, u0, o0, |sem.locks|, tid, id, downOk, r, sem.alloc, sem.q, sem.avail, sem.ups, semOps);
    }

    /**
     * The first half of the detecting path: `prepare_lock_state(tid+1, id+1)`,
     * then `has_deadlock_if_wait_for(tid, id)`, which panics (`None`) when
     * `avail` is shorter than the lock table.
     */
    method CheckDeadlock(tid: nat, id: nat) returns (dead: Option<bool>)
      requires id < |sem.locks| && sem.Shaped()
      modifies sem
      ensures sem.Shaped() && sem.locks == old(sem.locks) && sem.avail == old(sem.avail) && sem.ups == old(sem.ups)
      ensures old(sem.Valid()) ==> sem.Valid()
      ensures var a2 := Prepared(old(sem.alloc), tid, id, |sem.locks|);
        var q2 := Prepared(old(sem.q), tid, id, |sem.locks|);
        && sem.alloc == a2
        && |a2| == |q2| && tid < |a2| && id < |a2[tid]| && id < |q2[tid]|
        && (dead.None? <==> |sem.avail| != |sem.locks|)
        && (dead.None? ==> sem.q == Bump(q2, tid, id))
        && (dead.Some? ==> && sem.q == q2 && |a2[tid]| == |sem.avail|
                           && (dead.value <==> Deadlocked(a2, Bump(q2, tid, id), sem.avail)))
    {
      ghost var a0, q0 := sem.alloc, sem.q;
      sem.PrepareLockState(tid + 1, id + 1);
      ghost var a1, q1 := sem.alloc, sem.q;
      PadIdempotent(a0, tid + 1, id + 1);
      PadIdempotent(q0, tid + 1, id + 1);
      PadBump(q1, tid, id, |a1|, |sem.locks|);
      dead := sem.HasDeadlockIfWaitFor(tid, id);
    }

    /**
     * `pre_wait`, the `down`, then `post_wait_succ` (0) or `post_wait_fail`
     * (the thread exits with -0xDEAD); the request count is back where it was.
     * A granted `down` on a semaphore whose `avail` cell is 0 (its `up`s were
     * issued with detection off) fails the assert of `post_wait_succ`.
     */
    method WaitDown(tid: nat, id: nat, downOk: bool) returns (r: SysOutcome)
      requires sem.Valid() && tid < |sem.q| && id < |sem.q[tid]|
      requires tid < |sem.alloc| && |sem.alloc[tid]| == |sem.avail| && id < |sem.avail|
      requires !downOk ==> forall k :: 0 <= k < |sem.alloc[tid]| && sem.alloc[tid][k] > 0 ==> k < |sem.locks| && sem.locks[k]
      modifies this, sem
      ensures sem == old(sem) && detection == old(detection) && mutexes == old(mutexes) && condvars == old(condvars)
      ensures sem.locks == old(sem.locks) && sem.Valid()
      ensures semOps == old(semOps) + [Down(id)]
      ensures downOk && old(sem.avail[id]) == 0 ==>
        && r == KernelPanic && sem.q == Bump(old(sem.q), tid, id)
        && sem.alloc == old(sem.alloc) && sem.avail == old(sem.avail) && sem.ups == old(sem.ups)
      ensures !(downOk && old(sem.avail[id]) == 0) ==> sem.q == old(sem.q)
      ensures downOk && old(sem.avail[id]) > 0 ==>
                         && r == Returned(0)
                         && sem.alloc == old(sem.alloc)[tid := old(sem.alloc[tid])[id := old(sem.alloc[tid][id]) + 1]]
                         && sem.avail == old(sem.avail)[id := old(sem.avail[id]) - 1]
                         && sem.ups == old(sem.ups)
      ensures !downOk ==> && r == Exited(DEAD)
                          && sem.alloc == old(sem.alloc)[tid := Zeros(|old(sem.alloc[tid])|)]
                          && sem.avail == VecAdd(old(sem.avail), old(sem.alloc[tid]))
                          && sem.ups == old(sem.ups) + UpCalls(old(sem.alloc[tid]))
    {
      sem.PreWait(tid, id);
      semOps := semOps + [Down(id)];
      if downOk && sem.avail[id] == 0 {
        // the `assert!(self.avail[lock_id] > 0)` of `post_wait_succ`
        return KernelPanic;
      }
      if downOk {
        sem.PostWaitSucc(tid, id);
        r := Returned(0);
      } else {
        sem.PostWaitFail(tid, id);
        r := Exited(DEAD);
      }
      assert sem.q[tid] == old(sem.q[tid]);
    }

    /** `sys_enable_deadlock_detect`: detection is on exactly for a nonzero argument. */
    method EnableDeadlockDetect(enabled: nat) returns (r: int)
      modifies this
      ensures r == 0 && detection == (enabled != 0)
      ensures mutexes == old(mutexes) && condvars == old(condvars) && sem == old(sem) && semOps == old(semOps)
    {
      detection := enabled != 0;
      r := 0;
    }
  }

  /**
   * A semaphore created before `sys_enable_deadlock_detect` leaves `avail`
   * one cell short: the next semaphore's count lands in the first one's
   * cell, and a `down` on the new semaphore panics in `has_deadlock`.
   */
  method LateEnableAsWritten() returns (created: SysOutcome, avail: seq<nat>, down: SysOutcome)
    ensures created == Returned(1) && avail == [5] && down == KernelPanic
  {
    var ps := new ProcessSync();
    var first := ps.SemaphoreCreate(0, 1);
    var enabled := ps.EnableDeadlockDetect(1);
    created := ps.SemaphoreCreate(0, 5);
    avail := ps.sem.avail;
    down := ps.SemaphoreDown(0, 1, true);
  }

  /** The same two creations when every count is recorded: each semaphore's count sits at its own id. */
  method LateEnableIntended() returns (created: SysOutcome, avail: seq<nat>)
    ensures created == Returned(1) && avail == [1, 5]
  {
    var ps := new ProcessSync();
    var first := ps.SemaphoreCreateIntended(0, 1);
    var enabled := ps.EnableDeadlockDetect(1);
    created := ps.SemaphoreCreateIntended(0, 5);
    avail := ps.sem.avail;
  }

  /**
   * Detection switched off around an `up`: the semaphore's count rises but
   * its `avail` cell stays 0, so once detection is back on, a `down` by a
   * thread that holds nothing is granted and fails the assert of
   * `post_wait_succ`.
   */
  method ToggledUpAsWritten() returns (avail: seq<nat>, down: SysOutcome)
    ensures avail == [0] && down == KernelPanic
  {
    var ps := new ProcessSync();
    var enabled := ps.EnableDeadlockDetect(1);
    var created := ps.SemaphoreCreate(0, 0);
    assert ps.sem.alloc == [[0]] && ps.sem.q == [[0]] && ps.sem.avail == [0] && ps.sem.locks == [true];
    enabled := ps.EnableDeadlockDetect(0);
    var up := ps.SemaphoreUp(0, 0);
    enabled := ps.EnableDeadlockDetect(1);
    avail := ps.sem.avail;
    assert Prepared([[0]], 0, 0, 1) == [[0]];
    NoHolderNoDeadlock([[0]], [[1]], [0]);
    down := ps.SemaphoreDown(0, 0, true);
  }

  /**
   * A matrix after `sys_semaphore_down`'s two rounds of `prepare_lock_state`:
   * `(tid+1) x (id+1)`, then every row to the lock table's `width`.
   */
  function Prepared(rows: seq<seq<nat>>, tid: nat, id: nat, width: nat): seq<seq<nat>>
  {
    var p := Pad(rows, tid + 1, id + 1);
    Pad(p, |p|, width)
  }

  /**
   * The effect of `sys_semaphore_down` with detection on, from the detector
   * state `a0, q0, avail0, ups0` and operation log `ops0` to the outcome `r`
   * and the state `a, q, avail, ups, ops`; `width` is the lock table size.
   * `a2`/`q2` are the matrices after both rounds of `prepare_lock_state`.
   */
  ghost predicate DownEffect(a0: seq<seq<nat>>, q0: seq<seq<nat>>, avail0: seq<nat>, ups0: seq<nat>, ops0: seq<SemOp>,
                             width: nat, tid: nat, id: nat, downOk: bool,
                             r: SysOutcome, a: seq<seq<nat>>, q: seq<seq<nat>>, avail: seq<nat>, ups: seq<nat>, ops: seq<SemOp>)
  {
    var a2 := Prepared(a0, tid, id, width);
    var q2 := Prepared(q0, tid, id, width);
    && |a2| <= |q2| && tid < |a2| && id < |a2[tid]| && tid < |q2| && id < |q2[tid]|
    && var dead := Deadlocked(a2, Bump(q2, tid, id), avail0);
    && (dead ==>
          && r == Returned(DEAD) && ops == ops0
          && q == q2 && a == a2 && avail == avail0 && ups == ups0)
    && (!dead ==> |a2[tid]| == |avail0| && ops == ops0 + [Down(id)])
    && (!dead && downOk && avail0[id] > 0 ==>
          && r == Returned(0) && q == q2
          && a == a2[tid := a2[tid][id := a2[tid][id] + 1]]
          && avail == avail0[id := avail0[id] - 1]
          && ups == ups0)
    && (!dead && downOk && avail0[id] == 0 ==>
          && r == KernelPanic && q == Bump(q2, tid, id)
          && a == a2 && avail == avail0 && ups == ups0)
    && (!dead && !downOk ==>
          && r == Exited(DEAD) && q == q2
          && a == a2[tid := Zeros(|a2[tid]|)]
          && avail == VecAdd(avail0, a2[tid])
          && ups == ups0 + UpCalls(a2[tid]))
  }

  lemma DownEffectDead(a0: seq<seq<nat>>, q0: seq<seq<nat>>, avail0: seq<nat>, ups0: seq<nat>, ops0: seq<SemOp>,
                       width: nat, tid: nat, id: nat, downOk: bool,
                       r: SysOutcome, a: seq<seq<nat>>, q: seq<seq<nat>>, avail: seq<nat>, ups: seq<nat>, ops: seq<SemOp>)
    requires var a2 := Prepared(a0, tid, id, width);
      var q2 := Prepared(q0, tid, id, width);
      && |a2| <= |q2| && tid < |a2| && id < |a2[tid]| && tid < |q2| && id < |q2[tid]|
      && q == q2 && a == a2 && avail == avail0 && ups == ups0 && ops == ops0 && r == Returned(DEAD)
      && Deadlocked(a2, Bump(q2, tid, id), avail0)
    ensures DownEffect(a0, q0, avail0, ups0, ops0, width, tid, id, downOk, r, a, q, avail, ups, ops)
  {
  }

  lemma DownEffectLive(a0: seq<seq<nat>>, q0: seq<seq<nat>>, avail0: seq<nat>, ups0: seq<nat>, ops0: seq<SemOp>,
                       width: nat, tid: nat, id: nat, downOk: bool,
                       r: SysOutcome, a: seq<seq<nat>>, q: seq<seq<nat>>, avail: seq<nat>, ups: seq<nat>, ops: seq<SemOp>)
    requires var a2 := Prepared(a0, tid, id, width);
      var q2 := Prepared(q0, tid, id, width);
      && |a2| <= |q2| && tid < |a2| && id < |a2[tid]| && tid < |q2| && id < |q2[tid]| && |a2[tid]| == |avail0|
      && !Deadlocked(a2, Bump(q2, tid, id), avail0)
      && ops == ops0 + [Down(id)]
      && (downOk && avail0[id] == 0 ==> && r == KernelPanic && q == Bump(q2, tid, id)
                                        && a == a2 && avail == avail0 && ups == ups0)
      && (!(downOk && avail0[id] == 0) ==> q == q2)
      && (downOk && avail0[id] > 0 ==>
                     && r == Returned(0)
                     && a == a2[tid := a2[tid][id := a2[tid][id] + 1]]
                     && avail == avail0[id := avail0[id] - 1]
                     && ups == ups0)
      && (!downOk ==> && r == Exited(DEAD)
                      && a == a2[tid := Zeros(|a2[tid]|)]
                      && avail == VecAdd(avail0, a2[tid])
                      && ups == ups0 + UpCalls(a2[tid]))
    ensures DownEffect(a0, q0, avail0, ups0, ops0, width, tid, id, downOk, r, a, q, avail, ups, ops)
  {
  }

  /** The locks `tid` holds after both paddings are the ones it held after the first. */
  lemma PreparedRowLive(alloc: seq<seq<nat>>, tid: nat, id: nat, locks: seq<bool>)
    requires id < |locks| && forall i :: 0 <= i < |alloc| ==> |alloc[i]| <= |locks|
    requires forall k :: 0 <= k < |Pad(alloc, tid + 1, id + 1)[tid]| && Pad(alloc, tid + 1, id + 1)[tid][k] > 0 ==> locks[k]
    ensures var a2 := Prepared(alloc, tid, id, |locks|);
      tid < |a2| && forall k :: 0 <= k < |a2[tid]| && a2[tid][k] > 0 ==> k < |locks| && locks[k]
  {
    PadKeepsCells(alloc, tid + 1, id + 1, |locks|);
  }

  /** Padding the rows a second time, to the whole lock table, keeps the row of `tid` nonzero only where it was. */
  lemma PadKeepsCells(alloc: seq<seq<nat>>, nt: nat, nl: nat, width: nat)
    ensures var a1 := Pad(alloc, nt, nl);
      var a2 := Pad(a1, |a1|, width);
      |a2| == |a1| && forall i, k :: 0 <= i < |a1| && 0 <= k < |a2[i]| ==> a2[i][k] == Cell(a1[i], k)
  {
  }
}
