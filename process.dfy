/**
 * The result-code logic of the process syscalls (os/src/syscall/process.rs):
 * `sys_mmap`/`sys_munmap` argument checks, `sys_set_priority`,
 * `check_sigaction_error`/`sys_sigaction`, `sys_kill`, `sys_waitpid` and
 * the arithmetic of `sys_get_time`.
 *
 * A process control block is a class holding only the fields these
 * syscalls touch. Values read from or written to user memory (the new
 * signal action, the old action, the exit code) are parameters and
 * results; the clock is a parameter.
 */
module Process {
  import opened Wrappers
  import opened Hw
  import opened Areas
  import MemorySet

  /** MAX_SIG: signal numbers are 0..31, one bit of `SignalFlags` each. */
  const MAX_SIG: nat := 31
  const SIGKILL: nat := 9
  const SIGSTOP: nat := 19

  /** `SignalFlags::from_bits(1 << signum)` succeeds for the 32 defined bits. */
  predicate ValidSignal(signum: int)
  {
    0 <= signum <= MAX_SIG
  }

  /** A signal handler record; the kernel only copies it. */
  datatype SignalAction = SignalAction(handler: nat, mask: nat)

  /** A child in the `children` list: its pid, whether it is a zombie, its exit code. */
  datatype Child = Child(pid: nat, zombie: bool, exitCode: int)

  const USIZE: int := 0x1_0000_0000_0000_0000

  /** `pid == -1 || pid as usize == child.getpid()`; a negative `pid` is reinterpreted as a usize. */
  predicate Matches(pid: int, c: Child)
  {
    pid == -1 || (if pid >= 0 then pid == c.pid else pid + USIZE == c.pid)
  }

  /** The index of the first zombie child matching `pid`, as `find` returns it. */
  function FirstZombie(children: seq<Child>, pid: int): (r: Option<nat>)
    ensures r.Some? ==> r.value < |children| && children[r.value].zombie && Matches(pid, children[r.value])
    ensures r.Some? ==> forall j :: 0 <= j < r.value ==> !(children[j].zombie && Matches(pid, children[j]))
    ensures r.None? ==> forall j :: 0 <= j < |children| ==> !(children[j].zombie && Matches(pid, children[j]))
  {
    if children == [] then None
    else if children[0].zombie && Matches(pid, children[0]) then Some(0)
    else match FirstZombie(children[1..], pid)
      case None => None
      case Some(k) => Some(k + 1)
  }

  /** `sys_waitpid`'s possible answers: no child, none exited yet, or a reaped child. */
  datatype WaitResult = NoChild | StillRunning | Reaped(pid: nat, exitCode: int)

  /** The value `sys_waitpid` returns for each answer. */
  function WaitCode(w: WaitResult): int
  {
    match w
    case NoChild => -1
    case StillRunning => -2
    case Reaped(pid, _) => pid
  }

  /** `(sec, usec)` as `sys_get_time` writes it. */
  datatype TimeVal = TimeVal(sec: nat, usec: nat)

  /** `sys_get_time`'s conversion of a microsecond count. */
  function GetTime(us: nat): (t: TimeVal)
    ensures t.sec * 1_000_000 + t.usec == us && t.usec < 1_000_000
  {
    TimeVal(us / 1_000_000, us % 1_000_000)
  }

  /** The conversion is the only split of `us` into seconds and a sub-second remainder. */
  lemma GetTimeUnique(us: nat, t: TimeVal)
    requires t.sec * 1_000_000 + t.usec == us && t.usec < 1_000_000
    ensures GetTime(us) == t
  {
  }

  /** `check_sigaction_error`: a null action or old-action pointer, or SIGKILL or SIGSTOP. */
  function CheckSigactionError(signum: nat, action: nat, oldAction: nat): (err: bool)
    ensures err <==> action == 0 || oldAction == 0 || signum == SIGKILL || signum == SIGSTOP
  {
    if action == 0 || oldAction == 0 || signum == SIGKILL || signum == SIGSTOP then true else false
  }

  /** The pieces of a process control block the process syscalls read and write. */
  class Pcb {
    var signals: set<nat>
    var actions: seq<SignalAction>
    var children: seq<Child>
    var priority: int

    ghost predicate Valid()
      reads this
    {
      |actions| == MAX_SIG + 1
    }

    constructor (actions0: seq<SignalAction>, children0: seq<Child>)
      requires |actions0| == MAX_SIG + 1
      ensures Valid() && signals == {} && actions == actions0 && children == children0 && priority == 16
    {
      signals := {};
      actions := actions0;
      children := children0;
      priority := 16;
    }

    /** `sys_set_priority`: priorities of at most 1 are refused. */
    method SetPriority(prio: int) returns (r: int)
      modifies this
      ensures prio <= 1 ==> r == -1 && priority == old(priority)
      ensures prio > 1 ==> r == prio && priority == prio
      ensures signals == old(signals) && actions == old(actions) && children == old(children)
    {
      if prio <= 1 {
        return -1;
      }
      priority := prio;
      r := prio;
    }

    /**
     * `sys_sigaction`: on success the previous action goes to `old` and
     * `act` replaces it; the pointers are only compared with null.
     */
    method Sigaction(signum: int, action: nat, oldAction: nat, act: SignalAction)
      returns (r: int, old_: Option<SignalAction>)
      requires Valid()
      modifies this
      ensures Valid() && signals == old(signals) && children == old(children) && priority == old(priority)
      ensures r == 0 || r == -1
      ensures r == 0 <==> ValidSignal(signum) && !CheckSigactionError(signum, action, oldAction)
      ensures r == 0 ==> old_ == Some(old(actions)[signum]) && actions == old(actions)[signum := act]
      ensures r == -1 ==> old_ == None && actions == old(actions)
    {
      if signum < 0 || signum > MAX_SIG as int {
        return -1, None;
      }
      if CheckSigactionError(signum, action, oldAction) {
        return -1, None;
      }
      old_ := Some(actions[signum]);
      actions := actions[signum := act];
      r := 0;
    }

    /**
     * `sys_waitpid`: -1 when no child matches `pid` (-1 matches any);
     * otherwise the first matching zombie is removed and its pid returned,
     * or -2 when no matching child has exited.
     */
    method Waitpid(pid: int) returns (w: WaitResult)
      modifies this
      ensures signals == old(signals) && actions == old(actions) && priority == old(priority)
      ensures w == NoChild <==> forall j :: 0 <= j < |old(children)| ==> !Matches(pid, old(children)[j])
      ensures w.NoChild? || w.StillRunning? ==> children == old(children)
      ensures w.StillRunning? <==>
        (exists j :: 0 <= j < |old(children)| && Matches(pid, old(children)[j])) && FirstZombie(old(children), pid).None?
      ensures w.Reaped? ==>
        var k := FirstZombie(old(children), pid).value;
        && w == Reaped(old(children)[k].pid, old(children)[k].exitCode)
        && children == old(children)[..k] + old(children)[k + 1..]
    {
      if forall j :: 0 <= j < |children| ==> !Matches(pid, children[j]) {
        return NoChild;
      }
      var idx := FirstZombie(children, pid);
      match idx {
        case None =>
          w := StillRunning;
        case Some(k) =>
          var child := children[k];
          children := children[..k] + children[k + 1..];
          w := Reaped(child.pid, child.exitCode);
      }
    }
  }

  /**
   * `sys_kill(pid, signum)`: -1 when the pid is unknown, the signal is not
   * one of the 32 flags, or it is already pending; otherwise it becomes
   * pending and the result is 0.
   */
  method Kill(tasks: map<nat, Pcb>, pid: nat, signum: int) returns (r: int)
    modifies if pid in tasks then {tasks[pid]} else {}
    ensures r == 0 || r == -1
    ensures r == 0 <==> pid in tasks && ValidSignal(signum) && signum !in old(tasks[pid].signals)
    ensures pid in tasks && r == 0 ==> tasks[pid].signals == old(tasks[pid].signals) + {signum}
    ensures pid in tasks && r == -1 ==> tasks[pid].signals == old(tasks[pid].signals)
    ensures pid in tasks ==> tasks[pid].actions == old(tasks[pid].actions) && tasks[pid].children == old(tasks[pid].children)
                             && tasks[pid].priority == old(tasks[pid].priority)
  {
    if pid !in tasks {
      return -1;
    }
    var task := tasks[pid];
    if !ValidSignal(signum) {
      return -1;
    }
    if signum in task.signals {
      return -1;
    }
    task.signals := task.signals + {signum};
    r := 0;
  }

  /**
   * `sys_mmap`'s checks: `start` page-aligned, `prot` non-zero with no bit
   * above the low three. The range handed on is `[start, start + len)`.
   */
  function MmapArgs(start: nat, len: nat, prot: bv64): (r: Option<(nat, nat, bv8)>)
    ensures r.None? <==> start % PAGE_SIZE != 0 || prot & !7 != 0 || prot & 7 == 0
    ensures r.Some? ==> r.value.0 == start && r.value.1 == start + len
    ensures r.Some? ==> r.value.2 == PermOfProt(prot as bv8)
  {
    if start % PAGE_SIZE != 0 then None
    else if prot & !7 != 0 || prot & 7 == 0 then None
    else Some((start, start + len, PermOfProt(prot as bv8)))
  }

  /** `MapPermission::from_bits((prot as u8) << 1).unwrap() | MapPermission::U`. */
  function PermOfProt(prot: bv8): (p: bv8)
    requires prot < 8
  {
    (prot << 1) | PERM_U
  }

  /** Bit 0 of `prot` grants R, bit 1 W, bit 2 X, and U is always set; nothing else is. */
  lemma PermOfProtBits(prot: bv8)
    requires prot < 8
    ensures var p := PermOfProt(prot);
      && (p & PERM_R != 0 <==> prot & 1 != 0)
      && (p & PERM_W != 0 <==> prot & 2 != 0)
      && (p & PERM_X != 0 <==> prot & 4 != 0)
      && p & PERM_U != 0
      && p & !(PERM_R | PERM_W | PERM_X | PERM_U) == 0
  {
  }

  /** `sys_munmap`'s check: a page-aligned `start`; the range handed on is `[start, start + len)`. */
  function MunmapArgs(start: nat, len: nat): (r: Option<(nat, nat)>)
    ensures r.None? <==> start % PAGE_SIZE != 0
    ensures r.Some? ==> r.value == (start, start + len)
  {
    if start % PAGE_SIZE != 0 then None else Some((start, start + len))
  }

  /**
   * `sys_mmap`: the argument checks, then `mmap` of `[start, start + len)`
   * with the permission `prot` grants.
   */
  method SysMmap(ms: MemorySet.MemorySet, start: nat, len: nat, prot: bv64) returns (r: int)
    requires ms.Valid()
    modifies ms, ms.frames, ms.files, ms.hw
    ensures ms.Valid() && (r == 0 || r == -1)
    ensures r == -1 ==> ms.areas == old(ms.areas) && unchanged(ms.frames, ms.files, ms.hw)
    ensures MmapArgs(start, len, prot).None? ==> r == -1
    ensures MmapArgs(start, len, prot).Some? ==> var target := MemorySet.VpnRange(start, start + len);
      r == -1 <==> AnyCritical(target) || exists i :: 0 <= i < |old(ms.areas)| && Intersects(old(ms.areas)[i].range, target)
    ensures r == 0 ==> var target := MemorySet.VpnRange(start, start + len);
      && ms.areas == old(ms.areas) + [MapArea(target, MemorySet.NewPages(Framed, ms.table, target), Framed, PermOfProt(prot as bv8), None, 0)]
      && ms.frames.mapping == old(ms.frames.mapping) + MemorySet.LazyPtes(ms.table, target)
      && ms.files.mapping == old(ms.files.mapping)
  {
    var args := MmapArgs(start, len, prot);
    if args.None? {
      return -1;
    }
    r := ms.Mmap(start, start + len, PermOfProt(prot as bv8));
  }

  /** `sys_munmap`: the alignment check, then `munmap` of `[start, start + len)`. */
  method SysMunmap(ms: MemorySet.MemorySet, start: nat, len: nat) returns (r: int)
    requires ms.Valid()
    modifies ms, ms.frames, ms.files, ms.hw
    ensures ms.Valid() && (r == 0 || r == -1)
    ensures r == -1 ==> ms.areas == old(ms.areas) && unchanged(ms.frames, ms.files, ms.hw)
    ensures start % PAGE_SIZE != 0 ==> r == -1
    ensures start % PAGE_SIZE == 0 ==> var target := MemorySet.VpnRange(start, start + len);
      r == -1 <==> AnyCritical(target) || exists v :: Contains(target, v) && v !in old(AllPages(ms.areas))
    ensures r == 0 ==> ms.areas == MunmapAreas(old(ms.areas), MemorySet.VpnRange(start, start + len))
    ensures r == 0 ==> var vpns := RangeSet(MemorySet.VpnRange(start, start + len));
      && ms.frames.mapping == MemorySet.Unmapped(old(ms.frames.mapping), ms.table, vpns)
      && ms.files.mapping == MemorySet.Unmapped(old(ms.files.mapping), ms.table, vpns)
  {
    if MunmapArgs(start, len).None? {
      return -1;
    }
    r := ms.Munmap(start, start + len);
  }
}
