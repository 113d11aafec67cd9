/**
 * The round-robin task manager: a fixed vector of task control blocks and the
 * index of the task that is running. The assembly context switch is not part
 * of the model: switching changes only the task manager's own state, and the
 * timer reading is passed in as `now`.
 */
module Task {
  import opened Config
  import opened Wrappers
  import Mm
  import opened Arith

  datatype TaskStatus = UnInit | Ready | Running | Exited

  /** The per-task syscall counters, `[u32; MAX_SYSCALL_NUM]`. */
  type SyscallTimes = s: seq<U32> | |s| == MAX_SYSCALL_NUM witness seq(MAX_SYSCALL_NUM, _ => 0)

  /**
   * The fields of a task control block that the task manager reads or
   * writes. The memory set is left abstract as the type parameter `M`.
   */
  datatype TaskControlBlock<M> = TaskControlBlock(
    status: TaskStatus,
    startTime: Usize,
    syscallTimes: SyscallTimes,
    memorySet: M)

  /** The snapshot `get_current_task_info` stores through its pointer. */
  datatype TaskInfo = TaskInfo(status: TaskStatus, syscallTimes: SyscallTimes, time: Usize)

  /** How `run_next_task` ends: a switch between two tasks, or the "All applications completed!" panic. */
  datatype Switch = Switched(from: nat, to: nat) | AllCompleted

  function StatusesOf<M>(ts: seq<TaskControlBlock<M>>): (st: seq<TaskStatus>)
    ensures |st| == |ts| && forall i :: 0 <= i < |ts| ==> st[i] == ts[i].status
  {
    seq(|ts|, i requires 0 <= i < |ts| => ts[i].status)
  }

  // ---------------------------------------------------------------------
  // The cyclic search of `find_next_task`
  // ---------------------------------------------------------------------

  /** The task index visited at step `k` of the scan that starts after `current`. */
  function Slot(n: nat, current: nat, k: nat): (id: nat)
    requires n > 0
    ensures id < n
  {
    (current + k) % n
  }

  predicate ReadyAt(st: seq<TaskStatus>, current: nat, k: nat)
    requires |st| > 0
  {
    st[Slot(|st|, current, k)] == Ready
  }

  /** Steps `k..|st|` of the scan: the first of them that lands on a Ready task. */
  function ScanFrom(st: seq<TaskStatus>, current: nat, k: nat): (step: Option<nat>)
    requires 1 <= k
    ensures step.Some? ==> k <= step.value <= |st| && ReadyAt(st, current, step.value)
    ensures step.Some? ==> forall j :: k <= j < step.value ==> !ReadyAt(st, current, j)
    ensures step.None? ==> forall j :: k <= j <= |st| ==> !ReadyAt(st, current, j)
    decreases |st| + 1 - k
  {
    if k > |st| then None
    else if ReadyAt(st, current, k) then Some(k)
    else ScanFrom(st, current, k + 1)
  }

  /**
   * `find_next_task` over the task statuses: the first Ready index among
   * `current + 1, current + 2, ..., current + n`, each taken modulo `n`.
   */
  function NextReady(st: seq<TaskStatus>, current: nat): (next: Option<nat>)
    ensures next.Some? ==> next.value < |st| && st[next.value] == Ready
    ensures next.Some? ==>
      exists k :: 1 <= k <= |st| && Slot(|st|, current, k) == next.value &&
        forall j :: 1 <= j < k ==> !ReadyAt(st, current, j)
  {
    match ScanFrom(st, current, 1)
    case None => None
    case Some(k) => Some(Slot(|st|, current, k))
  }

  /** Every task index is visited by some step of the scan. */
  lemma SlotCovers(n: nat, current: nat, i: nat) returns (k: nat)
    requires i < n
    ensures 1 <= k <= n && Slot(n, current, k) == i
  {
    var c := current % n;
    var q := current / n;
    if i > c {
      k := i - c;
      ModUnique(current + k, n, q, i);
    } else {
      k := i + n - c;
      ModUnique(current + k, n, q + 1, i);
    }
  }

  /** The last step of the scan visits `current` itself, and no earlier step does. */
  lemma SlotLastIsCurrent(n: nat, current: nat)
    requires current < n
    ensures Slot(n, current, n) == current
    ensures forall k :: 1 <= k < n ==> Slot(n, current, k) != current
  {
    ModUnique(current + n, n, 1, current);
    forall k | 1 <= k < n ensures Slot(n, current, k) != current {
      if current + k < n {
        ModUnique(current + k, n, 0, current + k);
      } else {
        ModUnique(current + k, n, 1, current + k - n);
      }
    }
  }

  /** `find_next_task` finds nothing exactly when no task is Ready. */
  lemma NextReadyNoneIff(st: seq<TaskStatus>, current: nat)
    ensures NextReady(st, current).None? <==> forall i :: 0 <= i < |st| ==> st[i] != Ready
  {
    if NextReady(st, current).None? {
      forall i | 0 <= i < |st| ensures st[i] != Ready {
        var k := SlotCovers(|st|, current, i);
        assert !ReadyAt(st, current, k);
      }
    }
  }

  /** The current task is chosen only when no other task is Ready. */
  lemma NextReadyCurrentLast(st: seq<TaskStatus>, current: nat)
    requires current < |st| && st[current] == Ready
    ensures NextReady(st, current).Some?
    ensures NextReady(st, current) == Some(current) <==>
      forall i :: 0 <= i < |st| && i != current ==> st[i] != Ready
  {
    SlotLastIsCurrent(|st|, current);
    NextReadyNoneIff(st, current);
    var next := NextReady(st, current);
    if next == Some(current) {
      forall i | 0 <= i < |st| && i != current ensures st[i] != Ready {
        var k := SlotCovers(|st|, current, i);
        assert k < |st|;
        assert !ReadyAt(st, current, k);
      }
    } else {
      var i := next.value;
      assert i != current && st[i] == Ready;
    }
  }

  /** The control blocks with task `i` given status `st`. */
  function WithStatus<M>(ts: seq<TaskControlBlock<M>>, i: nat, st: TaskStatus): seq<TaskControlBlock<M>>
    requires i < |ts|
  {
    ts[i := ts[i].(status := st)]
  }

  /** The control blocks after task `next` is switched to at time `now`: Running, start time stamped once. */
  function Dispatch<M>(ts: seq<TaskControlBlock<M>>, next: nat, now: Usize): seq<TaskControlBlock<M>>
    requires next < |ts|
  {
    var start := ts[next].startTime;
    ts[next := ts[next].(status := Running, startTime := if start == 0 then now else start)]
  }

  // ---------------------------------------------------------------------
  // The task manager
  // ---------------------------------------------------------------------

  class TaskManager<M> {
    /** `num_app`: the number of loaded applications. */
    const numApp: nat
    /** `inner.tasks`: one control block per application. */
    const tasks: array<TaskControlBlock<M>>
    /** `inner.current_task`. */
    var current: nat

    ghost predicate Valid()
      reads this
    {
      tasks.Length == numApp && (current < numApp || current == 0)
    }

    /** At most one task is Running, and that one is the current task. */
    ghost predicate RunningIsCurrent()
      reads this, tasks
    {
      forall i :: 0 <= i < tasks.Length && tasks[i].status == Running ==> i == current
    }

    /** The task vector built from the loaded applications, with task 0 current. */
    constructor (initial: seq<TaskControlBlock<M>>)
      ensures Valid() && fresh(tasks)
      ensures numApp == |initial| && tasks[..] == initial && current == 0
    {
      numApp := |initial|;
      tasks := new TaskControlBlock<M>[|initial|](i requires 0 <= i < |initial| => initial[i]);
      current := 0;
    }

    /** The status of every task, in task order. */
    function Statuses(): (st: seq<TaskStatus>)
      reads this, tasks
      ensures |st| == tasks.Length && forall i :: 0 <= i < tasks.Length ==> st[i] == tasks[i].status
    {
      StatusesOf(tasks[..])
    }

    /** `find_next_task`: the first Ready task in cyclic order after the current one. */
    function FindNextTask(): (next: Option<nat>)
      reads this, tasks
      requires Valid()
      ensures next.Some? ==> next.value < numApp && tasks[next.value].status == Ready
      ensures next.None? <==> forall i :: 0 <= i < numApp ==> tasks[i].status != Ready
      ensures next.Some? ==>
        exists k :: 1 <= k <= numApp && Slot(numApp, current, k) == next.value &&
          forall j :: 1 <= j < k ==> !ReadyAt(Statuses(), current, j)
    {
      NextReadyNoneIff(Statuses(), current);
      NextReady(Statuses(), current)
    }

    /** `mark_current_suspended`: the current task becomes Ready. */
    method MarkCurrentSuspended()
      requires Valid() && numApp > 0
      modifies tasks
      ensures Valid() && current == old(current)
      ensures tasks[..] == old(tasks[..])[current := old(tasks[current]).(status := Ready)]
    {
      tasks[current] := tasks[current].(status := Ready);
    }

    /** `mark_current_exited`: the current task becomes Exited. */
    method MarkCurrentExited()
      requires Valid() && numApp > 0
      modifies tasks
      ensures Valid() && current == old(current)
      ensures tasks[..] == old(tasks[..])[current := old(tasks[current]).(status := Exited)]
    {
      tasks[current] := tasks[current].(status := Exited);
    }

    /**
     * `run_next_task`: the next Ready task becomes Running and current; its
     * start time is stamped with `now` the first time it runs. Without a
     * Ready task the kernel stops ("All applications completed!").
     */
    method RunNextTask(now: Usize) returns (s: Switch)
      requires Valid()
      modifies this, tasks
      ensures Valid()
      ensures old(FindNextTask()).None? ==>
        s == AllCompleted && current == old(current) && tasks[..] == old(tasks[..])
      ensures old(FindNextTask()).Some? ==>
        var next := old(FindNextTask()).value;
        var start := old(tasks[next].startTime);
        s == Switched(old(current), next) && current == next &&
        tasks[..] == old(tasks[..])[next := old(tasks[next]).(
          status := Running,
          startTime := if start == 0 then now else start)]
    {
      var found := FindNextTask();
      match found
      case None =>
        s := AllCompleted;
      case Some(next) =>
        var from := current;
        tasks[next] := tasks[next].(status := Running);
        if tasks[next].startTime == 0 {
          tasks[next] := tasks[next].(startTime := now);
        }
        current := next;
        s := Switched(from, next);
    }

    /** `suspend_current_and_run_next`: a suspended task is itself Ready, so a switch always happens. */
    method SuspendCurrentAndRunNext(now: Usize) returns (s: Switch)
      requires Valid() && numApp > 0
      modifies this, tasks
      ensures Valid()
      ensures s == Switched(old(current), current)
      ensures tasks[current].status == Running
      ensures current != old(current) ==> tasks[old(current)].status == Ready
      ensures current == old(current) <==>
        forall i :: 0 <= i < numApp && i != old(current) ==> old(tasks[i].status) != Ready
      ensures old(RunningIsCurrent()) ==> RunningIsCurrent()
      ensures var mid := WithStatus(old(tasks[..]), old(current), Ready);
        NextReady(StatusesOf(mid), old(current)) == Some(current) && tasks[..] == Dispatch(mid, current, now)
    {
      ghost var before := tasks[..];
      MarkCurrentSuspended();
      ghost var mid := tasks[..];
      assert forall i :: 0 <= i < numApp && i != current ==> mid[i] == before[i];
      NextReadyCurrentLast(Statuses(), current);
      ghost var next := FindNextTask().value;
      assert next == current <==> forall i :: 0 <= i < numApp && i != current ==> before[i].status != Ready;
      s := RunNextTask(now);
      assert tasks[..] == mid[next := tasks[next]];
      assert tasks[next].status == Running;
    }

    /** `exit_current_and_run_next`: the kernel stops once no other task is Ready. */
    method ExitCurrentAndRunNext(now: Usize) returns (s: Switch)
      requires Valid() && numApp > 0
      modifies this, tasks
      ensures Valid()
      ensures tasks[old(current)].status == Exited
      ensures s == AllCompleted <==>
        forall i :: 0 <= i < numApp && i != old(current) ==> old(tasks[i].status) != Ready
      ensures s.Switched? ==>
        s == Switched(old(current), current) && current != old(current) && tasks[current].status == Running
      ensures old(RunningIsCurrent()) ==> RunningIsCurrent()
      ensures var mid := WithStatus(old(tasks[..]), old(current), Exited);
        (s == AllCompleted ==> current == old(current) && tasks[..] == mid) &&
        (s.Switched? ==>
          NextReady(StatusesOf(mid), old(current)) == Some(current) && tasks[..] == Dispatch(mid, current, now))
    {
      ghost var before := tasks[..];
      MarkCurrentExited();
      ghost var mid := tasks[..];
      assert forall i :: 0 <= i < numApp && i != current ==> mid[i] == before[i];
      assert mid[current].status == Exited;
      ghost var found := FindNextTask();
      assert found.None? <==> forall i :: 0 <= i < numApp && i != current ==> before[i].status != Ready;
      s := RunNextTask(now);
      if found.Some? {
        assert found.value != old(current);
        assert tasks[..] == mid[found.value := tasks[found.value]];
      }
    }

    /**
     * `increase_task_syscall`: the current task's counter for `id` goes up by
     * one (modulo 2^32); nothing else changes.
     */
    method IncreaseTaskSyscall(id: nat)
      requires Valid() && numApp > 0 && id < MAX_SYSCALL_NUM
      modifies tasks
      ensures Valid() && current == old(current)
      ensures tasks[..] == old(tasks[..])[current := old(tasks[current]).(
        syscallTimes := old(tasks[current].syscallTimes)[id := WrappingIncU32(old(tasks[current].syscallTimes[id]))])]
    {
      var tcb := tasks[current];
      tasks[current] := tcb.(syscallTimes := tcb.syscallTimes[id := WrappingIncU32(tcb.syscallTimes[id])]);
    }

    /**
     * `get_current_task_info`: the current task's status and counters, and
     * the whole milliseconds elapsed since it first ran; it returns 0.
     */
    function CurrentTaskInfo(now: Usize): (r: (TaskInfo, Usize))
      reads this, tasks
      requires Valid() && numApp > 0
      ensures r.1 == 0
      ensures r.0.status == tasks[current].status
      ensures r.0.syscallTimes == tasks[current].syscallTimes
      ensures r.0.time * 1000 <= WrappingSub(now, tasks[current].startTime) < (r.0.time + 1) * 1000
    {
      var tcb := tasks[current];
      (TaskInfo(tcb.status, tcb.syscallTimes, WrappingSub(now, tcb.startTime) / 1000), 0)
    }

    /** `current_m_map`: the current task's memory set performs the mapping; its status is returned. */
    method CurrentMmap(start: Usize, len: Usize, perm: Mm.MapPermission,
                       mmap: (M, Usize, Usize, Mm.MapPermission) -> (M, Isize)) returns (r: Isize)
      requires Valid() && numApp > 0
      modifies tasks
      ensures Valid() && current == old(current)
      ensures var (ms, status) := mmap(old(tasks[current].memorySet), start, len, perm);
        r == status && tasks[..] == old(tasks[..])[current := old(tasks[current]).(memorySet := ms)]
    {
      var tcb := tasks[current];
      var (ms, status) := mmap(tcb.memorySet, start, len, perm);
      tasks[current] := tcb.(memorySet := ms);
      r := status;
    }

    /** `get_curren_task_note`: the index of the current task. */
    function CurrentTaskNote(): (id: nat)
      reads this
      requires Valid()
      ensures id == current
      ensures numApp > 0 ==> id < numApp
    {
      current
    }
  }

  /** The time a task reports is exact when the clock has not wrapped since it started. */
  lemma ElapsedMillis(now: Usize, start: Usize, time: Usize)
    requires start <= now
    requires time * 1000 <= WrappingSub(now, start) < (time + 1) * 1000
    ensures time == (now - start) / 1000
  {
  }
}
