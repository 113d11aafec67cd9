/**
 * The process-management syscalls. The kernel writes its results through
 * user pointers after translating them with the current task's page table;
 * the model returns the translated physical address together with the value
 * stored there. The timer reading is passed in.
 */
module Process {
  import opened Config
  import opened Wrappers
  import opened Mm
  import opened Task
  import opened Arith

  /** `TimeVal`: seconds and microseconds. */
  datatype TimeVal = TimeVal(sec: Usize, usec: Usize)

  /** A value the kernel stores at physical address `pa`. */
  datatype Store<T> = Store(pa: nat, value: T)

  /** What `sys_mmap` does: refuse with -1, or hand the request to the current task. */
  datatype MmapRequest = Rejected | Forward(start: Usize, len: Usize, perm: MapPermission)

  /** The microseconds a time value stands for. */
  function Micros(tv: TimeVal): int
  {
    tv.sec * 1_000_000 + tv.usec
  }

  /** The time value for `us` microseconds, as `sys_get_time` builds it. */
  function SplitMicros(us: Usize): (tv: TimeVal)
    ensures tv.usec < 1_000_000 && Micros(tv) == us
  {
    TimeVal(us / 1_000_000, us % 1_000_000)
  }

  /** A normalised time value is recovered from its microseconds. */
  lemma SplitMicrosOfMicros(tv: TimeVal)
    requires tv.usec < 1_000_000 && Micros(tv) < USIZE_MODULUS
    ensures SplitMicros(Micros(tv)) == tv
  {
    var us: Usize := Micros(tv);
    ModUnique(us, 1_000_000, tv.sec, tv.usec);
  }

  /**
   * `get_pa`: the physical address of user address `va` in the current
   * task's address space, the translated page's base plus the page offset.
   * Translation of an unmapped page panics (`unwrap`).
   */
  function GetPa(pt: PageTable, va: Usize): (pa: nat)
    requires Floor(va) in pt
    ensures pa % PAGE_SIZE == PageOffset(va)
    ensures pa / PAGE_SIZE == pt[Floor(va)]
    ensures PageBase(pt[Floor(va)]) <= pa < PageBase(pt[Floor(va)] + 1)
  {
    PageBase(pt[Floor(va)]) + PageOffset(va)
  }

  /** Where a page is mapped to itself, `get_pa` is the identity. */
  lemma GetPaIdentity(pt: PageTable, va: Usize)
    requires Floor(va) in pt && pt[Floor(va)] == Floor(va)
    ensures GetPa(pt, va) == va
  {
  }

  /** `sys_get_time`: store the split time at the translated `ts`; return 0. */
  function SysGetTime(pt: PageTable, ts: Usize, tz: Usize, us: Usize): (r: (Store<TimeVal>, Isize))
    requires Floor(ts) in pt
    ensures r.1 == 0
    ensures r.0.pa == GetPa(pt, ts)
    ensures r.0.value.usec < 1_000_000 && Micros(r.0.value) == us
  {
    (Store(GetPa(pt, ts), SplitMicros(us)), 0)
  }

  /** `sys_set_priority`: not supported in this version. */
  function SysSetPriority(prio: Isize): (r: Isize)
    ensures r == -1
  {
    -1
  }

  /** `sys_munmap`: not implemented in this version. */
  function SysMunmap(start: Usize, len: Usize): (r: Isize)
    ensures r == -1
  {
    -1
  }

  /** The port test of `sys_mmap`, on the bits of the `usize` argument: it refuses exactly the masks outside 1..7. */
  predicate PortRejected(port: Usize)
    ensures PortRejected(port) <==> !(1 <= port <= 7)
  {
    (port as bv64) & 7 == 0 || port > 7
  }

  /** The map-permission bits of an accepted port, `((port << 1) + 16) as u8`. */
  function EncodePort(port: Usize): (bits: bv8)
    requires 1 <= port <= 7
    ensures bits == ((port as bv8) << 1) | PERM_U
    ensures bits & 1 == 0 && bits & PERM_U == PERM_U
    ensures (bits & PERM_R != 0) == ((port as bv8) & 1 != 0)
    ensures (bits & PERM_W != 0) == ((port as bv8) & 2 != 0)
    ensures (bits & PERM_X != 0) == ((port as bv8) & 4 != 0)
    ensures (bits >> 1) & 7 == port as bv8
    ensures 18 <= bits as int <= 30
    ensures FromBits(bits).Some?
  {
    (port * 2 + 16) as bv8
  }

  /** The argument checks of `sys_mmap`: page-aligned start and a non-empty R/W/X mask. */
  function MmapCheck(start: Usize, len: Usize, port: Usize): (req: MmapRequest)
    ensures req.Forward? <==> IsAligned(start) && 1 <= port <= 7
    ensures req.Forward? ==> req.start == start && req.len == len && req.perm.bits == EncodePort(port)
    ensures req.Forward? ==> FromBits(EncodePort(port)) == Some(req.perm)
  {
    if !IsAligned(start) then Rejected
    else if PortRejected(port) then Rejected
    else Forward(start, len, FromBits(EncodePort(port)).value)
  }

  /**
   * `sys_mmap`: a refused request returns -1 and changes nothing; an
   * accepted one returns whatever the current task's memory set returns.
   */
  method SysMmap<M>(tm: TaskManager<M>, start: Usize, len: Usize, port: Usize,
                    mmap: (M, Usize, Usize, MapPermission) -> (M, Isize)) returns (r: Isize)
    requires tm.Valid() && (MmapCheck(start, len, port).Forward? ==> tm.numApp > 0)
    modifies tm.tasks
    ensures tm.Valid() && tm.current == old(tm.current)
    ensures MmapCheck(start, len, port).Rejected? ==> r == -1 && tm.tasks[..] == old(tm.tasks[..])
    ensures MmapCheck(start, len, port).Forward? ==>
      var (ms, status) := mmap(old(tm.tasks[tm.current].memorySet), start, len, MmapCheck(start, len, port).perm);
      r == status && tm.tasks[..] == old(tm.tasks[..])[tm.current := old(tm.tasks[tm.current]).(memorySet := ms)]
  {
    match MmapCheck(start, len, port)
    case Rejected =>
      r := -1;
    case Forward(va, n, perm) =>
      r := tm.CurrentMmap(va, n, perm, mmap);
  }

  /**
   * `sys_task_info`: store the current task's info at the translated `ti`;
   * the status is 0 because `get_task_info` always reports success.
   */
  function SysTaskInfo<M>(tm: TaskManager<M>, pt: PageTable, ti: Usize, now: Usize): (r: (Store<TaskInfo>, Isize))
    reads tm, tm.tasks
    requires tm.Valid() && tm.numApp > 0 && Floor(ti) in pt
    ensures r.1 == 0
    ensures r.0.pa == GetPa(pt, ti)
    ensures r.0.value.status == tm.tasks[tm.current].status
    ensures r.0.value.syscallTimes == tm.tasks[tm.current].syscallTimes
    ensures r.0.value.time == tm.CurrentTaskInfo(now).0.time
  {
    var (info, status) := tm.CurrentTaskInfo(now);
    (Store(GetPa(pt, ti), info), if status == 0 then 0 else -1)
  }

  /** `sys_yield`: the current task gives way to the next Ready one; returns 0. */
  method SysYield<M>(tm: TaskManager<M>, now: Usize) returns (r: Isize)
    requires tm.Valid() && tm.numApp > 0
    modifies tm, tm.tasks
    ensures tm.Valid() && r == 0
    ensures tm.tasks[tm.current].status == Running
    ensures tm.current != old(tm.current) ==> tm.tasks[old(tm.current)].status == Ready
    ensures old(tm.RunningIsCurrent()) ==> tm.RunningIsCurrent()
    ensures var mid := WithStatus(old(tm.tasks[..]), old(tm.current), Ready);
      NextReady(StatusesOf(mid), old(tm.current)) == Some(tm.current) && tm.tasks[..] == Dispatch(mid, tm.current, now)
  {
    var _ := tm.SuspendCurrentAndRunNext(now);
    r := 0;
  }

  /** `sys_exit`: the current task exits and the next Ready task runs. */
  method SysExit<M>(tm: TaskManager<M>, exitCode: I32, now: Usize) returns (s: Switch)
    requires tm.Valid() && tm.numApp > 0
    modifies tm, tm.tasks
    ensures tm.Valid()
    ensures s == AllCompleted <==>
      forall i :: 0 <= i < tm.numApp && i != old(tm.current) ==> old(tm.tasks[i].status) != Ready
    ensures old(tm.RunningIsCurrent()) ==> tm.RunningIsCurrent()
    ensures tm.tasks[old(tm.current)].status == Exited
    ensures var mid := WithStatus(old(tm.tasks[..]), old(tm.current), Exited);
      (s == AllCompleted ==> tm.current == old(tm.current) && tm.tasks[..] == mid) &&
      (s.Switched? ==>
        NextReady(StatusesOf(mid), old(tm.current)) == Some(tm.current) && tm.tasks[..] == Dispatch(mid, tm.current, now))
  {
    s := tm.ExitCurrentAndRunNext(now);
  }
}
