# Task manager and process syscalls of a teaching RISC-V kernel (os4)

This project models two parts of the `os4` chapter kernel in Dafny and proves
properties of them:

- **The task manager** (`os4/src/task/mod.rs`). A fixed vector of task control
  blocks and the index of the running task. It covers the round-robin choice
  of the next Ready task, the Running→Ready and Running→Exited transitions,
  the switch step that marks the chosen task Running and stamps its start
  time once, the per-task syscall counters, and the task-info snapshot. The
  model is the class `Task.TaskManager`. It holds an `array` of
  `TaskControlBlock` values that its methods update in place, and a
  `current` field. The cyclic search is specified by the function
  `Task.NextReady`.
- **The process syscalls** (`os4/src/syscall/process.rs`). These cover the
  argument checks and permission encoding of `sys_mmap`, the split of the
  microsecond clock in `sys_get_time`, and the physical-address composition
  in `get_pa`. They also cover `sys_task_info`, `sys_yield` and `sys_exit`,
  plus the two syscalls that always fail, `sys_munmap` and
  `sys_set_priority`.

Modules: `Config` (integer widths, wrap-around arithmetic, `PAGE_SIZE` and
`MAX_SYSCALL_NUM`), `Mm` (address decomposition, `MapPermission`, page-table
translation as a partial map), `Task`, `Process`, `Arith` (remainder facts
used by the proofs) and `Wrappers` (`Option`).

Modelling choices:

- The hardware timer (`get_time_us`) is the parameter `now` / `us`.
- Writes through user pointers (`*ts = TimeVal{..}`, `*ti = TaskInfo{..}`)
  are returned as a `Store(pa, value)`. Here `pa` is the translated
  physical address.
- Translation through the current task's page table (`PageTable::from_token`
  followed by `translate`) is a `map` from virtual page number to physical
  page number. Alignment, `floor` and `page_offset` use a 4096-byte page, as
  in the Sv39 scheme (section 4.4 of the RISC-V Privileged Architecture
  specification).
- The memory set of a task is a type parameter `M`. `MemorySet::mmap` is a
  function parameter, because its body is not part of this model.
- The `usize`, `isize` and `u32` widths are subset types of `int`. The
  model follows a release build, where overflow wraps:
  - `task_syscall_times[id] += 1` is taken modulo 2^32;
  - `get_time_us() - task_start_time` is taken modulo 2^64.

  Lemmas and ensures give the exact result in the no-overflow case.
- The panic "All applications completed!" in `run_next_task` is the outcome
  `Switch.AllCompleted`, with the state unchanged.
- `find_next_task` with `num_app == 0` scans the empty range
  `current+1..current+1`. So it returns `None` without evaluating `% 0`, and
  the model needs no `num_app > 0` precondition for it.
- The `MapPermission` bits are R = 2, W = 4, X = 8 and U = 16.
  `from_bits` refuses any other bit.
- The `TaskStatus` variants are UnInit, Ready, Running and Exited.
- `MAX_SYSCALL_NUM` is 500.

## Model

| member | source | states |
|---|---|---|
| `Task.Slot` | os4/src/task/mod.rs:103-104 | the index visited at step `k` of the scan, `(current + k) % num_app`, is below `num_app` |
| `Task.ScanFrom` | os4/src/task/mod.rs:103-105 | the step found is the first Ready one in `k..num_app`; with no step found, none of those steps is Ready |
| `Task.NextReady` | os4/src/task/mod.rs:97-106 | a found index is below `num_app` and Ready; it is reached at some step `k` in `1..num_app`, and every earlier step of the cyclic order lands on a non-Ready task |
| `Task.SlotCovers` | os4/src/task/mod.rs:103-104 | every task index is visited by some step of `current+1 ..= current+num_app` |
| `Task.SlotLastIsCurrent` | os4/src/task/mod.rs:103-104 | the last step visits `current` itself and no earlier step does |
| `Task.NextReadyNoneIff` | os4/src/task/mod.rs:100-105 | the search returns `None` if and only if no task is Ready |
| `Task.NextReadyCurrentLast` | os4/src/task/mod.rs:100-105 | when the current task is Ready, the search finds something, and it picks the current task exactly when no other task is Ready |
| `Task.TaskManager.constructor` | os4/src/task/mod.rs:52-59 | the manager holds the given control blocks, `num_app` is their number, and task 0 is current |
| `Task.TaskManager.FindNextTask` | os4/src/task/mod.rs:100-106 | on the manager's state: the result is a Ready task below `num_app`, the first in cyclic order after `current`; it is `None` exactly when no task is Ready |
| `Task.TaskManager.MarkCurrentSuspended` | os4/src/task/mod.rs:84-88 | only the current task's status changes, to Ready; `current_task` is unchanged |
| `Task.TaskManager.MarkCurrentExited` | os4/src/task/mod.rs:91-95 | only the current task's status changes, to Exited; `current_task` is unchanged |
| `Task.TaskManager.RunNextTask` | os4/src/task/mod.rs:110-130 | with no Ready task: the all-completed outcome, nothing changes. Otherwise: the found task becomes Running and current, its start time becomes `now` if it was 0 and is kept otherwise, and no other task changes |
| `Task.TaskManager.SuspendCurrentAndRunNext` | os4/src/task/mod.rs:195-198 | the current task is marked Ready, then the task chosen by the cyclic search on that state becomes current and Running with its start time stamped once, and no other task changes; so a switch always happens, the current task keeps running exactly when no other task was Ready, and "only the current task is Running" is preserved |
| `Task.TaskManager.ExitCurrentAndRunNext` | os4/src/task/mod.rs:200-203 | the current task is marked Exited; the kernel stops, with nothing else changed, exactly when no other task was Ready; otherwise the task chosen by the cyclic search becomes current and Running with its start time stamped once, and no other task changes; "only the current task is Running" is preserved |
| `Task.TaskManager.IncreaseTaskSyscall` | os4/src/task/mod.rs:157-161 | only the current task's counter for `syscall_id` changes, by one modulo 2^32 |
| `Config.WrappingIncU32` | os4/src/task/mod.rs:160 | `u32 += 1` is `(x + 1) mod 2^32`, which is exactly `x + 1` below `u32::MAX` |
| `Task.TaskManager.CurrentTaskInfo` | os4/src/task/mod.rs:144-155 | the snapshot carries the current task's status and counters unchanged; `time` is the whole milliseconds of the elapsed microseconds; the result is 0 |
| `Config.WrappingSub` | os4/src/task/mod.rs:151 | `usize` subtraction is `(a - b) mod 2^64`, which is exactly `a - b` when `b <= a` |
| `Task.ElapsedMillis` | os4/src/task/mod.rs:151 | when the clock has not wrapped since the task started, the reported time is `(now - start) / 1000` |
| `Task.TaskManager.CurrentMmap` | os4/src/task/mod.rs:163-167 | the arguments go unchanged to the current task's memory set; its new memory set replaces the old one and its status is returned; nothing else changes |
| `Task.TaskManager.CurrentTaskNote` | os4/src/task/mod.rs:169-174 | returns `current_task`, a valid index when there are tasks, and changes nothing |
| `Mm.Floor` | os4/src/syscall/process.rs:33 | the virtual page number is the page whose byte range holds `va` |
| `Mm.PageOffset` | os4/src/syscall/process.rs:36 | the offset is below the page size, and page number times page size plus offset is `va` |
| `Mm.IsAligned` | os4/src/syscall/process.rs:62-65 | `is_align` holds exactly when `va` is the first byte of its page |
| `Mm.PageBase` | os4/src/syscall/process.rs:34-35 | the address of a physical page is page-aligned and maps back to its page number |
| `Mm.FromBits` | os4/src/syscall/process.rs:69 | a flag set exists exactly when no bit outside R/W/X/U is set |
| `Process.GetPa` | os4/src/syscall/process.rs:29-37 | the physical address has the page offset of `va` and lies inside the translated physical page |
| `Process.GetPaIdentity` | os4/src/syscall/process.rs:29-37 | on an identity-mapped page the physical address equals the virtual address |
| `Process.SplitMicros` | os4/src/syscall/process.rs:46-49 | `usec < 1_000_000` and `sec * 1_000_000 + usec` is the microsecond count |
| `Process.SplitMicrosOfMicros` | os4/src/syscall/process.rs:46-49 | the split is the inverse of `Micros` on normalised time values |
| `Process.SysGetTime` | os4/src/syscall/process.rs:41-53 | stores the split time at the translated `ts` and returns 0 |
| `Process.SysSetPriority` | os4/src/syscall/process.rs:56-58 | always -1 |
| `Process.SysMunmap` | os4/src/syscall/process.rs:73-75 | always -1 |
| `Process.PortRejected` | os4/src/syscall/process.rs:66-68 | the test `(port & 7) == 0 \|\| port > 7` refuses exactly the ports outside 1..7 |
| `Process.EncodePort` | os4/src/syscall/process.rs:69 | `(port << 1) + 16` equals `(port << 1) \| 16`; bits 1..3 carry R/W/X; the user bit is set; bit 0 is clear; the value is in [18, 30]; `from_bits` accepts it |
| `Process.MmapCheck` | os4/src/syscall/process.rs:61-71 | a request is forwarded exactly when `start` is page-aligned and `1 <= port <= 7`; then `start` and `len` are unchanged and the permission is what `from_bits(..).unwrap()` gives for the encoded port |
| `Process.SysMmap` | os4/src/syscall/process.rs:61-71 | a refused request returns -1 and changes no task; an accepted one returns what the current task's `mmap` returns, and only that task's memory set changes |
| `Process.SysTaskInfo` | os4/src/syscall/process.rs:78-84 | stores the current task's info at the translated `ti`, with the current task's status and counters, and returns 0 |
| `Process.SysYield` | os4/src/syscall/process.rs:25-28 | returns 0 after the state change of suspend-and-switch: the old task Ready, the cyclically next Ready task current and Running with its start time stamped once, every other task unchanged |
| `Process.SysExit` | os4/src/syscall/process.rs:18-22 | the exiting task is Exited; the kernel stops exactly when no other task was Ready; otherwise the cyclically next Ready task becomes current and Running with its start time stamped once, and every other task is unchanged |

## Left out

- `run_first_task` and `__switch`: an assembly context switch, and a
  function that never returns. Switching changes only the task manager's
  own state in this model. Task contexts (`task_cx`) are not modelled.
- `get_current_token` and `get_current_trap_cx`: they delegate to control
  block methods in `task.rs`, which is not part of this model. `get_pa`
  takes the current task's translation as a parameter instead.
- The boot-time construction of `TASK_MANAGER` from loader data
  (`get_num_app`, `get_app_data`, `TaskControlBlock::new`). The constructor
  takes the control blocks ready-made.
- The `UPSafeCell` exclusive-access guard. It only checks re-entrancy at
  run time, and the state is a plain object here.
- `get_time_us`: a hardware timer, passed in as a parameter.
- `PageTable::from_token`, `translate` and the address-type methods:
  `page_table.rs` and `address.rs` are not part of this model. Translation is
  a partial map, and the `unwrap` of a failed translation becomes the
  precondition that the page is mapped.
- `MemorySet::mmap`: its body is not part of this model. It is the
  parameter `mmap`, so overlap checks and frame allocation are not modelled.
- The trap handler (`os4/src/trap/mod.rs`): control-register writes,
  hardware-read trap causes and inline assembly.
- `os4/src/mm/memory_set.rs` and `os4/src/mm/mod.rs`: type declarations and
  module re-exports, with no behaviour of their own.
- Logging (`println!`, `info!`, `error!`).
- Overflow of `current + num_app + 1` in `find_next_task`, and of
  `ppn << 12` in `get_pa`: both are unbounded integers here, since neither
  can overflow for the kernel's task counts and Sv39 page numbers.
- IncreaseTaskSyscall: requires `syscall_id < MAX_SYSCALL_NUM`; a larger id makes
  the source panic with an index out of bounds, a path the model does not
  represent.
- SysExit: the exit code, an `i32`, is only logged, so the model ignores it.
- Debug-build overflow panics: the model follows the wrapping release
  semantics instead.
