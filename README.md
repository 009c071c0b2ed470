# Process-management syscalls of a small RISC-V teaching kernel, in Dafny

This project models `os/src/syscall/process.rs`, the syscall layer through which
the running task reads kernel-held values. `sys_get_time` splits the microsecond
clock into whole seconds and leftover microseconds. `sys_task_info` reports the
task's status, its per-syscall counters and its elapsed time in milliseconds.
Both store their results into the task's user memory one scalar at a time. Each
scalar goes through its own `translated_ptr(token, va)` translation, because a
`TimeVal` or `TaskInfo` may straddle a page boundary, and the two pages need not
sit on adjacent physical frames. `sys_yield`, `sys_mmap`, `sys_munmap` and
`sys_sbrk` only produce return codes.

Files:

- `types.dfy` (module `Types`): machine widths (`Usize`, `U32`, `I32`, `Isize`),
  field sizes on the riscv64 target, `MAX_SYSCALL_NUM = 500`, `TaskStatus`, and
  the scalars a syscall stores (`Scalar`).
- `paging.dfy` (module `Paging`): the translation `translated_ptr` performs. The
  page table named by the task's token is a map from virtual page number to
  physical page number, with `PAGE_SIZE = 4096`. A virtual address goes to its
  page's frame and keeps its offset inside the page. Lemmas show that two
  addresses less than a page apart never reach the same physical cell, on any
  page table. They also show that translating a structure's base once and adding
  a field offset is correct only when the field stays on the same page, or when
  the next page's frame happens to follow physically, and that a naturally
  aligned scalar never crosses a page.
- `process.dfy` (module `Process`): the time split and its inverse and ordering
  lemmas. It holds the memory images the two writing syscalls produce, with
  read-back lemmas for them. Class `UserSpace` is the caller's page table plus
  the physical cells behind it. Its methods `SysGetTime` and `SysTaskInfo` are
  proved to produce exactly those images. `SysTaskInfo` copies the counters with
  `StoreSyscallTimes`, the source's loop, whose invariant is "counters `0..i` are
  stored, nothing else changed".
  `SysMmap` and `SysMunmap` have no `modifies` clause, so they provably change no
  state. `SysYield` and `SysSbrk` are functions.

Both writing syscalls require their output pointer to be word-aligned, as a Rust
`*mut TimeVal` or `*mut TaskInfo` must be. Every field is then aligned to its own
type, so no scalar crosses a page and one translation per scalar reaches all of
its bytes.

The calling task's environment enters as parameters:

- the clock readings (`get_time_us`, `get_time_ms`, `get_start_time`);
- the counter array (`get_syscall_times`);
- the break adjuster (`change_program_brk`, a function parameter of `SysSbrk`);
- the page table (`UserSpace.pageTable`).

Facts about the code that shape the model:

- `sys_mmap` and `sys_munmap` are stubs that return -1. This file has no mapper.
- An unmapped output address is not modelled as an error. `translated_ptr`
  aborts inside code that is not part of this model, so the model requires the
  caller to pass mapped addresses.
- `status` is the constant `Running`. The task's recorded state is never read.

`TaskInfo` has no `#[repr(C)]`, so the compiler chooses where its fields go. The
model takes the field offsets as a `TaskInfoLayout` and requires what holds of
any layout the compiler picks: the three fields' byte ranges are disjoint, each
field is aligned to its type, and all of them lie within the structure, which
is about 2 KiB (2016 bytes with the usual packing) and so smaller than a page. `TimeVal` is `#[repr(C)]`: `sec` sits at
offset 0 and `usec` at offset 8.

## Model

| member | source | states |
|---|---|---|
| `Paging.Translate` | os/src/syscall/process.rs:48-51 | the translated address lies on the frame the page table gives for the virtual page, at the same offset inside the page |
| `Paging.NearbyTranslateDistinct` | os/src/syscall/process.rs:48-51 | two distinct addresses less than a page apart, such as two fields of one `TimeVal` or `TaskInfo`, translate to distinct physical cells on every page table |
| `Paging.TranslateInjective` | os/src/syscall/process.rs:48-51 | with one frame per page, two distinct field addresses always translate to two distinct physical cells, so one field's store cannot overwrite another's |
| `Paging.OffsetAfterTranslation` | os/src/syscall/process.rs:42-51 | translating the base and adding a field offset agrees with translating the field's own address if and only if the field is on the base's page or the next page's frame follows physically; this is why each field is translated separately |
| `Paging.AlignedScalarInOnePage` | os/src/syscall/process.rs:48-51 | a naturally aligned 1-, 4- or 8-byte scalar never crosses a page, so one translation per scalar reaches all its bytes |
| `Process.Split` | os/src/syscall/process.rs:46-51 | `sec * 1_000_000 + usec` equals the microsecond reading and `usec < 1_000_000` |
| `Process.SplitJoin` | os/src/syscall/process.rs:49-51 | splitting inverts joining: every `TimeVal` with `usec < 1_000_000` is the split of the time it denotes |
| `Process.SplitMonotone` | os/src/syscall/process.rs:49-51 | `t1 <= t2` if and only if the split of `t1` is lexicographically at most the split of `t2` |
| `Process.GetTimeImage` | os/src/syscall/process.rs:47-52 | the memory after the two stores holds exactly the old cells plus the translated `sec` and `usec` cells |
| `Process.GetTimeReadBack` | os/src/syscall/process.rs:45-53 | on every page table, reading `sec` and `usec` back through the same translation gives the split, even when the fields are on different pages with non-adjacent frames, and every other physical cell is unchanged |
| `Process.TimeValFieldsInPage` | os/src/syscall/process.rs:48-51 | in a word-aligned `TimeVal`, neither 8-byte field crosses a page, so one translation per field reaches all of its bytes |
| `Process.SingleBaseTranslationMisplacesUsec` | os/src/syscall/process.rs:42-51 | if the `TimeVal` straddles a page whose frame does not follow the first physically, storing `usec` at the translated base plus 8 would miss the cell where `usec` is read |
| `Process.UserSpace.SysGetTime` | os/src/syscall/process.rs:43-54 | returns 0; the new memory is the old memory with the `sec` cell and then the `usec` cell stored; on every page table the fields read back as `time / 1_000_000` and `time % 1_000_000`; neither field crosses a page; the page table is untouched |
| `Process.StoreCountersFrame` | os/src/syscall/process.rs:68-71 | storing the first `n` counters leaves every cell that is not the translation of one of them as it was |
| `Process.StoreCountersReadBack` | os/src/syscall/process.rs:68-71 | after storing the first `n` counters of an array that fits in a page, counter `k < n` reads back as `syscall_times[k]`, on every page table |
| `Process.TaskInfoReadBack` | os/src/syscall/process.rs:59-76 | for any layout the compiler may pick and on every page table, after `sys_task_info`'s stores status reads back as `Running`, every counter `k < MAX_SYSCALL_NUM` as `syscall_times[k]`, and time as `now_ms - start_ms`; no cell outside the structure changes |
| `Process.TaskInfoFieldsInPage` | os/src/syscall/process.rs:66-73 | in a word-aligned `TaskInfo`, neither the status, any counter nor the time field crosses a page |
| `Process.UserSpace.StoreSyscallTimes` | os/src/syscall/process.rs:68-71 | the loop stores counters `0..MAX_SYSCALL_NUM` in index order, each through its own translation, under the invariant "counters `0..i` stored, nothing else changed"; only physical memory changes |
| `Process.UserSpace.SysTaskInfo` | os/src/syscall/process.rs:59-76 | returns 0; the new memory is the old memory with status, counters `0..MAX_SYSCALL_NUM` in order, then time stored; on every page table every field reads back as written, and no field crosses a page |
| `Process.UserSpace.SysMmap` | os/src/syscall/process.rs:79-82 | returns -1 for every start, length and port, and changes neither the page table nor memory |
| `Process.UserSpace.SysMunmap` | os/src/syscall/process.rs:85-88 | returns -1 for every start and length, and changes neither the page table nor memory |
| `Process.SysYield` | os/src/syscall/process.rs:34-38 | returns 0 |
| `Process.AsIsize` | os/src/syscall/process.rs:93 | the cast to `isize` keeps the value modulo 2^64 and lands in the `isize` range |
| `Process.SysSbrk` | os/src/syscall/process.rs:90-97 | returns -1 when `change_program_brk` refuses the adjustment, and otherwise a value congruent to the old break modulo 2^64 |
| `Process.SbrkReturnsOldBreak` | os/src/syscall/process.rs:90-97 | when the break adjustment succeeds with an old break below 2^63, `sys_sbrk` returns that old break |
| `Process.SbrkFailureCode` | os/src/syscall/process.rs:90-97 | `sys_sbrk` returns -1 if and only if the adjustment is refused, or the old break is the all-ones address, which the cast also turns into -1 |

## Left out

- `sys_exit`: it diverges into the scheduler (`exit_current_and_run_next`), which is not part of this model.
- `Process.SysYield`: only the return code is modelled. The context switch done by `suspend_current_and_run_next` is outside this file.
- The page-table walk behind `translated_ptr` is not part of this model. Translation is the leaf mapping from virtual page to physical frame. Access permission bits are not checked.
- `Process.UserSpace.SysGetTime` and `Process.UserSpace.SysTaskInfo` require every field address to be mapped. The kernel aborts on an unmapped address inside `translated_ptr`, and that abort is not modelled.
- `Process.UserSpace.SysGetTime` and `Process.UserSpace.SysTaskInfo` require a word-aligned output pointer. A misaligned store is undefined behaviour in Rust, and a scalar that crosses a page is not modelled.
- Memory is modelled as one scalar per physical address, not as bytes. Overlap of partially shared bytes cannot be expressed.
- `Process.UserSpace.SysTaskInfo` requires `start_ms <= now_ms`. Rust's `usize` subtraction would panic on underflow in a debug build or wrap in a release build, and neither is modelled.
- The clock sources, the counter bookkeeping behind `get_syscall_times`, and the break arithmetic of `change_program_brk` are foreign calls. They appear as parameters. So the model cannot prove that the `task_info` counter is at least 1, that `sbrk(0)` keeps the break, or that opposite `sbrk` calls cancel.
- No page-granular mapper is modelled. `sys_mmap` and `sys_munmap` are stubs that return -1, so there is no mapping logic to model.
- `trace!` logging and the unused `_tz` argument have no effect on the model.
- `ch7/implementors/core/clone/trait.Clone.js` is generated documentation with no program logic.
