/** Machine widths, kernel constants and the values a syscall stores into user memory. */
module Types {

  /** Size in bytes of a `usize` on the riscv64 target the kernel is built for. */
  const WORD_BYTES: nat := 8

  /** Size in bytes of one `u32` syscall counter. */
  const COUNTER_BYTES: nat := 4

  /** Size in bytes of a `TaskStatus` tag (a field-less enum of four variants). */
  const STATUS_BYTES: nat := 1

  /** Number of entries of the per-task syscall counter array (`config::MAX_SYSCALL_NUM`). */
  const MAX_SYSCALL_NUM: nat := 500

  const USIZE_LIMIT: int := 0x1_0000_0000_0000_0000

  type Usize = x: int | 0 <= x < USIZE_LIMIT
  type U32 = x: int | 0 <= x < 0x1_0000_0000
  type I32 = x: int | -0x8000_0000 <= x < 0x8000_0000
  type Isize = x: int | -0x8000_0000_0000_0000 <= x < 0x8000_0000_0000_0000

  /** Life cycle of a task: UnInit -> Ready <-> Running -> Exited. */
  datatype TaskStatus = UnInit | Ready | Running | Exited

  /** One scalar as the kernel stores it through a translated pointer. */
  datatype Scalar =
    | Word(w: Usize)          // a `usize` field
    | Counter(c: U32)         // one `u32` element of `syscall_times`
    | StatusTag(s: TaskStatus) // the `status` field of `TaskInfo`

  datatype Option<T> = None | Some(value: T)
}
