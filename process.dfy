/**
  The process-management syscalls of the kernel: they write kernel-held values
  (the clock, the task's telemetry) into the calling task's user memory one
  scalar at a time, each through its own address translation, and report
  fixed or forwarded return codes for yield, mmap, munmap and sbrk.
 */
module Process {
  import opened Types
  import opened Paging

  /** Physical memory as the kernel sees it: one scalar per physical address. */
  type Cells = map<nat, Scalar>

  /** What a read through the translation of `va` finds, if anything has been stored there. */
  function Read(m: Cells, pt: PageTable, va: nat): Option<Scalar>
    requires Mapped(pt, va)
  {
    var pa := Translate(pt, va);
    if pa in m then Some(m[pa]) else None
  }

  // ---------------------------------------------------------------------------
  // get_time: splitting the microsecond clock
  // ---------------------------------------------------------------------------

  const US_PER_SEC: nat := 1_000_000

  /** `TimeVal` is `#[repr(C)]`: `sec` at offset 0, `usec` one word further. */
  datatype TimeVal = TimeVal(sec: Usize, usec: Usize)

  function SecVa(ts: nat): nat { ts }

  function UsecVa(ts: nat): nat { ts + WORD_BYTES }

  /** Whole seconds and leftover microseconds of a clock reading `t` in microseconds. */
  function Split(t: Usize): (tv: TimeVal)
    ensures tv.sec * US_PER_SEC + tv.usec == t
    ensures tv.usec < US_PER_SEC
  {
    TimeVal(t / US_PER_SEC, t % US_PER_SEC)
  }

  /** The clock reading in microseconds that a `TimeVal` denotes. */
  function Join(tv: TimeVal): nat
  {
    tv.sec * US_PER_SEC + tv.usec
  }

  /** Lexicographic order on (sec, usec). */
  predicate LexLe(a: TimeVal, b: TimeVal)
  {
    a.sec < b.sec || (a.sec == b.sec && a.usec <= b.usec)
  }

  /** Splitting is the inverse of joining on every normalised `TimeVal`. */
  lemma SplitJoin(tv: TimeVal)
    requires tv.usec < US_PER_SEC
    requires Join(tv) < USIZE_LIMIT
    ensures Split(Join(tv)) == tv
  {
  }

  /** Splitting preserves and reflects the order of clock readings. */
  lemma SplitMonotone(t1: Usize, t2: Usize)
    ensures t1 <= t2 <==> LexLe(Split(t1), Split(t2))
  {
  }

  /** Memory after `sys_get_time` stores the split of `t` field by field at `ts`. */
  function GetTimeImage(m: Cells, pt: PageTable, ts: nat, t: Usize): (img: Cells)
    requires Mapped(pt, SecVa(ts)) && Mapped(pt, UsecVa(ts))
    ensures img.Keys == m.Keys + {Translate(pt, SecVa(ts)), Translate(pt, UsecVa(ts))}
  {
    var tv := Split(t);
    m[Translate(pt, SecVa(ts)) := Word(tv.sec)][Translate(pt, UsecVa(ts)) := Word(tv.usec)]
  }

  /**
    Reading the two fields back through the same translation gives the split
    of `t`, on whichever pages the fields lie, and no other cell changes.
   */
  lemma GetTimeReadBack(m: Cells, pt: PageTable, ts: nat, t: Usize)
    requires Mapped(pt, SecVa(ts)) && Mapped(pt, UsecVa(ts))
    ensures Read(GetTimeImage(m, pt, ts, t), pt, SecVa(ts)) == Some(Word(Split(t).sec))
    ensures Read(GetTimeImage(m, pt, ts, t), pt, UsecVa(ts)) == Some(Word(Split(t).usec))
    ensures forall pa :: pa != Translate(pt, SecVa(ts)) && pa != Translate(pt, UsecVa(ts)) ==>
              (pa in GetTimeImage(m, pt, ts, t) <==> pa in m) &&
              (pa in m ==> GetTimeImage(m, pt, ts, t)[pa] == m[pa])
  {
    NearbyTranslateDistinct(pt, SecVa(ts), UsecVa(ts));
  }

  /** In a word-aligned `TimeVal` neither field crosses a page, so one translation per field reaches all its bytes. */
  lemma TimeValFieldsInPage(ts: nat)
    requires ts % WORD_BYTES == 0
    ensures ScalarInPage(SecVa(ts), WORD_BYTES) && ScalarInPage(UsecVa(ts), WORD_BYTES)
  {
    AlignedScalarInOnePage(SecVa(ts), WORD_BYTES);
    AlignedScalarInOnePage(UsecVa(ts), WORD_BYTES);
  }

  /**
    Had `usec` been stored through the translation of the base pointer plus its
    offset, it would miss the cell a read of `usec` looks at whenever the
    `TimeVal` straddles a page whose frame does not follow the first physically.
   */
  lemma SingleBaseTranslationMisplacesUsec(pt: PageTable, ts: nat)
    requires Mapped(pt, SecVa(ts)) && Mapped(pt, UsecVa(ts))
    requires PageOf(UsecVa(ts)) != PageOf(SecVa(ts))
    requires pt[PageOf(UsecVa(ts))] != pt[PageOf(SecVa(ts))] + 1
    ensures Translate(pt, SecVa(ts)) + WORD_BYTES != Translate(pt, UsecVa(ts))
  {
    OffsetAfterTranslation(pt, ts, WORD_BYTES);
  }

  // ---------------------------------------------------------------------------
  // task_info: status, counters and elapsed time
  // ---------------------------------------------------------------------------

  /**
    `TaskInfo` carries no `#[repr(C)]`, so the compiler places its fields:
    the layout gives the byte offset of `status`, of `syscall_times[0]` and of `time`.
   */
  datatype TaskInfoLayout = TaskInfoLayout(status: nat, times: nat, time: nat)

  predicate Apart(a: nat, alen: nat, b: nat, blen: nat)
  {
    a + alen <= b || b + blen <= a
  }

  /**
    What the compiler guarantees of any layout it picks: the three fields
    occupy disjoint byte ranges, each field is aligned to its type, and all of
    them lie inside the structure, which (about 2 KiB) is smaller than a page.
   */
  predicate ValidLayout(l: TaskInfoLayout)
  {
    && Apart(l.status, STATUS_BYTES, l.times, COUNTER_BYTES * MAX_SYSCALL_NUM)
    && Apart(l.status, STATUS_BYTES, l.time, WORD_BYTES)
    && Apart(l.times, COUNTER_BYTES * MAX_SYSCALL_NUM, l.time, WORD_BYTES)
    && l.status + STATUS_BYTES <= PAGE_SIZE
    && l.times + COUNTER_BYTES * MAX_SYSCALL_NUM <= PAGE_SIZE
    && l.time + WORD_BYTES <= PAGE_SIZE
    && l.times % COUNTER_BYTES == 0
    && l.time % WORD_BYTES == 0
  }

  function StatusVa(ti: nat, l: TaskInfoLayout): nat { ti + l.status }

  function CounterVa(ti: nat, l: TaskInfoLayout, i: nat): nat { ti + l.times + COUNTER_BYTES * i }

  function TimeVa(ti: nat, l: TaskInfoLayout): nat { ti + l.time }

  predicate CountersMapped(pt: PageTable, ti: nat, l: TaskInfoLayout, n: nat)
  {
    forall i :: 0 <= i < n ==> Mapped(pt, CounterVa(ti, l, i))
  }

  /** Every scalar of the `TaskInfo` at `ti` lies on a mapped page. */
  predicate TaskInfoMapped(pt: PageTable, ti: nat, l: TaskInfoLayout)
  {
    Mapped(pt, StatusVa(ti, l)) && CountersMapped(pt, ti, l, MAX_SYSCALL_NUM) && Mapped(pt, TimeVa(ti, l))
  }

  /** Memory after the first `n` counters have been stored, in index order. */
  function StoreCounters(m: Cells, pt: PageTable, ti: nat, l: TaskInfoLayout, times: seq<U32>, n: nat): Cells
    requires n <= |times| && CountersMapped(pt, ti, l, n)
  {
    if n == 0 then m
    else StoreCounters(m, pt, ti, l, times, n - 1)[Translate(pt, CounterVa(ti, l, n - 1)) := Counter(times[n - 1])]
  }

  /** Storing counters leaves every cell that is not one of their translations as it was. */
  lemma {:induction false} StoreCountersFrame(m: Cells, pt: PageTable, ti: nat, l: TaskInfoLayout,
                                              times: seq<U32>, n: nat, pa: nat)
    requires n <= |times| && CountersMapped(pt, ti, l, n)
    requires forall k :: 0 <= k < n ==> Translate(pt, CounterVa(ti, l, k)) != pa
    ensures pa in StoreCounters(m, pt, ti, l, times, n) <==> pa in m
    ensures pa in m ==> StoreCounters(m, pt, ti, l, times, n)[pa] == m[pa]
  {
    if n > 0 {
      StoreCountersFrame(m, pt, ti, l, times, n - 1, pa);
    }
  }

  /** After storing `n` counters, the translation of counter `k < n` holds `times[k]`. */
  lemma {:induction false} StoreCountersReadBack(m: Cells, pt: PageTable, ti: nat, l: TaskInfoLayout,
                                                 times: seq<U32>, n: nat, k: nat)
    requires n <= |times| && CountersMapped(pt, ti, l, n)
    requires COUNTER_BYTES * n <= PAGE_SIZE
    requires k < n
    ensures Read(StoreCounters(m, pt, ti, l, times, n), pt, CounterVa(ti, l, k)) == Some(Counter(times[k]))
  {
    if k < n - 1 {
      StoreCountersReadBack(m, pt, ti, l, times, n - 1, k);
      NearbyTranslateDistinct(pt, CounterVa(ti, l, k), CounterVa(ti, l, n - 1));
    }
  }

  /** Memory after `sys_task_info` stores the status, every counter and the elapsed time at `ti`. */
  function TaskInfoImage(m: Cells, pt: PageTable, ti: nat, l: TaskInfoLayout, times: seq<U32>, time: Usize): Cells
    requires |times| == MAX_SYSCALL_NUM && TaskInfoMapped(pt, ti, l)
  {
    var withStatus := m[Translate(pt, StatusVa(ti, l)) := StatusTag(Running)];
    var withCounters := StoreCounters(withStatus, pt, ti, l, times, MAX_SYSCALL_NUM);
    withCounters[Translate(pt, TimeVa(ti, l)) := Word(time)]
  }

  /** `pa` is the physical cell of one of the scalars of the `TaskInfo` at `ti`. */
  predicate TaskInfoCell(pt: PageTable, ti: nat, l: TaskInfoLayout, pa: nat)
    requires TaskInfoMapped(pt, ti, l)
  {
    || pa == Translate(pt, StatusVa(ti, l))
    || pa == Translate(pt, TimeVa(ti, l))
    || exists k :: 0 <= k < MAX_SYSCALL_NUM && pa == Translate(pt, CounterVa(ti, l, k))
  }

  /**
    Reading the `TaskInfo` back through the same translation gives `Running`,
    every counter and the elapsed time, whichever pages its fields lie on and
    whichever frames back them, and no cell outside the structure changes.
   */
  lemma TaskInfoReadBack(m: Cells, pt: PageTable, ti: nat, l: TaskInfoLayout, times: seq<U32>, time: Usize)
    requires ValidLayout(l)
    requires |times| == MAX_SYSCALL_NUM && TaskInfoMapped(pt, ti, l)
    ensures Read(TaskInfoImage(m, pt, ti, l, times, time), pt, StatusVa(ti, l)) == Some(StatusTag(Running))
    ensures forall k :: 0 <= k < MAX_SYSCALL_NUM ==>
              Read(TaskInfoImage(m, pt, ti, l, times, time), pt, CounterVa(ti, l, k)) == Some(Counter(times[k]))
    ensures Read(TaskInfoImage(m, pt, ti, l, times, time), pt, TimeVa(ti, l)) == Some(Word(time))
    ensures forall pa :: !TaskInfoCell(pt, ti, l, pa) ==>
              (pa in TaskInfoImage(m, pt, ti, l, times, time) <==> pa in m) &&
              (pa in m ==> TaskInfoImage(m, pt, ti, l, times, time)[pa] == m[pa])
  {
    var statusPa, timePa := Translate(pt, StatusVa(ti, l)), Translate(pt, TimeVa(ti, l));
    var withStatus := m[statusPa := StatusTag(Running)];
    NearbyTranslateDistinct(pt, StatusVa(ti, l), TimeVa(ti, l));
    forall k | 0 <= k < MAX_SYSCALL_NUM
      ensures Translate(pt, CounterVa(ti, l, k)) != statusPa
      ensures Translate(pt, CounterVa(ti, l, k)) != timePa
    {
      NearbyTranslateDistinct(pt, CounterVa(ti, l, k), StatusVa(ti, l));
      NearbyTranslateDistinct(pt, CounterVa(ti, l, k), TimeVa(ti, l));
    }
    StoreCountersFrame(withStatus, pt, ti, l, times, MAX_SYSCALL_NUM, statusPa);
    forall k | 0 <= k < MAX_SYSCALL_NUM
      ensures Read(TaskInfoImage(m, pt, ti, l, times, time), pt, CounterVa(ti, l, k)) == Some(Counter(times[k]))
    {
      StoreCountersReadBack(withStatus, pt, ti, l, times, MAX_SYSCALL_NUM, k);
    }
    forall pa | !TaskInfoCell(pt, ti, l, pa)
      ensures pa in TaskInfoImage(m, pt, ti, l, times, time) <==> pa in m
      ensures pa in m ==> TaskInfoImage(m, pt, ti, l, times, time)[pa] == m[pa]
    {
      StoreCountersFrame(withStatus, pt, ti, l, times, MAX_SYSCALL_NUM, pa);
    }
  }

  /** In a word-aligned `TaskInfo` no field crosses a page, so one translation per scalar reaches all its bytes. */
  lemma TaskInfoFieldsInPage(ti: nat, l: TaskInfoLayout)
    requires ti % WORD_BYTES == 0 && ValidLayout(l)
    ensures ScalarInPage(StatusVa(ti, l), STATUS_BYTES)
    ensures forall k :: 0 <= k < MAX_SYSCALL_NUM ==> ScalarInPage(CounterVa(ti, l, k), COUNTER_BYTES)
    ensures ScalarInPage(TimeVa(ti, l), WORD_BYTES)
  {
    AlignedScalarInOnePage(StatusVa(ti, l), STATUS_BYTES);
    forall k | 0 <= k < MAX_SYSCALL_NUM
      ensures ScalarInPage(CounterVa(ti, l, k), COUNTER_BYTES)
    {
      assert CounterVa(ti, l, k) == COUNTER_BYTES * (ti / COUNTER_BYTES + l.times / COUNTER_BYTES + k);
      AlignedScalarInOnePage(CounterVa(ti, l, k), COUNTER_BYTES);
    }
    AlignedScalarInOnePage(TimeVa(ti, l), WORD_BYTES);
  }

  // ---------------------------------------------------------------------------
  // The calling task's view of memory and the state-changing syscalls
  // ---------------------------------------------------------------------------

  /**
    The address space of the task that issues the syscall: the page table its
    token names and the physical cells behind it.
   */
  class UserSpace {
    var pageTable: PageTable
    var phys: Cells

    constructor (pt: PageTable, initial: Cells)
      ensures pageTable == pt && phys == initial
    {
      pageTable := pt;
      phys := initial;
    }

    /**
      `sys_get_time`: splits the microsecond clock reading `timeUs` and stores
      `sec` and `usec` each through its own translation; `tz` is ignored.
     */
    method SysGetTime(ts: nat, tz: Usize, timeUs: Usize) returns (r: Isize)
      requires ts % WORD_BYTES == 0
      requires Mapped(pageTable, SecVa(ts)) && Mapped(pageTable, UsecVa(ts))
      modifies this`phys
      ensures r == 0
      ensures phys == GetTimeImage(old(phys), pageTable, ts, timeUs)
      ensures ScalarInPage(SecVa(ts), WORD_BYTES) && ScalarInPage(UsecVa(ts), WORD_BYTES)
      ensures Read(phys, pageTable, SecVa(ts)) == Some(Word(timeUs / US_PER_SEC))
      ensures Read(phys, pageTable, UsecVa(ts)) == Some(Word(timeUs % US_PER_SEC))
    {
      var secPa := Translate(pageTable, SecVa(ts));
      phys := phys[secPa := Word(timeUs / US_PER_SEC)];
      var usecPa := Translate(pageTable, UsecVa(ts));
      phys := phys[usecPa := Word(timeUs % US_PER_SEC)];
      GetTimeReadBack(old(phys), pageTable, ts, timeUs);
      TimeValFieldsInPage(ts);
      r := 0;
    }

    /**
      `sys_task_info`: stores `Running`, then every counter of `syscallTimes`
      in index order, then `nowMs - startMs`, each through its own translation.
     */
    method SysTaskInfo(ti: nat, layout: TaskInfoLayout, syscallTimes: seq<U32>, nowMs: Usize, startMs: Usize)
      returns (r: Isize)
      requires |syscallTimes| == MAX_SYSCALL_NUM
      requires startMs <= nowMs
      requires ti % WORD_BYTES == 0 && ValidLayout(layout)
      requires TaskInfoMapped(pageTable, ti, layout)
      modifies this`phys
      ensures r == 0
      ensures phys == TaskInfoImage(old(phys), pageTable, ti, layout, syscallTimes, nowMs - startMs)
      ensures ScalarInPage(StatusVa(ti, layout), STATUS_BYTES) && ScalarInPage(TimeVa(ti, layout), WORD_BYTES)
      ensures forall k :: 0 <= k < MAX_SYSCALL_NUM ==> ScalarInPage(CounterVa(ti, layout, k), COUNTER_BYTES)
      ensures Read(phys, pageTable, StatusVa(ti, layout)) == Some(StatusTag(Running))
      ensures forall k :: 0 <= k < MAX_SYSCALL_NUM ==>
                Read(phys, pageTable, CounterVa(ti, layout, k)) == Some(Counter(syscallTimes[k]))
      ensures Read(phys, pageTable, TimeVa(ti, layout)) == Some(Word(nowMs - startMs))
    {
      var status := Running;
      var time := nowMs - startMs;
      var statusPa := Translate(pageTable, StatusVa(ti, layout));
      phys := phys[statusPa := StatusTag(status)];
      StoreSyscallTimes(ti, layout, syscallTimes);
      var timePa := Translate(pageTable, TimeVa(ti, layout));
      phys := phys[timePa := Word(time)];
      TaskInfoReadBack(old(phys), pageTable, ti, layout, syscallTimes, time);
      TaskInfoFieldsInPage(ti, layout);
      r := 0;
    }

    /**
      The loop of `sys_task_info`: stores `syscallTimes[i]` through the
      translation of counter `i`, for `i` from 0 up to `MAX_SYSCALL_NUM`.
     */
    method StoreSyscallTimes(ti: nat, layout: TaskInfoLayout, syscallTimes: seq<U32>)
      requires |syscallTimes| == MAX_SYSCALL_NUM
      requires CountersMapped(pageTable, ti, layout, MAX_SYSCALL_NUM)
      modifies this`phys
      ensures phys == StoreCounters(old(phys), pageTable, ti, layout, syscallTimes, MAX_SYSCALL_NUM)
    {
      for i := 0 to MAX_SYSCALL_NUM
        invariant phys == StoreCounters(old(phys), pageTable, ti, layout, syscallTimes, i)
      {
        var counterPa := Translate(pageTable, CounterVa(ti, layout, i));
        phys := phys[counterPa := Counter(syscallTimes[i])];
      }
    }

    /** `sys_mmap` as written: refuses every request and touches no state. */
    method SysMmap(start: Usize, len: Usize, port: Usize) returns (r: Isize)
      ensures r == -1
    {
      r := -1;
    }

    /** `sys_munmap` as written: refuses every request and touches no state. */
    method SysMunmap(start: Usize, len: Usize) returns (r: Isize)
      ensures r == -1
    {
      r := -1;
    }
  }

  // ---------------------------------------------------------------------------
  // Return codes of yield and sbrk
  // ---------------------------------------------------------------------------

  /** `sys_yield` reports success once the task is scheduled again. */
  function SysYield(): (r: Isize)
    ensures r == 0
  {
    0
  }

  const ISIZE_LIMIT: int := 0x8000_0000_0000_0000

  /** Rust's `x as isize` for a `usize`: the same 64 bits read in two's complement. */
  function AsIsize(x: Usize): (r: Isize)
    ensures (r - x) % USIZE_LIMIT == 0
  {
    if x < ISIZE_LIMIT then x else x - USIZE_LIMIT
  }

  /**
    `sys_sbrk`: asks `changeProgramBrk` to move the break by `size` bytes and
    returns the old break on success, -1 when the adjustment is refused.
   */
  function SysSbrk(size: I32, changeProgramBrk: I32 -> Option<Usize>): (r: Isize)
    ensures changeProgramBrk(size).None? ==> r == -1
    ensures changeProgramBrk(size).Some? ==> (r - changeProgramBrk(size).value) % USIZE_LIMIT == 0
  {
    match changeProgramBrk(size)
    case Some(oldBrk) => AsIsize(oldBrk)
    case None => -1
  }

  /** A successful adjustment reports the old break itself whenever it fits in an `isize`. */
  lemma SbrkReturnsOldBreak(size: I32, changeProgramBrk: I32 -> Option<Usize>)
    requires changeProgramBrk(size).Some? && changeProgramBrk(size).value < ISIZE_LIMIT
    ensures SysSbrk(size, changeProgramBrk) == changeProgramBrk(size).value
  {
  }

  /**
    The result is -1 exactly when the adjustment is refused or the old break is
    the all-ones address, which the cast turns into -1 as well.
   */
  lemma SbrkFailureCode(size: I32, changeProgramBrk: I32 -> Option<Usize>)
    ensures SysSbrk(size, changeProgramBrk) == -1
        <==> changeProgramBrk(size).None? || changeProgramBrk(size).value == USIZE_LIMIT - 1
  {
  }
}
