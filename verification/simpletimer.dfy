/**
  The multi-slot timer table of `SimpleTimer.h`, at the level its header
  fixes: a capacity of three slots held in parallel per-slot arrays, the
  count of timers in use, the repeat-count encoding, the per-slot enable
  flag with `toggle`, and the three deferred-call tags. The bodies of
  `run()`, `findFirstFreeSlot()` and the slot allocators live in
  `SimpleTimer.cpp`, which is not part of this model.
 */
module SimpleTimer {
  import opened Ticks

  const MAX_TIMERS: int := 3
  const RUN_FOREVER: int := 0
  const RUN_ONCE: int := 1

  datatype Option<T> = None | Some(value: T)

  /** The deferred action `run()` records for a slot during its scan. */
  datatype DeferredCall = DontRun | RunOnly | RunAndDel

  const DEFCALL_DONTRUN: int := 0
  const DEFCALL_RUNONLY: int := 1
  const DEFCALL_RUNANDDEL: int := 2

  /** The `int` stored in `toBeCalled[i]` for a tag. */
  function DeferredCode(c: DeferredCall): int {
    match c
    case DontRun => DEFCALL_DONTRUN
    case RunOnly => DEFCALL_RUNONLY
    case RunAndDel => DEFCALL_RUNANDDEL
  }

  /** Reading a stored `int` back as a tag; other values are not tags. */
  function DeferredOf(code: int): (c: Option<DeferredCall>)
    ensures c.Some? <==> 0 <= code <= 2
  {
    if code == DEFCALL_DONTRUN then Some(DontRun)
    else if code == DEFCALL_RUNONLY then Some(RunOnly)
    else if code == DEFCALL_RUNANDDEL then Some(RunAndDel)
    else None
  }

  /** The three tags have distinct codes, and the codes read back as the
      tags they encode. */
  lemma DeferredCodeRoundTrip(c: DeferredCall, code: int)
    ensures DeferredOf(DeferredCode(c)) == Some(c)
    ensures DeferredOf(code) == Some(c) ==> DeferredCode(c) == code
  {
  }

  /** The repeat mode that a `maxNumRuns` entry encodes. */
  datatype Repeat = Forever | Times(n: int)

  /** `maxNumRuns[i]`: `RUN_FOREVER` (0) repeats without end, any other
      value `n` is a number of runs. */
  function RepeatOf(maxNumRuns: int): (m: Repeat)
    ensures m == Forever <==> maxNumRuns == RUN_FOREVER
    ensures m.Times? ==> m.n == maxNumRuns
  {
    if maxNumRuns == RUN_FOREVER then Forever else Times(maxNumRuns)
  }

  function RepeatCode(m: Repeat): int
    requires m.Times? ==> m.n != RUN_FOREVER
  {
    match m
    case Forever => RUN_FOREVER
    case Times(n) => n
  }

  /** The encoding is a bijection between `int` and the repeat modes whose
      count is not zero. */
  lemma RepeatRoundTrip(m: Repeat, code: int)
    requires m.Times? ==> m.n != RUN_FOREVER
    ensures RepeatOf(RepeatCode(m)) == m
    ensures RepeatCode(RepeatOf(code)) == code
  {
  }

  /** The three allocation requests of the header. */
  datatype Request =
    | SetInterval(d: Long, f: Callback)          // every d ms
    | SetTimeout(d: Long, f: Callback)           // once after d ms
    | SetTimer(d: Long, f: Callback, n: int)     // every d ms, n times

  /** The `maxNumRuns` entry a request asks for. */
  function MaxNumRunsOf(q: Request): int {
    match q
    case SetInterval(_, _) => RUN_FOREVER
    case SetTimeout(_, _) => RUN_ONCE
    case SetTimer(_, _, n) => n
  }

  /** What each request means as a repeat mode: `setInterval` repeats
      forever, `setTimeout` runs once, `setTimer(d, f, n)` runs `n` times,
      and `setTimer(d, f, 0)` is the same as `setInterval(d, f)`. */
  lemma RequestMeaning(d: Long, f: Callback, n: int)
    ensures RepeatOf(MaxNumRunsOf(SetInterval(d, f))) == Forever
    ensures RepeatOf(MaxNumRunsOf(SetTimeout(d, f))) == Times(1)
    ensures n != 0 ==> RepeatOf(MaxNumRunsOf(SetTimer(d, f, n))) == Times(n)
    ensures MaxNumRunsOf(SetTimer(d, f, RUN_FOREVER)) == MaxNumRunsOf(SetInterval(d, f))
    ensures MaxNumRunsOf(SetTimer(d, f, RUN_ONCE)) == MaxNumRunsOf(SetTimeout(d, f))
  {
  }

  /** The private state of a `SimpleTimer`: seven per-slot arrays and the
      count of timers in use. */
  datatype Table = Table(
    prevMillis: seq<Tick>,
    callbacks: seq<Callback>,
    delays: seq<Long>,
    maxNumRuns: seq<int>,
    numRuns: seq<int>,
    enabled: seq<bool>,
    toBeCalled: seq<DeferredCall>,
    numTimers: int)

  /** Every per-slot array has `MAX_TIMERS` entries, and the count of timers
      in use lies within the capacity. */
  predicate Valid(t: Table) {
    && |t.prevMillis| == MAX_TIMERS
    && |t.callbacks| == MAX_TIMERS
    && |t.delays| == MAX_TIMERS
    && |t.maxNumRuns| == MAX_TIMERS
    && |t.numRuns| == MAX_TIMERS
    && |t.enabled| == MAX_TIMERS
    && |t.toBeCalled| == MAX_TIMERS
    && 0 <= t.numTimers <= MAX_TIMERS
  }

  /** Is `i` a slot index of the table? */
  predicate IsSlot(i: int) {
    0 <= i < MAX_TIMERS
  }

  /** `getNumTimers()`. */
  function GetNumTimers(t: Table): int {
    t.numTimers
  }

  /** `getNumAvailableTimers()`: `MAX_TIMERS - numTimers`. */
  function GetNumAvailableTimers(t: Table): (n: int)
    ensures n + GetNumTimers(t) == MAX_TIMERS
    ensures Valid(t) ==> 0 <= n <= MAX_TIMERS
  {
    MAX_TIMERS - t.numTimers
  }

  /** Timers in use and timers available add up to the capacity; in a valid
      table neither is negative, and no slot is available exactly when all
      three are in use. */
  lemma AvailableComplementsInUse(t: Table)
    requires Valid(t)
    ensures GetNumTimers(t) + GetNumAvailableTimers(t) == MAX_TIMERS
    ensures 0 <= GetNumAvailableTimers(t) <= MAX_TIMERS
    ensures GetNumAvailableTimers(t) == 0 <==> GetNumTimers(t) == MAX_TIMERS
    ensures GetNumAvailableTimers(t) == MAX_TIMERS <==> GetNumTimers(t) == 0
  {
  }

  /** `isEnabled(i)`; not a slot reads as not enabled. */
  function IsEnabled(t: Table, i: int): (b: bool)
    requires Valid(t)
    ensures b ==> IsSlot(i)
  {
    IsSlot(i) && t.enabled[i]
  }

  /** The table with slot `i` (if it is one) set to enabled or not. */
  function SetEnabled(t: Table, i: int, on: bool): (r: Table)
    requires Valid(t)
    ensures Valid(r)
    ensures r.(enabled := t.enabled) == t
    ensures IsSlot(i) ==> r.enabled == t.enabled[i := on]
    ensures !IsSlot(i) ==> r == t
  {
    if IsSlot(i) then t.(enabled := t.enabled[i := on]) else t
  }

  /** `enable(i)`. */
  function Enable(t: Table, i: int): (r: Table)
    requires Valid(t)
    ensures Valid(r)
    ensures IsSlot(i) ==> IsEnabled(r, i)
    ensures forall j :: IsSlot(j) && j != i ==> r.enabled[j] == t.enabled[j]
    ensures r.(enabled := t.enabled) == t
  {
    SetEnabled(t, i, true)
  }

  /** `disable(i)`. */
  function Disable(t: Table, i: int): (r: Table)
    requires Valid(t)
    ensures Valid(r)
    ensures !IsEnabled(r, i)
    ensures forall j :: IsSlot(j) && j != i ==> r.enabled[j] == t.enabled[j]
    ensures r.(enabled := t.enabled) == t
  {
    SetEnabled(t, i, false)
  }

  /** `toggle(i)`: the enable flag of slot `i` flips and nothing else in
      the table changes. */
  function Toggle(t: Table, i: int): (r: Table)
    requires Valid(t)
    ensures Valid(r)
    ensures IsSlot(i) ==> (IsEnabled(r, i) <==> !IsEnabled(t, i))
    ensures forall j :: IsSlot(j) && j != i ==> r.enabled[j] == t.enabled[j]
    ensures r.(enabled := t.enabled) == t
  {
    if IsSlot(i) then t.(enabled := t.enabled[i := !t.enabled[i]]) else t
  }

  /** As its header comment says, `toggle` enables a disabled timer and
      disables an enabled one. */
  lemma ToggleIsEnableOrDisable(t: Table, i: int)
    requires Valid(t)
    ensures Toggle(t, i) == (if IsEnabled(t, i) then Disable(t, i) else Enable(t, i))
  {
  }

  /** Toggling twice restores the table. */
  lemma ToggleTwice(t: Table, i: int)
    requires Valid(t)
    ensures Toggle(Toggle(t, i), i) == t
  {
    if IsSlot(i) {
      assert Toggle(Toggle(t, i), i).enabled == t.enabled;
    }
  }
}
