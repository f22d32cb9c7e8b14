/**
  The single software timer of `MyTimer.cpp`: a baseline tick, a signed
  delay, an enabled flag and a one-shot flag. `millis()` is the `now`
  parameter; the callback is an opaque handle, and invoking it is reported
  as the `fired` result of `Run`.
 */
module MyTimer {
  import opened Ticks

  datatype Timer = Timer(
    prevMillis: Tick,     // baseline of the next period
    callback: Callback,
    delay: Long,          // `long timer_delay`
    enabled: bool,
    runOnce: bool)

  /** Result of one `run()`: the new state and whether the callback ran. */
  datatype Ran = Ran(timer: Timer, fired: bool)

  /** The constructor: baseline at the construction tick, and disabled. */
  function Create(d: Long, f: Callback, runOnce: bool, now: Tick): (t: Timer)
    ensures !t.enabled
    ensures t.prevMillis == now
    ensures t.delay == d && t.callback == f && t.runOnce == runOnce
  {
    Timer(now, f, d, false, runOnce)
  }

  /** Is a period over at tick `now`? The `long` delay is compared with an
      `unsigned long` difference, so it is converted to unsigned first. */
  predicate Due(t: Timer, now: Tick) {
    Elapsed(now, t.prevMillis) >= ToUnsigned(t.delay)
  }

  /** `run()`. */
  function Run(t: Timer, now: Tick): (r: Ran)
    ensures !Due(t, now) ==> r.timer == t && !r.fired
    ensures Due(t, now) ==> r.timer.prevMillis == Advance(t.prevMillis, ToUnsigned(t.delay))
    ensures r.fired <==> Due(t, now) && t.enabled
    ensures r.fired ==> r.timer.enabled == !t.runOnce
    ensures !r.fired ==> r.timer.enabled == t.enabled
    ensures r.timer.delay == t.delay && r.timer.runOnce == t.runOnce
    ensures r.timer.callback == t.callback
  {
    if Due(t, now) then
      var t' := t.(prevMillis := Advance(t.prevMillis, ToUnsigned(t.delay)));
      if t.enabled then
        Ran(if t.runOnce then t'.(enabled := false) else t', true)
      else
        Ran(t', false)
    else
      Ran(t, false)
  }

  /** `setCallback(f)`. */
  function SetCallback(t: Timer, f: Callback): (r: Timer)
    ensures r.callback == f
    ensures r.(callback := t.callback) == t
  {
    t.(callback := f)
  }

  /** `setInterval(d)`: repeat every `d` ticks. */
  function SetInterval(t: Timer, d: Long): (r: Timer)
    ensures r.delay == d && !r.runOnce
    ensures r.prevMillis == t.prevMillis && r.enabled == t.enabled && r.callback == t.callback
  {
    t.(delay := d, runOnce := false)
  }

  /** `setTimeout(d)`: fire once after `d` ticks. */
  function SetTimeout(t: Timer, d: Long): (r: Timer)
    ensures r.delay == d && r.runOnce
    ensures r.prevMillis == t.prevMillis && r.enabled == t.enabled && r.callback == t.callback
  {
    t.(delay := d, runOnce := true)
  }

  /** `restart()`: a new baseline at `now`, and enabled. */
  function Restart(t: Timer, now: Tick): (r: Timer)
    ensures r.prevMillis == now && r.enabled
    ensures r.delay == t.delay && r.runOnce == t.runOnce && r.callback == t.callback
  {
    t.(prevMillis := now, enabled := true)
  }

  /** `enable()`: the baseline is kept, so no resynchronisation happens. */
  function Enable(t: Timer): (r: Timer)
    ensures r.enabled
    ensures r.(enabled := t.enabled) == t
  {
    t.(enabled := true)
  }

  /** `disable()`. */
  function Disable(t: Timer): (r: Timer)
    ensures !r.enabled
    ensures r.(enabled := t.enabled) == t
  {
    t.(enabled := false)
  }

  /** A sequence of `run()` calls at the given ticks: the final state, the
      number of callback invocations and the number of periods consumed. */
  datatype Trace = Trace(timer: Timer, fires: nat, dues: nat)

  function RunAll(t: Timer, nows: seq<Tick>): (r: Trace)
    ensures r.fires <= r.dues <= |nows|
    decreases |nows|
  {
    if |nows| == 0 then Trace(t, 0, 0)
    else
      var step := Run(t, nows[0]);
      var rest := RunAll(step.timer, nows[1..]);
      Trace(rest.timer,
            rest.fires + (if step.fired then 1 else 0),
            rest.dues + (if Due(t, nows[0]) then 1 else 0))
  }

  /** A disabled timer never calls back, stays disabled, and still consumes
      its periods: after any run sequence its baseline has advanced by one
      delay per period that came due. */
  lemma {:induction false} DisabledConsumesPeriods(t: Timer, nows: seq<Tick>)
    requires !t.enabled
    ensures var r := RunAll(t, nows);
      && r.fires == 0 && !r.timer.enabled
      && r.timer.prevMillis == Advance(t.prevMillis, r.dues * ToUnsigned(t.delay))
    decreases |nows|
  {
    BaselineAccumulates(t, nows);
    if |nows| > 0 {
      var step := Run(t, nows[0]);
      DisabledConsumesPeriods(step.timer, nows[1..]);
    }
  }

  /** A freshly constructed timer never calls back, whatever the run
      sequence, until it is enabled or restarted. */
  lemma NewTimerIsSilent(d: Long, f: Callback, runOnce: bool, now: Tick, nows: seq<Tick>)
    ensures RunAll(Create(d, f, runOnce, now), nows).fires == 0
  {
    DisabledConsumesPeriods(Create(d, f, runOnce, now), nows);
  }

  /** Drift-free accumulation, enabled or not: the baseline after a run
      sequence is the initial baseline plus one delay per period consumed,
      never a resampled clock value. */
  lemma {:induction false} BaselineAccumulates(t: Timer, nows: seq<Tick>)
    ensures var r := RunAll(t, nows);
      r.timer.prevMillis == Advance(t.prevMillis, r.dues * ToUnsigned(t.delay))
    decreases |nows|
  {
    if |nows| == 0 {
      assert Advance(t.prevMillis, 0) == t.prevMillis;
    } else {
      var step := Run(t, nows[0]);
      BaselineAccumulates(step.timer, nows[1..]);
      var rest := RunAll(step.timer, nows[1..]);
      var u := ToUnsigned(t.delay);
      assert step.timer.delay == t.delay;
      if Due(t, nows[0]) {
        assert RunAll(t, nows).dues == rest.dues + 1;
        assert step.timer.prevMillis == Advance(t.prevMillis, u);
        OnePeriodMore(t.prevMillis, u, rest.dues);
      } else {
        assert step.timer == t;
      }
    }
  }

  lemma OnePeriodMore(p: Tick, u: Tick, k: nat)
    ensures Advance(Advance(p, u), k * u) == Advance(p, (k + 1) * u)
  {
    AdvanceTwice(p, u, k * u);
    assert u + k * u == (k + 1) * u;
  }

  /** A one-shot timer calls back at most once over any run sequence (and
      never if it starts disabled), and is disabled after it has. An enabled
      one-shot calls back exactly once as soon as a period comes due. */
  lemma {:induction false} OneShotFiresAtMostOnce(t: Timer, nows: seq<Tick>)
    requires t.runOnce
    ensures var r := RunAll(t, nows);
      && r.fires <= (if t.enabled then 1 else 0)
      && (r.fires == 1 ==> !r.timer.enabled)
      && (t.enabled ==> r.fires == (if r.dues > 0 then 1 else 0))
    decreases |nows|
  {
    if |nows| > 0 {
      var step := Run(t, nows[0]);
      OneShotFiresAtMostOnce(step.timer, nows[1..]);
      if step.fired {
        DisabledConsumesPeriods(step.timer, nows[1..]);
      } else if t.enabled {
        assert step.timer == t;
      }
    }
  }

  /** An enabled repeating timer calls back on every period that comes due
      and stays enabled. */
  lemma {:induction false} RepeatingFiresEveryPeriod(t: Timer, nows: seq<Tick>)
    requires t.enabled && !t.runOnce
    ensures var r := RunAll(t, nows);
      r.fires == r.dues && r.timer.enabled
    decreases |nows|
  {
    if |nows| > 0 {
      var step := Run(t, nows[0]);
      RepeatingFiresEveryPeriod(step.timer, nows[1..]);
    }
  }

  /** As the header documents them: after `setInterval(d)` an enabled timer
      calls back on every period of `d` that comes due, and after
      `setTimeout(d)` it calls back at most once, and when enabled exactly
      once as soon as a period of `d` comes due. */
  lemma IntervalAndTimeoutMeaning(t: Timer, d: Long, nows: seq<Tick>)
    ensures var r := RunAll(Enable(SetInterval(t, d)), nows);
      r.fires == r.dues && r.timer.enabled
    ensures RunAll(SetTimeout(t, d), nows).fires <= 1
    ensures var r := RunAll(Enable(SetTimeout(t, d)), nows);
      r.fires == (if r.dues > 0 then 1 else 0)
  {
    RepeatingFiresEveryPeriod(Enable(SetInterval(t, d)), nows);
    OneShotFiresAtMostOnce(SetTimeout(t, d), nows);
    OneShotFiresAtMostOnce(Enable(SetTimeout(t, d)), nows);
  }

  /** `enable()` does not resynchronise the baseline: a re-enabled timer
      whose period ran out while it was disabled calls back on the very
      next `run()`. */
  lemma EnableDoesNotResync(t: Timer, now: Tick)
    ensures Run(Enable(t), now).fired <==> Due(t, now)
  {
  }

  /** After `restart()` at tick `t0` with a non-negative delay `d`, a `run()`
      `k` ticks later calls back exactly when `k >= d`, across the clock's
      wrap-around too. */
  lemma RestartFiresAfterDelay(t: Timer, t0: Tick, k: Tick)
    requires 0 <= t.delay
    ensures Run(Restart(t, t0), Advance(t0, k)).fired <==> k >= t.delay
  {
    ElapsedAfterAdvance(t0, k);
  }

  /** A negative delay converts to an unsigned value of at least 2^31, so
      such a timer is due only after more than 24 days of ticks. */
  lemma NegativeDelayIsHuge(t: Timer, now: Tick)
    requires t.delay < 0
    requires Elapsed(now, t.prevMillis) < 0x8000_0000
    ensures !Run(t, now).fired && Run(t, now).timer == t
  {
  }
}
