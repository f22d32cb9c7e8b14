/**
  The debounced push-button of `Switch.cpp`: an accepted logical level, the
  tick of the last accepted transition, and a one-poll-wide "switched" flag.
  The raw pin sample and the current tick, which the source reads from
  `digitalRead()` and `millis()`, are parameters of each step.
 */
module Debounce {
  import opened Ticks

  /** Pin levels as stored in a C++ `bool`. */
  const LOW: bool := false

  /** Default constructor arguments of the header: active-low, 50 ms. */
  const DEFAULT_POLARITY: bool := LOW
  const DEFAULT_DEBOUNCE_DELAY: Byte := 50

  datatype Switch = Switch(
    pin: Byte,               // const
    polarity: bool,          // const: the raw level that means "active"
    debounceDelay: Byte,     // const: minimum ticks between accepted transitions
    level: bool,             // accepted level
    switchedTime: Tick,      // tick of the last accepted transition
    switched: bool)          // did the latest poll accept a transition?

  /** Result of one `poll()`: the new state and the returned flag. */
  datatype Polled = Polled(sw: Switch, changed: bool)

  /** The constructor. Its `int` delay argument is stored in a `const byte`,
      so it is reduced modulo 256. The first raw sample becomes the level
      without any debounce window; `_switched` is not assigned by the
      constructor and starts out false, as static storage does. */
  function Create(pin: Byte, polarity: bool, debounceDelay: int, raw: bool, now: Tick): (s: Switch)
    ensures s.level == raw && s.switchedTime == now && !s.switched
    ensures s.pin == pin && s.polarity == polarity
    ensures 0 <= debounceDelay < 256 ==> s.debounceDelay == debounceDelay
    ensures s.debounceDelay == debounceDelay % 256
  {
    Switch(pin, polarity, debounceDelay % 256, raw, now, false)
  }

  /** The constructor with the header's default polarity and delay. */
  function CreateDefault(pin: Byte, raw: bool, now: Tick): (s: Switch)
    ensures s.pin == pin && s.polarity == LOW && s.debounceDelay == 50
    ensures On(s) <==> raw == LOW
    ensures s.level == raw && s.switchedTime == now && !s.switched
  {
    Create(pin, DEFAULT_POLARITY, DEFAULT_DEBOUNCE_DELAY, raw, now)
  }

  /** Is a transition to `raw` accepted at tick `now`? */
  predicate Accepts(s: Switch, raw: bool, now: Tick) {
    raw != s.level && Elapsed(now, s.switchedTime) >= s.debounceDelay
  }

  /** `poll()`: one sample of the raw level at one tick. */
  function Poll(s: Switch, raw: bool, now: Tick): (r: Polled)
    ensures r.changed <==> raw != s.level && Elapsed(now, s.switchedTime) >= s.debounceDelay
    ensures r.changed ==> r.sw.level == raw && r.sw.switchedTime == now
    ensures !r.changed ==> r.sw.level == s.level && r.sw.switchedTime == s.switchedTime
    ensures r.sw.switched == r.changed
    ensures SameConfig(s, r.sw)
  {
    if Accepts(s, raw, now) then
      Polled(s.(level := raw, switchedTime := now, switched := true), true)
    else
      Polled(s.(switched := false), false)
  }

  /** `switched()`. */
  function Switched(s: Switch): bool {
    s.switched
  }

  /** `on()`: `!(level ^ polarity)`. */
  function On(s: Switch): (b: bool)
    ensures b <==> s.level == s.polarity
  {
    !(s.level != s.polarity)
  }

  /** `pushed()`: `_switched && !(level ^ polarity)`. */
  function Pushed(s: Switch): (b: bool)
    ensures b <==> Switched(s) && On(s)
  {
    s.switched && !(s.level != s.polarity)
  }

  /** `released()`: `_switched && (level ^ polarity)`. */
  function Released(s: Switch): (b: bool)
    ensures b <==> Switched(s) && !On(s)
  {
    s.switched && (s.level != s.polarity)
  }

  /** The constant fields agree. */
  predicate SameConfig(s: Switch, t: Switch) {
    s.pin == t.pin && s.polarity == t.polarity && s.debounceDelay == t.debounceDelay
  }

  /** One sample: a raw level and the tick it was taken at. */
  datatype Sample = Sample(raw: bool, now: Tick)

  /** A run of polls, one per sample, with every flag they return. */
  function PollAll(s: Switch, samples: seq<Sample>): (r: (Switch, seq<bool>))
    ensures |r.1| == |samples|
    decreases |samples|
  {
    if |samples| == 0 then (s, [])
    else
      var p := Poll(s, samples[0].raw, samples[0].now);
      var rest := PollAll(p.sw, samples[1..]);
      (rest.0, [p.changed] + rest.1)
  }

  /** `pushed()` and `released()` partition `switched()`: never both, and
      one of them holds exactly when the latest poll switched. */
  lemma PushedReleasedPartition(s: Switch)
    ensures !(Pushed(s) && Released(s))
    ensures Pushed(s) ==> Switched(s)
    ensures Released(s) ==> Switched(s)
    ensures (Pushed(s) || Released(s)) == Switched(s)
    ensures Pushed(s) <==> Switched(s) && On(s)
    ensures Released(s) <==> Switched(s) && !On(s)
  {
  }

  /** After an accepted poll the flag says which way the level went: a poll
      that returns true is a push exactly when the new raw level is the
      active one. */
  lemma PollClassifiesEdge(s: Switch, raw: bool, now: Tick)
    ensures var r := Poll(s, raw, now);
      && (Pushed(r.sw) <==> r.changed && raw == s.polarity)
      && (Released(r.sw) <==> r.changed && raw != s.polarity)
  {
  }

  /** `switched()` is not latched: it always reports the latest poll only,
      even when the previous poll accepted a transition, whether the new
      sample repeats the level or is rejected inside the debounce window. */
  lemma SwitchedNotLatched(s: Switch, raw: bool, now: Tick)
    requires s.switched
    requires !Accepts(s, raw, now)
    ensures !Switched(Poll(s, raw, now).sw)
  {
  }

  /** A raw level inside the debounce window is ignored; the same level seen
      exactly `debounceDelay` ticks after the last transition is accepted. */
  lemma DebounceWindow(s: Switch, k: Tick)
    requires k <= s.debounceDelay
    ensures var t := Advance(s.switchedTime, k);
      var r := Poll(s, !s.level, t);
      (k < s.debounceDelay ==> !r.changed && r.sw.level == s.level) &&
      (k == s.debounceDelay ==> r.changed && r.sw.level == !s.level)
  {
    ElapsedAfterAdvance(s.switchedTime, k);
  }

  /** Polls whose raw level equals the accepted level, however many and at
      whatever ticks, never change the level, the transition tick or the
      configuration, and each of them returns false. */
  lemma {:induction false} SteadyInputIsInert(s: Switch, samples: seq<Sample>)
    requires forall i :: 0 <= i < |samples| ==> samples[i].raw == s.level
    ensures var r := PollAll(s, samples);
      && r.0.level == s.level && r.0.switchedTime == s.switchedTime
      && SameConfig(s, r.0)
      && forall i :: 0 <= i < |r.1| ==> !r.1[i]
    decreases |samples|
  {
    if |samples| > 0 {
      var p := Poll(s, samples[0].raw, samples[0].now);
      assert forall i :: 0 <= i < |samples[1..]| ==> samples[1..][i].raw == p.sw.level by {
        forall i | 0 <= i < |samples[1..]|
          ensures samples[1..][i].raw == p.sw.level
        {
          assert samples[1..][i] == samples[i + 1];
        }
      }
      SteadyInputIsInert(p.sw, samples[1..]);
    }
  }

  /** The pin, polarity and debounce delay are `const`: no run of polls
      changes them. */
  lemma {:induction false} PollsKeepConfig(s: Switch, samples: seq<Sample>)
    ensures SameConfig(s, PollAll(s, samples).0)
    decreases |samples|
  {
    if |samples| > 0 {
      var p := Poll(s, samples[0].raw, samples[0].now);
      PollsKeepConfig(p.sw, samples[1..]);
    }
  }

  /** Across a run of polls, the number of accepted transitions equals the
      number of times the accepted level flipped, and the final level is
      the initial one flipped that many times. */
  lemma {:induction false} LevelFollowsAcceptedEdges(s: Switch, samples: seq<Sample>)
    ensures var r := PollAll(s, samples);
      r.0.level == (if CountTrue(r.1) % 2 == 0 then s.level else !s.level)
    decreases |samples|
  {
    if |samples| > 0 {
      var p := Poll(s, samples[0].raw, samples[0].now);
      LevelFollowsAcceptedEdges(p.sw, samples[1..]);
      var rest := PollAll(p.sw, samples[1..]);
      assert PollAll(s, samples).1 == [p.changed] + rest.1;
      CountTrueCons(p.changed, rest.1);
    }
  }

  function CountTrue(bs: seq<bool>): nat {
    if |bs| == 0 then 0 else (if bs[0] then 1 else 0) + CountTrue(bs[1..])
  }

  lemma CountTrueCons(b: bool, bs: seq<bool>)
    ensures CountTrue([b] + bs) == (if b then 1 else 0) + CountTrue(bs)
  {
    assert ([b] + bs)[1..] == bs;
  }
}
