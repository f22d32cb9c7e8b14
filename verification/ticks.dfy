/**
  Millisecond ticks as returned by `millis()`: an `unsigned long`, i.e. a
  32-bit unsigned integer that wraps around modulo 2^32. Every elapsed-time
  test in the switch and the timers subtracts two ticks with this wrap-around,
  and every delay they use is a signed `long` converted to `unsigned long`
  by the usual arithmetic conversions.
 */
module Ticks {

  /** 2^32: the number of distinct `unsigned long` values. */
  const TICKS: int := 0x1_0000_0000

  /** An `unsigned long` tick value. */
  type Tick = x: int | 0 <= x < TICKS

  /** An 8-bit `byte` / `uint8_t`. */
  type Byte = x: int | 0 <= x < 256

  /** Opaque identity of a `timer_callback` function. */
  type Callback = nat

  /** A signed 32-bit `long`. */
  type Long = x: int | -0x8000_0000 <= x < 0x8000_0000

  /** Conversion of a `long` to `unsigned long`: reduction modulo 2^32. */
  function ToUnsigned(d: Long): (u: Tick)
    ensures 0 <= d ==> u == d
    ensures d < 0 ==> u == d + TICKS && u >= 0x8000_0000
  {
    d % TICKS
  }

  /** `now - since` computed in `unsigned long`. */
  function Elapsed(now: Tick, since: Tick): Tick {
    (now - since) % TICKS
  }

  /** `t + d` computed in `unsigned long`. */
  function Advance(t: Tick, d: int): Tick {
    (t + d) % TICKS
  }

  /** Advancing a tick by `d` and measuring the distance back gives `d`,
      also across the wrap-around point. */
  lemma ElapsedAfterAdvance(t: Tick, d: Tick)
    ensures Elapsed(Advance(t, d), t) == d
  {
    if t + d >= TICKS {
      assert Advance(t, d) == t + d - TICKS;
    }
  }

  /** The elapsed time from `since` to `now`, added back to `since`,
      lands on `now`: unsigned subtraction is the inverse of addition. */
  lemma AdvanceByElapsed(now: Tick, since: Tick)
    ensures Advance(since, Elapsed(now, since)) == now
  {
    if now < since {
      assert Elapsed(now, since) == now - since + TICKS;
    }
  }

  /** Advancing twice is advancing by the sum. */
  lemma AdvanceTwice(t: Tick, a: int, b: int)
    ensures Advance(Advance(t, a), b) == Advance(t, a + b)
  {
    var q := (t + a) / TICKS;
    assert Advance(t, a) == t + a - q * TICKS;
    assert Advance(t, a) + b == (t + a + b) - q * TICKS;
    ModShift(t + a + b, q);
  }

  lemma ModShift(x: int, q: int)
    ensures (x - q * TICKS) % TICKS == x % TICKS
  {
  }
}
