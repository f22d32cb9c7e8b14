# Debounced switch, software timers and formatting helpers

A Dafny model of the control core of an Arduino temperature logger:

- **`Debounce`** (`switch.dfy`) models the push-button class `Switch`. It keeps an accepted
  level, the tick of the last accepted transition, and a one-poll-wide
  "switched" flag. `poll()` accepts a new raw level only when it differs from
  the accepted one and at least `debounceDelay` ticks have passed since the
  last accepted transition. `on()`, `pushed()` and `released()` read that
  state.
- **`MyTimer`** (`mytimer.dfy`) models the single timer `MyTimer`. It has a baseline tick, a
  signed `long` delay, an enabled flag and a one-shot flag. `run()` advances
  the baseline by exactly one delay whenever a period is due, whether the timer
  is enabled or not. It calls back only when the timer is enabled, and then
  disables a one-shot timer.
- **`SimpleTimer`** (`simpletimer.dfy`) models what the `SimpleTimer.h` interface fixes about the
  three-slot timer table:
  - the capacity and the per-slot arrays;
  - the count of timers in use and the count still available;
  - the `RUN_FOREVER`/`RUN_ONCE` repeat encoding;
  - the per-slot enable flag with `toggle`;
  - the three deferred-call tags.
- **`Misc`** (`misc.dfy`) models the helpers of `misc.cpp`:
  - `ipow`, exponentiation by squaring;
  - `num2char`, which writes zero-padded least significant decimal digits and a NUL;
  - `calc_date`, the `YYYY/MM/DD HH:MM:SS` layout over the six `DateTime` bytes;
  - `lookup_probe_name`, a first-match search over the table of known probe addresses.
- **`Ticks`** (`ticks.dfy`) holds the `unsigned long` tick arithmetic that
  the switch and the timers share. Ticks are integers in `[0, 2^32)`, and subtraction and
  addition wrap modulo 2^32. A `long` delay is converted to `unsigned long`
  before it is compared or added, as C's usual arithmetic conversions do.

Every operation is a pure function of its state and inputs. The clock
(`millis()`) and the pin (`digitalRead()`) become parameters: `now` and `raw`.
A callback invocation becomes the `fired` result of a timer's `run()`.
Callbacks are opaque handles. The return value of `poll()` is the `changed`
result.

Where the header and the implementation of `Switch` disagree, the model follows
`Switch.cpp` for behaviour. The header's `const byte debounceDelay` fixes the
width. So the constructor takes an `int`, as `Switch.cpp` does, and stores it
reduced modulo 256, as the `byte` member does.

A disabled `MyTimer` still consumes its periods. `run()` advances the
baseline of a due timer before it looks at the enabled flag
(`MyTimer.cpp:28-31`).

## Model

| member | source | states |
|---|---|---|
| `Ticks.ToUnsigned` | MyTimer.h:34 | a `long` delay converted to `unsigned long` is unchanged when non-negative and is `d + 2^32` (at least 2^31) when negative |
| `Ticks.ElapsedAfterAdvance` | Switch.h:22 | wrap-around subtraction measures the true distance: `Advance(t, d) - t == d` for every `d < 2^32`, also across the wrap |
| `Ticks.AdvanceByElapsed` | MyTimer.h:32 | unsigned subtraction is the inverse of unsigned addition: `since + (now - since) == now` modulo 2^32 |
| `Ticks.AdvanceTwice` | MyTimer.cpp:29 | two successive wrap-around additions equal one addition of the sum |
| `Debounce.Create` | Switch.cpp:49-53 | the constructor takes the first raw sample as the level without a debounce window, stamps the construction tick, and stores the `int` delay as a byte (modulo 256, exact for 0..255) |
| `Debounce.CreateDefault` | Switch.h:18 | default arguments: the given pin, polarity LOW and a 50 ms delay, so the switch is active-low (`on()` iff the raw level is LOW) |
| `Debounce.Poll` | Switch.cpp:55-66 | a transition is accepted iff `raw != level` and the wrap-around elapsed time reaches `debounceDelay`. If accepted, level := raw, switchedTime := now, and it returns true. Otherwise level and switchedTime are unchanged and it returns false. The switched flag equals the return value, and the pin, polarity and delay never change |
| `Debounce.On` | Switch.cpp:72-74 | `on()` holds iff the accepted level equals the polarity |
| `Debounce.Pushed` | Switch.cpp:76-78 | `pushed()` holds iff the latest poll switched and the switch is now on |
| `Debounce.Released` | Switch.cpp:80-82 | `released()` holds iff the latest poll switched and the switch is now off |
| `Debounce.PushedReleasedPartition` | Switch.cpp:68-82 | `pushed()` and `released()` are never both true, each implies `switched()` (`Debounce.Switched`, which reads the flag of the latest poll), their disjunction equals `switched()`, and they split it by `on()` |
| `Debounce.PollClassifiesEdge` | Switch.cpp:55-82 | after a poll, `pushed()` holds iff the poll switched to the active level, and `released()` holds iff it switched to the inactive level |
| `Debounce.SwitchedNotLatched` | Switch.cpp:65-70 | a poll that is not accepted (the raw level equals the accepted one, or it differs inside the debounce window) clears `switched()` even when the previous poll set it |
| `Debounce.DebounceWindow` | Switch.cpp:58 | a change seen fewer than `debounceDelay` ticks after the last transition is ignored, and the same change seen exactly `debounceDelay` ticks after it is accepted |
| `Debounce.SteadyInputIsInert` | Switch.cpp:58-65 | any number of polls whose raw level equals the accepted level return false and leave the level, the transition tick and the configuration unchanged |
| `Debounce.PollsKeepConfig` | Switch.h:25-27 | no run of polls changes the `const` pin, polarity or debounce delay |
| `Debounce.LevelFollowsAcceptedEdges` | Switch.cpp:58-63 | after a run of polls, the level has flipped exactly once per accepted transition |
| `MyTimer.Create` | MyTimer.cpp:18-24 | a new timer is disabled, its baseline is the construction tick, and it keeps the given delay, callback and one-shot flag |
| `MyTimer.Run` | MyTimer.cpp:26-38 | due iff the wrap-around elapsed time reaches the delay converted to unsigned. When due, the baseline advances by exactly that delay whether or not the timer is enabled. It calls back iff it is due and enabled, and a one-shot timer is then disabled. When not due, nothing changes |
| `MyTimer.RunAll` | MyTimer.cpp:26-38 | over a run sequence, callbacks never outnumber consumed periods, and periods never outnumber `run()` calls: at most one callback per call, and only for a due period |
| `MyTimer.SetCallback` | MyTimer.cpp:40-42 | only the callback changes |
| `MyTimer.SetInterval` | MyTimer.cpp:44-47 | sets the delay and the repeating mode, and leaves the baseline, the enabled flag and the callback alone |
| `MyTimer.SetTimeout` | MyTimer.cpp:49-52 | sets the delay and the one-shot mode, and leaves the baseline, the enabled flag and the callback alone |
| `MyTimer.Restart` | MyTimer.cpp:54-57 | baseline := now and enabled, with delay, mode and callback kept |
| `MyTimer.Enable` | MyTimer.cpp:59-61 | only the enabled flag changes, to true; the baseline is not resynchronised |
| `MyTimer.Disable` | MyTimer.cpp:63-65 | only the enabled flag changes, to false |
| `MyTimer.DisabledConsumesPeriods` | MyTimer.cpp:28-31 | a disabled timer never calls back and stays disabled, yet its baseline advances by one delay per period that comes due |
| `MyTimer.NewTimerIsSilent` | MyTimer.cpp:18-24 | a freshly constructed timer never calls back, whatever `run()` calls follow, until it is enabled or restarted |
| `MyTimer.BaselineAccumulates` | MyTimer.cpp:28-29 | drift-free accumulation: after any run sequence, the baseline is the initial one plus (periods consumed) times the delay, modulo 2^32 |
| `MyTimer.OnePeriodMore` | MyTimer.cpp:29 | one more `prev_millis += timer_delay` after `k` periods is `k + 1` periods |
| `MyTimer.OneShotFiresAtMostOnce` | MyTimer.cpp:31-35 | a one-shot timer calls back at most once over any run sequence, never if it starts disabled, and is disabled after it has; an enabled one-shot calls back exactly once as soon as any period comes due |
| `MyTimer.RepeatingFiresEveryPeriod` | MyTimer.cpp:31-35 | an enabled repeating timer calls back on every period that comes due and stays enabled |
| `MyTimer.IntervalAndTimeoutMeaning` | MyTimer.h:25-26 | after `setInterval(d)` an enabled timer calls back on every due period and stays enabled, and after `setTimeout(d)` it calls back at most once, and exactly once, on the first due period, when enabled |
| `MyTimer.EnableDoesNotResync` | MyTimer.cpp:59-61 | a re-enabled timer calls back on the next `run()` exactly when a period is already due, because `enable()` keeps the old baseline |
| `MyTimer.RestartFiresAfterDelay` | MyTimer.cpp:54-57 | after `restart()` at `t0` with delay `d >= 0`, a `run()` `k` ticks later fires exactly when `k >= d`, across the wrap too |
| `MyTimer.NegativeDelayIsHuge` | MyTimer.h:34 | a negative delay behaves as an unsigned value of at least 2^31: the timer is not due while fewer than 2^31 ticks have elapsed |
| `SimpleTimer.DeferredOf` | SimpleTimer.h:58-60 | a stored `int` is a deferred-call tag exactly when it is 0, 1 or 2 |
| `SimpleTimer.DeferredCodeRoundTrip` | SimpleTimer.h:58-60 | `DONTRUN`/`RUNONLY`/`RUNANDDEL` encode as 0/1/2, each code reads back as its tag, and the codes are distinct |
| `SimpleTimer.RepeatOf` | SimpleTimer.h:39-40 | a `maxNumRuns` of `RUN_FOREVER` (0) means forever; any other value is that number of runs |
| `SimpleTimer.RepeatRoundTrip` | SimpleTimer.h:39-40 | the repeat encoding is a bijection between `int` and {forever, n runs with n != 0} |
| `SimpleTimer.RequestMeaning` | SimpleTimer.h:44-46 | `setInterval` asks for forever, `setTimeout` for one run, and `setTimer(d, f, n)` for `n` runs. `setTimer(d, f, 0)` is `setInterval(d, f)`, and `setTimer(d, f, 1)` is `setTimeout(d, f)` |
| `SimpleTimer.GetNumAvailableTimers` | SimpleTimer.h:54 | the available count and the in-use count (`getNumTimers()`, `SimpleTimer.GetNumTimers`) add up to `MAX_TIMERS`, and in a valid table the available count lies in 0..3 |
| `SimpleTimer.AvailableComplementsInUse` | SimpleTimer.h:53-54 | in a valid table, available plus in use (`SimpleTimer.GetNumTimers`, the stored count) equals `MAX_TIMERS` = 3, neither is negative, and nothing is available exactly when all 3 are in use |
| `SimpleTimer.IsEnabled` | SimpleTimer.h:49 | only a slot index can read as enabled |
| `SimpleTimer.Enable` | SimpleTimer.h:50 | keeps the table valid (all seven per-slot arrays of length 3), makes slot `i` enabled, and changes no other slot's flag and no other array or count |
| `SimpleTimer.Disable` | SimpleTimer.h:51 | keeps the table valid, makes slot `i` not enabled, and changes no other slot's flag and no other array or count |
| `SimpleTimer.Toggle` | SimpleTimer.h:52 | flips the enable flag of slot `i`. Every other slot's flag, every other array and the timer count are unchanged, and the table stays valid |
| `SimpleTimer.ToggleIsEnableOrDisable` | SimpleTimer.h:52 | `toggle` enables a disabled timer and disables an enabled one |
| `SimpleTimer.ToggleTwice` | SimpleTimer.h:52 | toggling a slot twice restores the table |
| `Misc.IPow` | misc.cpp:36-46 | exponentiation by squaring computes `base^exponent` for every `exponent >= 0`, and returns 1 for exponent 0 (loop invariant `result * b^e == base^exponent`) |
| `Misc.NegativeExponentNeverHalvesToZero` | misc.cpp:38-42 | with a negative exponent the arithmetic shift never reaches 0, so the `while(exponent)` loop only terminates for `exponent >= 0` |
| `Misc.Pow10IsPow` | misc.cpp:54 | the divisor `10^k` used for each digit is `ipow(10, k)` |
| `Misc.CRem` | misc.cpp:55 | C's `%` on `int` lies strictly between `-b` and `b` and agrees with the mathematical remainder for non-negative operands; for a negative dividend it is the negated remainder of `-a`, so it takes the dividend's sign (never positive), unlike a Euclidean remainder |
| `Misc.DigitChar` | misc.cpp:55 | `(num / div) % 10 + '0'` is a character `'0'..'9'` for non-negative `num` |
| `Misc.Num2Char` | misc.cpp:50-58 | writes `n` characters at `buffer[start..start+n]` and a NUL at `buffer[start+n]`, and no other character changes. For `num >= 0` the characters are digits that read back as `num mod 10^n` |
| `Misc.DigitsDecode` | misc.cpp:49-56 | the `n` digits written for a non-negative number read back, most significant first, as the number modulo `10^n` |
| `Misc.DigitsAreDigits` | misc.cpp:53-56 | every character written for a non-negative number is in `'0'..'9'` |
| `Misc.Year` | MyRTC.h:17 | `year()` is `2000 + yOff`, so it lies in 2000..2255 |
| `Misc.PutField` | misc.cpp:19-29 | one `num2char` plus separator: the field holds the digits, the separator overwrites the NUL, and the prefix and suffix are untouched |
| `Misc.CalcDate` | misc.cpp:18-31 | the 19-character layout: fields at 0..4, 5..7, 8..10, 11..13, 14..16 and 17..19; '/' at 4 and 7, ' ' at 10, ':' at 13 and 16, NUL at 19; nothing after index 19 is written |
| `Misc.CalcDateRoundTrip` | misc.cpp:18-31 | reading the text back gives the year exactly and the other five fields modulo 100 |
| `Misc.CalcDateExact` | MyRTC.h:17-22 | a date whose month, day and time fields are below 100 reads back exactly |
| `Misc.LookupProbeName` | misc.cpp:76-90 | returns `'A' + a` for the lowest `a` whose eight bytes all match `adr`, and NUL iff no known address matches. The non-breaking inner loop does not change the result |
| `Misc.KnownProbesNamed` | misc.h:8-9 | the two known addresses are distinct, so they are named 'A' and 'B' |

## Left out

- Hardware I/O is left out: `pinMode()`, `digitalRead()` and `millis()`. The raw level and the tick are parameters.
- `Switch::poll` reads `millis()` twice, once in the test and once for the new `_switchedTime`. The model uses one `now` per poll.
- Debounce.Create: the constructor never assigns `_switched`. The model starts it false, which is the value a statically allocated object gets.
- The `pushedTime` member declared in `Switch.h` is never used by `Switch.cpp` and is not modelled.
- Callbacks are opaque handles. Invoking one is the `fired` result, so re-entrant calls from a callback into the timer are not modelled.
- `SimpleTimer.cpp` is not part of this model. Left out for that reason:
  - the constructor and `run()`'s scan and deferred-dispatch pass;
  - `findFirstFreeSlot()` and its sentinel;
  - the slot allocation done by `setInterval`/`setTimeout`/`setTimer`;
  - `deleteTimer` and `restartTimer`.

  Only what the header fixes is modelled.
- SimpleTimer.Toggle: an index outside `0..2` is a no-op in the model, as are `SimpleTimer.Enable`, `SimpleTimer.Disable` and `SimpleTimer.IsEnabled` (which reads false). The header does not say what happens there.
- Misc.IPow: integers are mathematical. On the 16-bit AVR `int`, `base *= base` after the last useful step can overflow, and so can the result. That overflow is undefined behaviour and is not modelled.
- Misc.Num2Char: the divisor `ipow(10, n-1-i)` is computed exactly. On the 16-bit target it overflows for `n >= 5` (for `n == 5`, `ipow(10, 4)` still squares `base` once more after its last use, to 10^8), which the model does not reproduce. For negative `num` the model follows C's truncating `/` and `%`, but it states the digit and read-back properties only for `num >= 0`.
- `printAddress` and `dump_log` in `misc.cpp` are left out: they only write to the serial port and read the SD card.
- `display.cpp` and `PT100.cpp` are left out: LCD output and floating-point sensor calibration.
- The `RTC_DS1307` I2C driver is left out. `DateTime` is a record of its six bytes.
