/** MicroPython's millisecond tick counter. `utime.ticks_ms()` returns a
    value that wraps at TICKS_PERIOD (2^30 on the 32-bit ports, the ESP32
    among them), and `utime.ticks_diff(end, start)` is the signed modular
    difference, always in [-TICKS_PERIOD/2, TICKS_PERIOD/2). */
module Ticks {

  const TICKS_PERIOD: nat := 0x4000_0000
  const TICKS_HALF: nat := 0x2000_0000

  /** A value `utime.ticks_ms()` can return. */
  predicate IsTicks(t: int) {
    0 <= t < TICKS_PERIOD
  }

  /** `utime.ticks_diff(end, start)`: the difference `end - start` taken
      modulo the tick period and read back as a signed number. */
  function TicksDiff(end: int, start: int): (d: int)
    ensures -(TICKS_HALF as int) <= d < TICKS_HALF
    ensures (end - start - d) % TICKS_PERIOD == 0
  {
    var x := end - start + TICKS_HALF;
    assert x == TICKS_PERIOD * (x / TICKS_PERIOD) + x % TICKS_PERIOD;
    x % TICKS_PERIOD - TICKS_HALF
  }

  /** Wrap safety: whenever less than half a period has really elapsed
      since `start`, the tick difference recovers the elapsed time exactly,
      even when the tick counter has rolled over in between. */
  lemma TicksDiffRecoversElapsed(start: int, elapsed: int)
    requires IsTicks(start)
    requires 0 <= elapsed < TICKS_HALF
    ensures TicksDiff((start + elapsed) % TICKS_PERIOD, start) == elapsed
  {
    var now := (start + elapsed) % TICKS_PERIOD;
    if start + elapsed < TICKS_PERIOD {
      assert now == start + elapsed;
      assert (elapsed + TICKS_HALF) % TICKS_PERIOD == elapsed + TICKS_HALF;
    } else {
      assert now == start + elapsed - TICKS_PERIOD;
      assert (elapsed + TICKS_HALF - TICKS_PERIOD) % TICKS_PERIOD == elapsed + TICKS_HALF;
    }
  }

  /** A rolled-over reading still gives a small positive difference. */
  lemma WrappedDifference()
    ensures TicksDiff(5, TICKS_PERIOD - 3) == 8
  {
    TicksDiffRecoversElapsed(TICKS_PERIOD - 3, 8);
  }

  /** Milliseconds since start kept without wrap-around: each reading adds
      the tick difference since the previous reading. The ghost field
      `realMillis` is the time that really passed, so that the clock can
      be compared with it. */
  class UptimeClock {
    var lastTicks: int
    var millis: int
    ghost var realMillis: int

    ghost predicate Valid()
      reads this
    {
      IsTicks(lastTicks)
    }

    constructor (startTicks: int)
      requires IsTicks(startTicks)
      ensures Valid() && lastTicks == startTicks && millis == 0 && realMillis == 0
    {
      lastTicks := startTicks;
      millis := 0;
      realMillis := 0;
    }

    /** Takes the reading `nowTicks`, taken `elapsed` ms after the previous
        one, and advances by the tick difference since that reading. When
        less than half a tick period passed in between, the clock keeps
        agreeing with the real time; so it agrees after every run of
        readings taken less than 2^29 ms apart. */
    method Read(nowTicks: int, ghost elapsed: nat) returns (currentMillis: int)
      requires Valid() && nowTicks == (lastTicks + elapsed) % TICKS_PERIOD
      modifies this
      ensures Valid() && lastTicks == nowTicks
      ensures currentMillis == millis == old(millis) + TicksDiff(nowTicks, old(lastTicks))
      ensures realMillis == old(realMillis) + elapsed
      ensures old(millis) == old(realMillis) && elapsed < TICKS_HALF ==> millis == realMillis
    {
      if elapsed < TICKS_HALF {
        TicksDiffRecoversElapsed(lastTicks, elapsed);
      }
      millis := millis + TicksDiff(nowTicks, lastTicks);
      realMillis := realMillis + elapsed;
      lastTicks := nowTicks;
      currentMillis := millis;
    }
  }
}
