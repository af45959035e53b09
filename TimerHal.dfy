/** Time keeping on the nRF52840: a 24-bit RTC running at 32768 Hz, its overflow count, and the
    microsecond clock refined with the CPU cycle counter. Unsigned C arithmetic is written out modulo
    2^32 or 2^64. */
module TimerHal {
  import Basics
  import CStrings

  const TWO_32: int := 0x1_0000_0000
  const TWO_64: int := 0x1_0000_0000_0000_0000

  type uint32 = x: int | 0 <= x < TWO_32
  type uint64 = x: int | 0 <= x < TWO_64

  /** Microseconds between two RTC overflows: 2^24 ticks at 32768 Hz are 512 s. */
  const US_PER_OVERFLOW: nat := 512 * 1000000
  const RTC_COUNTER_RANGE: nat := 0x100_0000

  /** `1000000 >> 6` and `32768 >> 6`: the ratio 10^6 / 32768 in lowest terms. */
  const US_PER_TICK_NUM: nat := 15625
  const US_PER_TICK_DEN: nat := 512

  // ---------------------------------------------------------------------------------------------
  // Tick to time conversion

  /** `divideAndCeil`: `(a + b - 1) / b` in 64-bit arithmetic, the ceiling of a / b while `a + b - 1`
      does not wrap. */
  function DivideAndCeil(a: uint64, b: uint64): (r: uint64)
    requires b > 0
    ensures a + b - 1 < TWO_64 ==> r * b >= a && (a > 0 ==> (r - 1) * b < a)
  {
    var n := (a + b - 1) % TWO_64;
    var q := n / b;
    EuclideanDivBounds(n, b);
    assert a + b - 1 < TWO_64 ==> n == a + b - 1 by {
      if a + b - 1 < TWO_64 {
        ModOfSmall(a + b - 1, TWO_64);
      }
    }
    assert (q - 1) * b == q * b - b;
    q
  }

  /** `ticksToTime`: RTC ticks to microseconds, rounded up: while `ticks * 15625` does not wrap, the result
      is the ceiling of ticks * 15625 / 512. */
  function TicksToTime(ticks: uint64): (us: uint64)
    ensures TicksInRange(ticks) ==> us * US_PER_TICK_DEN >= ticks * US_PER_TICK_NUM
    ensures TicksInRange(ticks) && ticks > 0 ==> (us - 1) * US_PER_TICK_DEN < ticks * US_PER_TICK_NUM
  {
    DivideAndCeil((ticks * US_PER_TICK_NUM) % TWO_64, US_PER_TICK_DEN)
  }

  /** The largest tick count whose conversion does not wrap in 64 bits. */
  predicate TicksInRange(ticks: int)
  {
    0 <= ticks && ticks * US_PER_TICK_NUM + US_PER_TICK_DEN - 1 < TWO_64
  }

  /** With the ratio unreduced: `ticksToTime(t)` is the ceiling of t * 10^6 / 32768. */
  lemma TicksToTimeIsCeiling(ticks: uint64)
    requires TicksInRange(ticks)
    ensures TicksToTime(ticks) * 32768 >= ticks * 1000000
    ensures ticks > 0 ==> (TicksToTime(ticks) - 1) * 32768 < ticks * 1000000
  {
    var r := TicksToTime(ticks);
    assert r * US_PER_TICK_DEN >= ticks * US_PER_TICK_NUM;
    assert ticks > 0 ==> (r - 1) * US_PER_TICK_DEN < ticks * US_PER_TICK_NUM;
  }

  lemma TicksToTimeValues()
    ensures TicksToTime(0) == 0
    ensures TicksToTime(32768) == 1000000
    ensures TicksToTime(RTC_COUNTER_RANGE) == US_PER_OVERFLOW
  {
  }

  lemma TicksToTimeMonotone(t1: uint64, t2: uint64)
    requires t1 <= t2 && TicksInRange(t2)
    ensures TicksToTime(t1) <= TicksToTime(t2)
  {
    var r1, r2 := TicksToTime(t1), TicksToTime(t2);
    if t1 > 0 {
      assert (r1 - 1) * US_PER_TICK_DEN < t1 * US_PER_TICK_NUM <= t2 * US_PER_TICK_NUM <= r2 * US_PER_TICK_DEN;
      assert r1 - 1 < r2;
    }
  }

  /** Any value the 24-bit RTC counter holds converts to less than one overflow period. */
  lemma TicksToTimeBelowOverflowPeriod(ticks: uint64)
    requires ticks < RTC_COUNTER_RANGE
    ensures TicksToTime(ticks) < US_PER_OVERFLOW
  {
    var r := TicksToTime(ticks);
    if ticks > 0 {
      assert (r - 1) * US_PER_TICK_DEN < ticks * US_PER_TICK_NUM;
      assert ticks * US_PER_TICK_NUM <= (RTC_COUNTER_RANGE - 1) * US_PER_TICK_NUM;
    }
  }

  // ---------------------------------------------------------------------------------------------
  // Current time from the overflow count and the RTC counter

  /** `getCurrentTime` on the values it samples: whole overflow periods plus the converted counter. */
  function CurrentTime(offset: uint32, rtcCounter: uint32): (us: uint64)
    ensures us == offset * US_PER_OVERFLOW + TicksToTime(rtcCounter)
  {
    assert TicksToTime(rtcCounter) < TWO_32 * US_PER_TICK_NUM by {
      TicksToTimeMonotone(rtcCounter, TWO_32);
      assert TWO_32 * US_PER_TICK_NUM + US_PER_TICK_DEN - 1 < TWO_64;
    }
    (offset * US_PER_OVERFLOW + TicksToTime(rtcCounter)) % TWO_64
  }

  /** Time only moves forward: a later (offset, counter) sample, the counter within its 24 bits, never gives
      an earlier time, and the last tick of a period is still before the first tick of the next. */
  lemma CurrentTimeMonotone(offset1: uint32, counter1: uint32, offset2: uint32, counter2: uint32)
    requires counter1 < RTC_COUNTER_RANGE && counter2 < RTC_COUNTER_RANGE
    requires offset1 < offset2 || (offset1 == offset2 && counter1 <= counter2)
    ensures CurrentTime(offset1, counter1) <= CurrentTime(offset2, counter2)
    ensures offset1 < offset2 ==> CurrentTime(offset1, counter1) < CurrentTime(offset2, counter2)
  {
    if offset1 < offset2 {
      TicksToTimeBelowOverflowPeriod(counter1);
      assert offset1 * US_PER_OVERFLOW + US_PER_OVERFLOW <= offset2 * US_PER_OVERFLOW;
    } else {
      TicksToTimeMonotone(counter1, counter2);
    }
  }

  // ---------------------------------------------------------------------------------------------
  // Microseconds refined with the cycle counter

  /** C's signed division, which truncates toward zero. */
  function TruncDiv(a: int, d: int): (q: int)
    requires d > 0
    ensures 0 <= a ==> 0 <= q * d <= a < q * d + d
    ensures a < 0 ==> q * d - d < a <= q * d <= 0
  {
    if a >= 0 then
      EuclideanDivBounds(a, d);
      a / d
    else
      EuclideanDivBounds(-a, d);
      -((-a) / d)
  }

  lemma EuclideanDivBounds(n: nat, d: nat)
    requires d > 0
    ensures 0 <= (n / d) * d <= n < (n / d) * d + d
  {
    var q, m := n / d, n % d;
    assert n == q * d + m && 0 <= m < d;
    assert 0 <= q;
  }

  /** The cycle-count difference above which `tickDiff` is read as the counter lagging behind. */
  function LagThreshold(usTicks: nat): nat
  {
    (US_PER_OVERFLOW / 10) * usTicks
  }

  /** The cycle count the counter should show now, predicted from the count at the last overflow and the
      microseconds elapsed since, all in 64-bit arithmetic and cut to 32 bits. Without 64-bit wrap it is the
      last count plus the elapsed cycles, modulo 2^32. */
  function SyncTicks(curUs: uint64, lastOverflowTicks: uint32, lastOverflowMicros: uint64, usTicks: nat): (ticks: uint32)
    ensures lastOverflowMicros <= curUs && lastOverflowTicks + (curUs - lastOverflowMicros) * usTicks < TWO_64 ==>
      ticks == (lastOverflowTicks + (curUs - lastOverflowMicros) * usTicks) % TWO_32
  {
    var elapsedUs := (curUs - lastOverflowMicros) % TWO_64;
    var elapsedTicks := (elapsedUs * usTicks) % TWO_64;
    assert lastOverflowMicros <= curUs && lastOverflowTicks + (curUs - lastOverflowMicros) * usTicks < TWO_64 ==>
      (lastOverflowTicks + elapsedTicks) % TWO_64 == lastOverflowTicks + (curUs - lastOverflowMicros) * usTicks by {
      if lastOverflowMicros <= curUs && lastOverflowTicks + (curUs - lastOverflowMicros) * usTicks < TWO_64 {
        ModOfSmall(curUs - lastOverflowMicros, TWO_64);
        ModOfSmall((curUs - lastOverflowMicros) * usTicks, TWO_64);
        ModOfSmall(lastOverflowTicks + (curUs - lastOverflowMicros) * usTicks, TWO_64);
      }
    }
    ((lastOverflowTicks + elapsedTicks) % TWO_64) % TWO_32
  }

  lemma ModOfSmall(x: int, m: int)
    requires 0 <= x < m
    ensures x % m == x
  {
  }

  /** `curTicks - syncTicks` in 32-bit arithmetic. */
  function TickDiff(curTicks: uint32, syncTicks: uint32): (d: uint32)
    ensures d == curTicks - syncTicks || d == curTicks - syncTicks + TWO_32
  {
    (curTicks - syncTicks) % TWO_32
  }

  /** The signed drift as `hal_timer_micros` computes it: a difference above the threshold is taken as
      negative, `-(0xffffffff - tickDiff)`. */
  function TickDiffFinalAsWritten(tickDiff: uint32, usTicks: nat): (drift: int)
    ensures tickDiff <= LagThreshold(usTicks) ==> drift == tickDiff
    ensures tickDiff > LagThreshold(usTicks) ==> drift == tickDiff - TWO_32 + 1
    ensures drift <= LagThreshold(usTicks)
  {
    if tickDiff > LagThreshold(usTicks) then -(0xFFFF_FFFF - tickDiff) else tickDiff
  }

  /** The signed drift as intended: a difference above the threshold is the 32-bit two's-complement
      negative, `tickDiff - 2^32`. */
  function TickDiffFinal(tickDiff: uint32, usTicks: nat): (drift: int)
    ensures drift == tickDiff || drift == tickDiff - TWO_32
    ensures drift <= LagThreshold(usTicks) && drift > Basics.Min(LagThreshold(usTicks), TWO_32 - 1) - TWO_32
  {
    if tickDiff > LagThreshold(usTicks) then tickDiff - TWO_32 else tickDiff
  }

  /** The corrected drift recovers any true drift of the window (threshold - 2^32, threshold]. */
  lemma TickDiffFinalRecoversDrift(curTicks: uint32, syncTicks: uint32, drift: int, usTicks: nat)
    requires LagThreshold(usTicks) < TWO_32
    requires LagThreshold(usTicks) - TWO_32 < drift <= LagThreshold(usTicks)
    requires (curTicks - syncTicks - drift) % TWO_32 == 0
    ensures TickDiffFinal(TickDiff(curTicks, syncTicks), usTicks) == drift
  {
    var d := TickDiff(curTicks, syncTicks);
    var f := TickDiffFinal(d, usTicks);
    var x := curTicks - syncTicks - drift;
    assert f - drift == x || f - drift == x + TWO_32 || f - drift == x - TWO_32;
    assert (f - drift) % TWO_32 == 0;
    ZeroInWindow(f - drift);
  }

  /** The only multiple of 2^32 strictly between -2^32 and 2^32 is 0. */
  lemma ZeroInWindow(x: int)
    requires x % TWO_32 == 0 && -TWO_32 < x < TWO_32
    ensures x == 0
  {
    assert x == (x / TWO_32) * TWO_32;
  }

  /** As written, a negative drift comes out one tick short: one more than the true drift. */
  lemma TickDiffFinalAsWrittenOffByOne(tickDiff: uint32, usTicks: nat)
    ensures tickDiff <= LagThreshold(usTicks) ==>
      TickDiffFinalAsWritten(tickDiff, usTicks) == TickDiffFinal(tickDiff, usTicks)
    ensures tickDiff > LagThreshold(usTicks) ==>
      TickDiffFinalAsWritten(tickDiff, usTicks) == TickDiffFinal(tickDiff, usTicks) + 1
  {
  }

  /** `hal_timer_micros` as written, on the values it samples: the base offset plus the current time plus
      the drift in whole microseconds (truncated toward zero), in 64-bit arithmetic. A counter ahead of the
      prediction adds its lead in whole microseconds; a counter behind subtracts its lag counted one cycle
      short. */
  function TimerMicrosAsWritten(baseOffset: uint64, curUs: uint64, lastOverflowTicks: uint32, lastOverflowMicros: uint64,
                                curTicks: uint32, usTicks: nat): (us: uint64)
    requires usTicks > 0
    ensures var tickDiff := TickDiff(curTicks, SyncTicks(curUs, lastOverflowTicks, lastOverflowMicros, usTicks));
      tickDiff <= LagThreshold(usTicks) ==> us == (baseOffset + curUs + tickDiff / usTicks) % TWO_64
    ensures var tickDiff := TickDiff(curTicks, SyncTicks(curUs, lastOverflowTicks, lastOverflowMicros, usTicks));
      tickDiff > LagThreshold(usTicks) ==> us == (baseOffset + curUs - (TWO_32 - 1 - tickDiff) / usTicks) % TWO_64
  {
    var tickDiff := TickDiff(curTicks, SyncTicks(curUs, lastOverflowTicks, lastOverflowMicros, usTicks));
    var drift := TickDiffFinalAsWritten(tickDiff, usTicks);
    assert tickDiff <= LagThreshold(usTicks) ==> TruncDiv(drift, usTicks) == tickDiff / usTicks;
    assert tickDiff > LagThreshold(usTicks) ==> TruncDiv(drift, usTicks) == -((TWO_32 - 1 - tickDiff) / usTicks);
    (baseOffset + (curUs + TruncDiv(drift, usTicks))) % TWO_64
  }

  /** `hal_timer_micros` with the drift read as intended: a counter behind the prediction subtracts its
      whole lag of `2^32 - tickDiff` cycles. */
  function TimerMicros(baseOffset: uint64, curUs: uint64, lastOverflowTicks: uint32, lastOverflowMicros: uint64,
                       curTicks: uint32, usTicks: nat): (us: uint64)
    requires usTicks > 0
    ensures var tickDiff := TickDiff(curTicks, SyncTicks(curUs, lastOverflowTicks, lastOverflowMicros, usTicks));
      tickDiff <= LagThreshold(usTicks) ==> us == (baseOffset + curUs + tickDiff / usTicks) % TWO_64
    ensures var tickDiff := TickDiff(curTicks, SyncTicks(curUs, lastOverflowTicks, lastOverflowMicros, usTicks));
      tickDiff > LagThreshold(usTicks) ==> us == (baseOffset + curUs - (TWO_32 - tickDiff) / usTicks) % TWO_64
  {
    var tickDiff := TickDiff(curTicks, SyncTicks(curUs, lastOverflowTicks, lastOverflowMicros, usTicks));
    var drift := TickDiffFinal(tickDiff, usTicks);
    assert tickDiff <= LagThreshold(usTicks) ==> TruncDiv(drift, usTicks) == tickDiff / usTicks;
    assert tickDiff > LagThreshold(usTicks) ==> TruncDiv(drift, usTicks) == -((TWO_32 - tickDiff) / usTicks);
    (baseOffset + (curUs + TruncDiv(drift, usTicks))) % TWO_64
  }

  /** When the cycle counter is `drift` cycles away from the prediction, within the window the code
      accepts, the clock reads the base offset plus the current time plus the drift in microseconds
      (truncated toward zero); a counter exactly in step adds nothing. */
  lemma TimerMicrosCorrectsDrift(baseOffset: uint64, curUs: uint64, lastOverflowTicks: uint32, lastOverflowMicros: uint64,
                                 curTicks: uint32, usTicks: nat, drift: int)
    requires usTicks > 0 && LagThreshold(usTicks) < TWO_32
    requires LagThreshold(usTicks) - TWO_32 < drift <= LagThreshold(usTicks)
    requires (curTicks - SyncTicks(curUs, lastOverflowTicks, lastOverflowMicros, usTicks) - drift) % TWO_32 == 0
    ensures TimerMicros(baseOffset, curUs, lastOverflowTicks, lastOverflowMicros, curTicks, usTicks) ==
      (baseOffset + curUs + TruncDiv(drift, usTicks)) % TWO_64
    ensures drift == 0 ==>
      TimerMicros(baseOffset, curUs, lastOverflowTicks, lastOverflowMicros, curTicks, usTicks) == (baseOffset + curUs) % TWO_64
  {
    TickDiffFinalRecoversDrift(curTicks, SyncTicks(curUs, lastOverflowTicks, lastOverflowMicros, usTicks), drift, usTicks);
  }

  /** With 64 cycles per microsecond, a counter one microsecond behind the prediction: the clock as
      written does not move back, while the intended one reads one microsecond less; at a millisecond
      boundary the millisecond clock inherits the difference. */
  lemma TimerMicrosAsWrittenMissesLag()
    ensures TickDiff(0, SyncTicks(1000, 64, 1000, 64)) == TWO_32 - 64
    ensures TimerMicrosAsWritten(0, 1000, 64, 1000, 0, 64) == 1000
    ensures TimerMicros(0, 1000, 64, 1000, 0, 64) == 999
    ensures TimerMillis(0, 1000, 64, 1000, 0, 64) == 1 && TimerMicros(0, 1000, 64, 1000, 0, 64) / 1000 == 0
  {
    assert SyncTicks(1000, 64, 1000, 64) == 64;
    assert TickDiffFinalAsWritten(TWO_32 - 64, 64) == -63;
    assert TickDiffFinal(TWO_32 - 64, 64) == -64;
    assert TruncDiv(-63, 64) == 0;
    assert TruncDiv(-64, 64) == -1;
  }

  /** `hal_timer_millis`: the microsecond clock, as written, in whole milliseconds. */
  function TimerMillis(baseOffset: uint64, curUs: uint64, lastOverflowTicks: uint32, lastOverflowMicros: uint64,
                       curTicks: uint32, usTicks: nat): (ms: uint64)
    requires usTicks > 0
    ensures var us := TimerMicrosAsWritten(baseOffset, curUs, lastOverflowTicks, lastOverflowMicros, curTicks, usTicks);
      ms * 1000 <= us < ms * 1000 + 1000
  {
    TimerMicrosAsWritten(baseOffset, curUs, lastOverflowTicks, lastOverflowMicros, curTicks, usTicks) / 1000
  }

  // ---------------------------------------------------------------------------------------------
  // Module state

  /** `hal_timer_init_config_t`. */
  datatype TimerInitConfig = TimerInitConfig(baseClockOffset: uint64)

  /** The timer module's static variables. */
  class TimerState {
    var overflowCounter: uint32
    var mutex: CStrings.uint8
    var timeOffset: uint64
    var eventPending: bool
    var tickCountAtLastOverflow: uint32
    var timerMicrosAtLastOverflow: uint64
    var timerMicrosBaseOffset: uint64

    /** The static initialisers: everything zero, no event pending. */
    constructor ()
      ensures overflowCounter == 0 && mutex == 0 && timeOffset == 0 && !eventPending
      ensures tickCountAtLastOverflow == 0 && timerMicrosAtLastOverflow == 0 && timerMicrosBaseOffset == 0
    {
      overflowCounter := 0;
      mutex := 0;
      timeOffset := 0;
      eventPending := false;
      tickCountAtLastOverflow := 0;
      timerMicrosAtLastOverflow := 0;
      timerMicrosBaseOffset := 0;
    }

    /** `hal_timer_init`: takes the base offset from `conf` when there is one, resets the overflow count,
        the mutex, the time offset and both last-overflow snapshots, and returns 0. */
    method Init(conf: Basics.Option<TimerInitConfig>) returns (r: int)
      modifies this
      ensures r == 0
      ensures overflowCounter == 0 && mutex == 0 && timeOffset == 0
      ensures tickCountAtLastOverflow == 0 && timerMicrosAtLastOverflow == 0
      ensures timerMicrosBaseOffset == if conf.Some? then conf.value.baseClockOffset else old(timerMicrosBaseOffset)
      ensures eventPending == old(eventPending)
    {
      if conf.Some? {
        timerMicrosBaseOffset := conf.value.baseClockOffset;
      }
      overflowCounter := 0;
      mutex := 0;
      timeOffset := 0;
      tickCountAtLastOverflow := 0;
      timerMicrosAtLastOverflow := 0;
      return 0;
    }

    /** `hal_timer_micros` on this state and the sampled current time and cycle count: it reads the base
        offset and the two last-overflow snapshots. A cycle counter exactly at the prediction reads the base
        offset plus the current time; one ahead of it adds its lead in whole microseconds. */
    function Micros(curUs: uint64, curTicks: uint32, usTicks: nat): (us: uint64)
      reads this
      requires usTicks > 0
      ensures curTicks == SyncTicks(curUs, tickCountAtLastOverflow, timerMicrosAtLastOverflow, usTicks) ==>
        us == (timerMicrosBaseOffset + curUs) % TWO_64
      ensures var tickDiff := TickDiff(curTicks, SyncTicks(curUs, tickCountAtLastOverflow, timerMicrosAtLastOverflow, usTicks));
        tickDiff <= LagThreshold(usTicks) ==> us == (timerMicrosBaseOffset + curUs + tickDiff / usTicks) % TWO_64
    {
      var syncTicks := SyncTicks(curUs, tickCountAtLastOverflow, timerMicrosAtLastOverflow, usTicks);
      assert curTicks == syncTicks ==> TickDiff(curTicks, syncTicks) == 0;
      TimerMicrosAsWritten(timerMicrosBaseOffset, curUs, tickCountAtLastOverflow, timerMicrosAtLastOverflow, curTicks, usTicks)
    }
  }

  /** Right after `hal_timer_init`, with no overflow recorded yet, a cycle counter in step with the time
      makes the clock read the configured base offset plus the current time. */
  method InitThenMicros(state: TimerState, offset: uint64, curUs: uint64, usTicks: nat) returns (us: uint64)
    requires usTicks > 0
    modifies state
    ensures us == (offset + curUs) % TWO_64
  {
    var _ := state.Init(Basics.Some(TimerInitConfig(offset)));
    var curTicks := SyncTicks(curUs, 0, 0, usTicks);
    us := state.Micros(curUs, curTicks, usTicks);
  }
}
