# Device OS core logic in Dafny

This project models four pieces of sequential logic from Particle's Device OS firmware and proves
properties of them.

- **System utilities** (`SystemUtilities`, with tests in `SystemUtilitiesExamples`):
  - the reconnection backoff schedule;
  - the size-negotiating `system_version_info` probe;
  - `update_public_server_domain`. It rewrites a fixed-capacity, NUL-terminated server domain that starts
    with `$id.` into `$id.v<major>.<rest>`. It is all or nothing, and its result is the new length or 0.
- **C string helpers** (`CStrings`). `strlen`, `strstr`, `snprintf`, `strncpy`, `memcpy` and `%d` are
  operations on byte sequences, with the properties the rewrite needs.
- **`OtaUpdateSourceStream`** (`PlatformNcpArgon`). It is the input stream over an in-memory module image
  that feeds the Argon's network co-processor update. It is a class with a cursor and a count of remaining
  bytes. The invariant is: skipped + remaining = length.
- **Sleep configuration validation** (`SleepHal`):
  - the per-wakeup-source validators;
  - the decision procedure of `hal_sleep_validate_config`, with the loop that walks the source list;
  - the argument checks at the top of `hal_sleep_enter`.
- **nRF52840 timer arithmetic** (`TimerHal`):
  - the tick-to-microsecond conversion with ceiling rounding;
  - the current time from the RTC overflow count and counter;
  - the cycle-counter drift correction of `hal_timer_micros`, and `hal_timer_millis`, both as functions
    of the values they sample;
  - the module-state resets of `hal_timer_init`, as a class.

Error codes are those of `system_error_t` (`SystemErrors`):

| code | value |
|---|---|
| NONE | 0 |
| NOT_SUPPORTED | -120 |
| LIMIT_EXCEEDED | -200 |
| END_OF_STREAM | -201 |
| INVALID_ARGUMENT | -270 |

The sleep-mode values are `NONE 0, STOP 1, ULTRA_LOW_POWER 2, HIBERNATE 3, MAX 0x7F`. The GPIO interrupt
modes are `CHANGE 0, RISING 1, FALLING 2`. Their headers are not part of this model, so these values are
taken as stated here. Unsigned C arithmetic is written out as `% 2^32` or `% 2^64`. C's signed division,
which truncates toward zero, is `TimerHal.TruncDiv`.

## Model

| member | source | states |
|---|---|---|
| SystemUtilities.BackoffPeriod | system/src/system_utilities.cpp:38-44 | the wait is 0 exactly when the attempt count is 0 |
| SystemUtilities.BackoffSchedule | system/src/system_utilities.cpp:34-44 | attempts 5k+1..5k+5 wait 1000·2^k ms for attempts up to 35, and every attempt from 36 on waits 128000 ms |
| SystemUtilities.BackoffFirstSteps | system/src/system_utilities.cpp:38-44 | 0 attempts wait 0; attempts 1–5 wait 1000, 6–10 wait 2000, 11–15 wait 4000 |
| SystemUtilities.BackoffBounded | system/src/system_utilities.cpp:42-43 | no wait exceeds 128000 ms |
| SystemUtilities.BackoffMonotone | system/src/system_utilities.cpp:42-43 | more attempts never wait less |
| SystemUtilities.BackoffDoublesEveryFiveAttempts | system/src/system_utilities.cpp:34-44 | five attempts later the wait is doubled, capped at 128000 |
| SystemUtilities.GetSystemVersionInfo | system/src/system_utilities.cpp:48-59 | always returns 28; fills the version number and the string (cut and NUL-padded to the 20-byte field) exactly when a record is passed whose size is at least 28; otherwise the record is unchanged; the size field is never written |
| SystemUtilities.MajorVersion | system/src/system_utilities.cpp:76 | `BYTE_N(v, 3)`: the version number is the major byte times 2^24 plus a 24-bit remainder |
| SystemUtilities.MajorOfPackedVersion | system/src/system_utilities.cpp:76 | the top byte of a version packed one byte per field is its major number |
| SystemUtilities.UpdatePublicServerDomain | system/src/system_utilities.cpp:61-88 | a null address returns 0; otherwise the result and the new buffer are `RewriteResult` and `RewrittenBuffer` of the old buffer and the major version |
| SystemUtilities.RewriteResult | system/src/system_utilities.cpp:61-88 | the value returned for a non-null address: 0 exactly when the pre-check fails or the domain does not start with `$id.` |
| SystemUtilities.RewrittenBuffer | system/src/system_utilities.cpp:61-88 | the domain afterwards, as long as before; when the rewrite applies it starts with `$id.v<major>.<rest>` |
| SystemUtilities.VersionedDomainFits | system/src/system_utilities.cpp:65-80 | the new text is len + 2 + digits(major) bytes with no NUL; it is shorter than the snprintf bound len + 6, so snprintf never truncates it, and it is shorter than the buffer, so the `new_size < max_size` check always passes |
| SystemUtilities.RewriteResultLength | system/src/system_utilities.cpp:78-82 | on success the result is len + 2 + (1, 2 or 3 digits split at 9 and 99); a non-zero result is less than the capacity |
| SystemUtilities.RewriteAllOrNothing | system/src/system_utilities.cpp:63-87 | the buffer is unchanged exactly when the result is 0; every byte from the result onward keeps its old value |
| SystemUtilities.RewriteOfZeroPaddedBuffer | system/src/system_utilities.cpp:81 | with a zero-filled tail, the string afterwards is `$id.v<major>.<rest>` on success and the old string otherwise |
| SystemUtilities.MarkerMustLead | system/src/system_utilities.cpp:71-72 | a marker found only at a later position means result 0 and an untouched buffer |
| SystemUtilities.RewriteCanLoseTerminator | system/src/system_utilities.cpp:81 | a concrete 64-byte buffer that is rewritten and afterwards holds no NUL at all |
| SystemUtilities.TerminatedRewrittenBuffer | system/src/system_utilities.cpp:81 | the terminated rewrite keeps the buffer length |
| SystemUtilities.TerminatedRewriteHoldsVersionedDomain | system/src/system_utilities.cpp:81 | the terminated rewrite always leaves a NUL and exactly the new text as the string; it leaves a non-rewritable buffer alone; it agrees with the rewrite as written on a zero-filled tail |
| SystemUtilitiesExamples.MarkedDomainRewrite | user/tests/unit/system_utilities.cpp:101-167 | a `$id.` domain in a zero-filled 64-byte buffer is rewritten exactly when it is at most 57 bytes; the result is len + 2 + digits and the string is `$id.v<major>.<rest>` |
| SystemUtilitiesExamples.CapacityBoundary | user/tests/unit/system_utilities.cpp:208-234 | 57 bytes with major 255 return 62; 58 bytes return 0 and leave the buffer untouched |
| SystemUtilitiesExamples.UnmarkedDomainIsLeftAlone | user/tests/unit/system_utilities.cpp:169-206 | a domain not starting with `$` returns 0 and is left untouched |
| SystemUtilitiesExamples.UnterminatedDomainIsLeftAlone | user/tests/unit/system_utilities.cpp:236-248 | a 64-byte domain with no NUL, as the 64-character string of the test leaves it, has strlen 64, returns 0 and is left untouched |
| SystemUtilitiesExamples.MajorVersion255Renders | user/tests/unit/system_utilities.cpp:146-167 | major version 255 prints as the three digits "255" |
| SystemUtilitiesExamples.DomainBuffer | user/tests/unit/system_utilities.cpp:99 | a zero-filled 64-byte buffer holding the given text as its C string |
| CStrings.CString | system/src/system_utilities.cpp:68 | the C string is the NUL-free prefix of the buffer, ended by a NUL or by the buffer's end |
| CStrings.StrLen | system/src/system_utilities.cpp:68 | `strlen`: the index of the first NUL, or the buffer's length when it holds none |
| CStrings.Strstr | system/src/system_utilities.cpp:71 | a found position is an occurrence in the C string, and no occurrence comes earlier; none is found only when there is none |
| CStrings.StrstrAtZero | system/src/system_utilities.cpp:71-72 | `strstr` returns offset 0 exactly when the string starts with the needle |
| CStrings.Snprintf | system/src/system_utilities.cpp:78-79 | the buffer holds the first `bound - 1` bytes of the text, NUL-terminated; the return value is the full text length |
| CStrings.Strncpy | system/src/system_utilities.cpp:81 | exactly `n` bytes: the C string of the source up to `n`, then NULs |
| CStrings.CopyInto | hal/src/argon/platform_ncp_argon.cpp:33 | the first bytes of the destination receive the copy; the rest keep their values |
| CStrings.Decimal | system/src/system_utilities.cpp:78-79 | `%d` of a non-negative number: at least one digit, all ASCII digits, no leading zero |
| CStrings.DecimalRoundTrip | system/src/system_utilities.cpp:78-79 | reading the printed digits back gives the number |
| CStrings.DecimalLength | system/src/system_utilities.cpp:65 | a byte prints as 1, 2 or 3 digits ("v0." up to "v255.") |
| PlatformNcpArgon.OtaUpdateSourceStream.constructor | hal/src/argon/platform_ncp_argon.cpp:21 | a fresh stream has consumed nothing and has all `length` bytes unread |
| PlatformNcpArgon.OtaUpdateSourceStream.Peek | hal/src/argon/platform_ncp_argon.cpp:28-35 | END_OF_STREAM with nothing copied when nothing remains; otherwise copies the next min(size, remaining) unread bytes and returns that count; the position does not move |
| PlatformNcpArgon.OtaUpdateSourceStream.Skip | hal/src/argon/platform_ncp_argon.cpp:37-46 | END_OF_STREAM and no move when nothing remains; otherwise moves min(size, remaining) bytes from unread to consumed and returns that count; the invariant holds and `remaining` never grows |
| PlatformNcpArgon.OtaUpdateSourceStream.Read | hal/src/argon/platform_ncp_argon.cpp:23-26 | delivers the next unread bytes and moves past exactly those bytes, returning their count; when nothing remains, returns END_OF_STREAM and changes nothing |
| PlatformNcpArgon.OtaUpdateSourceStream.AvailForRead | hal/src/argon/platform_ncp_argon.cpp:48-50 | the number of unread bytes, which is the length less what was consumed |
| PlatformNcpArgon.OtaUpdateSourceStream.WaitEvent | hal/src/argon/platform_ncp_argon.cpp:52-63 | 0 for no flags, INVALID_ARGUMENT without READABLE, END_OF_STREAM when exhausted; READABLE exactly when it is asked for and bytes remain; the state never changes |
| SleepHal.ValidateGpioWakeupSource | hal/src/nRF52840/sleep_hal.cpp:41-56 | accepted exactly for an edge mode and a pin below TOTAL_PINS; a bad mode is INVALID_ARGUMENT whatever the pin; otherwise a bad pin is LIMIT_EXCEEDED |
| SleepHal.ValidateRtcWakeupSource | hal/src/nRF52840/sleep_hal.cpp:58-66 | accepted exactly for a non-zero period outside hibernation; a zero period is INVALID_ARGUMENT in every mode; otherwise hibernation is NOT_SUPPORTED |
| SleepHal.ValidateNetworkWakeupSource | hal/src/nRF52840/sleep_hal.cpp:68-71 | always accepted |
| SleepHal.ValidateBleWakeupSource | hal/src/nRF52840/sleep_hal.cpp:73-78 | accepted exactly outside hibernation, otherwise NOT_SUPPORTED |
| SleepHal.ValidateWakeupSource | hal/src/nRF52840/sleep_hal.cpp:80-91 | the result is NONE or an error code; an unknown source type is NOT_SUPPORTED |
| SleepHal.FirstWakeupSourceError | hal/src/nRF52840/sleep_hal.cpp:692-695 | walking the list yields NONE or an error code |
| SleepHal.FirstWakeupSourceErrorIsFirstFailure | hal/src/nRF52840/sleep_hal.cpp:692-697 | NONE exactly when every source passes; otherwise it is the error of some source k, and every source before k passed |
| SleepHal.ValidateConfig | hal/src/nRF52840/sleep_hal.cpp:677-698 | the result is NONE or an error code; a NONE or out-of-range mode is INVALID_ARGUMENT and ultra-low power is NOT_SUPPORTED, whatever the sources; STOP with no source is INVALID_ARGUMENT |
| SleepHal.ValidateConfigAccepts | hal/src/nRF52840/sleep_hal.cpp:677-698 | a configuration is accepted exactly when its mode is supported, STOP has a source and every source passes |
| SleepHal.HalSleepValidateConfig | hal/src/nRF52840/sleep_hal.cpp:677-698 | the loop over the source list returns the value of the decision `ValidateConfig` |
| SleepHal.SleepEnterChecks | hal/src/nRF52840/sleep_hal.cpp:700-727 | a null configuration is INVALID_ARGUMENT; a validation error is passed on unchanged; every rejection is an error code; stop mode is entered only for a valid STOP configuration with a source, and hibernation only for a valid HIBERNATE one; the ultra-low-power branch that returns NONE without sleeping is never reached |
| TimerHal.DivideAndCeil | hal/src/nRF52840/timer_hal.cpp:72-74 | without 64-bit wrap, the result is the ceiling of a/b: r·b ≥ a and, for a > 0, (r−1)·b < a |
| TimerHal.TicksToTime | hal/src/nRF52840/timer_hal.cpp:76-78 | while t·15625 does not wrap, the result is the ceiling of t·15625/512 |
| TimerHal.TicksToTimeIsCeiling | hal/src/nRF52840/timer_hal.cpp:76-78 | while t·15625 does not wrap, `ticksToTime(t)` is the ceiling of t·1000000/32768 |
| TimerHal.TicksToTimeValues | hal/src/nRF52840/timer_hal.cpp:69-78 | 0 ticks are 0 µs, 32768 ticks are 1000000 µs, 2^24 ticks are US_PER_OVERFLOW = 512000000 µs |
| TimerHal.TicksToTimeMonotone | hal/src/nRF52840/timer_hal.cpp:76-78 | while t·15625 does not wrap, more ticks never convert to less time |
| TimerHal.TicksToTimeBelowOverflowPeriod | hal/src/nRF52840/timer_hal.cpp:69-78 | any 24-bit counter value converts to less than one overflow period |
| TimerHal.CurrentTime | hal/src/nRF52840/timer_hal.cpp:178-185 | offset·512000000 + ticksToTime(counter), which never wraps 64 bits for a 32-bit offset and counter |
| TimerHal.CurrentTimeMonotone | hal/src/nRF52840/timer_hal.cpp:178-185 | a later (offset, counter) sample never reads earlier, and a new overflow period reads strictly later than any point of the previous one |
| TimerHal.TruncDiv | hal/src/nRF52840/timer_hal.cpp:310 | C division rounds toward zero: the quotient times the divisor lies between 0 and the dividend, within one divisor |
| TimerHal.SyncTicks | hal/src/nRF52840/timer_hal.cpp:298-300 | without 64-bit wrap, `syncTicks` is the last overflow's cycle count plus the cycles elapsed since, mod 2^32 |
| TimerHal.TickDiff | hal/src/nRF52840/timer_hal.cpp:301 | `curTicks - syncTicks` in 32 bits: the true difference, or that plus 2^32 |
| TimerHal.TickDiffFinalAsWritten | hal/src/nRF52840/timer_hal.cpp:302-308 | the signed drift as written: `tickDiff`, or above the threshold `tickDiff - 2^32 + 1`; never above the threshold |
| TimerHal.TickDiffFinal | hal/src/nRF52840/timer_hal.cpp:303-305 | the intended (two's-complement) reading of the drift: `tickDiff` or `tickDiff - 2^32`, at most the threshold and above threshold − 2^32 |
| TimerHal.TickDiffFinalRecoversDrift | hal/src/nRF52840/timer_hal.cpp:301-308 | any true drift in (threshold − 2^32, threshold] comes out of the wrapped difference unchanged |
| TimerHal.TickDiffFinalAsWrittenOffByOne | hal/src/nRF52840/timer_hal.cpp:303-305 | the source's negative branch yields exactly one more than the true drift; the positive branch agrees |
| TimerHal.TimerMicrosAsWritten | hal/src/nRF52840/timer_hal.cpp:284-311 | `hal_timer_micros` as written: a counter ahead of the prediction adds its lead in whole microseconds; a counter behind subtracts its lag of `2^32 - tickDiff` cycles counted one cycle short, in whole microseconds |
| TimerHal.TimerMicros | hal/src/nRF52840/timer_hal.cpp:303-310 | the intended clock: as written, except that a counter behind subtracts its whole lag of `2^32 - tickDiff` cycles in whole microseconds |
| TimerHal.TimerMicrosCorrectsDrift | hal/src/nRF52840/timer_hal.cpp:296-310 | when the cycle counter is `drift` away from the prediction, the clock reads base + curUs + drift/usTicks (truncated); it reads base + curUs when the counter is in step |
| TimerHal.TimerMicrosAsWrittenMissesLag | hal/src/nRF52840/timer_hal.cpp:298-310 | a counter one microsecond behind: as written 1000 µs, intended 999 µs; `hal_timer_millis` then reads 1 ms where the intended clock gives 0 ms |
| TimerHal.TimerMillis | hal/src/nRF52840/timer_hal.cpp:313-315 | whole milliseconds of the microsecond clock as written: ms·1000 ≤ µs < ms·1000 + 1000 |
| TimerHal.TimerState.constructor | hal/src/nRF52840/timer_hal.cpp:58-64 | the static initialisers: all counters and snapshots zero, no event pending |
| TimerHal.TimerState.Micros | hal/src/nRF52840/timer_hal.cpp:284-311 | `hal_timer_micros` on the module state, for every state: a cycle counter at the prediction from the state's last-overflow snapshots reads the state's base offset plus the current time; a counter ahead adds its lead in whole microseconds |
| TimerHal.TimerState.Init | hal/src/nRF52840/timer_hal.cpp:190-199 | returns 0; zeroes the overflow counter, mutex, time offset and both last-overflow snapshots; sets the base offset only when a configuration is given; leaves the pending-event flag alone |
| TimerHal.InitThenMicros | hal/src/nRF52840/timer_hal.cpp:190-199 | after init with a base offset and no overflow yet, a cycle counter in step makes `hal_timer_micros` read base offset + current time |

## Left out

- The hardware sequences of `hal_sleep_enter` are left out: `enterStopMode`, `enterHibernateMode`, and
  the register writes, WFI and allocation of wakeup reasons. `SleepEnterChecks` stops at the choice
  between entering stop mode and entering hibernation.
- The RTC interrupt handler, `mutexGet`/`mutexRelease`, `getOverflowCounter`, `getOffsetAndCounter` and
  `hal_timer_deinit` in timer_hal.cpp are left out. They are interrupt-context concurrency (LDREX/STREX)
  and hardware register access.
- The RTC counter, the overflow count, `DWT->CYCCNT`, `SYSTEM_US_TICKS` and `getCurrentTime()` are
  hardware reads, so the timer functions take them as parameters.
- `HAL_Timer_Get_Micro_Seconds` and `HAL_Timer_Get_Milli_Seconds` are left out. They only truncate the two
  clocks to 32 bits.
- TimerHal.TimerMicros and TimerHal.TimerMicrosAsWritten: the `(int64_t)curUs` cast is not modelled as signed. Times of 2^63 µs and more
  (about 292000 years) are outside the model.
- `platform_ncp_update_module` and `platform_ncp_fetch_module_info` are left out. They are network
  co-processor client calls, allocation and logging. The `LED_Toggle` in `skip` is a side effect only and
  is left out too.
- PlatformNcpArgon.OtaUpdateSourceStream.Peek: a destination that overlaps the stream's memory is
  excluded, since `memcpy` of overlapping storage is undefined.
- PlatformNcpArgon.OtaUpdateSourceStream.Peek: a count larger than `int` can hold, which C would convert to
  a negative return value, is not modelled. Counts are unbounded here.
- The stream's start offset and length are ghost. The source keeps only the moving pointer and the
  remaining count.
- `SYSTEM_VERSION`, `SYSTEM_VERSION_STRING` and `sizeof(ServerAddress::domain)` come from headers that are
  not part of this model. They are parameters: the version number, the version string and the length of
  the domain array.
- The 65-byte test at user/tests/unit/system_utilities.cpp:236-248 copies 65 bytes into the 64-byte
  domain. The model covers what the domain then holds, 64 bytes with no NUL. The write past the end of
  the field is outside the model; `strlen` is taken to stop at the end of the buffer.
- SystemUtilities.GetSystemVersionInfo requires the version string field to hold 20 bytes, the fixed size
  of the C array.
- The remaining files of the repository are not part of this model:
  - `inflate.cpp` and its test, a decompressor driven by a foreign library;
  - the radio and platform radio-stack files, which are GPIO and flash persistence;
  - the PWM on-device tests;
  - the headers, which hold declarations only.

## Findings

| source | as written | input that shows it | evidently intended | confidence | as-written member | corrected member |
|---|---|---|---|---|---|---|
| hal/src/nRF52840/timer_hal.cpp:303-305 | a difference above the threshold becomes `-(0xffffffff - tickDiff)`, which is one more than the two's-complement value `tickDiff - 2^32` | usTicks 64, lastOverflowMicros = curUs = 1000, lastOverflowTicks 64, curTicks 0: tickDiff = 2^32 − 64, as written −63 → 1000 µs | drift −64 → 999 µs, the counter being a full microsecond behind | not executed; the effect is at most 1 µs, when the lag is an exact multiple of usTicks | TimerHal.TimerMicrosAsWrittenMissesLag | TimerHal.TimerMicrosCorrectsDrift |
| system/src/system_utilities.cpp:81 | `strncpy(domain, new_domain, new_size)` copies no terminator, yet the new text overwrites the old NUL | a 64-byte buffer holding "$id.a", a NUL and 58 × 'x', major 1: afterwards the buffer holds no NUL | the new text followed by its NUL | not executed; it is hidden whenever the buffer beyond the string is zero-filled, as in the unit tests | SystemUtilities.RewriteCanLoseTerminator | SystemUtilities.TerminatedRewriteHoldsVersionedDomain |

On the timer side, `TimerHal.TimerMicrosAsWritten`, `TimerHal.TimerMillis` and `TimerHal.TimerState.Micros`
model the code as written. `TimerHal.TimerMicros` is the intended clock. The two agree whenever the cycle
counter is not behind the prediction.

`SystemUtilities.UpdatePublicServerDomain` models the rewrite as written, with `RewrittenBuffer`.
`SystemUtilities.TerminatedRewrittenBuffer` is the intended rewrite. The two agree on every buffer whose
tail is zero-filled.
