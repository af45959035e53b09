/** Validation of a sleep configuration on the nRF52840: the sleep mode and the list of wakeup sources. */
module SleepHal {
  import opened SystemErrors
  import Basics
  import CStrings

  // `hal_sleep_mode_t`
  const HAL_SLEEP_MODE_NONE: int := 0
  const HAL_SLEEP_MODE_STOP: int := 1
  const HAL_SLEEP_MODE_ULTRA_LOW_POWER: int := 2
  const HAL_SLEEP_MODE_HIBERNATE: int := 3
  const HAL_SLEEP_MODE_MAX: int := 0x7F

  // `InterruptMode` of a GPIO wakeup pin
  const CHANGE: int := 0
  const RISING: int := 1
  const FALLING: int := 2

  /** A wakeup source, by its type tag; `Other` stands for every type this platform does not handle. */
  datatype WakeupSource =
    | Gpio(pin: nat, mode: int)
    | Rtc(ms: nat)
    | Network
    | Ble
    | Other(sourceType: int)

  /** `hal_sleep_config_t`: the mode and the linked list of wakeup sources, in list order. */
  datatype SleepConfig = SleepConfig(mode: nat, wakeupSources: seq<WakeupSource>)

  predicate IsEdgeMode(mode: int)
  {
    mode == RISING || mode == FALLING || mode == CHANGE
  }

  /** A GPIO source needs an edge mode (checked first) and a pin below TOTAL_PINS. */
  function ValidateGpioWakeupSource(mode: int, pin: nat, pinMode: int, totalPins: nat): (r: int)
    ensures r == NONE <==> IsEdgeMode(pinMode) && pin < totalPins
    ensures !IsEdgeMode(pinMode) ==> r == INVALID_ARGUMENT
    ensures IsEdgeMode(pinMode) && pin >= totalPins ==> r == LIMIT_EXCEEDED
  {
    if !IsEdgeMode(pinMode) then INVALID_ARGUMENT
    else if pin >= totalPins then LIMIT_EXCEEDED
    else NONE
  }

  /** An RTC source needs a non-zero period (in every mode) and cannot wake from hibernation. */
  function ValidateRtcWakeupSource(mode: int, ms: nat): (r: int)
    ensures r == NONE <==> ms != 0 && mode != HAL_SLEEP_MODE_HIBERNATE
    ensures ms == 0 ==> r == INVALID_ARGUMENT
    ensures ms != 0 && mode == HAL_SLEEP_MODE_HIBERNATE ==> r == NOT_SUPPORTED
  {
    if ms == 0 then INVALID_ARGUMENT
    else if mode == HAL_SLEEP_MODE_HIBERNATE then NOT_SUPPORTED
    else NONE
  }

  /** Network wakeup is accepted as it is (the check is not implemented). */
  function ValidateNetworkWakeupSource(mode: int): (r: int)
    ensures r == NONE
  {
    NONE
  }

  /** BLE cannot wake from hibernation. */
  function ValidateBleWakeupSource(mode: int): (r: int)
    ensures r == NONE <==> mode != HAL_SLEEP_MODE_HIBERNATE
    ensures r != NONE ==> r == NOT_SUPPORTED
  {
    if mode == HAL_SLEEP_MODE_HIBERNATE then NOT_SUPPORTED else NONE
  }

  /** Dispatch on the source type; a type with no validator is not supported. */
  function ValidateWakeupSource(mode: int, source: WakeupSource, totalPins: nat): (r: int)
    ensures r == NONE || IsError(r)
    ensures source.Other? ==> r == NOT_SUPPORTED
  {
    match source
    case Gpio(pin, pinMode) => ValidateGpioWakeupSource(mode, pin, pinMode, totalPins)
    case Rtc(ms) => ValidateRtcWakeupSource(mode, ms)
    case Network => ValidateNetworkWakeupSource(mode)
    case Ble => ValidateBleWakeupSource(mode)
    case Other(_) => NOT_SUPPORTED
  }

  /** The result of walking the sources in order: the error of the first one that fails, or NONE. */
  function FirstWakeupSourceError(mode: int, sources: seq<WakeupSource>, totalPins: nat): (r: int)
    ensures r == NONE || IsError(r)
  {
    if sources == [] then NONE
    else
      var e := ValidateWakeupSource(mode, sources[0], totalPins);
      if CheckFails(e) then e else FirstWakeupSourceError(mode, sources[1..], totalPins)
  }

  /** The list walk reports source `k`'s error exactly when every earlier source passed and `k` failed,
      and NONE exactly when every source passes. */
  lemma {:induction false} FirstWakeupSourceErrorIsFirstFailure(mode: int, sources: seq<WakeupSource>, totalPins: nat)
    ensures FirstWakeupSourceError(mode, sources, totalPins) == NONE <==>
      forall i :: 0 <= i < |sources| ==> ValidateWakeupSource(mode, sources[i], totalPins) == NONE
    ensures FirstWakeupSourceError(mode, sources, totalPins) != NONE ==>
      exists k :: 0 <= k < |sources| &&
        FirstWakeupSourceError(mode, sources, totalPins) == ValidateWakeupSource(mode, sources[k], totalPins) &&
        forall i :: 0 <= i < k ==> ValidateWakeupSource(mode, sources[i], totalPins) == NONE
  {
    if sources != [] {
      FirstWakeupSourceErrorIsFirstFailure(mode, sources[1..], totalPins);
      var e := ValidateWakeupSource(mode, sources[0], totalPins);
      if CheckFails(e) {
        assert ValidateWakeupSource(mode, sources[0], totalPins) != NONE;
      } else {
        assert e == NONE;
        forall i | 0 <= i < |sources| && i > 0
          ensures sources[i] == sources[1..][i - 1]
        {
        }
        if FirstWakeupSourceError(mode, sources, totalPins) != NONE {
          var k :| 0 <= k < |sources[1..]| &&
            FirstWakeupSourceError(mode, sources[1..], totalPins) == ValidateWakeupSource(mode, sources[1..][k], totalPins) &&
            forall i :: 0 <= i < k ==> ValidateWakeupSource(mode, sources[1..][i], totalPins) == NONE;
          assert forall i :: 0 <= i < k + 1 ==> ValidateWakeupSource(mode, sources[i], totalPins) == NONE by {
            forall i | 0 <= i < k + 1 ensures ValidateWakeupSource(mode, sources[i], totalPins) == NONE {
              if i > 0 {
                assert sources[i] == sources[1..][i - 1];
              }
            }
          }
          assert sources[k + 1] == sources[1..][k];
        }
      }
    }
  }

  /** `hal_sleep_validate_config` as a decision: the mode first (NONE or out of range is invalid, ultra-low
      power is not supported), then STOP needs a source, then the sources in list order. */
  function ValidateConfig(config: SleepConfig, totalPins: nat): (r: int)
    ensures r == NONE || IsError(r)
    ensures config.mode == HAL_SLEEP_MODE_NONE || config.mode >= HAL_SLEEP_MODE_MAX ==> r == INVALID_ARGUMENT
    ensures config.mode == HAL_SLEEP_MODE_ULTRA_LOW_POWER ==> r == NOT_SUPPORTED
    ensures config.mode == HAL_SLEEP_MODE_STOP && config.wakeupSources == [] ==> r == INVALID_ARGUMENT
  {
    if config.mode == HAL_SLEEP_MODE_NONE || config.mode >= HAL_SLEEP_MODE_MAX then INVALID_ARGUMENT
    else if config.mode == HAL_SLEEP_MODE_ULTRA_LOW_POWER then NOT_SUPPORTED
    else if config.mode == HAL_SLEEP_MODE_STOP && config.wakeupSources == [] then INVALID_ARGUMENT
    else FirstWakeupSourceError(config.mode, config.wakeupSources, totalPins)
  }

  /** The modes that pass the mode checks. */
  predicate SupportedMode(mode: int)
  {
    mode != HAL_SLEEP_MODE_NONE && mode < HAL_SLEEP_MODE_MAX && mode != HAL_SLEEP_MODE_ULTRA_LOW_POWER
  }

  /** A configuration is accepted exactly when its mode is supported, STOP has at least one source (HIBERNATE
      may have none) and every source passes its own check. */
  lemma ValidateConfigAccepts(config: SleepConfig, totalPins: nat)
    ensures ValidateConfig(config, totalPins) == NONE <==>
      SupportedMode(config.mode) &&
      (config.mode == HAL_SLEEP_MODE_STOP ==> config.wakeupSources != []) &&
      forall i :: 0 <= i < |config.wakeupSources| ==>
        ValidateWakeupSource(config.mode, config.wakeupSources[i], totalPins) == NONE
  {
    FirstWakeupSourceErrorIsFirstFailure(config.mode, config.wakeupSources, totalPins);
  }

  /** `hal_sleep_validate_config`, walking the source list with a loop as the source does. */
  method HalSleepValidateConfig(config: SleepConfig, totalPins: nat) returns (r: int)
    ensures r == ValidateConfig(config, totalPins)
  {
    if config.mode == HAL_SLEEP_MODE_NONE || config.mode >= HAL_SLEEP_MODE_MAX {
      return INVALID_ARGUMENT;
    }
    if config.mode == HAL_SLEEP_MODE_ULTRA_LOW_POWER {
      return NOT_SUPPORTED;
    }
    var sources := config.wakeupSources;
    if config.mode == HAL_SLEEP_MODE_STOP && sources == [] {
      return INVALID_ARGUMENT;
    }
    var i := 0;
    while i < |sources|
      invariant 0 <= i <= |sources|
      invariant FirstWakeupSourceError(config.mode, sources, totalPins) ==
        FirstWakeupSourceError(config.mode, sources[i..], totalPins)
    {
      var e := ValidateWakeupSource(config.mode, sources[i], totalPins);
      if CheckFails(e) {
        return e;
      }
      assert sources[i..][1..] == sources[i + 1..];
      i := i + 1;
    }
    return NONE;
  }

  /** What `hal_sleep_enter` does after its argument checks: return an error, enter one of the two sleeps,
      or (for ultra-low power) return NONE without sleeping. */
  datatype SleepEntry =
    | Rejected(error: int)
    | EnterStopMode
    | EnterHibernateMode
    | NoSleep

  /** The argument checks of `hal_sleep_enter`: a null configuration is invalid, a configuration that fails
      validation is rejected with that error, and the mode then chooses the sleep to enter. It acts only on a
      validated configuration (STOP with at least one source, or HIBERNATE), every rejection carries an error
      code, and the ultra-low-power case is never reached because validation rejects that mode. */
  function SleepEnterChecks(config: Basics.Option<SleepConfig>, totalPins: nat): (entry: SleepEntry)
    ensures config.None? ==> entry == Rejected(INVALID_ARGUMENT)
    ensures config.Some? && ValidateConfig(config.value, totalPins) != NONE ==>
      entry == Rejected(ValidateConfig(config.value, totalPins))
    ensures entry.Rejected? ==> IsError(entry.error)
    ensures entry == EnterStopMode ==>
      config.Some? && ValidateConfig(config.value, totalPins) == NONE &&
      config.value.mode == HAL_SLEEP_MODE_STOP && config.value.wakeupSources != []
    ensures entry == EnterHibernateMode ==>
      config.Some? && ValidateConfig(config.value, totalPins) == NONE && config.value.mode == HAL_SLEEP_MODE_HIBERNATE
    ensures entry != NoSleep
  {
    if config.None? then Rejected(INVALID_ARGUMENT)
    else
      var check := ValidateConfig(config.value, totalPins);
      if CheckFails(check) then Rejected(check)
      else if config.value.mode == HAL_SLEEP_MODE_STOP then EnterStopMode
      else if config.value.mode == HAL_SLEEP_MODE_ULTRA_LOW_POWER then NoSleep
      else if config.value.mode == HAL_SLEEP_MODE_HIBERNATE then EnterHibernateMode
      else Rejected(NOT_SUPPORTED)
  }
}
