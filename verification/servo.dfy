/**
 servo.c: the step/direction actuator. The timer and GPIO register accesses are
 not modelled; what is modelled is the repeat-count arithmetic of servo_step and
 the alarm input's debouncer, servo_alarm_get.
 */
module Servo {
  import opened Word
  import opened Build

  /** The alarm input is pin 10 of port A; GPIO_IDR_IDR10 is its mask 0x400. */
  const ALARM_PIN: nat := 10
  const ALARM_MASK: int := 0x400
  /** A sample must be repeated until the counter exceeds this to be reported. */
  const STABLE_LIMIT: int := 10

  /** The three function-local statics of servo_alarm_get. */
  datatype AlarmDebounce = AlarmDebounce(value: U8, lastValue: U8, stableCount: U8)

  const AlarmInit: AlarmDebounce := AlarmDebounce(0, 0, 0)

  /**
   The byte servo_alarm_get samples from the port's input data register. As
   written, the masked value 0x400 is stored in a uint8_t, which keeps only the
   low eight bits, so the sample is 0 whatever the pin reads. Corrected, the
   sample is 1 exactly when the pin reads high.
   */
  function AlarmSample(rev: Revision, idr: U32): (s: U8)
    ensures rev == AsWritten ==> s == 0
    ensures rev == Corrected ==> s <= 1 && (s == 1 <==> Bit(idr, ALARM_PIN) == 1)
  {
    match rev
    case AsWritten => ToU8(Bit(idr, ALARM_PIN) * ALARM_MASK)
    case Corrected => Bit(idr, ALARM_PIN)
  }

  /**
   One call of servo_alarm_get with the given sample: the result is the
   reported (debounced) alarm value, which is also the new `value`.
   */
  function AlarmGet(d: AlarmDebounce, sample: U8): (r: (AlarmDebounce, U8))
    ensures r.1 == r.0.value
    ensures r.0.lastValue == sample
    // a change of sample restarts the stability count and reports the old value
    ensures sample != d.lastValue ==> r.0.stableCount == 1 && r.1 == d.value
    // the reported value only ever changes to the sample being repeated
    ensures r.1 == d.value || r.1 == sample
    // the uint8_t counter saturates at 11 and never wraps
    ensures d.stableCount <= STABLE_LIMIT + 1 ==> r.0.stableCount <= STABLE_LIMIT + 1
  {
    var last := sample;
    var count := if sample != d.lastValue then 0 else d.stableCount;
    if count > STABLE_LIMIT then (AlarmDebounce(last, last, count), last)
    else (AlarmDebounce(d.value, last, ToU8(count + 1)), d.value)
  }

  /** The debouncer's state after `n` consecutive calls with the same sample. */
  function AlarmRepeat(d: AlarmDebounce, sample: U8, n: nat): AlarmDebounce
    decreases n
  {
    if n == 0 then d else AlarmRepeat(AlarmGet(d, sample).0, sample, n - 1)
  }

  /** The debouncer's state after one call per sample, in order. */
  function AlarmFeed(d: AlarmDebounce, samples: seq<U8>): AlarmDebounce
    decreases |samples|
  {
    if samples == [] then d else AlarmFeed(AlarmGet(d, samples[0]).0, samples[1..])
  }

  /**
   Once the last sample is being repeated with count `c`, the reported value
   becomes that sample exactly when `c + n` reaches 12 calls' worth, and the
   count stops at 11.
   */
  lemma {:induction false} AlarmRepeatStable(d: AlarmDebounce, sample: U8, n: nat)
    requires d.lastValue == sample && d.stableCount <= STABLE_LIMIT + 1
    ensures AlarmRepeat(d, sample, n).stableCount == Min(d.stableCount + n, STABLE_LIMIT + 1)
    ensures AlarmRepeat(d, sample, n).value
         == if d.stableCount + n >= STABLE_LIMIT + 2 then sample else d.value
    decreases n
  {
    if n > 0 {
      AlarmRepeatStable(AlarmGet(d, sample).0, sample, n - 1);
    }
  }

  /**
   A new alarm level is reported after twelve consecutive identical samples,
   counting the one that changed it, and not before.
   */
  lemma AlarmSettlesAfterTwelve(d: AlarmDebounce, sample: U8, n: nat)
    requires sample != d.lastValue && 1 <= n
    ensures AlarmRepeat(d, sample, n).value == if n >= 12 then sample else d.value
  {
    var d1 := AlarmGet(d, sample).0;
    assert AlarmRepeat(d, sample, n) == AlarmRepeat(d1, sample, n - 1);
    AlarmRepeatStable(d1, sample, n - 1);
  }

  /**
   The reported value is always one that was sampled, or one the debouncer
   already held: nothing else can appear.
   */
  lemma {:induction false} AlarmReportsSampledValue(d: AlarmDebounce, samples: seq<U8>, seen: set<U8>)
    requires d.value in seen && d.lastValue in seen
    requires forall i :: 0 <= i < |samples| ==> samples[i] in seen
    ensures AlarmFeed(d, samples).value in seen
    ensures AlarmFeed(d, samples).lastValue in seen
    decreases |samples|
  {
    if samples != [] {
      AlarmReportsSampledValue(AlarmGet(d, samples[0]).0, samples[1..], seen);
    }
  }

  /**
   As written, the alarm is never reported: from power-up, whatever the alarm
   pin does, servo_alarm_get returns 0.
   */
  lemma AsWrittenAlarmNeverReported(idrs: seq<U32>)
    ensures AlarmFeed(AlarmInit, SampleAll(AsWritten, idrs)).value == 0
  {
    AlarmReportsSampledValue(AlarmInit, SampleAll(AsWritten, idrs), {0});
  }

  /**
   Corrected, an alarm pin held high for twelve samples after power-up is
   reported as alarm value 1.
   */
  lemma CorrectedAlarmReported(idr: U32, n: nat)
    requires Bit(idr, ALARM_PIN) == 1 && n >= 12
    ensures AlarmRepeat(AlarmInit, AlarmSample(Corrected, idr), n).value == 1
  {
    AlarmSettlesAfterTwelve(AlarmInit, AlarmSample(Corrected, idr), n);
  }

  function SampleAll(rev: Revision, idrs: seq<U32>): (samples: seq<U8>)
    ensures |samples| == |idrs|
    ensures forall i :: 0 <= i < |idrs| ==> samples[i] == AlarmSample(rev, idrs[i])
  {
    seq(|idrs|, i requires 0 <= i < |idrs| => AlarmSample(rev, idrs[i]))
  }

  /**
   servo_step(n) loads the timer's repeat counter with n - 1 (as a 32-bit
   register word); in one-pulse mode the timer then emits repeat + 1 pulses,
   so for every count the synchroniser issues, 1..255, exactly n pulses go out.
   */
  function RepeatCount(n: U8): (rcr: U32)
    ensures 1 <= n ==> rcr + 1 == n && rcr <= 254
    ensures n == 0 ==> rcr == TWO32 - 1
  {
    ToU32(n - 1)
  }
}
