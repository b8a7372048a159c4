/**
 The position synchroniser: main.c's SysTick_Handler, run once per 1 ms tick.
 It turns the wrapping 16-bit spindle counter into a 32-bit position biased at
 2^31, scales that position by the selected 16.16 fixed-point ratio into a
 target stepper position, and commands the stepper to close the gap, latching a
 fault when the gap is more than one pulse train can cover or the drive alarms.

 The tick is a pure function of the synchroniser's state (the handler's
 function-local statics), the three globals it shares with the user interface,
 the counter reading, the drive's idle status and the alarm sample. The
 firmware's FROM_FIXED_MULT macro is defined in config.h, which is not part of
 this model; it is the parameter `fromFixed`, and its result is truncated to
 uint32_t as the assignment does.
 */
module Sync {
  import opened Word
  import Servo

  /** Initial value of both position accumulators, and their re-baseline point. */
  const BIAS: U32 := 0x8000_0000
  /** Below this the spindle accumulator is about to wrap: re-baseline. */
  const LOW_WATER: int := 10000
  /** The most pulses one train can hold (the timer's 8-bit repeat counter). */
  const MAX_STEPS: int := 255
  /** Reversals of fewer counts than this are treated as encoder jitter. */
  const JITTER_LIMIT: int := 10

  /** The `fault` global: 0, FAULT_TOO_MANY_STEPS or FAULT_SERVO_ALARM. */
  datatype Fault = NoFault | TooManySteps | ServoAlarm
  {
    function Code(): (c: U8)
      ensures c <= 2
      ensures (c == 0) == (this == NoFault)
    {
      match this
      case NoFault => 0
      case TooManySteps => 1
      case ServoAlarm => 2
    }
  }

  /**
   The three globals shared with the user interface: the ratio
   (`steps_per_pulse`) and `reverse` it writes, and the `fault` this tick
   raises and only the user interface clears.
   */
  datatype Shared = Shared(ratio: U32, reverse: bool, fault: Fault)

  /** What the tick tells the drive: nothing, servo_stop, or
      servo_set_direction followed by servo_step(count). */
  datatype Command = Hold | Stop | Move(reverseDirection: bool, count: U8)

  /** The statics of SysTick_Handler, the tick counter it advances, and the
      alarm debouncer it polls. */
  datatype SyncState = SyncState(
    ticks: U32,
    servoCurrent: U32,
    encoderCurrent: U32,
    lastRatio: U32,
    lastReverse: bool,
    lastEncoderPos: U16,
    lastEncoderDiff: I16,
    steps: I32,
    alarm: Servo.AlarmDebounce)

  /** Power-up values; last_steps_per_pulse starts at (uint32_t)-1. */
  const SyncInit: SyncState :=
    SyncState(0, BIAS, BIAS, TWO32 - 1, false, 0, 0, 0, Servo.AlarmInit)

  datatype TickResult = TickResult(state: SyncState, fault: Fault, command: Command)

  /** `(int16_t)(encoder_pos - last_encoder_pos)`: the signed motion since the
      last reading, recovered from the wrapping counter. */
  function EncoderDiff(raw: U16, last: U16): (d: I16)
    ensures ToU16(last + d) == raw
    ensures -TWO15 <= raw - last < TWO15 ==> d == raw - last
  {
    var d := ToI16(raw - last);
    ShiftMod(raw - last, (d - (raw - last)) / TWO16, TWO16);
    d
  }

  /** Bit 31 of an int operand, its two's-complement sign bit. */
  function SignBit(x: I32): (b: int)
    ensures b == 0 || b == 1
  {
    ToU32(x) / TWO31
  }

  /**
   `(a ^ b) < 0` as C evaluates it: both int16_t operands are promoted to
   32-bit int and XORed bit by bit; the result is negative when its bit 31,
   the XOR of the operands' bits 31, is set.
   */
  predicate XorNegative(a: I16, b: I16)
  {
    SignBit(a) != SignBit(b)
  }

  /** The XOR test is the opposite-sign test, with 0 counted as non-negative. */
  lemma XorSignTest(a: I16, b: I16)
    ensures XorNegative(a, b) <==> ((a < 0) != (b < 0))
  {
    SignBitIsNegative(a);
    SignBitIsNegative(b);
  }

  /** The sign bit of a two's-complement int is set exactly for negatives. */
  lemma SignBitIsNegative(x: I32)
    ensures SignBit(x) == 1 <==> x < 0
  {
    if x < 0 {
      assert ToU32(x) == x + TWO32;
    } else {
      assert ToU32(x) == x;
    }
  }

  /** The tick discards the reading as jitter (main.c:73-75). */
  predicate Filtered(s: SyncState, raw: U16)
  {
    var d := EncoderDiff(raw, s.lastEncoderPos);
    XorNegative(d, s.lastEncoderDiff) && -JITTER_LIMIT < d < JITTER_LIMIT
  }

  /** Jitter is a small motion against the direction of the last accepted one. */
  lemma FilteredIsSmallReversal(s: SyncState, raw: U16)
    ensures var d := EncoderDiff(raw, s.lastEncoderPos);
            Filtered(s, raw) <==> (d < 0) != (s.lastEncoderDiff < 0) && -JITTER_LIMIT < d < JITTER_LIMIT
  {
    XorSignTest(EncoderDiff(raw, s.lastEncoderPos), s.lastEncoderDiff);
  }

  /** The tick re-baselines both accumulators (main.c:87-89). */
  predicate Rebaselines(s: SyncState, sh: Shared, raw: U16)
  {
    var d := EncoderDiff(raw, s.lastEncoderPos);
    || sh.ratio != s.lastRatio
    || sh.reverse != s.lastReverse
    || ToU32(s.encoderCurrent + d) < LOW_WATER
  }

  /**
   `FROM_FIXED_MULT(((uint64_t)position << 16) * ratio)` stored in a uint32_t:
   the product is formed in 64 bits and wraps there.
   */
  function Scale(position: U32, ratio: U32, fromFixed: U64 -> int): U32
  {
    ToU32(fromFixed(ToU64(position * TWO16 * ratio)))
  }

  function Abs(x: int): (a: nat)
    ensures a == x || a == -x
  {
    if x < 0 then -x else x
  }

  /**
   main.c:69-95 on a tick that is not filtered: fold the counter's motion into
   the 32-bit spindle position, then re-baseline if the ratio or direction
   changed or the position is near the bottom of its range.
   */
  function Accumulate(s: SyncState, sh: Shared, raw: U16, fromFixed: U64 -> int): (m: SyncState)
    ensures m.lastEncoderPos == raw
    ensures m.lastEncoderDiff == EncoderDiff(raw, s.lastEncoderPos)
    ensures m.ticks == s.ticks && m.steps == s.steps && m.alarm == s.alarm
    ensures !Rebaselines(s, sh, raw) ==>
              && m.encoderCurrent == ToU32(s.encoderCurrent + EncoderDiff(raw, s.lastEncoderPos))
              && m.servoCurrent == s.servoCurrent
              && m.lastRatio == s.lastRatio && m.lastReverse == s.lastReverse
    ensures Rebaselines(s, sh, raw) ==>
              && m.encoderCurrent == ToU32(BIAS + EncoderDiff(raw, s.lastEncoderPos))
              && m.servoCurrent == Scale(BIAS, sh.ratio, fromFixed)
              && m.lastRatio == sh.ratio && m.lastReverse == sh.reverse
  {
    var d := EncoderDiff(raw, s.lastEncoderPos);
    var s1 := s.(lastEncoderDiff := d, lastEncoderPos := raw,
                 encoderCurrent := ToU32(s.encoderCurrent + d));
    if Rebaselines(s, sh, raw) then
      s1.(lastRatio := sh.ratio, lastReverse := sh.reverse,
          encoderCurrent := ToU32(BIAS + d),
          servoCurrent := Scale(BIAS, sh.ratio, fromFixed))
    else
      s1
  }

  /**
   One run of SysTick_Handler. `raw` is the spindle counter, `idle` the drive's
   servo_is_idle, and `alarmSample` the byte servo_alarm_get reads from the
   alarm pin (see Servo.AlarmSample).
   */
  function Tick(s: SyncState, sh: Shared, raw: U16, idle: bool, alarmSample: U8,
                fromFixed: U64 -> int): (r: TickResult)
    // the tick counter advances on every tick, filtered or not
    ensures r.state.ticks == ToU32(s.ticks + 1)
    // a jitter-filtered tick changes nothing else, raises no fault, commands nothing
    ensures Filtered(s, raw) ==>
              r.state == s.(ticks := r.state.ticks) && r.fault == sh.fault && r.command == Hold
    ensures !Filtered(s, raw) ==>
              var m := Accumulate(s, sh, raw, fromFixed);
              var alarmOn := Servo.AlarmGet(s.alarm, alarmSample).1 != 0;
              && r.state.lastEncoderPos == raw
              && r.state.lastEncoderDiff == EncoderDiff(raw, s.lastEncoderPos)
              && r.state.encoderCurrent == m.encoderCurrent
              && r.state.alarm == Servo.AlarmGet(s.alarm, alarmSample).0
              // `steps` is the move that takes the believed position to the target
              && ToU32(m.servoCurrent + r.state.steps) == Scale(m.encoderCurrent, m.lastRatio, fromFixed)
              // fault latching: the alarm wins, then the step cap, else unchanged
              && (alarmOn ==> r.fault == ServoAlarm)
              && (!alarmOn && Abs(r.state.steps) > MAX_STEPS ==> r.fault == TooManySteps)
              && (!alarmOn && Abs(r.state.steps) <= MAX_STEPS ==> r.fault == sh.fault)
              // while a fault is latched: stop, no move, force a re-baseline later
              && (r.fault != NoFault ==>
                    && r.command == Stop
                    && r.state.servoCurrent == m.servoCurrent
                    && r.state.lastRatio == 0
                    && r.state.lastReverse == m.lastReverse)
              // otherwise move by `steps` when there are any and the drive is idle
              && (r.fault == NoFault ==>
                    && r.state.lastRatio == m.lastRatio
                    && r.state.lastReverse == m.lastReverse
                    && (r.state.steps != 0 && idle ==>
                          && r.command == Move((r.state.steps < 0) != sh.reverse, Abs(r.state.steps))
                          && 1 <= Abs(r.state.steps) <= MAX_STEPS
                          && r.state.servoCurrent == Scale(m.encoderCurrent, m.lastRatio, fromFixed))
                    && (r.state.steps == 0 || !idle ==>
                          r.command == Hold && r.state.servoCurrent == m.servoCurrent))
    // the tick never clears a fault
    ensures sh.fault != NoFault ==> r.fault != NoFault
  {
    var ticks := ToU32(s.ticks + 1);
    if Filtered(s, raw) then
      TickResult(s.(ticks := ticks), sh.fault, Hold)
    else
      var m := Accumulate(s, sh, raw, fromFixed);
      var target := Scale(m.encoderCurrent, m.lastRatio, fromFixed);
      var steps := ToI32(target - m.servoCurrent);
      var absSteps := Abs(steps);
      var (alarm, alarmOn) := Servo.AlarmGet(s.alarm, alarmSample);
      var fault :=
        if alarmOn != 0 then ServoAlarm
        else if absSteps > MAX_STEPS then TooManySteps
        else sh.fault;
      var m' := m.(ticks := ticks, steps := steps, alarm := alarm);
      StepReachesTarget(m.servoCurrent, target);
      if fault != NoFault then
        TickResult(m'.(lastRatio := 0), fault, Stop)
      else if steps != 0 && idle then
        TickResult(m'.(servoCurrent := ToU32(m.servoCurrent + steps)), NoFault,
                   Move((steps < 0) != sh.reverse, ToU8(absSteps)))
      else
        TickResult(m', NoFault, Hold)
  }

  /**
   The jitter filter returns before the fault logic: a filtered tick neither
   polls the alarm nor calls servo_stop, even while a fault is latched, and
   leaves the fault as it was.
   */
  lemma FilteredTickSkipsFaultHandling(s: SyncState, sh: Shared, raw: U16, idle: bool, alarmSample: U8,
                                       fromFixed: U64 -> int)
    requires Filtered(s, raw)
    ensures var r := Tick(s, sh, raw, idle, alarmSample, fromFixed);
            && r.command == Hold && r.fault == sh.fault
            && r.state.alarm == s.alarm && r.state.lastRatio == s.lastRatio
  {
  }

  /** A reversal of three counts after a forward move of five is filtered:
      the spindle position and the remembered difference stay as they were. */
  lemma JitterExample(s: SyncState, sh: Shared, idle: bool, alarmSample: U8, fromFixed: U64 -> int)
    requires s.lastEncoderDiff == 5
    ensures var raw := ToU16(s.lastEncoderPos - 3);
            && Filtered(s, raw)
            && Tick(s, sh, raw, idle, alarmSample, fromFixed).state.encoderCurrent == s.encoderCurrent
            && Tick(s, sh, raw, idle, alarmSample, fromFixed).state.lastEncoderDiff == 5
  {
    var raw := ToU16(s.lastEncoderPos - 3);
    assert EncoderDiff(raw, s.lastEncoderPos) == -3 by {
      ShiftMod(s.lastEncoderPos - 3, 0, TWO16);
    }
    XorSignTest(-3, 5);
  }

  /**
   A move command's count always fits the servo's repetition counter: it lies
   in [1, 255], so servo_step's `steps - 1` emits exactly that many pulses and
   never wraps to the 2^32 - 1 that a count of 0 would program.
   */
  lemma MoveFitsRepeatCounter(s: SyncState, sh: Shared, raw: U16, idle: bool, alarmSample: U8,
                              fromFixed: U64 -> int)
    ensures var c := Tick(s, sh, raw, idle, alarmSample, fromFixed).command;
            c.Move? ==> 1 <= c.count <= MAX_STEPS && Servo.RepeatCount(c.count) + 1 == c.count
  {
  }

  /** Adding `(int32_t)(target - current)` to `current` in 32 bits gives `target`. */
  lemma StepReachesTarget(current: U32, target: U32)
    ensures ToU32(current + ToI32(target - current)) == target
  {
    var st := ToI32(target - current);
    var q := (st - (target - current)) / TWO32;
    assert st == (target - current) + q * TWO32;
    assert current + st == target + q * TWO32;
    ShiftMod(target, q, TWO32);
  }

  /** One tick's worth of external inputs. */
  datatype TickInput = TickInput(raw: U16, idle: bool, alarmSample: U8)

  /**
   A run of ticks with the user interface's ratio and direction held fixed;
   the fault each tick raises is seen by the next.
   */
  function RunTicks(s: SyncState, sh: Shared, ins: seq<TickInput>, fromFixed: U64 -> int): (SyncState, Fault)
    decreases |ins|
  {
    if ins == [] then (s, sh.fault)
    else
      var r := Tick(s, sh, ins[0].raw, ins[0].idle, ins[0].alarmSample, fromFixed);
      RunTicks(r.state, sh.(fault := r.fault), ins[1..], fromFixed)
  }

  /** No tick of the run is filtered and none re-baselines. */
  predicate Smooth(s: SyncState, sh: Shared, ins: seq<TickInput>, fromFixed: U64 -> int)
    decreases |ins|
  {
    ins != [] ==>
      && !Filtered(s, ins[0].raw)
      && !Rebaselines(s, sh, ins[0].raw)
      && var r := Tick(s, sh, ins[0].raw, ins[0].idle, ins[0].alarmSample, fromFixed);
         Smooth(r.state, sh.(fault := r.fault), ins[1..], fromFixed)
  }

  /** The sum of the signed counter differences over a run of readings. */
  function SumDiffs(last: U16, ins: seq<TickInput>): int
    decreases |ins|
  {
    if ins == [] then 0
    else EncoderDiff(ins[0].raw, last) + SumDiffs(ins[0].raw, ins[1..])
  }

  /**
   Conservation: over a run with no filtered tick and no re-baseline, the
   spindle accumulator moves by exactly the sum of the counter differences
   (modulo 2^32), and remembers the last reading.
   */
  lemma {:induction false} Conservation(s: SyncState, sh: Shared, ins: seq<TickInput>, fromFixed: U64 -> int)
    requires Smooth(s, sh, ins, fromFixed)
    ensures RunTicks(s, sh, ins, fromFixed).0.encoderCurrent
         == ToU32(s.encoderCurrent + SumDiffs(s.lastEncoderPos, ins))
    ensures ins != [] ==> RunTicks(s, sh, ins, fromFixed).0.lastEncoderPos == ins[|ins| - 1].raw
    decreases |ins|
  {
    if ins != [] {
      var r := Tick(s, sh, ins[0].raw, ins[0].idle, ins[0].alarmSample, fromFixed);
      var d := EncoderDiff(ins[0].raw, s.lastEncoderPos);
      Conservation(r.state, sh.(fault := r.fault), ins[1..], fromFixed);
      assert r.state.encoderCurrent == ToU32(s.encoderCurrent + d);
      AddMod(s.encoderCurrent + d, SumDiffs(ins[0].raw, ins[1..]), TWO32);
      if ins[1..] != [] {
        assert ins[1..][|ins[1..]| - 1] == ins[|ins| - 1];
      }
    }
  }

  /**
   The sum of the differences recovers the counter's own motion: modulo 2^16
   the last reading is the first plus the sum, so no count is lost to the
   16-bit wrap.
   */
  lemma {:induction false} SumDiffsTracksCounter(last: U16, ins: seq<TickInput>)
    requires ins != []
    ensures ToU16(last + SumDiffs(last, ins)) == ins[|ins| - 1].raw
    decreases |ins|
  {
    var d := EncoderDiff(ins[0].raw, last);
    if |ins| == 1 {
      assert SumDiffs(last, ins) == d;
    } else {
      SumDiffsTracksCounter(ins[0].raw, ins[1..]);
      assert ins[1..][|ins[1..]| - 1] == ins[|ins| - 1];
      var rest := SumDiffs(ins[0].raw, ins[1..]);
      assert ToU16(last + d) == ins[0].raw;
      AddMod(last + d, rest, TWO16);
    }
  }

  /**
   A tick that latches a fault leaves last_steps_per_pulse at 0, so once the
   fault is cleared the first unfiltered tick with a non-zero ratio
   re-baselines instead of resuming from the stale positions.
   */
  lemma ClearedFaultRebaselines(s: SyncState, sh: Shared, raw: U16, idle: bool, alarmSample: U8,
                                fromFixed: U64 -> int, sh': Shared, raw': U16)
    requires !Filtered(s, raw)
    requires Tick(s, sh, raw, idle, alarmSample, fromFixed).fault != NoFault
    requires sh'.ratio != 0
    ensures Rebaselines(Tick(s, sh, raw, idle, alarmSample, fromFixed).state, sh', raw')
  {
  }

  /**
   With FROM_FIXED_MULT dropping 32 fraction bits, the target is the 16.16
   product position * ratio / 2^16 truncated to uint32_t: the wrap of the
   64-bit intermediate loses nothing the 32-bit result keeps.
   */
  lemma ScaleIsFixedPointProduct(position: U32, ratio: U32)
    ensures Scale(position, ratio, FromFixedShift) == ToU32((position * ratio) / TWO16)
  {
    var x := position * TWO16 * ratio;
    assert x == TWO16 * (position * ratio);
    DivCancel(position * ratio, TWO16, TWO16);
    DropLowBits(x);
  }

  /** The FROM_FIXED_MULT the 16.16 format calls for: drop 32 fraction bits
      (16 from the shifted position, 16 from the ratio). */
  function FromFixedShift(x: U64): int
  {
    x / TWO32
  }

  /**
   Ratio-change safety: on a tick that re-baselines (a new ratio or direction,
   or the low-water mark), with FROM_FIXED_MULT dropping 32 fraction bits,
   the commanded step count is the current tick's own motion scaled by the new
   ratio, floor(diff * ratio / 2^16); none of it comes from the change.
   */
  lemma RebaselineStepsOnlyFromMotion(s: SyncState, sh: Shared, raw: U16, idle: bool, alarmSample: U8)
    requires !Filtered(s, raw) && Rebaselines(s, sh, raw)
    ensures Tick(s, sh, raw, idle, alarmSample, FromFixedShift).state.steps
         == (EncoderDiff(raw, s.lastEncoderPos) * sh.ratio) / TWO16
  {
    var d := EncoderDiff(raw, s.lastEncoderPos);
    var m := Accumulate(s, sh, raw, FromFixedShift);
    var target := Scale(m.encoderCurrent, m.lastRatio, FromFixedShift);
    assert Tick(s, sh, raw, idle, alarmSample, FromFixedShift).state.steps
        == ToI32(target - m.servoCurrent);
    RebaselineArithmetic(d, sh.ratio);
  }

  /**
   Consequently a change of ratio or direction raises no fault of its own: if
   the current tick's motion, scaled by the new ratio, fits one pulse train and
   the drive does not alarm, the re-baselining tick leaves the fault as it was.
   */
  lemma RatioChangeRaisesNoFault(s: SyncState, sh: Shared, raw: U16, idle: bool, alarmSample: U8)
    requires !Filtered(s, raw) && Rebaselines(s, sh, raw)
    requires Servo.AlarmGet(s.alarm, alarmSample).1 == 0
    requires Abs((EncoderDiff(raw, s.lastEncoderPos) * sh.ratio) / TWO16) <= MAX_STEPS
    ensures Tick(s, sh, raw, idle, alarmSample, FromFixedShift).fault == sh.fault
  {
    RebaselineStepsOnlyFromMotion(s, sh, raw, idle, alarmSample);
  }

  /**
   The arithmetic behind RebaselineStepsOnlyFromMotion: from the re-baselined
   positions 2^31 + d and the scaled bias, the 32-bit step difference is
   floor(d * k / 2^16).
   */
  lemma RebaselineArithmetic(d: I16, k: U32)
    ensures ToI32(Scale(ToU32(BIAS + d), k, FromFixedShift) - Scale(BIAS, k, FromFixedShift))
         == (d * k) / TWO16
  {
    var f := (d * k) / TWO16;
    var x := (TWO31 + d) * TWO16 * k;
    var y := TWO31 * TWO16 * k;
    assert ToU32(BIAS + d) == TWO31 + d;
    assert x / TWO32 == TWO15 * k + f by {
      ProductSplit(d, k);
      DivAddMultiple(TWO15 * k, TWO16 * (d * k), TWO32);
      DivCancel(d * k, TWO16, TWO16);
    }
    assert y / TWO32 == TWO15 * k by {
      assert y == (TWO15 * k) * TWO32 + 0;
      DivAddMultiple(TWO15 * k, 0, TWO32);
    }
    assert Scale(TWO31 + d, k, FromFixedShift) == ToU32(TWO15 * k + f) by {
      DropLowBits(x);
    }
    assert Scale(BIAS, k, FromFixedShift) == ToU32(TWO15 * k) by {
      DropLowBits(y);
    }
    StepBounds(d, k);
    ResidueDifference(TWO15 * k + f, TWO15 * k);
  }

  lemma ProductSplit(d: int, k: int)
    ensures (TWO31 + d) * TWO16 * k == (TWO15 * k) * TWO32 + TWO16 * (d * k)
  {
  }

  /** Truncating the 64-bit product before dropping 32 bits changes nothing
      once the result is itself truncated to 32 bits. */
  lemma DropLowBits(x: int)
    requires x >= 0
    ensures ToU32(ToU64(x) / TWO32) == ToU32(x / TWO32)
  {
    var q := x / TWO64;
    var m := ToU64(x);
    assert x == q * TWO64 + m;
    assert x == (q * TWO32) * TWO32 + m;
    DivAddMultiple(q * TWO32, m, TWO32);
    ShiftMod(m / TWO32, q, TWO32);
  }

  lemma DivAddMultiple(a: int, b: int, c: int)
    requires c > 0
    ensures (a * c + b) / c == a + b / c
  {
    var q := b / c;
    var r := b % c;
    assert b == q * c + r;
    assert a * c + b == (a + q) * c + r;
    DivUnique(a * c + b, a + q, r, c);
  }

  lemma DivUnique(x: int, d: int, r: int, m: int)
    requires m > 0 && 0 <= r < m && x == d * m + r
    ensures x / m == d
  {
    ModUnique(x, d, r, m);
  }

  lemma DivCancel(y: int, k: int, c: int)
    requires k > 0 && c > 0
    ensures (k * y) / (k * c) == y / c
  {
    var q := y / c;
    var r := y % c;
    assert y == q * c + r;
    assert k * y == q * (k * c) + k * r;
    assert 0 <= k * r < k * c;
    DivUnique(k * y, q, k * r, k * c);
  }

  /** floor(d * k / 2^16) fits int32_t for every int16_t d and uint32_t k. */
  lemma StepBounds(d: I16, k: U32)
    ensures -TWO31 <= (d * k) / TWO16 < TWO31
  {
    if k == 0 {
      assert d * k == 0;
    } else {
      MulLe(-TWO15, d, k);
      MulLe(d, TWO15, k);
      MulLe(k, TWO32, TWO15);
      assert -TWO31 * TWO16 <= d * k < TWO31 * TWO16;
      DivWithin(d * k, TWO16, -TWO31, TWO31);
    }
  }

  lemma MulLe(a: int, b: int, m: int)
    requires a <= b && m > 0
    ensures a * m <= b * m
  {
    MulSub(b, a, m);
    if a < b {
      MulAtLeast(b - a, m);
    }
  }

  /** Bounds on a quotient follow from bounds on the dividend. */
  lemma DivWithin(p: int, m: int, lo: int, hi: int)
    requires m > 0 && lo * m <= p < hi * m
    ensures lo <= p / m < hi
  {
    var q := p / m;
    assert p == q * m + p % m;
    if q < lo {
      MulLe(q + 1, lo, m);
    }
    if q >= hi {
      MulLe(hi, q, m);
    }
  }

  /** The int32_t difference of two uint32_t residues is the true difference
      whenever that fits. */
  lemma ResidueDifference(a: int, b: int)
    requires -TWO31 <= a - b < TWO31
    ensures ToI32(ToU32(a) - ToU32(b)) == a - b
  {
    var qa := a / TWO32;
    var qb := b / TWO32;
    assert a == qa * TWO32 + ToU32(a);
    assert b == qb * TWO32 + ToU32(b);
    assert ToU32(a) - ToU32(b) == (a - b) + (qb - qa) * TWO32;
    ShiftMod(a - b, qb - qa, TWO32);
  }
}
