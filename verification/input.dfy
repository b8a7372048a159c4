/**
 input.c: the push button's debouncer and click aggregator, input_button_get,
 and the rotary encoder's count register as the user interface sees it.
 */
module Input {
  import opened Word

  /** A press must be stable for longer than this many ticks to count. */
  const DEBOUNCE_TIME: int := 50
  /** A burst of clicks is reported once no click was added for this long. */
  const CLICK_COUNT_TIME: int := 250
  /** The button is pin 2 of port A; GPIO_IDR_IDR2 is its mask 0x4. */
  const BUTTON_PIN: nat := 2
  const BUTTON_MASK: int := 0x4

  /** The five function-local statics of input_button_get. */
  datatype Button = Button(clickCount: U8, counted: bool, countTime: U32, level: U8, transitionTime: U32)

  const ButtonInit: Button := Button(0, false, 0, 0, 0)

  /** The byte input_button_get samples: 4 while the pin reads high, else 0. */
  function ButtonSample(idr: U32): (s: U8)
    ensures s == 0 || s == BUTTON_MASK
    ensures s != 0 <==> Bit(idr, BUTTON_PIN) == 1
  {
    ToU8(Bit(idr, BUTTON_PIN) * BUTTON_MASK)
  }

  /**
   The call counts a click: the level is unchanged since the last call and
   non-zero, no click was counted for it yet, and it has been stable for longer
   than the debounce time.
   */
  predicate CountsClick(b: Button, idr: U32, now: U32)
  {
    && ButtonSample(idr) == b.level
    && b.level != 0
    && !b.counted
    && Elapsed(now, b.transitionTime) > DEBOUNCE_TIME
  }

  /**
   One call of input_button_get at time `now` with the port's input register
   `idr`: the new state and the number of clicks reported (0 for none).
   */
  function ButtonGet(b: Button, idr: U32, now: U32): (r: (Button, U8))
    // a level change records the transition, re-arms counting, adds no click
    ensures ButtonSample(idr) != b.level ==>
              && r.0.level == ButtonSample(idr)
              && r.0.transitionTime == now
              && !r.0.counted
    // a counted click is added to the burst, which is then not reported yet
    ensures CountsClick(b, idr, now) ==>
              && r.0.counted && r.0.countTime == now
              && r.0.clickCount == ToU8(b.clickCount + 1)
              && r.1 == 0
    // otherwise no click is added: the pending count is kept or handed out
    ensures !CountsClick(b, idr, now) ==> r.0.clickCount + r.1 == b.clickCount
    // the burst is reported, and the count reset, exactly when it is non-empty
    // and has been quiet for longer than the aggregation window
    ensures r.1 != 0 <==>
              && !CountsClick(b, idr, now)
              && b.clickCount > 0
              && Elapsed(now, b.countTime) > CLICK_COUNT_TIME
    ensures r.1 != 0 ==> r.0.clickCount == 0
    // the counted flag is only ever cleared by a level change
    ensures ButtonSample(idr) == b.level ==> r.0.level == b.level && (b.counted ==> r.0.counted)
    // otherwise the timestamps and the counted flag are kept
    ensures ButtonSample(idr) == b.level ==> r.0.transitionTime == b.transitionTime
    ensures !CountsClick(b, idr, now) ==> r.0.countTime == b.countTime
    ensures !CountsClick(b, idr, now) && ButtonSample(idr) == b.level ==> r.0.counted == b.counted
  {
    Report(Track(b, idr, now), now)
  }

  /** input.c:74-89: follow the level, and count a debounced press once. */
  function Track(b: Button, idr: U32, now: U32): (b1: Button)
    ensures b1.level == ButtonSample(idr)
  {
    var sample := ButtonSample(idr);
    if sample != b.level then
      b.(level := sample, transitionTime := now, counted := false)
    else if CountsClick(b, idr, now) then
      b.(clickCount := ToU8(b.clickCount + 1), counted := true, countTime := now)
    else
      b
  }

  /** input.c:91-98: hand out a burst that has been quiet long enough. */
  function Report(b1: Button, now: U32): (r: (Button, U8))
    ensures r.0 == b1 || r.0 == b1.(clickCount := 0)
  {
    if b1.clickCount > 0 && Elapsed(now, b1.countTime) > CLICK_COUNT_TIME then
      (b1.(clickCount := 0), b1.clickCount)
    else
      (b1, 0)
  }

  /** One sampling of the button: the port register and the tick counter. */
  datatype ButtonInput = ButtonInput(idr: U32, now: U32)

  /** The number of calls, over a run of calls, that counted a click. */
  function ClicksCounted(b: Button, ins: seq<ButtonInput>): nat
    decreases |ins|
  {
    if ins == [] then 0
    else
      (if CountsClick(b, ins[0].idr, ins[0].now) then 1 else 0)
      + ClicksCounted(ButtonGet(b, ins[0].idr, ins[0].now).0, ins[1..])
  }

  /**
   While the button level does not change, at most one click is counted, and
   none once one was counted or while the button is released: the counted flag
   is only re-armed by a level change.
   */
  lemma {:induction false} OneClickPerPress(b: Button, ins: seq<ButtonInput>)
    requires forall i :: 0 <= i < |ins| ==> ButtonSample(ins[i].idr) == b.level
    ensures ClicksCounted(b, ins) <= if b.counted || b.level == 0 then 0 else 1
    decreases |ins|
  {
    if ins != [] {
      var b' := ButtonGet(b, ins[0].idr, ins[0].now).0;
      assert forall i :: 0 <= i < |ins[1..]| ==> ButtonSample(ins[1..][i].idr) == b'.level by {
        forall i | 0 <= i < |ins[1..]|
          ensures ButtonSample(ins[1..][i].idr) == b'.level
        {
          assert ins[1..][i] == ins[i + 1];
        }
      }
      OneClickPerPress(b', ins[1..]);
    }
  }

  /** The button state with both of its timestamps moved by `k` ticks. */
  function ShiftTimes(b: Button, k: int): Button
  {
    b.(countTime := ToU32(b.countTime + k), transitionTime := ToU32(b.transitionTime + k))
  }

  /**
   The aggregator only compares timestamps by wrap-around subtraction, so
   shifting every timestamp (the state's and `now`) by the same amount
   modulo 2^32 shifts the new state and leaves the reported clicks unchanged.
   */
  lemma ButtonTimeShift(b: Button, idr: U32, now: U32, k: int)
    ensures ButtonGet(ShiftTimes(b, k), idr, ToU32(now + k)).1 == ButtonGet(b, idr, now).1
    ensures ButtonGet(ShiftTimes(b, k), idr, ToU32(now + k)).0 == ShiftTimes(ButtonGet(b, idr, now).0, k)
  {
    TrackTimeShift(b, idr, now, k);
    ReportTimeShift(Track(b, idr, now), now, k);
  }

  lemma TrackTimeShift(b: Button, idr: U32, now: U32, k: int)
    ensures Track(ShiftTimes(b, k), idr, ToU32(now + k)) == ShiftTimes(Track(b, idr, now), k)
  {
    ElapsedShift(now, b.transitionTime, k);
    assert CountsClick(ShiftTimes(b, k), idr, ToU32(now + k)) == CountsClick(b, idr, now);
  }

  lemma ReportTimeShift(b1: Button, now: U32, k: int)
    ensures Report(ShiftTimes(b1, k), ToU32(now + k)).1 == Report(b1, now).1
    ensures Report(ShiftTimes(b1, k), ToU32(now + k)).0 == ShiftTimes(Report(b1, now).0, k)
  {
    ElapsedShift(now, b1.countTime, k);
  }

  /**
   input_encoder_get: the timer's 16-bit count register read as int16_t.
   */
  function RotaryGet(cnt: U16): (v: I16)
    ensures (v - cnt) % TWO16 == 0
    ensures cnt < TWO15 ==> v == cnt
  {
    ToI16(cnt)
  }

  /**
   input_encoder_set: an int16_t written to the 16-bit count register.
   */
  function RotarySet(v: I16): (cnt: U16)
    ensures (cnt - v) % TWO16 == 0
    ensures v >= 0 ==> cnt == v
  {
    ToU16(v)
  }

  /** Writing then reading the register gives back the value written, and
      reading then writing back leaves the register as it was. */
  lemma RotaryRoundTrip(v: I16, cnt: U16)
    ensures RotaryGet(RotarySet(v)) == v
    ensures RotarySet(RotaryGet(cnt)) == cnt
  {
  }
}
