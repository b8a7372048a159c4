/**
 The user interface: main.c's ui_update, run once per main-loop cycle. A state
 machine over four modes stages the operator's choice of units (which feed-rate
 table) and value (which row, and the direction) and commits it on a click; it
 renders the five display registers and publishes the committed row's ratio
 and direction to the synchroniser.

 One cycle is a pure function of the interface's state (ui_update's statics),
 the shared `fault`, the click count input_button_get returned, the rotary
 count register, the tick counter `now` and the tables. Its results are the
 new state and fault, the rotary register after any rewrites, the display
 frame, and the ratio and direction written to the shared globals.
 */
module Ui {
  import opened Word
  import opened Build
  import opened Tables
  import Display
  import Input
  import Sync

  /** An edit with no click and no knob movement for this long is abandoned. */
  const CHANGE_TIMEOUT: int := 5000
  const UNITS_MIN: int := 0
  const UNITS_MAX: int := 3

  datatype Mode = Idle | ChangeUnits | ChangeValue | Faulted

  /** ui_update's statics: the mode, the committed (active) selection, the
      staged (change) selection and the time of the last operator action. */
  datatype UiState = UiState(
    mode: Mode,
    activeUnits: U8,
    activeValue: I16,
    activeReverse: bool,
    changeUnits: I8,
    changeValue: I16,
    changeReverse: bool,
    lastChangeTime: U32)

  /** Power-up state; DEFAULT_UNIT and DEFAULT_VALUE come from config.h. */
  function UiInit(defaultUnit: U8, defaultValue: I16): UiState
  {
    UiState(Idle, defaultUnit, defaultValue, false, 0, 0, false, 0)
  }

  /**
   The facts every reachable state keeps (established by InitInv and kept by Cycle's contract): unit indices
   name one of the four tables, values are non-negative, the Faulted mode is
   only shown while a fault is latched, and in the corrected revision the
   committed value is a row of the committed table.
   */
  predicate Inv(rev: Revision, t: FeedTables, ui: UiState, fault: Sync.Fault)
  {
    && Shape(rev, t, ui, fault)
    && (ui.mode == ChangeValue ==> ui.changeValue < |ForUnits(t, ui.activeUnits)|)
  }

  /** Inv without its clause on the staged row, which holds between cycles
      but not midway through one that has just entered a value edit. */
  predicate Shape(rev: Revision, t: FeedTables, ui: UiState, fault: Sync.Fault)
  {
    && Valid(t)
    && ui.activeUnits <= UNITS_MAX
    && UNITS_MIN <= ui.changeUnits <= UNITS_MAX
    && 0 <= ui.activeValue
    && 0 <= ui.changeValue
    && (ui.mode == Faulted ==> fault != Sync.NoFault)
    && (rev == Corrected ==> ui.activeValue < |ForUnits(t, ui.activeUnits)|)
  }

  lemma InitInv(rev: Revision, t: FeedTables, defaultUnit: U8, defaultValue: I16)
    requires Valid(t) && defaultUnit <= UNITS_MAX && 0 <= defaultValue
    requires rev == Corrected ==> defaultValue < |ForUnits(t, defaultUnit)|
    ensures Inv(rev, t, UiInit(defaultUnit, defaultValue), Sync.NoFault)
  {
  }

  /** A rotary reading split into a row index and a direction. */
  datatype Dial = Dial(magnitude: int, reverse: bool)

  /**
   The knob's sign encoding: a negative reading r means "reverse, row -r-1",
   so every int16_t reading, the most negative included, names a row in
   [0, 32767] and a direction.
   */
  function Decode(raw: I16): (d: Dial)
    ensures 0 <= d.magnitude < TWO15
    ensures d.reverse <==> raw < 0
    // a non-negative reading is the row itself; a negative one r names row -r-1
    ensures raw >= 0 ==> d == Dial(raw, false)
    ensures raw < 0 ==> raw + d.magnitude == -1
  {
    if raw < 0 then Dial(0 - raw - 1, true) else Dial(raw, false)
  }

  /** The reading that names row `magnitude` in the given direction. */
  function Encode(magnitude: int, reverse: bool): (raw: I16)
    requires 0 <= magnitude < TWO15
    ensures raw < 0 <==> reverse
    // the reading decodes back to the row and direction it encodes
    ensures Decode(raw) == Dial(magnitude, reverse)
  {
    if reverse then 0 - magnitude - 1 else magnitude
  }

  /** Encoding and decoding are inverse bijections between int16_t readings
      and (row, direction) pairs. */
  lemma DialRoundTrip(raw: I16, magnitude: int, reverse: bool)
    requires 0 <= magnitude < TWO15
    ensures Encode(Decode(raw).magnitude, Decode(raw).reverse) == raw
    ensures Decode(Encode(magnitude, reverse)) == Dial(magnitude, reverse)
  {
  }

  function Clamp(x: int, lo: int, hi: int): int
  {
    if x > hi then hi else if x < lo then lo else x
  }

  /** The interface's state, the fault and the rotary register between stages. */
  datatype Stage = Stage(ui: UiState, fault: Sync.Fault, rotary: U16)

  /**
   main.c:139-190: a latched fault forces the Faulted mode; then a click
   burst moves the state machine, seeding the rotary register for the edit
   it enters.
   */
  function ApplyClicks(rev: Revision, t: FeedTables, ui: UiState, fault: Sync.Fault, clicks: U8,
                       rotary: U16, now: U32): (o: Stage)
    requires Inv(rev, t, ui, fault)
    ensures Shape(rev, t, o.ui, o.fault)
    ensures o.ui.changeUnits == ui.changeUnits && o.ui.changeValue == ui.changeValue
    ensures o.ui.changeReverse == ui.changeReverse
    ensures o.fault == fault || (o.fault == Sync.NoFault && fault != Sync.NoFault && clicks > 3 && o.ui.mode == Idle)
    ensures clicks == 0 ==>
              && o.ui.activeUnits == ui.activeUnits && o.ui.activeValue == ui.activeValue
              && o.ui.activeReverse == ui.activeReverse && o.rotary == rotary
              && o.ui.lastChangeTime == ui.lastChangeTime
    ensures clicks != 0 ==> o.ui.lastChangeTime == now
    // a latched fault forces Faulted, which bursts of one to three clicks keep
    ensures fault != Sync.NoFault && clicks <= 3 ==> o.ui.mode == Faulted
    // Idle: several clicks edit the units, one click edits the value
    ensures fault == Sync.NoFault && ui.mode == Idle && clicks > 1 ==>
              o.ui.mode == ChangeUnits && o.rotary == Input.RotarySet(ui.activeUnits)
    ensures fault == Sync.NoFault && ui.mode == Idle && clicks == 1 ==>
              o.ui.mode == ChangeValue && o.rotary == Input.RotarySet(Encode(ui.activeValue, ui.activeReverse))
    // a click in a units edit commits the staged units and edits the value
    ensures fault == Sync.NoFault && ui.mode == ChangeUnits && clicks >= 1 ==>
              o.ui.mode == ChangeValue && o.ui.activeUnits == ui.changeUnits
    // a click in a value edit commits the staged row and direction
    ensures fault == Sync.NoFault && ui.mode == ChangeValue && clicks >= 1 ==>
              && o.ui.mode == Idle && o.ui.activeValue == ui.changeValue
              && o.ui.activeReverse == ui.changeReverse
    // without a click and without a fault the mode is kept
    ensures fault == Sync.NoFault && clicks == 0 ==> o.ui.mode == ui.mode
  {
    var ui0 := if fault != Sync.NoFault then ui.(mode := Faulted) else ui;
    if clicks == 0 then
      Stage(ui0, fault, rotary)
    else
      var ui1 := ui0.(lastChangeTime := now);
      match ui0.mode
      case Idle =>
        if clicks > 1 then
          Stage(ui1.(mode := ChangeUnits), fault, Input.RotarySet(ui.activeUnits))
        else
          Stage(ui1.(mode := ChangeValue), fault,
                Input.RotarySet(Encode(ui.activeValue, ui.activeReverse)))
      case ChangeUnits =>
        var units: U8 := ToU8(ui.changeUnits);
        var value := if rev == Corrected then Min(ui.activeValue, |ForUnits(t, units)| - 1)
                     else ui.activeValue;
        var seed := if rev == Corrected then Encode(value, ui.activeReverse) else value;
        Stage(ui1.(mode := ChangeValue, activeUnits := units, activeValue := value), fault,
              Input.RotarySet(seed))
      case ChangeValue =>
        Stage(ui1.(mode := Idle, activeValue := ui.changeValue, activeReverse := ui.changeReverse),
              fault, rotary)
      case Faulted =>
        if clicks > 3 then Stage(ui1.(mode := Idle), Sync.NoFault, rotary)
        else Stage(ui1, fault, rotary)
  }

  /**
   The staged units for a knob reading, and the register after any rewrite.
   As written, the int16_t reading is narrowed to the int8_t `changeUnits`
   before it is clamped to [0, 3]; corrected, it is clamped first.
   */
  function PendingUnits(rev: Revision, raw: I16, rotary: U16): (r: (I8, U16))
    ensures UNITS_MIN <= r.0 <= UNITS_MAX
    ensures var seen := if rev == AsWritten then ToI8(raw) else raw;
            && r.0 == Clamp(seen, UNITS_MIN, UNITS_MAX)
            && (r.1 == rotary <==> UNITS_MIN <= seen <= UNITS_MAX || rotary == Input.RotarySet(r.0))
            && (r.1 != rotary ==> r.1 == Input.RotarySet(r.0))
  {
    var seen := if rev == AsWritten then ToI8(raw) else raw;
    if seen > UNITS_MAX then (UNITS_MAX, Input.RotarySet(UNITS_MAX))
    else if seen < UNITS_MIN then (UNITS_MIN, Input.RotarySet(UNITS_MIN))
    else (seen, rotary)
  }

  /** main.c:192-210: while editing units, follow the knob. */
  function EditUnits(rev: Revision, s: Stage, now: U32): (o: Stage)
    ensures o.fault == s.fault && o.ui.mode == s.ui.mode
    ensures o.ui == s.ui.(changeUnits := o.ui.changeUnits, lastChangeTime := o.ui.lastChangeTime)
    ensures s.ui.mode != ChangeUnits ==> o == s
    ensures s.ui.mode == ChangeUnits ==> UNITS_MIN <= o.ui.changeUnits <= UNITS_MAX
    ensures s.ui.mode == ChangeUnits && rev == Corrected ==> Input.RotaryGet(o.rotary) == o.ui.changeUnits
    // the edit is restamped exactly when the knob reads other than the staged units
    ensures s.ui.mode == ChangeUnits && Input.RotaryGet(s.rotary) != s.ui.changeUnits ==> o.ui.lastChangeTime == now
    ensures s.ui.mode == ChangeUnits && Input.RotaryGet(s.rotary) == s.ui.changeUnits ==>
              o.ui.lastChangeTime == s.ui.lastChangeTime
  {
    if s.ui.mode != ChangeUnits then s
    else
      var raw := Input.RotaryGet(s.rotary);
      var time := if raw != s.ui.changeUnits then now else s.ui.lastChangeTime;
      var (units, rotary) := PendingUnits(rev, raw, s.rotary);
      Stage(s.ui.(changeUnits := units, lastChangeTime := time), s.fault, rotary)
  }

  /** main.c:192-233: the table the cycle displays from (and, as written,
      takes the ratio from): the staged units' while editing units. */
  function DisplayUnits(ui: UiState): int
  {
    if ui.mode == ChangeUnits then ui.changeUnits else ui.activeUnits
  }

  /**
   main.c:235-263: while editing the value, follow the knob, decoding the
   direction and clamping the row to the table with a rewrite of the register.
   As written, a knob movement is detected by comparing the reading with the
   decoded row; corrected, with the reading that encodes the staged selection.
   */
  function EditValue(rev: Revision, s: Stage, table: Table, now: U32): (o: Stage)
    requires 1 <= |table| < TWO8 && 0 <= s.ui.changeValue
    ensures o.fault == s.fault && o.ui.mode == s.ui.mode
    ensures o.ui == s.ui.(changeValue := o.ui.changeValue, changeReverse := o.ui.changeReverse,
                          lastChangeTime := o.ui.lastChangeTime)
    ensures s.ui.mode != ChangeValue ==> o == s
    ensures s.ui.mode == ChangeValue ==>
              && 0 <= o.ui.changeValue < |table|
              && Input.RotaryGet(o.rotary) == Encode(o.ui.changeValue, o.ui.changeReverse)
    // the staged selection is the decoded knob reading, its row clamped to the
    // table; the register is only rewritten when the row was clamped
    ensures s.ui.mode == ChangeValue ==>
              var dial := Decode(Input.RotaryGet(s.rotary));
              && o.ui.changeValue == Min(dial.magnitude, |table| - 1)
              && o.ui.changeReverse == dial.reverse
              && (o.rotary != s.rotary ==> dial.magnitude >= |table|)
    // the edit is restamped exactly when the knob reads other than the staged
    // selection: as written its row, corrected its encoding
    ensures s.ui.mode == ChangeValue ==>
              var previous := if rev == AsWritten then s.ui.changeValue
                              else Encode(s.ui.changeValue, s.ui.changeReverse);
              && (Input.RotaryGet(s.rotary) != previous ==> o.ui.lastChangeTime == now)
              && (Input.RotaryGet(s.rotary) == previous ==> o.ui.lastChangeTime == s.ui.lastChangeTime)
  {
    if s.ui.mode != ChangeValue then s
    else
      var raw := Input.RotaryGet(s.rotary);
      var previous := if rev == AsWritten then s.ui.changeValue
                      else Encode(s.ui.changeValue, s.ui.changeReverse);
      var time := if raw != previous then now else s.ui.lastChangeTime;
      var dial := Decode(raw);
      if dial.magnitude >= |table| then
        var top := |table| - 1;
        Stage(s.ui.(changeValue := top, changeReverse := dial.reverse, lastChangeTime := time),
              s.fault, Input.RotarySet(Encode(top, dial.reverse)))
      else
        Stage(s.ui.(changeValue := dial.magnitude, changeReverse := dial.reverse, lastChangeTime := time),
              s.fault, s.rotary)
  }

  /** main.c:265-266: an edit abandoned for longer than the timeout returns to
      Idle, discarding the staged selection. */
  function Timeout(ui: UiState, now: U32): (o: UiState)
    ensures o == ui || (o == ui.(mode := Idle) && ui.mode != Faulted)
    ensures Elapsed(now, ui.lastChangeTime) > CHANGE_TIMEOUT && ui.mode != Faulted ==> o.mode == Idle
    ensures Elapsed(now, ui.lastChangeTime) <= CHANGE_TIMEOUT ==> o == ui
  {
    if Elapsed(now, ui.lastChangeTime) > CHANGE_TIMEOUT && ui.mode != Faulted then ui.(mode := Idle)
    else ui
  }

  /** The blank phase of the ~4 Hz flash: bits 7-8 of the tick counter both set. */
  predicate FlashBlank(now: U32)
  {
    (now / 128) % 4 == 3
  }

  /** Bits 7-8 of the tick counter are both set exactly in the last quarter of
      each 512 ticks. */
  lemma FlashPhase(n: U32)
    ensures FlashBlank(n) <==> n % 512 >= 384
  {
    var q := n / 512;
    var r := n % 512;
    var h := r / 128;
    assert r == h * 128 + r % 128;
    assert n == (4 * q + h) * 128 + r % 128;
    Sync.DivUnique(n, 4 * q + h, r % 128, 128);
    assert 0 <= h < 4;
    ModUnique(n / 128, q, h, 4);
    Sync.DivWithin(r, 128, h, h + 1);
  }

  /** A row's digits, with a minus in the fourth place for reverse. */
  function RowFrame(row: Row, reverse: bool, leds: U8): Display.Frame
  {
    Display.Frame(row.dig1, row.dig10, row.dig100,
                  if reverse then Display.MINUS else Display.BLANK, leds)
  }

  /** The LED row: one LED per units mode, bit units + 1. */
  function UnitsLed(units: int): (leds: U8)
    requires UNITS_MIN <= units <= UNITS_MAX
    ensures leds == Pow2(units + 1)
  {
    if units == 0 then 2 else if units == 1 then 4 else if units == 2 then 8 else 16
  }

  /**
   The row shown when neither a fault nor a value edit is displayed. As
   written it is the committed row index looked up in the display table, which
   may lie past the table's end; corrected, the index is clamped to the table.
   */
  function ShownIndex(rev: Revision, table: Table, value: int): (i: int)
    requires 1 <= |table|
    ensures rev == AsWritten ==> i == value
    ensures rev == Corrected && 0 <= value ==>
              && 0 <= i < |table|
              && (value < |table| ==> i == value)
              && (value >= |table| ==> i == |table| - 1)
  {
    if rev == Corrected then Min(value, |table| - 1) else value
  }

  /**
   main.c:269-329: the five display registers. None stands for a frame built
   from a row read past the end of its table.
   */
  function Render(rev: Revision, ui: UiState, fault: Sync.Fault, table: Table, now: U32): (f: Option<Display.Frame>)
    requires UNITS_MIN <= ui.changeUnits <= UNITS_MAX && ui.activeUnits <= UNITS_MAX
    requires 1 <= |table|
    // the LED row flashes the staged units while they are edited, else shows the committed units
    ensures f.Some? ==>
              f.value.leds == if ui.mode != ChangeUnits then Pow2(ui.activeUnits + 1)
                              else if FlashBlank(now) then 0 else Pow2(ui.changeUnits + 1)
    // a fault flashes "-", its code, "E", "-"
    ensures ui.mode == Faulted ==> f.Some?
    ensures ui.mode == Faulted && !FlashBlank(now) ==>
              && f.value.digit1 == Display.MINUS && f.value.digit10 == fault.Code()
              && f.value.digit100 == Display.ERROR && f.value.digit1000 == Display.MINUS
    // a value edit flashes the staged row, with a minus for reverse
    ensures ui.mode == ChangeValue && 0 <= ui.changeValue < |table| && !FlashBlank(now) ==>
              f.Some? && f.value == RowFrame(table[ui.changeValue], ui.changeReverse, f.value.leds)
    ensures (ui.mode == Faulted || ui.mode == ChangeValue) && FlashBlank(now) ==>
              && f.Some?
              && f.value.digit1 == Display.BLANK && f.value.digit10 == Display.BLANK
              && f.value.digit100 == Display.BLANK && f.value.digit1000 == Display.BLANK
    // otherwise the committed row is shown steadily, when it lies in the table
    ensures ui.mode in {Idle, ChangeUnits} && 0 <= ShownIndex(rev, table, ui.activeValue) < |table| ==>
              f.Some? && f.value == RowFrame(table[ShownIndex(rev, table, ui.activeValue)], ui.activeReverse, f.value.leds)
    ensures ui.mode in {Idle, ChangeUnits} ==>
              (f.None? <==> !(0 <= ShownIndex(rev, table, ui.activeValue) < |table|))
  {
    var flash := FlashBlank(now);
    var leds: U8 :=
      if ui.mode == ChangeUnits then (if flash then 0 else UnitsLed(ui.changeUnits))
      else UnitsLed(ui.activeUnits);
    var blank := Display.Frame(Display.BLANK, Display.BLANK, Display.BLANK, Display.BLANK, leds);
    if ui.mode == Faulted then
      if !flash then Some(Display.Frame(Display.MINUS, fault.Code(), Display.ERROR, Display.MINUS, leds))
      else Some(blank)
    else if ui.mode == ChangeValue then
      if !flash then
        match RowAt(table, ui.changeValue)
        case Some(row) => Some(RowFrame(row, ui.changeReverse, leds))
        case None => None
      else Some(blank)
    else
      match RowAt(table, ShownIndex(rev, table, ui.activeValue))
      case Some(row) => Some(RowFrame(row, ui.activeReverse, leds))
      case None => None
  }

  /**
   main.c:331: the ratio published to the synchroniser. As written it is the
   committed row index looked up in the display table, which is the staged
   units' table during a units edit and may be read past its end; corrected,
   it is the committed row of the committed table.
   */
  function PublishedRatio(rev: Revision, t: FeedTables, ui: UiState, table: Table): (r: Option<U32>)
    requires Valid(t) && ui.activeUnits <= UNITS_MAX
    ensures rev == Corrected && 0 <= ui.activeValue < |ForUnits(t, ui.activeUnits)| ==>
              r == Some(ForUnits(t, ui.activeUnits)[ui.activeValue].ratio)
    ensures rev == AsWritten ==> (r.Some? <==> 0 <= ui.activeValue < |table|)
    ensures rev == AsWritten && r.Some? ==> r.value == table[ui.activeValue].ratio
  {
    var source := if rev == Corrected then ForUnits(t, ui.activeUnits) else table;
    match RowAt(source, ui.activeValue)
    case Some(row) => Some(row.ratio)
    case None => None
  }

  /** What one ui_update produces. */
  datatype CycleResult = CycleResult(
    ui: UiState,
    fault: Sync.Fault,
    rotary: U16,
    frame: Option<Display.Frame>,
    ratio: Option<U32>,
    reverse: bool)

  /**
   One run of ui_update with `clicks` from input_button_get, the rotary count
   register `rotary` and the tick counter `now`.
   */
  function Cycle(rev: Revision, t: FeedTables, ui: UiState, fault: Sync.Fault, clicks: U8,
                 rotary: U16, now: U32): (r: CycleResult)
    requires Inv(rev, t, ui, fault)
    ensures Inv(rev, t, r.ui, r.fault)
    // the direction published is always the committed one
    ensures r.reverse == r.ui.activeReverse
    // the interface never raises a fault; it clears one only on a quad-click, into Idle
    ensures r.fault == fault || (r.fault == Sync.NoFault && fault != Sync.NoFault && clicks > 3 && r.ui.mode == Idle)
    // without a click the committed selection does not change
    ensures clicks == 0 ==>
              r.ui.activeUnits == ui.activeUnits && r.ui.activeValue == ui.activeValue
              && r.ui.activeReverse == ui.activeReverse
  {
    var s1 := ApplyClicks(rev, t, ui, fault, clicks, rotary, now);
    var s2 := EditUnits(rev, s1, now);
    var table := ForUnits(t, DisplayUnits(s2.ui));
    var s3 := EditValue(rev, s2, table, now);
    var ui4 := Timeout(s3.ui, now);
    var frame := Render(rev, ui4, s3.fault, table, now);
    var ratio := PublishedRatio(rev, t, ui4, table);
    CycleResult(ui4, s3.fault, s3.rotary, frame, ratio, ui4.activeReverse)
  }
}
