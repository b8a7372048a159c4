/**
 Properties of the user interface's cycle: its transition table, the knob's
 decode/clamp/rewrite, the edit timeout, the committed-selection discipline,
 and the places where the firmware as written departs from them.
 */
module UiProperties {
  import opened Word
  import opened Build
  import opened Tables
  import opened Ui
  import Input
  import Sync

  /** During a value edit the knob always reads the encoding of the staged
      selection, and the staged row lies inside the committed units' table. */
  lemma KnobTracksStagedValue(rev: Revision, t: FeedTables, ui: UiState, fault: Sync.Fault, clicks: U8,
                              rotary: U16, now: U32)
    requires Inv(rev, t, ui, fault)
    ensures var r := Cycle(rev, t, ui, fault, clicks, rotary, now);
            r.ui.mode == ChangeValue ==>
              && r.ui.changeValue < |ForUnits(t, r.ui.activeUnits)|
              && Input.RotaryGet(r.rotary) == Encode(r.ui.changeValue, r.ui.changeReverse)
  {
    var s1 := ApplyClicks(rev, t, ui, fault, clicks, rotary, now);
    var s2 := EditUnits(rev, s1, now);
    assert s2.ui.mode == ChangeValue ==> DisplayUnits(s2.ui) == s2.ui.activeUnits;
  }

  /**
   Corrected revision: the ratio published to the synchroniser is always the
   committed row of the committed table, the display frame is always defined,
   and during a units edit the knob reads the staged units.
   */
  lemma CorrectedPublishesCommittedRatio(t: FeedTables, ui: UiState, fault: Sync.Fault, clicks: U8,
                                         rotary: U16, now: U32)
    requires Inv(Corrected, t, ui, fault)
    ensures var r := Cycle(Corrected, t, ui, fault, clicks, rotary, now);
            && r.ratio == Some(ForUnits(t, r.ui.activeUnits)[r.ui.activeValue].ratio)
            && r.frame.Some?
            && (r.ui.mode == ChangeUnits ==> Input.RotaryGet(r.rotary) == r.ui.changeUnits)
  {
    var s1 := ApplyClicks(Corrected, t, ui, fault, clicks, rotary, now);
    var s2 := EditUnits(Corrected, s1, now);
    var table := ForUnits(t, DisplayUnits(s2.ui));
    var s3 := EditValue(Corrected, s2, table, now);
    var ui4 := Timeout(s3.ui, now);
    assert s3.ui.mode == ChangeValue ==> table == ForUnits(t, s3.ui.activeUnits);
    assert ui4.mode == ChangeUnits ==> s2.ui.mode == ChangeUnits && s3.rotary == s2.rotary;
  }

  /** A latched fault holds the Faulted mode through bursts of one to three
      clicks; four or more clear it and return to Idle. */
  lemma FaultClearNeedsQuadClick(rev: Revision, t: FeedTables, ui: UiState, fault: Sync.Fault, clicks: U8,
                                 rotary: U16, now: U32)
    requires Inv(rev, t, ui, fault) && fault != Sync.NoFault
    ensures var r := Cycle(rev, t, ui, fault, clicks, rotary, now);
            && (clicks <= 3 ==> r.ui.mode == Faulted && r.fault == fault)
            && (clicks > 3 ==> r.ui.mode == Idle && r.fault == Sync.NoFault)
            && r.ui.activeUnits == ui.activeUnits && r.ui.activeValue == ui.activeValue
            && r.ui.activeReverse == ui.activeReverse
  {
  }

  /** From Idle, a multi-click burst starts a units edit with the knob seeded
      to the committed units. */
  lemma IdleMultiClickEditsUnits(rev: Revision, t: FeedTables, ui: UiState, clicks: U8, rotary: U16, now: U32)
    requires Inv(rev, t, ui, Sync.NoFault) && ui.mode == Idle && clicks > 1
    ensures var r := Cycle(rev, t, ui, Sync.NoFault, clicks, rotary, now);
            && r.ui.mode == ChangeUnits
            && r.ui.changeUnits == ui.activeUnits
            && r.rotary == Input.RotarySet(ui.activeUnits)
            && r.ui.lastChangeTime == now
            && r.ui.activeUnits == ui.activeUnits && r.ui.activeValue == ui.activeValue
            && r.ui.activeReverse == ui.activeReverse
  {
    var s1 := ApplyClicks(rev, t, ui, Sync.NoFault, clicks, rotary, now);
    Input.RotaryRoundTrip(ui.activeUnits, rotary);
    assert Input.RotaryGet(s1.rotary) == ui.activeUnits;
  }

  /**
   From Idle, a single click starts a value edit with the knob seeded to the
   committed row and direction (sign-encoded); a committed row past the end
   of its table is clamped to the last row.
   */
  lemma IdleClickEditsValue(rev: Revision, t: FeedTables, ui: UiState, rotary: U16, now: U32)
    requires Inv(rev, t, ui, Sync.NoFault) && ui.mode == Idle
    ensures var r := Cycle(rev, t, ui, Sync.NoFault, 1, rotary, now);
            var top := |ForUnits(t, ui.activeUnits)| - 1;
            && r.ui.mode == ChangeValue
            && r.ui.changeValue == Min(ui.activeValue, top)
            && r.ui.changeReverse == ui.activeReverse
            && Input.RotaryGet(r.rotary) == Encode(Min(ui.activeValue, top), ui.activeReverse)
            && r.ui.activeUnits == ui.activeUnits && r.ui.activeValue == ui.activeValue
            && r.ui.activeReverse == ui.activeReverse
  {
    var seed := Encode(ui.activeValue, ui.activeReverse);
    Input.RotaryRoundTrip(seed, rotary);
    DialRoundTrip(seed, ui.activeValue, ui.activeReverse);
    KnobTracksStagedValue(rev, t, ui, Sync.NoFault, 1, rotary, now);
  }

  /**
   In a units edit a click commits the staged units and moves to a value edit
   seeded with the committed row. As written the seed is always the forward
   encoding, so the staged direction becomes forward; corrected, the committed
   row is first clamped into the new table and the direction kept.
   */
  lemma UnitsClickCommits(rev: Revision, t: FeedTables, ui: UiState, clicks: U8, rotary: U16, now: U32)
    requires Inv(rev, t, ui, Sync.NoFault) && ui.mode == ChangeUnits && clicks >= 1
    ensures var r := Cycle(rev, t, ui, Sync.NoFault, clicks, rotary, now);
            var top := |ForUnits(t, ui.changeUnits)| - 1;
            && r.ui.mode == ChangeValue
            && r.ui.activeUnits == ui.changeUnits
            && r.ui.changeValue == Min(ui.activeValue, top)
            && r.ui.activeReverse == ui.activeReverse
            && (rev == AsWritten ==> !r.ui.changeReverse && r.ui.activeValue == ui.activeValue)
            && (rev == Corrected ==> r.ui.changeReverse == ui.activeReverse
                                     && r.ui.activeValue == Min(ui.activeValue, top))
  {
    var s1 := ApplyClicks(rev, t, ui, Sync.NoFault, clicks, rotary, now);
    var value := s1.ui.activeValue;
    var seed: I16 := if rev == Corrected then Encode(value, ui.activeReverse) else value;
    assert s1.rotary == Input.RotarySet(seed);
    Input.RotaryRoundTrip(seed, rotary);
    if rev == Corrected {
      DialRoundTrip(seed, value, ui.activeReverse);
    }
    KnobTracksStagedValue(rev, t, ui, Sync.NoFault, clicks, rotary, now);
  }

  /** In a value edit a click commits the staged row and direction and returns to Idle. */
  lemma ValueClickCommits(rev: Revision, t: FeedTables, ui: UiState, clicks: U8, rotary: U16, now: U32)
    requires Inv(rev, t, ui, Sync.NoFault) && ui.mode == ChangeValue && clicks >= 1
    ensures var r := Cycle(rev, t, ui, Sync.NoFault, clicks, rotary, now);
            && r.ui.mode == Idle
            && r.ui.activeValue == ui.changeValue
            && r.ui.activeReverse == ui.changeReverse
            && r.ui.activeUnits == ui.activeUnits
            && r.reverse == ui.changeReverse
  {
  }

  /**
   An edit left alone - no click, the knob still where the last cycle left it
   - for longer than the timeout returns to Idle without touching the
   committed selection. As written this holds only for a forward staged
   direction (see ReversedEditNeverTimesOut).
   */
  lemma EditTimesOut(rev: Revision, t: FeedTables, ui: UiState, rotary: U16, now: U32)
    requires Inv(rev, t, ui, Sync.NoFault)
    requires ui.mode == ChangeUnits ==> Input.RotaryGet(rotary) == ui.changeUnits
    requires ui.mode == ChangeValue ==> Input.RotaryGet(rotary) == Encode(ui.changeValue, ui.changeReverse)
    requires ui.mode == ChangeValue && rev == AsWritten ==> !ui.changeReverse
    requires ui.mode in {ChangeUnits, ChangeValue}
    requires Elapsed(now, ui.lastChangeTime) > CHANGE_TIMEOUT
    ensures var r := Cycle(rev, t, ui, Sync.NoFault, 0, rotary, now);
            && r.ui.mode == Idle
            && r.ui.activeUnits == ui.activeUnits && r.ui.activeValue == ui.activeValue
            && r.ui.activeReverse == ui.activeReverse
            && r.reverse == ui.activeReverse
  {
    var s1 := ApplyClicks(rev, t, ui, Sync.NoFault, 0, rotary, now);
    var s2 := EditUnits(rev, s1, now);
    var table := ForUnits(t, DisplayUnits(s2.ui));
    var s3 := EditValue(rev, s2, table, now);
    if ui.mode == ChangeValue {
      DialRoundTrip(Input.RotaryGet(rotary), ui.changeValue, ui.changeReverse);
      assert s3.ui.lastChangeTime == ui.lastChangeTime;
    }
  }

  /**
   Corrected, turning the knob keeps an edit alive: a cycle whose reading
   differs from the staged selection stays in the edit and restamps it, so
   the timeout counts from the last motion.
   */
  lemma KnobMotionKeepsEditAlive(t: FeedTables, ui: UiState, rotary: U16, now: U32)
    requires Inv(Corrected, t, ui, Sync.NoFault)
    requires ui.mode == ChangeUnits ==> Input.RotaryGet(rotary) != ui.changeUnits
    requires ui.mode == ChangeValue ==> Input.RotaryGet(rotary) != Encode(ui.changeValue, ui.changeReverse)
    requires ui.mode in {ChangeUnits, ChangeValue}
    ensures var r := Cycle(Corrected, t, ui, Sync.NoFault, 0, rotary, now);
            r.ui.mode == ui.mode && r.ui.lastChangeTime == now
  {
  }

  /**
   As written, a value edit whose staged direction is reverse never times
   out: the knob's negative reading is compared with the decoded row, so every
   cycle sees a "change" and restarts the timeout clock.
   */
  lemma ReversedEditNeverTimesOut(t: FeedTables, ui: UiState, now: U32)
    requires Inv(AsWritten, t, ui, Sync.NoFault)
    requires ui.mode == ChangeValue && ui.changeReverse
    ensures var rotary := Input.RotarySet(Encode(ui.changeValue, true));
            var r := Cycle(AsWritten, t, ui, Sync.NoFault, 0, rotary, now);
            && r.ui.mode == ChangeValue
            && r.ui.lastChangeTime == now
            && r.rotary == rotary
  {
    var rotary := Input.RotarySet(Encode(ui.changeValue, true));
    Input.RotaryRoundTrip(Encode(ui.changeValue, true), rotary);
    DialRoundTrip(Encode(ui.changeValue, true), ui.changeValue, true);
  }

  /**
   During a value edit the knob's reading is decoded and clamped to the
   table's last row; exactly when it is clamped, the register is rewritten
   with the clamped row's encoding.
   */
  lemma ValueClampRewrites(rev: Revision, t: FeedTables, ui: UiState, rotary: U16, now: U32)
    requires Inv(rev, t, ui, Sync.NoFault) && ui.mode == ChangeValue
    ensures var r := Cycle(rev, t, ui, Sync.NoFault, 0, rotary, now);
            var dial := Decode(Input.RotaryGet(rotary));
            var top := |ForUnits(t, ui.activeUnits)| - 1;
            && r.ui.changeValue == Min(dial.magnitude, top)
            && r.ui.changeReverse == dial.reverse
            && (dial.magnitude > top ==> r.rotary == Input.RotarySet(Encode(top, dial.reverse)))
            && (dial.magnitude <= top ==> r.rotary == rotary)
  {
  }

  /**
   During a units edit the staged units follow the knob, clamped to [0, 3]
   with a rewrite of the register. As written the reading is first narrowed to
   int8_t; corrected it is clamped as read.
   */
  lemma UnitsFollowKnob(rev: Revision, t: FeedTables, ui: UiState, rotary: U16, now: U32)
    requires Inv(rev, t, ui, Sync.NoFault) && ui.mode == ChangeUnits
    ensures var r := Cycle(rev, t, ui, Sync.NoFault, 0, rotary, now);
            var raw := Input.RotaryGet(rotary);
            var seen := if rev == AsWritten then ToI8(raw) else raw;
            && r.ui.changeUnits == Clamp(seen, UNITS_MIN, UNITS_MAX)
            && (UNITS_MIN <= seen <= UNITS_MAX ==> r.rotary == rotary)
            && (seen > UNITS_MAX ==> r.rotary == Input.RotarySet(UNITS_MAX))
            && (seen < UNITS_MIN ==> r.rotary == Input.RotarySet(UNITS_MIN))
  {
  }

  /**
   The int8_t truncation, shown on the knob reading 256: as written the staged
   units become 0 (not 3), the register is left at 256, and since 256 differs
   from the staged 0 every cycle restarts the timeout clock. Corrected, the
   units clamp to 3 and the register is rewritten to 3.
   */
  lemma UnitsTruncation(t: FeedTables, ui: UiState, now: U32)
    requires Inv(AsWritten, t, ui, Sync.NoFault) && Inv(Corrected, t, ui, Sync.NoFault)
    requires ui.mode == ChangeUnits
    ensures var r := Cycle(AsWritten, t, ui, Sync.NoFault, 0, 256, now);
            r.ui.changeUnits == 0 && r.rotary == 256 && r.ui.mode == ChangeUnits && r.ui.lastChangeTime == now
    ensures var r := Cycle(Corrected, t, ui, Sync.NoFault, 0, 256, now);
            r.ui.changeUnits == 3 && r.rotary == 3
  {
  }

  /** Four one-row-per-units tables with distinct ratios, the mm-feed one two rows long. */
  const Sample: FeedTables := FeedTables(
    [Row(1, 0, 0, 100), Row(2, 0, 0, 101)],
    [Row(3, 0, 0, 200)],
    [Row(4, 0, 0, 300)],
    [Row(5, 0, 0, 400)])

  /**
   As written, during a units edit the ratio published to the synchroniser
   comes from the staged units' table: with mm-feed row 0 committed and
   mm-thread staged, the synchroniser is given mm-thread's ratio before any
   commit; with row 1 committed, the read runs past mm-thread's single row.
   Corrected, the committed mm-feed ratio is published in both cases.
   */
  lemma StagedUnitsSteerRatio(now: U32)
    ensures var ui := UiState(ChangeUnits, 0, 0, false, 1, 0, false, now);
            && Cycle(AsWritten, Sample, ui, Sync.NoFault, 0, 1, now).ratio == Some(200)
            && Cycle(Corrected, Sample, ui, Sync.NoFault, 0, 1, now).ratio == Some(100)
    ensures var ui := UiState(ChangeUnits, 0, 1, false, 1, 0, false, now);
            && Cycle(AsWritten, Sample, ui, Sync.NoFault, 0, 1, now).ratio == None
            && Cycle(Corrected, Sample, ui, Sync.NoFault, 0, 1, now).ratio == Some(101)
  {
  }

  /**
   As written, the steady display during a units edit reads the committed row
   index from the staged units' table: with row 1 committed and a one-row
   staged table it reads past the end. Corrected, the index is clamped into
   the displayed table and the frame shows its last row.
   */
  lemma StagedUnitsOverrunDisplay(now: U32)
    ensures var ui := UiState(ChangeUnits, 0, 1, false, 1, 0, false, now);
            && Cycle(AsWritten, Sample, ui, Sync.NoFault, 0, 1, now).frame == None
            && Cycle(Corrected, Sample, ui, Sync.NoFault, 0, 1, now).frame.Some?
            && Cycle(Corrected, Sample, ui, Sync.NoFault, 0, 1, now).frame.value.digit1 == Sample.mmThread[0].dig1
  {
  }

  /**
   As written, committing new units keeps the committed row index even when
   the new table is shorter; if the value edit that follows then times out,
   Idle is left with a committed row past the table's end, and every later
   cycle reads the display and the ratio past it.
   */
  lemma CommitThenTimeoutReadsPastEnd()
    ensures var ui := UiState(ChangeUnits, 0, 1, false, 1, 0, false, 0);
            var r1 := Cycle(AsWritten, Sample, ui, Sync.NoFault, 1, 1, 0);
            var r2 := Cycle(AsWritten, Sample, r1.ui, r1.fault, 0, r1.rotary, 6000);
            && r1.ui.activeUnits == 1 && r1.ui.activeValue == 1
            && r2.ui.mode == Idle
            && r2.ratio == None && r2.frame == None
  {
    var ui := UiState(ChangeUnits, 0, 1, false, 1, 0, false, 0);
    var r1 := Cycle(AsWritten, Sample, ui, Sync.NoFault, 1, 1, 0);
    // the commit keeps row 1, and the knob is clamped to mm-thread's only row
    assert r1.ui == UiState(ChangeValue, 1, 1, false, 1, 0, false, 0);
    assert r1.rotary == 0 && r1.fault == Sync.NoFault;
    var r2 := Cycle(AsWritten, Sample, r1.ui, r1.fault, 0, r1.rotary, 6000);
    assert Elapsed(6000, 0) == 6000;
    assert r2.ui == UiState(Idle, 1, 1, false, 1, 0, false, 0);
  }

  /**
   The operator's edit round trip: from Idle, a double click, a click and a click
   with the knob left alone end in Idle with the committed selection
   unchanged - in the corrected revision always; as written only when the
   committed direction is forward and the committed row exists.
   */
  lemma EditRoundTrip(rev: Revision, t: FeedTables, ui: UiState, rotary: U16, n1: U32, n2: U32, n3: U32)
    requires Inv(rev, t, ui, Sync.NoFault) && ui.mode == Idle
    requires rev == AsWritten ==> !ui.activeReverse && ui.activeValue < |ForUnits(t, ui.activeUnits)|
    ensures var r1 := Cycle(rev, t, ui, Sync.NoFault, 2, rotary, n1);
            var r2 := Cycle(rev, t, r1.ui, r1.fault, 1, r1.rotary, n2);
            var r3 := Cycle(rev, t, r2.ui, r2.fault, 1, r2.rotary, n3);
            && r1.ui.mode == ChangeUnits && r2.ui.mode == ChangeValue && r3.ui.mode == Idle
            && r3.ui.activeUnits == ui.activeUnits
            && r3.ui.activeValue == ui.activeValue
            && r3.ui.activeReverse == ui.activeReverse
  {
    var r1 := Cycle(rev, t, ui, Sync.NoFault, 2, rotary, n1);
    IdleMultiClickEditsUnits(rev, t, ui, 2, rotary, n1);
    var r2 := Cycle(rev, t, r1.ui, r1.fault, 1, r1.rotary, n2);
    UnitsClickCommits(rev, t, r1.ui, 1, r1.rotary, n2);
    ValueClickCommits(rev, t, r2.ui, 1, r2.rotary, n3);
  }

  /**
   As written, the same round trip from a reverse selection ends forward: the
   units commit seeds the knob with the forward encoding of the row.
   */
  lemma UnitsCommitDropsReverse(t: FeedTables, ui: UiState, rotary: U16, n1: U32, n2: U32, n3: U32)
    requires Inv(AsWritten, t, ui, Sync.NoFault) && ui.mode == Idle && ui.activeReverse
    ensures var r1 := Cycle(AsWritten, t, ui, Sync.NoFault, 2, rotary, n1);
            var r2 := Cycle(AsWritten, t, r1.ui, r1.fault, 1, r1.rotary, n2);
            var r3 := Cycle(AsWritten, t, r2.ui, r2.fault, 1, r2.rotary, n3);
            r3.ui.mode == Idle && !r3.ui.activeReverse && !r3.reverse
  {
    var r1 := Cycle(AsWritten, t, ui, Sync.NoFault, 2, rotary, n1);
    IdleMultiClickEditsUnits(AsWritten, t, ui, 2, rotary, n1);
    var r2 := Cycle(AsWritten, t, r1.ui, r1.fault, 1, r1.rotary, n2);
    UnitsClickCommits(AsWritten, t, r1.ui, 1, r1.rotary, n2);
    ValueClickCommits(AsWritten, t, r2.ui, 1, r2.rotary, n3);
  }
}
