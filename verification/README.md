# Sieg SC4 electronic leadscrew: a Dafny model of the control core

The Sieg SC4 ELS firmware keeps a lathe's lead screw in step with the spindle.
A 1 ms timer interrupt, `SysTick_Handler`, is the position synchroniser. It
reads the spindle's 16-bit quadrature counter and keeps a 32-bit position
biased at 2^31. It scales that position by the selected 16.16 fixed-point
ratio into a target stepper position. Then it commands the step/direction
drive to close the gap, and it latches a fault when the gap exceeds one
255-pulse train or the drive raises its alarm. The main loop's `ui_update` is
a four-mode state machine (Idle, ChangeUnits, ChangeValue, Fault). It stages
the operator's choice of feed table, row and direction from a push button and
a rotary knob, commits that choice on a click and renders a five-register
display. It publishes the committed ratio and direction to the synchroniser.
Two small debouncers feed it:

- `servo_alarm_get` debounces the drive's alarm pin;
- `input_button_get` aggregates button clicks.

The model is written in the firmware's own terms. Every C integer width is a
subset type of `int` (module `Word`), and every narrowing conversion is
written out as a reduction modulo 2^n. The function-local statics become
immutable state records. Each entry point becomes a pure step function:

| module | models |
|---|---|
| `Sync` | `SysTick_Handler` as `Tick` |
| `Ui` | `ui_update` as `Cycle` |
| `Servo` | `servo_alarm_get` as `AlarmGet`, and `servo_step`'s repeat register as `RepeatCount` |
| `Input` | `input_button_get` as `ButtonGet`, and `input_encoder_get`/`set` as `RotaryGet`/`RotarySet` |
| `Tables` | the four feed tables, as a parameter |
| `Display` | the display codes |
| `Controller` | composes the tick and the cycle over the three shared globals (`steps_per_pulse`, `reverse`, `fault`) |

`Build.Revision` selects between two behaviours. `AsWritten` follows the
source exactly, defects included. `Corrected` repairs each defect listed
under Findings. `Servo.AlarmSample` and `Ui.Cycle` (with its stage functions)
take the revision as a parameter. Each Findings row has a lemma that shows the
defect on the as-written model and a lemma that proves the intended property
of the corrected one. The composed controller runs the corrected revision.

Three behaviours of the code are worth stating on their own:

- a new alarm level is reported after twelve identical samples, counting the
  sample that changed it (servo.c:94-102, `Servo.AlarmSettlesAfterTwelve`);
- the fault path sets `last_steps_per_pulse` to 0, so clearing a fault forces
  a re-baseline only when the current ratio is non-zero (main.c:124,
  `Sync.ClearedFaultRebaselines`);
- a jitter-filtered tick returns before the fault logic (main.c:73-75,
  `Sync.FilteredTickSkipsFaultHandling`).

## Model

| member | source | states |
|---|---|---|
| Word.Elapsed | input.c:83 | the wrapping difference of two uint32_t tick stamps is the distance d with since + d = now modulo 2^32 |
| Word.ElapsedShift | main.c:265 | every timeout is wrap-safe: shifting both timestamps by the same amount modulo 2^32 leaves the elapsed time unchanged |
| Tables.ForUnits | main.c:212-233 | units 0..3 select the mm-feed, mm-thread, inch-feed and inch-thread table, each non-empty with a row count that fits uint8_t |
| Tables.RowAt | main.c:293-308 | an indexed table read yields the row exactly when the index lies inside the table, otherwise it is a read past the end |
| Servo.AlarmSample | servo.c:93 | as written the masked bit 10 stored in uint8_t is 0 whatever the pin reads; corrected the sample is 1 exactly when the pin is high |
| Servo.AlarmGet | servo.c:87-105 | a changed sample restarts the stability count and records the sample; the reported value is the old value or the repeated sample; the count stays at most 11 |
| Servo.AlarmRepeatStable | servo.c:94-102 | repeating the recorded sample n times saturates the count at 11 and reports the sample exactly once the count passes 10 |
| Servo.AlarmSettlesAfterTwelve | servo.c:94-102 | a new level is reported after twelve identical samples including the changing one, and not before |
| Servo.AlarmReportsSampledValue | servo.c:89-104 | over any sample sequence the reported value is the initial value or one of the samples |
| Servo.AsWrittenAlarmNeverReported | servo.c:93 | as written, from power-up, servo_alarm_get returns 0 whatever the alarm pin does |
| Servo.CorrectedAlarmReported | servo.c:93-104 | with the corrected sample, a pin held high for twelve polls after power-up is reported as an alarm |
| Servo.RepeatCount | servo.c:76-80 | for a count n in 1..255 the repeat register n - 1 fits 0..254 and the timer emits exactly n pulses; 0 would wrap to 2^32 - 1 |
| Input.ButtonSample | input.c:73 | the sampled byte is 4 while pin 2 reads high, else 0 |
| Input.CountsClick | input.c:83 | a click is counted when the sampled level is unchanged and pressed, the press is not yet counted, and more than 50 ticks have passed since the last level change |
| Input.Track | input.c:74-89 | the first half of a call: the recorded level becomes the sample; the other field updates are stated on ButtonGet |
| Input.Report | input.c:91-98 | the second half of a call: the burst is either kept or reset to 0, nothing else changes |
| Input.ButtonGet | input.c:63-99 | a level change records its time, re-arms counting and adds no click; a stable, uncounted, debounced press adds one click; otherwise the timestamps and the counted flag are kept; a burst is reported and reset exactly when it is non-empty and quiet for over 250 ticks |
| Input.OneClickPerPress | input.c:78-88 | while the level stays the same at most one click is counted, none once counted or while released |
| Input.ButtonTimeShift | input.c:83-92 | shifting every timestamp by the same amount modulo 2^32 shifts the new state and leaves the reported clicks unchanged |
| Input.RotaryGet | input.c:101-104 | the knob is the 16-bit count register read as int16_t |
| Input.RotarySet | input.c:106-109 | an int16_t is written to the 16-bit count register modulo 2^16 |
| Input.RotaryRoundTrip | input.c:101-109 | writing then reading the knob register returns the value written, and reading then writing back leaves it unchanged |
| Sync.EncoderDiff | main.c:69-70 | the signed difference recovers the counter's motion: last + diff = raw modulo 2^16, and it is the true difference when that fits int16_t |
| Sync.XorSignTest | main.c:73 | the XOR test on the promoted operands holds exactly when the two differences have opposite signs, 0 counting as non-negative |
| Sync.SignBitIsNegative | main.c:73 | bit 31 of a two's-complement int is set exactly for negative values |
| Sync.XorNegative | main.c:73 | `(a ^ b) < 0` on the promoted operands: bit 31 of the XOR, that is the two sign bits differ |
| Sync.Filtered | main.c:73-75 | a reading is discarded as jitter when the XOR test of its difference with the last accepted one is negative and the difference lies strictly between -10 and 10 |
| Sync.FilteredIsSmallReversal | main.c:73-75 | a reading is discarded as jitter exactly when its difference has the opposite sign to the last accepted one and lies strictly between -10 and 10 |
| Sync.Rebaselines | main.c:87-89 | the positions are re-based when the ratio or the direction differs from the cached one, or the updated spindle position is below 10000 |
| Sync.ScaleIsFixedPointProduct | main.c:94-99 | with FROM_FIXED_MULT dropping 32 bits, the target is the 16.16 product position * ratio / 2^16 truncated to 32 bits; the 64-bit wrap loses nothing |
| Sync.Abs | main.c:101 | the step magnitude is the step count or its negation |
| Sync.Accumulate | main.c:69-95 | an unfiltered tick adds the difference to the spindle position; a ratio change, a direction change or a position below 10000 re-baselines both positions at the bias and caches the new ratio and direction |
| Sync.Tick | main.c:56-126 | the tick counter always advances; a filtered tick changes nothing else; otherwise the steps take the believed position to the scaled target, the alarm beats the over-255 fault, a latched fault stops the drive and forces a later re-baseline while keeping the cached direction, and an idle drive is moved by the steps in direction (steps < 0) XOR reverse; the tick never clears a fault |
| Sync.FilteredTickSkipsFaultHandling | main.c:73-75 | a filtered tick issues no stop and polls no alarm, even while a fault is latched, and leaves the fault as it was |
| Sync.JitterExample | main.c:73-75 | a reversal of three counts after a forward move of five is filtered and leaves the position and the remembered difference unchanged |
| Sync.MoveFitsRepeatCounter | main.c:113-119 | every move command's count lies in 1..255, so the repeat register is loaded with count - 1 and never wraps |
| Sync.StepReachesTarget | main.c:100-120 | adding the int32_t step difference to the believed position lands exactly on the target modulo 2^32 |
| Sync.Conservation | main.c:69-78 | over a run with no filtered tick and no re-baseline the spindle position moves by exactly the sum of the counter differences and remembers the last reading |
| Sync.SumDiffsTracksCounter | main.c:69-70 | the summed differences reproduce the counter's own motion modulo 2^16, so no count is lost to its wrap |
| Sync.ClearedFaultRebaselines | main.c:122-125 | a tick that latches a fault zeroes the cached ratio, so the next unfiltered tick with a non-zero ratio re-baselines |
| Sync.RebaselineStepsOnlyFromMotion | main.c:87-100 | with FROM_FIXED_MULT dropping 32 fraction bits, a re-baselining tick computes exactly floor(diff * ratio / 2^16) steps, none of them caused by the change |
| Sync.RebaselineArithmetic | main.c:93-100 | the 32-bit difference between the scaled re-baselined position and the scaled bias is floor(diff * ratio / 2^16) |
| Sync.RatioChangeRaisesNoFault | main.c:87-105 | a ratio or direction change whose scaled motion fits one pulse train raises no fault when the drive does not alarm |
| Ui.UiInit | main.c:130-137 | power-up: Idle with DEFAULT_UNIT, DEFAULT_VALUE, forward, nothing staged and the change time 0 |
| Ui.InitInv | main.c:130-137 | the power-up state satisfies the interface invariant for in-range defaults |
| Ui.Decode | main.c:237-249 | a non-negative knob reading is the row itself going forward; a negative reading r means reverse with row -r-1; every int16_t reading decodes to a row in 0..32767 |
| Ui.Encode | main.c:157-161 | a row's encoding is negative exactly for reverse and decodes back to that row and direction |
| Ui.DialRoundTrip | main.c:241-261 | encoding and decoding are inverse bijections between int16_t readings and (row, direction) pairs |
| Ui.ApplyClicks | main.c:139-190 | a latched fault forces Fault, kept by bursts of one to three clicks and cleared into Idle only by more; from Idle several clicks start a units edit with the knob at the committed units and one click a value edit with the knob at the encoded committed row; a click commits a units edit into a value edit and a value edit into Idle; a click stamps the time; no click leaves the mode, the committed selection and the knob alone |
| Ui.PendingUnits | main.c:195-208 | the staged units are the reading clamped to 0..3 (as written after narrowing to int8_t), and the register is rewritten exactly when clamping changed the value |
| Ui.EditUnits | main.c:192-210 | only a units edit follows the knob; the change time is restamped exactly when the reading differs from the staged units; staged units stay within 0..3, and in the corrected revision the knob then reads the staged units |
| Ui.EditValue | main.c:235-263 | only a value edit follows the knob; the change time is restamped exactly when the reading differs from the staged value (its row as written, its encoding corrected); the staged row and direction are the decoded reading with the row clamped into the table; the register is rewritten only when the row was clamped, and the knob then reads the staged row's encoding |
| Ui.Timeout | main.c:265-266 | a state last touched over 5000 ticks ago (wrap-around difference) returns to Idle unless it is Fault; one touched within 5000 ticks is kept; nothing else changes |
| Ui.DisplayUnits | main.c:192-209 | the table shown is the staged units' during a units edit, the committed units' otherwise |
| Ui.FlashBlank | main.c:274 | the flash is blank while bits 7 and 8 of the tick counter are both set |
| Ui.FlashPhase | main.c:274 | the flash is blank exactly in the last quarter, ticks 384..511, of every 512-tick period |
| Ui.UnitsLed | main.c:315-323 | the LED row lights bit units + 1 |
| Ui.ShownIndex | main.c:306-308 | as written the steady display indexes the displayed table with the committed row as is; corrected, a non-negative index is clamped into that table, unchanged when it already lies inside |
| Ui.Render | main.c:269-329 | Fault flashes minus, code, E, minus; a value edit flashes the staged row with a minus for reverse; otherwise the committed row is shown steadily when it lies in the displayed table (as written the index is used as is; corrected it is clamped into the displayed table); the LEDs flash the staged units during a units edit |
| Ui.PublishedRatio | main.c:331 | as written the ratio is the committed row of the displayed table, when that row exists; corrected it is the committed row of the committed table |
| Ui.Cycle | main.c:128-333 | one ui_update keeps the invariant, publishes the committed direction, never raises a fault and clears one only on a quad-click into Idle, and leaves the committed selection alone without a click |
| UiProperties.KnobTracksStagedValue | main.c:235-263 | during a value edit the knob reads the encoding of the staged selection, whose row lies in the committed units' table |
| UiProperties.CorrectedPublishesCommittedRatio | main.c:331-332 | corrected, the ratio sent to the synchroniser is always the committed row's ratio of the committed table and the display frame is always defined |
| UiProperties.FaultClearNeedsQuadClick | main.c:179-186 | with a fault latched, bursts of one to three clicks keep Fault and the fault; four or more clear it into Idle; the committed selection is kept either way |
| UiProperties.IdleMultiClickEditsUnits | main.c:148-154 | from Idle a multi-click starts a units edit with the knob seeded to the committed units |
| UiProperties.IdleClickEditsValue | main.c:155-163 | from Idle a single click starts a value edit with the knob seeded to the committed row and direction, sign-encoded |
| UiProperties.UnitsClickCommits | main.c:167-172 | in a units edit a click commits the staged units and starts a value edit; as written the seed is the forward encoding, corrected it keeps the direction and clamps the row into the new table |
| UiProperties.ValueClickCommits | main.c:173-178 | in a value edit a click commits the staged row and direction and returns to Idle |
| UiProperties.EditTimesOut | main.c:265-266 | an edit with no click and no knob motion for over 5000 ticks returns to Idle with the committed selection and direction unchanged; as written only for a units edit or a value edit whose staged direction is forward |
| UiProperties.KnobMotionKeepsEditAlive | main.c:196-197 | corrected, a cycle whose knob reading differs from the staged selection stays in the edit and restamps its change time, so the timeout counts from the last motion |
| UiProperties.ReversedEditNeverTimesOut | main.c:237-240 | as written a reverse value edit restamps the change time on every cycle and so never times out |
| UiProperties.ValueClampRewrites | main.c:241-262 | the staged row is the decoded row clamped to the table, and the register is rewritten with the clamped encoding exactly when it was clamped |
| UiProperties.UnitsFollowKnob | main.c:195-208 | staged units follow the knob clamped to 0..3 with a rewrite when clamped; as written the reading is first narrowed to int8_t |
| UiProperties.UnitsTruncation | main.c:134-198 | as written the reading 256 stages units 0, leaves the register at 256 and restamps the change time; corrected it stages 3 and rewrites the register |
| UiProperties.StagedUnitsOverrunDisplay | main.c:306-308 | as written a units edit with row 1 committed and a one-row staged table builds no frame, reading past the table's end; corrected the frame shows the staged table's last row |
| UiProperties.StagedUnitsSteerRatio | main.c:192-233 | as written a units edit publishes the staged table's ratio, or reads past its end, before any commit; corrected the committed ratio is published |
| UiProperties.CommitThenTimeoutReadsPastEnd | main.c:169-170 | as written a units commit keeps a row index past the new table's end, and after a timeout Idle reads both display and ratio past it |
| UiProperties.EditRoundTrip | main.c:148-178 | a double click, a click and a click from Idle restore the committed selection exactly: always when corrected; as written, for a forward selection whose committed row lies inside its table |
| UiProperties.UnitsCommitDropsReverse | main.c:170 | as written the same round trip from a reverse selection ends going forward |
| Controller.BootRebaselines | main.c:58-64 | from power-up, where the shared ratio is 0 and the cached one (uint32_t)-1, the first unfiltered tick re-baselines, and a first backwards motion of 1..9 counts is discarded as jitter |
| Controller.OnTick | main.c:56-126 | a tick changes neither the interface's state nor the published ratio and direction |
| Controller.OnCycle | main.c:128-333 | corrected: a cycle leaves the synchroniser alone and republishes the committed ratio and direction |
| Controller.TickKeepsSynced | main.c:51-53 | corrected: a tick keeps the shared ratio and direction equal to the committed selection's |
| Controller.RunStep | main.c:51-53 | corrected: any single event keeps the shared ratio and direction equal to the committed selection's |
| Controller.RunSynced | main.c:51-53 | corrected: any interleaving of ticks and cycles keeps the shared ratio and direction equal to the committed selection's |
| Controller.MotionFollowsCommittedSelection | main.c:331-332 | corrected: from power-up, after the first cycle and through any interleaving, the synchroniser reads exactly the committed row's ratio and direction |
| Controller.FaultLatchedUntilQuadClick | main.c:104-125 | a latched fault is cleared only by a cycle with over three clicks, and no tick moves the drive while it is latched |
| Controller.EditsDoNotChangeMotion | main.c:192-263 | corrected: a cycle without a click leaves the shared ratio and direction unchanged however the knob turns |

## Left out

- Peripheral set-up and the main loop (`servo_init`, `input_init`, `display_init`, `spindle_encoder_init`, `clock_init`, main.c:336-369): register configuration with no logic.
- `display_write` and its SPI transfer (display.c): a cycle returns the five display registers as a `Display.Frame` instead.
- The tick source (clock.c): `now` is an input of every step, and the tick counter is part of the synchroniser's state.
- `servo_is_idle`, `servo_set_direction`, `servo_stop`: register operations. The drive's idle status is an input, and the tick returns a `Command` (hold, stop, or move with direction and count).
- Interrupt preemption and `volatile`: the tick and the cycle are whole, separate steps over the shared ratio, direction and fault. A tick that lands midway through `ui_update` is not modelled.
- FROM_FIXED_MULT is defined in config.h, which is not part of this model, so it is the parameter `fromFixed`. The ratio-change lemmas assume it drops 32 fraction bits (`Sync.FromFixedShift`). That is an assumption about config.h.
- The feed tables' contents (tables.h) are a parameter: any four non-empty tables with fewer than 256 rows.
- DEFAULT_UNIT and DEFAULT_VALUE (config.h) are parameters of the power-up state, required to be in range.
- The MAX7219 register map; only the digit codes MINUS, ERROR and BLANK are kept.
- Ui.Render: a table read past its end is C undefined behaviour, so it yields no frame (`None`) rather than some garbage value.
- Ui.PublishedRatio: a ratio read past the table's end yields `None` for the same reason. The controller, which runs the corrected revision, never meets it.

## Findings

| source | as written | input that shows it | evidently intended | confidence | as-written member | corrected member |
|---|---|---|---|---|---|---|
| main.c:331 | the ratio comes from `table`, which is chosen by `displayUnits`: the staged units while a units edit is open | committed mm-feed row 0, staged mm-thread: mm-thread's ratio is sent to the drive before any commit | the synchroniser only ever sees the committed selection's ratio | high (not executed) | UiProperties.StagedUnitsSteerRatio | UiProperties.CorrectedPublishesCommittedRatio |
| main.c:306-308 | the steady display during a units edit reads `table[activeValue]` from the staged units' table | committed mm-feed row 1, staged mm-thread with one row: the digits are read past its end | the displayed row always lies inside the displayed table | high (not executed) | UiProperties.StagedUnitsOverrunDisplay | UiProperties.CorrectedPublishesCommittedRatio |
| main.c:169-170 | a units commit keeps `activeValue` even when the new table is shorter | commit units whose table has one row while row 1 is committed, then let the value edit time out: Idle shows and publishes `table[1]`, past the end | the committed row is clamped into the committed table | high (not executed) | UiProperties.CommitThenTimeoutReadsPastEnd | Controller.MotionFollowsCommittedSelection |
| main.c:134-198 | the int16_t knob reading is narrowed to int8_t `changeUnits` before the clamp | knob reading 256: units 0 are staged, the register is not rewritten, and the edit never times out | the reading is clamped to 0..3 and the knob rewritten | high (not executed) | UiProperties.UnitsTruncation | Ui.EditUnits |
| servo.c:93 | `GPIOA->IDR & GPIO_IDR_IDR10` (0x400) is stored in a uint8_t, which keeps only bits 0-7 | alarm pin held high: every sample is 0, so FAULT_SERVO_ALARM is never raised | a high alarm pin is reported after the debounce | high (not executed) | Servo.AsWrittenAlarmNeverReported | Servo.CorrectedAlarmReported |
| main.c:237-240 | a knob motion is detected by comparing the reading with `changeValue`, which holds the decoded row | a reverse value edit with the knob untouched: reading -row-1 never equals row, so every cycle restamps the time | an untouched edit times out after 5000 ticks in either direction, and turning the knob keeps it open | high (not executed) | UiProperties.ReversedEditNeverTimesOut | UiProperties.EditTimesOut, UiProperties.KnobMotionKeepsEditAlive |
| main.c:170 | a units commit seeds the knob with `activeValue` without the reverse encoding used at main.c:157-161 | reverse selection, double click, click, click: the committed direction becomes forward | the round trip restores the committed selection, direction included | medium (not executed; inferred from the encoding at main.c:157-161) | UiProperties.UnitsCommitDropsReverse | UiProperties.EditRoundTrip |
