/**
 The whole controller: the 1 ms tick (SysTick_Handler) and the main loop's
 ui_update, interleaved as whole steps over the globals they share. This is
 the corrected firmware: the user interface runs the Corrected revision and
 the alarm pin is sampled with the corrected mask.
 */
module Controller {
  import opened Word
  import opened Build
  import opened Tables
  import Servo
  import Input
  import Sync
  import Ui
  import Display
  import UiProperties

  /**
   Everything the firmware remembers: the synchroniser's and the interface's
   statics, the button aggregator, the three shared globals and the rotary
   encoder's count register.
   */
  datatype Machine = Machine(
    sync: Sync.SyncState,
    ui: Ui.UiState,
    button: Input.Button,
    shared: Sync.Shared,
    rotary: U16)

  /** Power-up: steps_per_pulse, reverse and fault are all 0. */
  function Boot(defaultUnit: U8, defaultValue: I16): Machine
  {
    Machine(Sync.SyncInit, Ui.UiInit(defaultUnit, defaultValue), Input.ButtonInit,
            Sync.Shared(0, false, Sync.NoFault), 0)
  }

  /**
   At power-up last_steps_per_pulse is (uint32_t)-1 while steps_per_pulse is
   0, so the first unfiltered tick re-baselines both positions. The remembered
   difference starts at 0, which counts as non-negative, so a first reading
   that moves backwards by less than the jitter limit is discarded.
   */
  lemma BootRebaselines(defaultUnit: U8, defaultValue: I16, raw: U16)
    ensures var m := Boot(defaultUnit, defaultValue);
            && Sync.Rebaselines(m.sync, m.shared, raw)
            && (Sync.Filtered(m.sync, raw) <==> -Sync.JITTER_LIMIT < Sync.EncoderDiff(raw, 0) < 0)
  {
  }

  /** What happens between two steps of the model. `turn` is the knob's
      motion, in counts, since the previous cycle. */
  datatype Event =
    | TickEvent(raw: U16, idle: bool, alarmIdr: U32)
    | CycleEvent(buttonIdr: U32, turn: I16)

  /**
   The state every step keeps once one cycle has run: the interface's
   invariant, and the shared ratio and direction are those of the committed
   selection.
   */
  predicate Synced(t: FeedTables, m: Machine)
  {
    && Ui.Inv(Corrected, t, m.ui, m.shared.fault)
    && m.shared.ratio == ForUnits(t, m.ui.activeUnits)[m.ui.activeValue].ratio
    && m.shared.reverse == m.ui.activeReverse
  }

  /** One tick: the synchroniser, with the alarm pin sampled as corrected. */
  function OnTick(m: Machine, raw: U16, idle: bool, alarmIdr: U32, fromFixed: U64 -> int): (r: (Machine, Sync.Command))
    ensures r.0.ui == m.ui && r.0.shared.ratio == m.shared.ratio && r.0.shared.reverse == m.shared.reverse
  {
    var tr := Sync.Tick(m.sync, m.shared, raw, idle, Servo.AlarmSample(Corrected, alarmIdr), fromFixed);
    (m.(sync := tr.state, shared := m.shared.(fault := tr.fault)), tr.command)
  }

  /** The click burst the cycle's input_button_get call reports. */
  function ClicksAt(m: Machine, buttonIdr: U32): U8
  {
    Input.ButtonGet(m.button, buttonIdr, m.sync.ticks).1
  }

  /**
   One main-loop cycle: the knob's motion lands in the count register, the
   button is polled at the current tick count, and ui_update runs and
   publishes the committed ratio and direction.
   */
  function OnCycle(t: FeedTables, m: Machine, buttonIdr: U32, turn: I16): (r: (Machine, Display.Frame))
    requires Ui.Inv(Corrected, t, m.ui, m.shared.fault)
    ensures Synced(t, r.0)
    ensures r.0.sync == m.sync
  {
    var now := m.sync.ticks;
    var (button, clicks) := Input.ButtonGet(m.button, buttonIdr, now);
    var rotary := ToU16(m.rotary + turn);
    var c := Ui.Cycle(Corrected, t, m.ui, m.shared.fault, clicks, rotary, now);
    UiProperties.CorrectedPublishesCommittedRatio(t, m.ui, m.shared.fault, clicks, rotary, now);
    (Machine(m.sync, c.ui, button, Sync.Shared(c.ratio.value, c.reverse, c.fault), c.rotary),
     c.frame.value)
  }

  /** One event of either kind; a tick's command and a cycle's frame are dropped. */
  function Step(t: FeedTables, m: Machine, e: Event, fromFixed: U64 -> int): Machine
    requires Ui.Inv(Corrected, t, m.ui, m.shared.fault)
  {
    match e
    case TickEvent(raw, idle, alarmIdr) => OnTick(m, raw, idle, alarmIdr, fromFixed).0
    case CycleEvent(buttonIdr, turn) => OnCycle(t, m, buttonIdr, turn).0
  }

  /** A tick never changes what the interface committed, and never clears a fault,
      so it keeps the machine synced. */
  lemma TickKeepsSynced(t: FeedTables, m: Machine, raw: U16, idle: bool, alarmIdr: U32, fromFixed: U64 -> int)
    requires Synced(t, m)
    ensures Synced(t, OnTick(m, raw, idle, alarmIdr, fromFixed).0)
  {
  }

  /** Any interleaving of ticks and cycles. */
  function Run(t: FeedTables, m: Machine, events: seq<Event>, fromFixed: U64 -> int): Machine
    requires Synced(t, m)
    decreases |events|
  {
    if events == [] then m
    else
      var m' := Step(t, m, events[0], fromFixed);
      RunStep(t, m, events[0], fromFixed);
      Run(t, m', events[1..], fromFixed)
  }

  /** Every step keeps the machine synced. */
  lemma RunStep(t: FeedTables, m: Machine, e: Event, fromFixed: U64 -> int)
    requires Synced(t, m)
    ensures Synced(t, Step(t, m, e, fromFixed))
  {
    match e
    case TickEvent(raw, idle, alarmIdr) => TickKeepsSynced(t, m, raw, idle, alarmIdr, fromFixed);
    case CycleEvent(buttonIdr, turn) =>
  }

  /**
   After the first cycle, and through any later interleaving of ticks and
   cycles, the ratio and direction the synchroniser reads are exactly those of
   the committed selection: a staged edit never reaches the motion.
   */
  lemma {:induction false} MotionFollowsCommittedSelection(t: FeedTables, defaultUnit: U8, defaultValue: I16,
                                                           buttonIdr: U32, turn: I16,
                                                           events: seq<Event>, fromFixed: U64 -> int)
    requires Valid(t) && defaultUnit <= Ui.UNITS_MAX
    requires 0 <= defaultValue < |ForUnits(t, defaultUnit)|
    ensures var m1 := OnCycle(t, Boot(defaultUnit, defaultValue), buttonIdr, turn).0;
            var m := Run(t, m1, events, fromFixed);
            && Ui.Inv(Corrected, t, m.ui, m.shared.fault)
            && m.shared.ratio == ForUnits(t, m.ui.activeUnits)[m.ui.activeValue].ratio
            && m.shared.reverse == m.ui.activeReverse
  {
    Ui.InitInv(Corrected, t, defaultUnit, defaultValue);
    var m1 := OnCycle(t, Boot(defaultUnit, defaultValue), buttonIdr, turn).0;
    RunSynced(t, m1, events, fromFixed);
  }

  lemma {:induction false} RunSynced(t: FeedTables, m: Machine, events: seq<Event>, fromFixed: U64 -> int)
    requires Synced(t, m)
    ensures Synced(t, Run(t, m, events, fromFixed))
    decreases |events|
  {
    if events != [] {
      RunStep(t, m, events[0], fromFixed);
      RunSynced(t, Step(t, m, events[0], fromFixed), events[1..], fromFixed);
    }
  }

  /**
   A latched fault is cleared by nothing but a cycle whose button burst has
   more than three clicks, and no tick moves the drive while it is latched.
   */
  lemma FaultLatchedUntilQuadClick(t: FeedTables, m: Machine, e: Event, fromFixed: U64 -> int)
    requires Synced(t, m) && m.shared.fault != Sync.NoFault
    ensures Step(t, m, e, fromFixed).shared.fault == Sync.NoFault ==>
              e.CycleEvent? && ClicksAt(m, e.buttonIdr) > 3
    ensures e.TickEvent? ==> !OnTick(m, e.raw, e.idle, e.alarmIdr, fromFixed).1.Move?
  {
  }

  /** While no click is delivered, cycles leave the shared ratio and direction
      unchanged, however the knob is turned. */
  lemma EditsDoNotChangeMotion(t: FeedTables, m: Machine, buttonIdr: U32, turn: I16)
    requires Synced(t, m) && ClicksAt(m, buttonIdr) == 0
    ensures var m' := OnCycle(t, m, buttonIdr, turn).0;
            m'.shared.ratio == m.shared.ratio && m'.shared.reverse == m.shared.reverse
  {
  }
}
