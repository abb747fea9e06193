/** One instance daemon as an event machine: its clock, its realtime backlog and its trace
    (runtime/src/daemon/server/action_router.rs, runtime/src/daemon/server/tick_ops.rs).
    Failures are part of the events, so a run covers every failure pattern. */
module InstanceModel {
  import opened Arithmetic
  import opened Common
  import opened TimeEngines
  import opened Traces

  /** How one tick goes: inputs drained and `sim_tick` done; a due trace row read and
      written; outputs sent. */
  datatype InstanceIo = InstanceIo(ready: bool, sampled: bool, sent: bool)

  /** The fields after `shutdown` are history: `sim_tick` calls completed since the last
      reset, and those among them the clock did not count; since the backlog was last
      cleared, the remainder then, the scaled time that passed, the ticks that fell due and
      the ticks executed for them; and whether the active trace missed a row or saw a reset. */
  datatype Instance = Instance(
    engine: Engine, backlog: nat, trace: Option<Trace>, shutdown: bool,
    ticks: nat, uncounted: nat, carried: real, scaled: real, due: nat, executed: nat, disturbed: bool)

  datatype Outcome = BeforeTick | AfterTick | Completed

  datatype InstanceEvent =
    | InstanceReset(ok: bool)
    | TimeStart(now: real)
    | TimePause
    | TimeStep(durationUs: nat, ios: seq<InstanceIo>)
    | TimeSpeed(speed: real)
    | WorkerStep(io: InstanceIo)
    | Turn(now: real, ios: seq<InstanceIo>)
    | StartTrace(periodUs: nat, ok: bool)
    | StopTrace(ok: bool)
    | Close

  const MAX_TICKS_PER_TURN: nat := 64

  const Launched: Instance := Instance(Initial, 0, None, false, 0, 0, 0.0, 0.0, 0, 0, false)

  // ----- one tick

  function Clock(s: Instance): nat {
    s.engine.elapsedTicks
  }

  predicate RowDue(s: Instance) {
    TraceDue(s.trace, SatAdd(Clock(s), 1))
  }

  function OutcomeOf(s: Instance, io: InstanceIo): Outcome {
    if !io.ready then BeforeTick
    else if RowDue(s) && !io.sampled then AfterTick
    else if !io.sent then AfterTick
    else Completed
  }

  /** `advance_single_project_tick`: everything but the clock. */
  function Ticked(s: Instance, io: InstanceIo): Instance {
    if !io.ready then s
    else if !RowDue(s) then s.(ticks := s.ticks + 1)
    else if !io.sampled then s.(ticks := s.ticks + 1, disturbed := true)
    else s.(ticks := s.ticks + 1, trace := Some(WithRow(s.trace.value, SatAdd(Clock(s), 1))))
  }

  function Counted(s: Instance): Instance {
    s.(engine := s.engine.(elapsedTicks := SatAdd(Clock(s), 1)))
  }

  /** The two local paths count a tick that failed only after `sim_tick`. */
  function LocalTick(s: Instance, io: InstanceIo): Instance {
    if OutcomeOf(s, io).BeforeTick? then s else Counted(Ticked(s, io))
  }

  /** A worker step counts only a tick that completed. */
  function WorkerTick(s: Instance, io: InstanceIo): Instance {
    match OutcomeOf(s, io)
    case BeforeTick => s
    case AfterTick => Ticked(s, io).(uncounted := s.uncounted + 1)
    case Completed => Counted(Ticked(s, io))
  }

  /** Local ticks up to the first that fails. */
  function LocalTicks(s: Instance, ios: seq<InstanceIo>): Instance
    decreases |ios|
  {
    if ios == [] then s
    else if OutcomeOf(s, ios[0]).Completed? then LocalTicks(LocalTick(s, ios[0]), ios[1..])
    else LocalTick(s, ios[0])
  }

  predicate AllComplete(s: Instance, ios: seq<InstanceIo>)
    decreases |ios|
  {
    ios == [] || (OutcomeOf(s, ios[0]).Completed? && AllComplete(LocalTick(s, ios[0]), ios[1..]))
  }

  // ----- events

  function Cleared(s: Instance): Instance {
    s.(backlog := 0, carried := s.engine.remainderUs, scaled := 0.0, due := 0, executed := 0)
  }

  function StepCount(s: Instance, tickUs: nat, durationUs: nat): nat {
    if s.engine.state.Running? || tickUs == 0 then 0 else durationUs / tickUs
  }

  /** The due ticks of a poll join the backlog. */
  function AfterPoll(s: Instance, tickUs: nat, now: real): Instance {
    s.(engine := Polled(s.engine, tickUs, now),
       backlog := SatAdd(s.backlog, TicksDue(s.engine, tickUs, now)),
       due := s.due + TicksDue(s.engine, tickUs, now),
       scaled := s.scaled + Gain(s.engine, now))
  }

  function BatchOf(s: Instance): nat {
    Min(s.backlog, MAX_TICKS_PER_TURN)
  }

  function AfterBatch(s: Instance, ios: seq<InstanceIo>): Instance {
    var t := LocalTicks(s, ios);
    if AllComplete(s, ios) then t.(backlog := SatSub(s.backlog, |ios|), executed := s.executed + |ios|)
    else t.(shutdown := true)
  }

  predicate CanHappen(tickUs: nat, s: Instance, e: InstanceEvent) {
    && !s.shutdown
    && match e
       case TimeStep(durationUs, ios) => |ios| == StepCount(s, tickUs, durationUs)
       case Turn(now, ios) => |ios| == BatchOf(AfterPoll(s, tickUs, now))
       case _ => true
  }

  function StartedTrace(s: Instance, tickUs: nat, periodUs: nat): Instance
    requires tickUs > 0
  {
    var period := DivCeil(periodUs, tickUs);
    s.(trace := Some(Trace(period, SatAdd(Clock(s), period), [Clock(s)])), disturbed := false)
  }

  /** `attached` is whether the instance belongs to an env, which then owns time. */
  function Happen(attached: bool, tickUs: nat, s: Instance, e: InstanceEvent): Instance
    requires tickUs > 0
  {
    match e
    case InstanceReset(ok) =>
      if !ok then s
      else Cleared(s.(engine := Initial, ticks := 0, uncounted := 0, disturbed := s.trace.Some? || s.disturbed))
    case TimeStart(now) =>
      if attached || s.engine.state.Running? then s
      else Cleared(s.(engine := s.engine.(state := Running, last := Some(now))))
    case TimePause =>
      if attached || s.engine.state.Paused? then s
      else Cleared(s.(engine := s.engine.(state := Paused, last := None, remainderUs := 0.0)))
    case TimeStep(_, ios) => if attached then s else LocalTicks(Cleared(s), ios)
    case TimeSpeed(speed) => if attached || speed <= 0.0 then s else s.(engine := s.engine.(speed := speed))
    case WorkerStep(io) => WorkerTick(s, io)
    case Turn(now, ios) => AfterBatch(AfterPoll(s, tickUs, now), ios)
    case StartTrace(periodUs, ok) =>
      if s.trace.Some? || periodUs == 0 || !ok then s else StartedTrace(s, tickUs, periodUs)
    case StopTrace(ok) => if ok then s.(trace := None) else s
    case Close => s.(shutdown := true)
  }

  predicate InstanceRun(attached: bool, tickUs: nat, s: Instance, events: seq<InstanceEvent>)
    requires tickUs > 0
    decreases |events|
  {
    events == [] ||
    (CanHappen(tickUs, s, events[0]) && InstanceRun(attached, tickUs, Happen(attached, tickUs, s, events[0]), events[1..]))
  }

  function InstanceEnd(attached: bool, tickUs: nat, s: Instance, events: seq<InstanceEvent>): Instance
    requires tickUs > 0
    decreases |events|
  {
    if events == [] then s else InstanceEnd(attached, tickUs, Happen(attached, tickUs, s, events[0]), events[1..])
  }

  // ----- the clock

  /** The clock counts the completed `sim_tick` calls since the last reset, except those of
      worker steps that failed after the tick. */
  predicate ClockInv(s: Instance) {
    s.uncounted <= s.ticks && Clock(s) == Min(s.ticks - s.uncounted, U64_MAX)
  }

  /** What a batch of ticks leaves alone. */
  predicate SameOutsideTicks(s: Instance, t: Instance) {
    && t.engine == s.engine.(elapsedTicks := Clock(t))
    && t == s.(engine := t.engine, ticks := t.ticks, trace := t.trace, disturbed := t.disturbed)
  }

  lemma {:induction false} LocalTicksFrame(s: Instance, ios: seq<InstanceIo>)
    requires ClockInv(s)
    ensures SameOutsideTicks(s, LocalTicks(s, ios)) && ClockInv(LocalTicks(s, ios))
    ensures s.ticks <= LocalTicks(s, ios).ticks <= s.ticks + |ios|
    ensures AllComplete(s, ios) ==> LocalTicks(s, ios).ticks == s.ticks + |ios|
    decreases |ios|
  {
    if ios != [] && OutcomeOf(s, ios[0]).Completed? {
      LocalTicksFrame(LocalTick(s, ios[0]), ios[1..]);
    }
  }

  /** Ticks that all complete move the clock by their number. */
  lemma {:induction false} TicksMoveClock(s: Instance, ios: seq<InstanceIo>)
    requires AllComplete(s, ios) && Clock(s) + |ios| <= U64_MAX
    ensures Clock(LocalTicks(s, ios)) == Clock(s) + |ios|
    decreases |ios|
  {
    if ios != [] {
      TicksMoveClock(LocalTick(s, ios[0]), ios[1..]);
    }
  }

  lemma HappenKeepsClock(attached: bool, tickUs: nat, s: Instance, e: InstanceEvent)
    requires tickUs > 0 && ClockInv(s) && CanHappen(tickUs, s, e)
    ensures ClockInv(Happen(attached, tickUs, s, e))
  {
    match e
    case TimeStep(_, ios) => LocalTicksFrame(Cleared(s), ios);
    case Turn(now, ios) => LocalTicksFrame(AfterPoll(s, tickUs, now), ios);
    case _ =>
  }

  /** A worker step that completes `sim_tick` and then fails: a due row cannot be taken, or
      the outputs cannot be sent. */
  predicate LosesTick(s: Instance, e: InstanceEvent) {
    e.WorkerStep? && e.io.ready && ((RowDue(s) && !e.io.sampled) || !e.io.sent)
  }

  predicate Resets(e: InstanceEvent) {
    e == InstanceReset(true)
  }

  predicate ResetLater(events: seq<InstanceEvent>) {
    exists k :: 0 <= k < |events| && Resets(events[k])
  }

  /** Every lost tick of the run is followed by a reset. */
  predicate LossesReset(attached: bool, tickUs: nat, s: Instance, events: seq<InstanceEvent>)
    requires tickUs > 0
    decreases |events|
  {
    events == [] ||
    ((LosesTick(s, events[0]) ==> ResetLater(events[1..]))
     && LossesReset(attached, tickUs, Happen(attached, tickUs, s, events[0]), events[1..]))
  }

  /** What each event does to the number of uncounted ticks. */
  lemma HappenUncounted(attached: bool, tickUs: nat, s: Instance, e: InstanceEvent)
    requires tickUs > 0 && ClockInv(s) && CanHappen(tickUs, s, e)
    ensures Happen(attached, tickUs, s, e).uncounted ==
            if Resets(e) then 0 else if LosesTick(s, e) then s.uncounted + 1 else s.uncounted
  {
    match e
    case TimeStep(_, ios) => LocalTicksFrame(Cleared(s), ios);
    case Turn(now, ios) => LocalTicksFrame(AfterPoll(s, tickUs, now), ios);
    case _ =>
  }

  lemma ResetLaterCons(e: InstanceEvent, rest: seq<InstanceEvent>)
    ensures ResetLater([e] + rest) <==> Resets(e) || ResetLater(rest)
  {
    var all := [e] + rest;
    if ResetLater(rest) {
      var k :| 0 <= k < |rest| && Resets(rest[k]);
      assert Resets(all[k + 1]);
    }
    if Resets(e) {
      assert Resets(all[0]);
    }
    if ResetLater(all) && !Resets(e) {
      var k :| 0 <= k < |all| && Resets(all[k]);
      assert Resets(rest[k - 1]);
    }
  }

  /** No tick is uncounted after a run exactly when every loss, an earlier one included, was
      followed by a reset. */
  lemma {:induction false} UncountedIff(attached: bool, tickUs: nat, events: seq<InstanceEvent>, s: Instance)
    requires tickUs > 0 && ClockInv(s) && InstanceRun(attached, tickUs, s, events)
    ensures ClockInv(InstanceEnd(attached, tickUs, s, events))
    ensures InstanceEnd(attached, tickUs, s, events).uncounted == 0
            <==> (s.uncounted == 0 || ResetLater(events)) && LossesReset(attached, tickUs, s, events)
    decreases |events|
  {
    if events != [] {
      HappenKeepsClock(attached, tickUs, s, events[0]);
      HappenUncounted(attached, tickUs, s, events[0]);
      assert events == [events[0]] + events[1..];
      ResetLaterCons(events[0], events[1..]);
      hide Happen, CanHappen, LosesTick, Resets, ResetLater, ClockInv;
      UncountedIff(attached, tickUs, events[1..], Happen(attached, tickUs, s, events[0]));
    }
  }

  /** Whatever fails in a run from launch, the clock equals the number of `sim_tick` calls
      completed since the last reset exactly when every worker step that failed after its
      tick was followed by a reset; so it always does without worker steps. */
  lemma ClockCountsTicks(attached: bool, tickUs: nat, events: seq<InstanceEvent>)
    requires tickUs > 0 && InstanceRun(attached, tickUs, Launched, events)
    requires InstanceEnd(attached, tickUs, Launched, events).ticks <= U64_MAX
    ensures var t := InstanceEnd(attached, tickUs, Launched, events);
            Clock(t) == t.ticks <==> LossesReset(attached, tickUs, Launched, events)
    ensures (forall k :: 0 <= k < |events| ==> !events[k].WorkerStep?)
            ==> LossesReset(attached, tickUs, Launched, events)
  {
    UncountedIff(attached, tickUs, events, Launched);
    if forall k :: 0 <= k < |events| ==> !events[k].WorkerStep? {
      NothingLost(attached, tickUs, Launched, events);
    }
  }

  lemma {:induction false} NothingLost(attached: bool, tickUs: nat, s: Instance, events: seq<InstanceEvent>)
    requires tickUs > 0 && forall k :: 0 <= k < |events| ==> !events[k].WorkerStep?
    ensures LossesReset(attached, tickUs, s, events)
    decreases |events|
  {
    if events != [] {
      NothingLost(attached, tickUs, Happen(attached, tickUs, s, events[0]), events[1..]);
    }
  }

  /** One worker step whose outputs cannot be sent: one tick done, none on the clock. */
  lemma LostTickExample(e: InstanceEvent)
    requires e == WorkerStep(InstanceIo(true, true, false))
    ensures CanHappen(20, Launched, e) && LosesTick(Launched, e)
    ensures Happen(true, 20, Launched, e).ticks == 1 && Clock(Happen(true, 20, Launched, e)) == 0
  {
  }

  // ----- the backlog

  /** Every tick that fell due since the backlog was last cleared was executed or waits, as
      long as they fit 64 bits; nothing waits while time is paused. */
  predicate BacklogInv(s: Instance) {
    && EngineInv(s.engine) && s.backlog <= U64_MAX
    && (s.engine.state.Paused? ==> s.backlog == 0)
    && (!s.shutdown ==> s.executed + s.backlog <= s.due && (s.due <= U64_MAX ==> s.executed + s.backlog == s.due))
  }

  /** The due ticks are the whole ticks in the scaled time that passed. */
  predicate TimeInv(tickUs: nat, s: Instance) {
    && Balanced(s.carried, s.scaled, s.due, s.engine.remainderUs, tickUs as real)
    && (s.carried < tickUs as real && s.due < U64_MAX ==> s.engine.remainderUs < tickUs as real)
  }

  /** A turn whose ticks all complete runs exactly the waiting ticks, those falling due now
      included, but no more than 64; one that fails shuts the instance down. */
  lemma TurnRuns(attached: bool, tickUs: nat, s: Instance, now: real, ios: seq<InstanceIo>)
    requires tickUs > 0 && ClockInv(s) && CanHappen(tickUs, s, Turn(now, ios))
    requires s.backlog + TicksDue(s.engine, tickUs, now) <= U64_MAX && Clock(s) + 64 <= U64_MAX
    ensures var t, waiting := Happen(attached, tickUs, s, Turn(now, ios)), s.backlog + TicksDue(s.engine, tickUs, now);
            var ran := if waiting <= 64 then waiting else 64;
            && |ios| == ran
            && (AllComplete(AfterPoll(s, tickUs, now), ios) ==>
                  t.executed == s.executed + ran && t.backlog == waiting - ran && Clock(t) == Clock(s) + ran && !t.shutdown)
            && (!AllComplete(AfterPoll(s, tickUs, now), ios) ==> t.shutdown)
  {
    var polled := AfterPoll(s, tickUs, now);
    LocalTicksFrame(polled, ios);
    if AllComplete(polled, ios) {
      TicksMoveClock(polled, ios);
    }
    hide TicksDue, LocalTicks, AllComplete;
  }

  /** A step granted to a paused, unattached instance runs the whole ticks of its duration. */
  lemma StepRuns(tickUs: nat, s: Instance, durationUs: nat, ios: seq<InstanceIo>)
    requires tickUs > 0 && s.engine.state.Paused? && CanHappen(tickUs, s, TimeStep(durationUs, ios))
    requires AllComplete(Cleared(s), ios) && Clock(s) + durationUs / tickUs <= U64_MAX
    ensures Clock(Happen(false, tickUs, s, TimeStep(durationUs, ios))) == Clock(s) + durationUs / tickUs
  {
    TicksMoveClock(Cleared(s), ios);
  }

  lemma ZeroBalanced(x: real, t: real)
    ensures Balanced(x, 0.0, 0, x, t)
  {
  }

  lemma PollKeepsBacklog(tickUs: nat, s: Instance, now: real)
    requires tickUs > 0 && BacklogInv(s) && TimeInv(tickUs, s)
    ensures BacklogInv(AfterPoll(s, tickUs, now)) && TimeInv(tickUs, AfterPoll(s, tickUs, now))
  {
    if s.engine.state.Running? {
      PollRemainder(s.engine, tickUs, now);
      var gain, due := Gain(s.engine, now), TicksDue(s.engine, tickUs, now);
      var rest := Polled(s.engine, tickUs, now).remainderUs;
      var found := ((s.engine.remainderUs + gain) / tickUs as real).Floor;
      assert due == if found > U64_MAX then U64_MAX else found by {
        MulNonNegative(Since(now, s.engine.last.value), s.engine.speed);
        PollSplits(s.engine.remainderUs + gain, tickUs as real);
        Sign((s.engine.remainderUs + gain) / tickUs as real, tickUs as real);
      }
      assert Balanced(s.engine.remainderUs, gain, due, rest, tickUs as real);
      hide Balanced, TicksDue, Polled, Gain;
      BalancedTwice(s.carried, s.scaled, s.due, s.engine.remainderUs, gain, due, rest, tickUs as real);
    }
  }

  lemma BatchKeepsBacklog(tickUs: nat, s: Instance, ios: seq<InstanceIo>)
    requires tickUs > 0 && ClockInv(s) && BacklogInv(s) && TimeInv(tickUs, s) && |ios| == BatchOf(s)
    ensures BacklogInv(AfterBatch(s, ios)) && TimeInv(tickUs, AfterBatch(s, ios))
    ensures AfterBatch(s, ios).ticks <= s.ticks + MAX_TICKS_PER_TURN
  {
    LocalTicksFrame(s, ios);
  }

  lemma HappenKeepsBacklog(attached: bool, tickUs: nat, s: Instance, e: InstanceEvent)
    requires tickUs > 0 && ClockInv(s) && BacklogInv(s) && TimeInv(tickUs, s) && CanHappen(tickUs, s, e)
    ensures BacklogInv(Happen(attached, tickUs, s, e)) && TimeInv(tickUs, Happen(attached, tickUs, s, e))
    ensures attached && s.engine.state.Paused? ==> Happen(attached, tickUs, s, e).engine.state.Paused?
    ensures e.Turn? ==> Happen(attached, tickUs, s, e).ticks <= s.ticks + MAX_TICKS_PER_TURN
  {
    hide Balanced;
    match e
    case TimeStep(_, ios) =>
      ZeroBalanced(s.engine.remainderUs, tickUs as real);
      LocalTicksFrame(Cleared(s), ios);
    case Turn(now, ios) =>
      PollKeepsBacklog(tickUs, s, now);
      BatchKeepsBacklog(tickUs, AfterPoll(s, tickUs, now), ios);
    case _ =>
      ZeroBalanced(s.engine.remainderUs, tickUs as real);
      ZeroBalanced(0.0, tickUs as real);
  }

  /** In every run from launch, realtime ticks are conserved: those executed and those
      waiting add up to the whole ticks in the time since the backlog was last cleared. */
  lemma {:induction false} BacklogIsConserved(attached: bool, tickUs: nat, events: seq<InstanceEvent>, s: Instance)
    requires tickUs > 0 && ClockInv(s) && BacklogInv(s) && TimeInv(tickUs, s)
    requires InstanceRun(attached, tickUs, s, events)
    ensures var t := InstanceEnd(attached, tickUs, s, events);
            && BacklogInv(t) && TimeInv(tickUs, t)
            && (!t.shutdown && t.carried < tickUs as real && t.due < U64_MAX ==>
                  t.executed + t.backlog == ((t.carried + t.scaled) / tickUs as real).Floor)
    decreases |events|
  {
    if events != [] {
      HappenKeepsClock(attached, tickUs, s, events[0]);
      HappenKeepsBacklog(attached, tickUs, s, events[0]);
      BacklogIsConserved(attached, tickUs, events[1..], Happen(attached, tickUs, s, events[0]));
    } else if s.carried < tickUs as real && s.due < U64_MAX {
      FloorBounds(s.carried + s.scaled, tickUs as real, s.due);
    }
  }

  // ----- realtime, measured from the events alone

  /** Anything that does not clear the backlog of a running instance. */
  predicate KeepsTime(e: InstanceEvent) {
    e != InstanceReset(true) && !e.TimePause? && !e.TimeStep?
  }

  function PollsOf(events: seq<InstanceEvent>): seq<PollEvent>
    decreases |events|
  {
    if events == [] then []
    else
      (match events[0]
       case Turn(now, _) => [Poll(now)]
       case TimeSpeed(speed) => [SetSpeed(speed)]
       case _ => []) + PollsOf(events[1..])
  }

  /** `s` is running and was at `last` when it was polled, at this speed. */
  predicate Timed(s: Instance, last: real, speed: real) {
    s.engine.state.Running? && s.engine.last == Some(last) && s.engine.speed == speed
  }

  /** What one such event does to the metered time. */
  lemma HappenMeters(tickUs: nat, s: Instance, e: InstanceEvent, last: real, speed: real)
    requires tickUs > 0 && ClockInv(s) && CanHappen(tickUs, s, e) && KeepsTime(e) && Timed(s, last, speed)
    ensures var t := Happen(false, tickUs, s, e);
            && t.carried == s.carried
            && match e
               case Turn(now, _) => Timed(t, now, speed) && t.scaled == s.scaled + Stretch(speed, last, now)
               case TimeSpeed(v) => Timed(t, last, if v > 0.0 then v else speed) && t.scaled == s.scaled
               case _ => Timed(t, last, speed) && t.scaled == s.scaled
  {
    match e
    case Turn(now, ios) =>
      PollGains(s.engine, tickUs, now);
      LocalTicksFrame(AfterPoll(s, tickUs, now), ios);
    case _ =>
  }

  lemma {:induction false} RunMeters(tickUs: nat, s: Instance, events: seq<InstanceEvent>, last: real, speed: real)
    requires tickUs > 0 && ClockInv(s) && Timed(s, last, speed) && InstanceRun(false, tickUs, s, events)
    requires forall k :: 0 <= k < |events| ==> KeepsTime(events[k])
    ensures var t := InstanceEnd(false, tickUs, s, events);
            t.carried == s.carried && t.scaled == s.scaled + ScaledTime(last, speed, PollsOf(events))
    decreases |events|
  {
    if events != [] {
      var e, t, rest := events[0], Happen(false, tickUs, s, events[0]), PollsOf(events[1..]);
      HappenKeepsClock(false, tickUs, s, e);
      HappenMeters(tickUs, s, e, last, speed);
      hide Happen, CanHappen, ClockInv, Stretch;
      if e.Turn? {
        RunMeters(tickUs, t, events[1..], e.now, speed);
        assert ([Poll(e.now)] + rest)[1..] == rest;
      } else if e.TimeSpeed? {
        RunMeters(tickUs, t, events[1..], last, if e.speed > 0.0 then e.speed else speed);
        assert ([SetSpeed(e.speed)] + rest)[1..] == rest;
      } else {
        RunMeters(tickUs, t, events[1..], last, speed);
        assert [] + rest == rest;
      }
    }
  }

  /** Once time is started, and until it is paused, stepped or reset, the ticks executed and
      the ticks waiting are the whole ticks in the wall-clock time since then, each stretch of
      it times its speed, whatever turns, speed changes, worker steps and traces come. */
  lemma TurnsRunTheFloor(tickUs: nat, s: Instance, start: real, events: seq<InstanceEvent>)
    requires tickUs > 0 && ClockInv(s) && BacklogInv(s) && !s.shutdown && s.engine.state.Paused?
    requires var s1 := Happen(false, tickUs, s, TimeStart(start));
             InstanceRun(false, tickUs, s1, events)
    requires forall k :: 0 <= k < |events| ==> KeepsTime(events[k])
    ensures var t := InstanceEnd(false, tickUs, Happen(false, tickUs, s, TimeStart(start)), events);
            !t.shutdown && t.due < U64_MAX ==>
              t.executed + t.backlog == (ScaledTime(start, s.engine.speed, PollsOf(events)) / tickUs as real).Floor
  {
    var s1 := Happen(false, tickUs, s, TimeStart(start));
    assert ClockInv(s1) && BacklogInv(s1) && s1.carried == 0.0 && s1.scaled == 0.0 && s1.due == 0;
    assert Timed(s1, start, s.engine.speed);
    ZeroBalanced(0.0, tickUs as real);
    assert TimeInv(tickUs, s1);
    hide *;
    RunMeters(tickUs, s1, events, start, s.engine.speed);
    BacklogIsConserved(false, tickUs, events, s1);
  }

  /** An instance of an env never runs by itself: its engine stays paused and nothing waits. */
  lemma {:induction false} AttachedStaysPaused(tickUs: nat, events: seq<InstanceEvent>, s: Instance)
    requires tickUs > 0 && ClockInv(s) && BacklogInv(s) && TimeInv(tickUs, s) && s.engine.state.Paused?
    requires InstanceRun(true, tickUs, s, events)
    ensures InstanceEnd(true, tickUs, s, events).engine.state.Paused?
    ensures InstanceEnd(true, tickUs, s, events).backlog == 0
    decreases |events|
  {
    if events != [] {
      HappenKeepsClock(true, tickUs, s, events[0]);
      HappenKeepsBacklog(true, tickUs, s, events[0]);
      AttachedStaysPaused(tickUs, events[1..], Happen(true, tickUs, s, events[0]));
    }
  }

  lemma LaunchedIsSound(tickUs: nat)
    requires tickUs > 0
    ensures ClockInv(Launched) && BacklogInv(Launched) && TimeInv(tickUs, Launched) && TraceInv(Launched)
  {
    ZeroBalanced(0.0, tickUs as real);
  }

  /** A step requested while time runs is refused, and yet whatever waited is lost: a turn
      right after it runs no tick, where a turn without it would have run the backlog. */
  lemma RejectedStepLosesBacklog(tickUs: nat, s: Instance, durationUs: nat)
    requires tickUs > 0 && BacklogInv(s) && s.engine.state.Running? && s.engine.remainderUs < tickUs as real
    requires CanHappen(tickUs, s, TimeStep(durationUs, []))
    ensures var t, now := Happen(false, tickUs, s, TimeStep(durationUs, [])), s.engine.last.value;
            && t == Cleared(s)
            && BatchOf(AfterPoll(t, tickUs, now)) == 0
            && BatchOf(AfterPoll(s, tickUs, now)) == Min(s.backlog, MAX_TICKS_PER_TURN)
  {
    var now, t := s.engine.last.value, tickUs as real;
    assert Gain(s.engine, now) == 0.0 by {
      assert 0.0 * s.engine.speed == 0.0;
    }
    FloorBounds(s.engine.remainderUs, t, 0);
    assert TicksDue(s.engine, tickUs, now) == 0;
  }

  // ----- the trace

  /** The rows lie exactly a period apart from the first one on, none is missing up to the
      clock, and none is later than the clock, but for one whose tick was not counted. */
  predicate RowsOnTime(trace: Trace, clock: nat, slack: nat) {
    && trace.period >= 1 && trace.rows != []
    && trace.rows == Every(trace.rows[0], trace.period, |trace.rows|)
    && clock < trace.nextDue && trace.nextDue == trace.rows[0] + |trace.rows| * trace.period
    && trace.rows[|trace.rows| - 1] <= clock + slack
  }

  function Slack(s: Instance): nat {
    if s.uncounted == 0 then 0 else 1
  }

  predicate TraceInv(s: Instance) {
    && (s.trace.Some? ==> s.trace.value.period >= 1 && s.trace.value.rows != [])
    && (s.trace.Some? && !s.disturbed && Clock(s) + 1 + s.trace.value.period <= U64_MAX ==>
          RowsOnTime(s.trace.value, Clock(s), Slack(s)))
  }

  lemma RowOnTime(trace: Trace, clock: nat, slack: nat)
    requires RowsOnTime(trace, clock, slack) && trace.nextDue <= clock + 1 && clock + 1 + trace.period <= U64_MAX
    ensures trace.nextDue == clock + 1
    ensures RowsOnTime(WithRow(trace, clock + 1), clock + 1, 0) && RowsOnTime(WithRow(trace, clock + 1), clock, 1)
  {
    var n, p := |trace.rows|, trace.period;
    OneMore(p, n);
    EverySnoc(trace.rows[0], p, n);
  }

  lemma StartsOnTime(clock: nat, period: nat, slack: nat)
    requires period >= 1 && clock + period <= U64_MAX
    ensures RowsOnTime(Trace(period, SatAdd(clock, period), [clock]), clock, slack)
  {
    assert Every(clock, period, 1) == [clock];
  }

  /** A row taken late, after ticks that missed it, is that of the tick it is taken at, and the
      next one is due a period after that tick. */
  lemma RowTaken(s: Instance, io: InstanceIo)
    requires s.trace.Some? && RowDue(s) && io.ready && io.sampled && Clock(s) + 1 + s.trace.value.period <= U64_MAX
    ensures forall t :: t == LocalTick(s, io) || t == WorkerTick(s, io) ==>
              && t.trace.Some? && t.trace.value.period == s.trace.value.period
              && t.trace.value.rows == s.trace.value.rows + [Clock(s) + 1]
              && t.trace.value.nextDue == Clock(s) + 1 + s.trace.value.period
  {
  }

  /** A tick with its row due keeps the rows on time exactly when the row could be taken. */
  lemma RowOnTimeIff(s: Instance, io: InstanceIo)
    requires s.trace.Some? && io.ready && RowDue(s) && Clock(s) + 1 + s.trace.value.period <= U64_MAX
    requires RowsOnTime(s.trace.value, Clock(s), Slack(s))
    ensures RowsOnTime(LocalTick(s, io).trace.value, Clock(s) + 1, Slack(s)) <==> io.sampled
  {
    RowOnTime(s.trace.value, Clock(s), Slack(s));
  }

  lemma TickKeepsTrace(s: Instance, io: InstanceIo)
    requires TraceInv(s) && ClockInv(s)
    ensures TraceInv(LocalTick(s, io)) && TraceInv(WorkerTick(s, io))
  {
    hide RowsOnTime;
    if io.ready && s.trace.Some? && !s.disturbed && Clock(s) + 1 + s.trace.value.period <= U64_MAX {
      if RowDue(s) {
        RowOnTime(s.trace.value, Clock(s), Slack(s));
        MoreSlack(WithRow(s.trace.value, Clock(s) + 1), Clock(s) + 1);
      } else {
        NoRowYet(s.trace.value, Clock(s), Slack(s));
      }
    }
  }

  lemma MoreSlack(trace: Trace, clock: nat)
    requires RowsOnTime(trace, clock, 0)
    ensures RowsOnTime(trace, clock, 1)
  {
  }

  lemma NoRowYet(trace: Trace, clock: nat, slack: nat)
    requires RowsOnTime(trace, clock, slack) && slack <= 1
    ensures RowsOnTime(trace, clock, 1)
    ensures clock + 1 < trace.nextDue ==> RowsOnTime(trace, clock + 1, 0) && RowsOnTime(trace, clock + 1, 1)
  {
  }

  lemma {:induction false} TicksKeepTrace(s: Instance, ios: seq<InstanceIo>)
    requires TraceInv(s) && ClockInv(s)
    ensures TraceInv(LocalTicks(s, ios))
    decreases |ios|
  {
    if ios != [] {
      TickKeepsTrace(s, ios[0]);
      if OutcomeOf(s, ios[0]).Completed? {
        TicksKeepTrace(LocalTick(s, ios[0]), ios[1..]);
      }
    }
  }

  lemma HappenKeepsTrace(attached: bool, tickUs: nat, s: Instance, e: InstanceEvent)
    requires tickUs > 0 && ClockInv(s) && TraceInv(s) && CanHappen(tickUs, s, e)
    ensures TraceInv(Happen(attached, tickUs, s, e))
  {
    hide RowsOnTime;
    match e
    case TimeStep(_, ios) => TicksKeepTrace(Cleared(s), ios);
    case Turn(now, ios) => TicksKeepTrace(AfterPoll(s, tickUs, now), ios);
    case WorkerStep(io) => TickKeepsTrace(s, io);
    case StartTrace(periodUs, _) =>
      if s.trace.None? && periodUs > 0 {
        PeriodAccuracy(tickUs, periodUs);
        var period := DivCeil(periodUs, tickUs);
        if Clock(s) + 1 + period <= U64_MAX {
          StartsOnTime(Clock(s), period, Slack(s));
        }
      }
    case _ =>
  }

  /** A trace that no failed sample and no reset disturbed has, in every run, exactly the
      rows of its first tick and every period after it; with every tick counted, their
      number is one more than the whole periods that have passed. */
  lemma {:induction false} RowsAreExactInEveryRun(attached: bool, tickUs: nat, events: seq<InstanceEvent>, s: Instance)
    requires tickUs > 0 && ClockInv(s) && TraceInv(s) && InstanceRun(attached, tickUs, s, events)
    ensures var t := InstanceEnd(attached, tickUs, s, events);
            && TraceInv(t)
            && (t.trace.Some? && !t.disturbed && t.uncounted == 0 && Clock(t) + 1 + t.trace.value.period <= U64_MAX ==>
                  var first, p := t.trace.value.rows[0], t.trace.value.period;
                  first <= Clock(t) && t.trace.value.rows == Every(first, p, 1 + (Clock(t) - first) / p))
    decreases |events|
  {
    if events != [] {
      HappenKeepsClock(attached, tickUs, s, events[0]);
      HappenKeepsTrace(attached, tickUs, s, events[0]);
      RowsAreExactInEveryRun(attached, tickUs, events[1..], Happen(attached, tickUs, s, events[0]));
    } else if s.trace.Some? && !s.disturbed && s.uncounted == 0 && Clock(s) + 1 + s.trace.value.period <= U64_MAX {
      CountOnTime(s.trace.value, Clock(s));
    }
  }

  // ----- what disturbs a trace

  /** A tick whose row is due and cannot be taken. */
  predicate MissesRow(s: Instance, io: InstanceIo) {
    io.ready && RowDue(s) && !io.sampled
  }

  predicate TicksMissRow(s: Instance, ios: seq<InstanceIo>)
    decreases |ios|
  {
    ios != [] && (MissesRow(s, ios[0])
                  || (OutcomeOf(s, ios[0]).Completed? && TicksMissRow(LocalTick(s, ios[0]), ios[1..])))
  }

  /** A reset, or a tick that misses its row. */
  predicate Disturbs(attached: bool, tickUs: nat, s: Instance, e: InstanceEvent) {
    match e
    case InstanceReset(ok) => ok
    case WorkerStep(io) => MissesRow(s, io)
    case TimeStep(_, ios) => !attached && TicksMissRow(Cleared(s), ios)
    case Turn(now, ios) => TicksMissRow(AfterPoll(s, tickUs, now), ios)
    case _ => false
  }

  predicate SomeDisturb(attached: bool, tickUs: nat, s: Instance, events: seq<InstanceEvent>)
    requires tickUs > 0
    decreases |events|
  {
    events != [] &&
    (Disturbs(attached, tickUs, s, events[0])
     || SomeDisturb(attached, tickUs, Happen(attached, tickUs, s, events[0]), events[1..]))
  }

  lemma {:induction false} TicksDisturbIff(s: Instance, ios: seq<InstanceIo>)
    requires s.trace.Some?
    ensures var t := LocalTicks(s, ios);
            && t.trace.Some? && t.trace.value.period == s.trace.value.period
            && (t.disturbed <==> s.disturbed || TicksMissRow(s, ios))
            && s.trace.value.rows <= t.trace.value.rows
    decreases |ios|
  {
    if ios != [] && OutcomeOf(s, ios[0]).Completed? {
      TicksDisturbIff(LocalTick(s, ios[0]), ios[1..]);
    }
  }

  lemma HappenDisturbIff(attached: bool, tickUs: nat, s: Instance, e: InstanceEvent)
    requires tickUs > 0 && s.trace.Some? && e != StopTrace(true)
    ensures var t := Happen(attached, tickUs, s, e);
            && t.trace.Some? && t.trace.value.period == s.trace.value.period && s.trace.value.rows <= t.trace.value.rows
            && (t.disturbed <==> s.disturbed || Disturbs(attached, tickUs, s, e))
  {
    match e
    case TimeStep(_, ios) => TicksDisturbIff(Cleared(s), ios);
    case Turn(now, ios) => TicksDisturbIff(AfterPoll(s, tickUs, now), ios);
    case _ =>
  }

  /** An active trace that is not stopped keeps its rows and period, and is disturbed exactly
      when some event was a reset or missed a row. */
  lemma {:induction false} DisturbedIff(attached: bool, tickUs: nat, s: Instance, events: seq<InstanceEvent>)
    requires tickUs > 0 && s.trace.Some? && forall k :: 0 <= k < |events| ==> events[k] != StopTrace(true)
    ensures var t := InstanceEnd(attached, tickUs, s, events);
            && t.trace.Some? && t.trace.value.period == s.trace.value.period && s.trace.value.rows <= t.trace.value.rows
            && (t.disturbed <==> s.disturbed || SomeDisturb(attached, tickUs, s, events))
    decreases |events|
  {
    if events != [] {
      HappenDisturbIff(attached, tickUs, s, events[0]);
      hide Happen, Disturbs;
      DisturbedIff(attached, tickUs, Happen(attached, tickUs, s, events[0]), events[1..]);
    }
  }

  /** A trace started at tick t0 and not stopped, with no reset, no missed row and no worker
      step that loses its tick, has at tick t exactly the 1 + (t - t0) / p rows t0, t0 + p,
      t0 + 2p and so on. */
  lemma StartedTraceRows(attached: bool, tickUs: nat, s: Instance, periodUs: nat, events: seq<InstanceEvent>)
    requires tickUs > 0 && ClockInv(s) && TraceInv(s) && s.trace.None? && s.uncounted == 0 && !s.shutdown && periodUs > 0
    requires var s1 := Happen(attached, tickUs, s, StartTrace(periodUs, true));
             && InstanceRun(attached, tickUs, s1, events)
             && !SomeDisturb(attached, tickUs, s1, events) && LossesReset(attached, tickUs, s1, events)
             && Clock(InstanceEnd(attached, tickUs, s1, events)) + 1 + DivCeil(periodUs, tickUs) <= U64_MAX
    requires forall k :: 0 <= k < |events| ==> events[k] != StopTrace(true)
    ensures var s1, p := Happen(attached, tickUs, s, StartTrace(periodUs, true)), DivCeil(periodUs, tickUs);
            var t := InstanceEnd(attached, tickUs, s1, events);
            && p >= 1 && t.trace.Some? && Clock(s) <= Clock(t)
            && t.trace.value.rows == Every(Clock(s), p, 1 + (Clock(t) - Clock(s)) / p)
  {
    hide *;
    var s1 := Happen(attached, tickUs, s, StartTrace(periodUs, true));
    TraceStarts(attached, tickUs, s, periodUs);
    RowsSinceFirst(attached, tickUs, s1, events);
  }

  /** Stopping a trace ends it and touches nothing else; starting one while another is active
      changes nothing. */
  lemma TraceActions(attached: bool, tickUs: nat, s: Instance, periodUs: nat, ok: bool)
    requires tickUs > 0
    ensures Happen(attached, tickUs, s, StopTrace(true)) == s.(trace := None)
    ensures s.trace.Some? || periodUs == 0 ==> Happen(attached, tickUs, s, StartTrace(periodUs, ok)) == s
  {
  }

  lemma TraceStarts(attached: bool, tickUs: nat, s: Instance, periodUs: nat)
    requires tickUs > 0 && ClockInv(s) && TraceInv(s) && s.trace.None? && !s.shutdown && periodUs > 0
    ensures var s1 := Happen(attached, tickUs, s, StartTrace(periodUs, true));
            && ClockInv(s1) && TraceInv(s1) && s1.trace.Some? && !s1.disturbed && s1.uncounted == s.uncounted
            && s1.trace.value.period == DivCeil(periodUs, tickUs) && s1.trace.value.rows == [Clock(s)]
  {
    HappenKeepsTrace(attached, tickUs, s, StartTrace(periodUs, true));
  }

  lemma RowsSinceFirst(attached: bool, tickUs: nat, s: Instance, events: seq<InstanceEvent>)
    requires tickUs > 0 && ClockInv(s) && TraceInv(s) && s.uncounted == 0
    requires s.trace.Some? && !s.disturbed && s.trace.value.rows != []
    requires InstanceRun(attached, tickUs, s, events) && forall k :: 0 <= k < |events| ==> events[k] != StopTrace(true)
    requires !SomeDisturb(attached, tickUs, s, events) && LossesReset(attached, tickUs, s, events)
    requires Clock(InstanceEnd(attached, tickUs, s, events)) + 1 + s.trace.value.period <= U64_MAX
    ensures var t, first, p := InstanceEnd(attached, tickUs, s, events), s.trace.value.rows[0], s.trace.value.period;
            && t.trace.Some? && first <= Clock(t) && p >= 1
            && t.trace.value.rows == Every(first, p, 1 + (Clock(t) - first) / p)
  {
    assert s.trace.value.period >= 1;
    DisturbedIff(attached, tickUs, s, events);
    UncountedIff(attached, tickUs, events, s);
    var t := InstanceEnd(attached, tickUs, s, events);
    assert t.trace.value.rows[0] == s.trace.value.rows[0];
    hide InstanceEnd, InstanceRun, SomeDisturb, LossesReset, ClockInv, TraceInv, RowsOnTime, Every;
    RowsAreExactInEveryRun(attached, tickUs, events, s);
  }

  lemma CountOnTime(trace: Trace, clock: nat)
    requires RowsOnTime(trace, clock, 0)
    ensures trace.rows[0] <= clock && |trace.rows| == 1 + (clock - trace.rows[0]) / trace.period
  {
    var n, p, first := |trace.rows|, trace.period, trace.rows[0];
    EverySnoc(first, p, n - 1);
    OneMore(p, n - 1);
    assert (n - 1) * p >= 0;
    QuotientIs(clock - first, p, n - 1);
  }
}
