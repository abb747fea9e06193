/** An instance daemon's state as the runtime keeps it, updated in place by its actions and
    by the turns of its tick loop. Each action is proved to be one event of `InstanceModel`. */
module InstanceDaemons {
  import opened Arithmetic
  import opened Common
  import opened TimeEngines
  import opened Traces
  import opened InstanceModel

  datatype TickError = PreTick | PostTick

  datatype Refusal = EnvOwnsTime | Time(error: TimeError) | Tick(at: TickError) | Foreign | TraceActive | BadPeriod

  lemma GrantedTicks(step: StepResult, tickUs: nat, durationUs: nat)
    requires tickUs > 0 && WholeTicks(step, tickUs, durationUs)
    ensures step.advancedTicks == durationUs / tickUs
  {
    QuotientIs(durationUs, tickUs, step.advancedTicks);
  }

  class InstanceDaemon {
    const attached: bool
    const tickUs: nat
    const time: TimeEngine
    var backlog: nat
    var trace: Option<Trace>
    var shutdown: bool
    ghost var ticks: nat
    ghost var uncounted: nat
    ghost var carried: real
    ghost var scaled: real
    ghost var due: nat
    ghost var executed: nat
    ghost var disturbed: bool

    ghost function State(): Instance
      reads this, time
    {
      Instance(time.Value(), backlog, trace, shutdown, ticks, uncounted, carried, scaled, due, executed, disturbed)
    }

    constructor (attached: bool, tickUs: nat)
      ensures this.attached == attached && this.tickUs == tickUs && fresh(time) && State() == Launched
    {
      this.attached, this.tickUs := attached, tickUs;
      time := new TimeEngine();
      backlog, trace, shutdown := 0, None, false;
      ticks, uncounted, carried, scaled, due, executed, disturbed := 0, 0, 0.0, 0.0, 0, 0, false;
    }

    // ----- one tick

    method AdvanceSingleTick(io: InstanceIo) returns (r: Result<(), TickError>)
      modifies this`ticks, this`trace, this`disturbed
      ensures State() == Ticked(old(State()), io)
      ensures OutcomeOf(old(State()), io) == match r
                                             case Ok(_) => Completed
                                             case Err(PreTick) => BeforeTick
                                             case Err(PostTick) => AfterTick
    {
      if !io.ready {
        return Err(PreTick);
      }
      ticks := ticks + 1;
      var sampleTick := SatAdd(time.elapsedTicks, 1);
      if trace.Some? && trace.value.nextDue <= sampleTick {
        if !io.sampled {
          disturbed := true;
          return Err(PostTick);
        }
        var active := trace.value;
        trace := Some(Trace(active.period, SatAdd(sampleTick, active.period), active.rows + [sampleTick]));
      }
      if !io.sent {
        return Err(PostTick);
      }
      r := Ok(());
    }

    /** `advance_project_ticks` and `advance_project_ticks_for_request`. */
    method AdvanceTicks(ios: seq<InstanceIo>) returns (r: Result<(), TickError>)
      modifies this`ticks, this`trace, this`disturbed, time`elapsedTicks
      ensures State() == LocalTicks(old(State()), ios)
      ensures r.Ok? <==> AllComplete(old(State()), ios)
    {
      var i := 0;
      ghost var start := State();
      while i < |ios|
        invariant i <= |ios|
        invariant LocalTicks(start, ios) == LocalTicks(State(), ios[i..])
        invariant AllComplete(start, ios) == AllComplete(State(), ios[i..])
      {
        ghost var before := State();
        assert ios[i..][1..] == ios[i + 1..];
        var one := AdvanceSingleTick(ios[i]);
        if one.Err? {
          if one.error.PostTick? {
            time.AdvanceTicks(1);
          }
          assert State() == LocalTick(before, ios[i]);
          return Err(one.error);
        }
        time.AdvanceTicks(1);
        assert State() == LocalTick(before, ios[i]);
        i := i + 1;
      }
      assert ios[i..] == [];
      r := Ok(());
    }

    method WorkerStep(io: InstanceIo) returns (r: Result<(), TickError>)
      modifies this`ticks, this`trace, this`disturbed, this`uncounted, time`elapsedTicks
      ensures State() == WorkerTick(old(State()), io)
      ensures r.Ok? <==> OutcomeOf(old(State()), io).Completed?
    {
      r := AdvanceSingleTick(io);
      if r.Err? {
        if r.error.PostTick? {
          uncounted := uncounted + 1;
        }
        return;
      }
      time.AdvanceTicks(1);
    }

    // ----- one turn of the tick loop

    /** The realtime part of a turn: the due ticks join the backlog and at most 64 of it run. */
    method RunTurn(now: real, ios: seq<InstanceIo>)
      requires tickUs > 0 && CanHappen(tickUs, State(), Turn(now, ios))
      modifies this, time
      ensures State() == Happen(attached, tickUs, old(State()), Turn(now, ios))
    {
      ghost var gain := Gain(time.Value(), now);
      var ticksDue := time.TickRealtimeDue(tickUs, now);
      backlog := SatAdd(backlog, ticksDue);
      due, scaled := due + ticksDue, scaled + gain;
      assert State() == AfterPoll(old(State()), tickUs, now);
      var tickBatch := Min(backlog, MAX_TICKS_PER_TURN);
      var r := AdvanceTicks(ios);
      if r.Err? {
        shutdown := true;
      } else {
        backlog := SatSub(backlog, tickBatch);
        executed := executed + tickBatch;
      }
    }

    // ----- actions

    method ClearBacklog()
      modifies this`backlog, this`carried, this`scaled, this`due, this`executed
      ensures State() == Cleared(old(State()))
    {
      backlog := 0;
      carried, scaled, due, executed := time.remainderUs, 0.0, 0, 0;
    }

    method Reset(projectResets: bool) returns (r: Result<(), Refusal>)
      requires tickUs > 0
      modifies this, time
      ensures r.Ok? <==> projectResets
      ensures State() == Happen(attached, tickUs, old(State()), InstanceReset(projectResets))
      ensures r.Ok? ==> time.elapsedTicks == 0 && time.state.Paused? && time.speed == 1.0 && backlog == 0
    {
      if !projectResets {
        return Err(Foreign);
      }
      time.Reset();
      ticks, uncounted, disturbed := 0, 0, trace.Some? || disturbed;
      ClearBacklog();
      r := Ok(());
    }

    method StartTime(now: real) returns (r: Result<(), Refusal>)
      requires tickUs > 0 && EngineInv(time.Value())
      modifies this, time
      ensures r.Ok? <==> !attached && old(time.state).Paused?
      ensures State() == Happen(attached, tickUs, old(State()), TimeStart(now))
      ensures r.Ok? ==> time.state.Running? && time.last == Some(now) && backlog == 0
    {
      if attached {
        return Err(EnvOwnsTime);
      }
      var started := time.Start(now);
      if started.Err? {
        return Err(Time(started.error));
      }
      ClearBacklog();
      r := Ok(());
    }

    method PauseTime() returns (r: Result<(), Refusal>)
      requires tickUs > 0 && EngineInv(time.Value())
      modifies this, time
      ensures r.Ok? <==> !attached && old(time.state).Running?
      ensures State() == Happen(attached, tickUs, old(State()), TimePause)
      ensures r.Ok? ==> time.state.Paused? && time.remainderUs == 0.0 && backlog == 0
    {
      if attached {
        return Err(EnvOwnsTime);
      }
      var paused := time.Pause();
      if paused.Err? {
        return Err(Time(paused.error));
      }
      ClearBacklog();
      r := Ok(());
    }

    /** The backlog is cleared before the step is checked. */
    method StepTime(durationUs: nat, ios: seq<InstanceIo>) returns (r: Result<StepResult, Refusal>)
      requires tickUs > 0 && durationUs <= U64_MAX && CanHappen(tickUs, State(), TimeStep(durationUs, ios))
      modifies this, time
      ensures State() == Happen(attached, tickUs, old(State()), TimeStep(durationUs, ios))
      ensures r.Ok? <==> !attached && old(time.state).Paused? && AllComplete(Cleared(old(State())), ios)
      ensures r.Ok? ==> r.value.advancedTicks == |ios| && WholeTicks(r.value, tickUs, durationUs)
      ensures attached ==> r == Err(EnvOwnsTime) && State() == old(State())
      ensures !attached ==> backlog == 0
    {
      if attached {
        return Err(EnvOwnsTime);
      }
      ClearBacklog();
      hide WholeTicks;
      var step := time.StepTicks(tickUs, durationUs);
      if step.Err? {
        return Err(Time(step.error));
      }
      GrantedTicks(step.value, tickUs, durationUs);
      var advanced := AdvanceTicks(ios);
      if advanced.Err? {
        return Err(Refusal.Tick(advanced.error));
      }
      r := Ok(step.value);
    }

    method SetSpeed(speed: real) returns (r: Result<(), Refusal>)
      requires tickUs > 0 && EngineInv(time.Value())
      modifies time
      ensures r.Ok? <==> !attached && speed > 0.0
      ensures State() == Happen(attached, tickUs, old(State()), TimeSpeed(speed))
      ensures time.speed == if r.Ok? then speed else old(time.speed)
    {
      if attached {
        return Err(EnvOwnsTime);
      }
      var changed := time.SetSpeed(speed);
      if changed.Err? {
        return Err(Time(changed.error));
      }
      r := Ok(());
    }

    method BeginTrace(periodUs: nat, writable: bool) returns (r: Result<(), Refusal>)
      requires tickUs > 0
      modifies this`trace, this`disturbed
      ensures r.Ok? <==> old(trace).None? && periodUs > 0 && writable
      ensures State() == Happen(attached, tickUs, old(State()), StartTrace(periodUs, writable))
      ensures r.Ok? ==> && trace.Some? && trace.value.period == DivCeil(periodUs, tickUs)
                        && trace.value.rows == [time.elapsedTicks]
                        && trace.value.nextDue == SatAdd(time.elapsedTicks, trace.value.period)
      ensures r.Err? ==> trace == old(trace)
    {
      if trace.Some? {
        return Err(TraceActive);
      }
      if periodUs == 0 {
        return Err(BadPeriod);
      }
      var periodTicks := DivCeil(periodUs, tickUs);
      if !writable {
        return Err(Foreign);
      }
      trace := Some(Trace(periodTicks, SatAdd(time.elapsedTicks, periodTicks), [time.elapsedTicks]));
      disturbed := false;
      r := Ok(());
    }
  }
}
