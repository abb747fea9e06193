/** The env daemon's state as the runtime keeps it, and its actions as the runtime performs
    them: loops over buses, jobs and instances that update fields in place. Each action is
    proved to be one event of `EnvModel`. */
module EnvDaemon {
  import opened Common
  import opened EnvModel
  import opened EnvSchedule
  import opened Traces

  lemma MarkNone(buses: map<string, Bus>, clock: nat)
    ensures MarkSent(buses, {}, clock) == buses
  {
    var t := MarkSent(buses, {}, clock);
    forall b | b in buses ensures t[b] == buses[b] {
      assert t[b].schedules == buses[b].schedules;
    }
  }

  lemma MarkOneMore(buses: map<string, Bus>, fired: set<JobRef>, clock: nat, ref: JobRef)
    requires Known(buses, ref)
    ensures Known(MarkSent(buses, fired, clock), ref)
    ensures ref !in fired ==> JobAt(MarkSent(buses, fired, clock), ref) == JobAt(buses, ref)
    ensures PutJob(MarkSent(buses, fired, clock), ref, Resent(JobAt(buses, ref), clock))
            == MarkSent(buses, fired + {ref}, clock)
  {
    var t := PutJob(MarkSent(buses, fired, clock), ref, Resent(JobAt(buses, ref), clock));
    var u := MarkSent(buses, fired + {ref}, clock);
    forall b | b in buses ensures t[b] == u[b] {
      assert t[b].schedules == u[b].schedules;
    }
  }

  class Daemon {
    const tickUs: nat
    var clock: nat
    var buses: map<string, Bus>
    var links: seq<Link>
    var trace: Option<Trace>
    ghost var overrun: nat

    ghost function State(): Env
      reads this
    {
      Env(clock, buses, links, trace, overrun)
    }

    constructor (tickUs: nat, capabilities: map<string, bool>, instances: nat)
      ensures this.tickUs == tickUs && Bootstrapped(State()) && |links| == instances
      ensures buses.Keys == capabilities.Keys
      ensures forall b :: b in buses ==> buses[b] == Bus(capabilities[b], map[])
    {
      this.tickUs := tickUs;
      clock := 0;
      buses := map b | b in capabilities :: Bus(capabilities[b], map[]);
      links := seq(instances, _ => Link(true, 0, [], None));
      trace := None;
      overrun := 0;
    }

    // ----- one tick

    /** Sends the due jobs of one bus, in whatever order the bus keeps them. */
    method SendBus(bus: string, refused: set<JobRef>, ghost start: map<string, Bus>, ghost sent: set<JobRef>)
      returns (ok: bool, ghost fired: set<JobRef>)
      requires bus in start && buses == MarkSent(start, sent, clock)
      requires forall ref :: ref in sent ==> ref.bus != bus
      modifies this`buses
      ensures buses == MarkSent(start, sent + fired, clock)
      ensures forall ref :: ref in fired ==> ref.bus == bus && IsDue(start, clock, ref) && ref !in refused
      ensures ok ==> forall ref: JobRef :: ref.bus == bus && IsDue(start, clock, ref) ==> ref in fired
      ensures !ok ==> exists ref :: ref in refused && IsDue(start, clock, ref)
    {
      fired := {};
      assert sent + {} == sent;
      assert buses[bus].schedules.Keys == start[bus].schedules.Keys;
      var jobs := buses[bus].schedules.Keys;
      while jobs != {}
        invariant jobs <= start[bus].schedules.Keys
        invariant buses == MarkSent(start, sent + fired, clock)
        invariant forall ref :: ref in fired ==>
                    ref.bus == bus && ref.job !in jobs && IsDue(start, clock, ref) && ref !in refused
        invariant forall ref: JobRef :: ref.bus == bus && IsDue(start, clock, ref) && ref.job !in jobs ==> ref in fired
        decreases jobs
      {
        var j :| j in jobs;
        var ref := JobRef(bus, j);
        MarkOneMore(start, sent + fired, clock, ref);
        var schedule := buses[bus].schedules[j];
        if schedule.enabled && schedule.nextDue <= clock {
          if ref in refused {
            return false, fired;
          }
          buses := PutJob(buses, ref, schedule.(nextDue := SatAdd(clock, Max1(schedule.everyTicks))));
          assert sent + fired + {ref} == sent + (fired + {ref});
          fired := fired + {ref};
        }
        jobs := jobs - {j};
      }
      ok := true;
    }

    method SendDue(refused: set<JobRef>) returns (ok: bool, ghost fired: set<JobRef>)
      modifies this`buses
      ensures buses == MarkSent(old(buses), fired, clock)
      ensures forall ref :: ref in fired ==> IsDue(old(buses), clock, ref) && ref !in refused
      ensures ok ==> forall ref :: IsDue(old(buses), clock, ref) ==> ref in fired
      ensures ok <==> forall ref :: ref in refused ==> !IsDue(old(buses), clock, ref)
    {
      fired := {};
      MarkNone(buses, clock);
      var todo := buses.Keys;
      while todo != {}
        invariant todo <= old(buses).Keys
        invariant buses == MarkSent(old(buses), fired, clock)
        invariant forall ref :: ref in fired ==> ref.bus !in todo && IsDue(old(buses), clock, ref) && ref !in refused
        invariant forall ref :: IsDue(old(buses), clock, ref) && ref.bus !in todo ==> ref in fired
        decreases todo
      {
        var b :| b in todo;
        ghost var more;
        ok, more := SendBus(b, refused, old(buses), fired);
        fired := fired + more;
        if !ok {
          return;
        }
        todo := todo - {b};
      }
      ok := true;
    }

    /** Begins the request everywhere, then awaits the answers in order. */
    method Broadcast(request: Request, fan: FanOut) returns (ok: bool)
      requires FanOutOk(links, fan)
      modifies this`links
      ensures links == FanOutTo(old(links), request, fan)
      ensures ok <==> fan.cut == |old(links)| && AllAcked(old(links), fan)
    {
      ghost var before := links;
      var i := 0;
      while i < fan.cut
        invariant i <= fan.cut <= |links| == |before|
        invariant forall k :: 0 <= k < |links| ==>
                    links[k] == if k < i then Receive(before[k], request, fan.replies[k]) else before[k]
      {
        links := links[i := Receive(links[i], request, fan.replies[i])];
        i := i + 1;
      }
      assert links == FanOutTo(before, request, fan);
      if fan.cut < |links| {
        return false;
      }
      i := 0;
      while i < |links|
        invariant 0 <= i <= |links|
        invariant forall k :: 0 <= k < i ==> before[k].alive && fan.replies[k].Acked?
      {
        if !(links[i].alive && fan.replies[i].Acked?) {
          assert !(before[i].alive && fan.replies[i].Acked?);
          return false;
        }
        i := i + 1;
      }
      ok := true;
    }

    /** `advance_single_tick`. The env clock moves only after everything else succeeded. */
    method AdvanceSingleTick(io: TickIo) returns (ok: bool, ghost fired: set<JobRef>)
      requires FanOutOk(links, io.fan)
      requires io.sampling.ReadBroke? ==> io.sampling.link < |links| && io.sampling.reply.Broke?
      modifies this
      ensures Enabled(old(State()), Tick(io, fired))
      ensures State() == Apply(tickUs, old(State()), Tick(io, fired))
      ensures ok <==> StageOf(old(State()), io).Committed?
      ensures ok <==> Commits(old(State()), io)
      ensures clock == if ok then SatAdd(old(clock), 1) else old(clock)
      ensures !ok ==> trace == old(trace)
    {
      ghost var s := State();
      fired := {};
      CommitsIff(s, io);
      if !io.observedBefore {
        return false, fired;
      }
      ok, fired := SendDue(io.refused);
      assert FireOk(s, io, fired) && (ok <==> AllSendable(s, io));
      if !ok {
        return;
      }
      ok := Broadcast(StepRequest, io.fan);
      if !ok {
        return;
      }
      if !io.observedAfter {
        overrun := overrun + 1;
        return false, fired;
      }
      var sampleTick := SatAdd(clock, 1);
      if trace.Some? && trace.value.nextDue <= sampleTick {
        match io.sampling {
          case Sampled => trace := Some(WithRow(trace.value, sampleTick));
          case RowFailed =>
            overrun := overrun + 1;
            return false, fired;
          case ReadBroke(i, reply) =>
            links := links[i := Receive(links[i], OtherRequest, reply)];
            overrun := overrun + 1;
            return false, fired;
        }
      }
      clock := sampleTick;
      ok := true;
    }

    /** The env `Reset` action. */
    method Reset(resets: FanOut, discards: FanOut) returns (ok: bool)
      requires Enabled(State(), EnvModel.Reset(resets, discards))
      modifies this
      ensures State() == Apply(tickUs, old(State()), EnvModel.Reset(resets, discards))
      ensures ok <==> ResetSucceeds(old(State()), resets, discards)
      ensures trace == old(trace) && (if ok then clock == 0 else clock == old(clock) && buses == old(buses))
      ensures ok ==> forall ref :: Known(old(buses), ref) ==>
                       Known(buses, ref) && JobAt(buses, ref) == JobAt(old(buses), ref).(nextDue := 0)
    {
      ok := Broadcast(ResetRequest, resets);
      if !ok {
        return;
      }
      ok := Broadcast(OtherRequest, discards);
      if !ok {
        return;
      }
      buses := MapJobs(buses, (_: JobRef, job: Job) => job.(nextDue := 0));
      clock := 0;
      overrun := 0;
    }

    // ----- schedule actions

    method LocateSchedule(jobId: string) returns (r: Option<JobRef>)
      requires TableInv(buses)
      ensures r.Some? <==> Taken(buses, jobId)
      ensures r.Some? ==> r.value == Locate(buses, jobId)
    {
      var todo := buses.Keys;
      while todo != {}
        invariant todo <= buses.Keys
        invariant forall b :: b in buses && b !in todo ==> jobId !in buses[b].schedules
        decreases todo
      {
        var b :| b in todo;
        if jobId in buses[b].schedules {
          assert Known(buses, JobRef(b, jobId)) && Known(buses, Locate(buses, jobId));
          return Some(JobRef(b, jobId));
        }
        todo := todo - {b};
      }
      r := None;
    }

    method AddSchedule(ref: JobRef, arbId: nat, flags: bv8, dataHex: string, everyUs: nat) returns (ok: bool)
      requires TableInv(buses)
      modifies this`buses
      ensures State() == Apply(tickUs, old(State()), ScheduleAdd(ref, arbId, flags, dataHex, everyUs))
      ensures TableInv(buses)
      ensures ok <==>
                && tickUs > 0 && everyUs > 0 && !Taken(old(buses), ref.job)
                && Acceptable(old(buses), ref.bus, arbId, flags, dataHex)
      ensures ok ==> OthersKept(old(buses), buses, ref) && Known(buses, ref)
      ensures ok ==> Carries(JobAt(buses, ref), tickUs, clock, arbId, flags, dataHex, everyUs)
      ensures ok ==> JobAt(buses, ref).jobId == ref.job && JobAt(buses, ref).enabled
      ensures !ok ==> buses == old(buses)
    {
      ghost var s := State();
      ApplyKeepsTable(tickUs, s, ScheduleAdd(ref, arbId, flags, dataHex, everyUs));
      var ticks := ScheduleTicks(tickUs, everyUs);
      var frame := EnvFrame(buses, ref.bus, arbId, flags, dataHex);
      if ticks.None? || frame.None? {
        return false;
      }
      var holder := LocateSchedule(ref.job);
      if holder.Some? {
        return false;
      }
      AddedJob(tickUs, s, ScheduleAdd(ref, arbId, flags, dataHex, everyUs));
      buses := PutJob(buses, ref,
        Job(ref.job, arbId, frame.value.flags, dataHex, frame.value, ticks.value, clock, true));
      ok := true;
    }

    method UpdateSchedule(jobId: string, arbId: nat, flags: bv8, dataHex: string, everyUs: nat) returns (ok: bool)
      requires TableInv(buses)
      modifies this`buses
      ensures State() == Apply(tickUs, old(State()), ScheduleUpdate(jobId, arbId, flags, dataHex, everyUs))
      ensures TableInv(buses)
      ensures ok <==>
                && tickUs > 0 && everyUs > 0 && Taken(old(buses), jobId)
                && Acceptable(old(buses), Locate(old(buses), jobId).bus, arbId, flags, dataHex)
      ensures ok ==> OthersKept(old(buses), buses, Locate(old(buses), jobId)) && Known(buses, Locate(old(buses), jobId))
      ensures ok ==> var job := JobAt(buses, Locate(old(buses), jobId));
                     && Carries(job, tickUs, clock, arbId, flags, dataHex, everyUs)
                     && job.jobId == jobId && job.enabled == JobAt(old(buses), Locate(old(buses), jobId)).enabled
      ensures !ok ==> buses == old(buses)
    {
      ghost var s, update := State(), ScheduleUpdate(jobId, arbId, flags, dataHex, everyUs);
      ApplyKeepsTable(tickUs, s, update);
      var ticks := ScheduleTicks(tickUs, everyUs);
      var holder := LocateSchedule(jobId);
      if ticks.None? || holder.None? {
        return false;
      }
      var frame := EnvFrame(buses, holder.value.bus, arbId, flags, dataHex);
      if frame.None? {
        return false;
      }
      UpdatedJob(tickUs, s, update, holder.value);
      var schedule := JobAt(buses, holder.value);
      schedule := schedule.(arbId := arbId, flags := frame.value.flags, dataHex := dataHex, frame := frame.value,
        everyTicks := ticks.value, nextDue := clock);
      buses := PutJob(buses, holder.value, schedule);
      ok := true;
    }

    method RemoveSchedule(jobId: string) returns (ok: bool)
      requires TableInv(buses)
      modifies this`buses
      ensures State() == Apply(tickUs, old(State()), ScheduleRemove(jobId))
      ensures TableInv(buses) && !Taken(buses, jobId)
      ensures ok <==> Taken(old(buses), jobId)
      ensures if ok then OthersKept(old(buses), buses, Locate(old(buses), jobId)) else buses == old(buses)
    {
      ApplyKeepsTable(tickUs, State(), ScheduleRemove(jobId));
      var holder := LocateSchedule(jobId);
      if holder.None? {
        return false;
      }
      ghost var before := buses;
      DropKeepsOthers(buses, holder.value);
      buses := DropJob(buses, holder.value);
      forall b | b in buses ensures jobId !in buses[b].schedules {
        assert jobId in before[b].schedules ==> Known(before, JobRef(b, jobId)) && b == holder.value.bus;
      }
      ok := true;
    }

    method EnableSchedule(jobId: string, enabled: bool) returns (ok: bool)
      requires TableInv(buses)
      modifies this`buses
      ensures State() == Apply(tickUs, old(State()), if enabled then ScheduleStart(jobId) else ScheduleStop(jobId))
      ensures TableInv(buses)
      ensures ok <==> Taken(old(buses), jobId)
      ensures ok ==> var ref := Locate(old(buses), jobId);
                     && OthersKept(old(buses), buses, ref) && Known(buses, ref)
                     && JobAt(buses, ref) == JobAt(old(buses), ref).(enabled := enabled)
      ensures !ok ==> buses == old(buses)
    {
      SetEnabledKeepsTable(State(), jobId, enabled);
      var holder := LocateSchedule(jobId);
      if holder.None? {
        return false;
      }
      PutKeepsOthers(buses, holder.value, JobAt(buses, holder.value).(enabled := enabled));
      buses := PutJob(buses, holder.value, JobAt(buses, holder.value).(enabled := enabled));
      ok := true;
    }
  }
}
