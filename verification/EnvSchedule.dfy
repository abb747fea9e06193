/** The CAN schedule table and the env trace over every run of the env machine: what the
    table always satisfies, how far apart sends are, and exactly when they and the trace
    rows happen. */
module EnvSchedule {
  import opened Arithmetic
  import opened Common
  import opened CanFrames
  import opened EnvModel
  import opened Traces

  // ----- the table

  predicate JobOk(bus: Bus, jobId: string, job: Job) {
    && job.jobId == jobId
    && job.everyTicks >= 1
    && job.arbId == job.frame.arbId && job.flags == job.frame.flags
    && ParsedDataHex(job.dataHex) == Ok(job.frame.payload)
    && job.frame.len == |job.frame.payload|
    && ValidFrame(bus.fdCapable, job.frame)
  }

  ghost predicate TableInv(buses: map<string, Bus>) {
    && (forall ref :: Known(buses, ref) ==> JobOk(buses[ref.bus], ref.job, JobAt(buses, ref)))
    && (forall r, q :: Known(buses, r) && Known(buses, q) && r.job == q.job ==> r.bus == q.bus)
  }

  lemma MapJobsAt(buses: map<string, Bus>, f: (JobRef, Job) -> Job, ref: JobRef)
    ensures Known(MapJobs(buses, f), ref) <==> Known(buses, ref)
    ensures Known(buses, ref) ==> JobAt(MapJobs(buses, f), ref) == f(ref, JobAt(buses, ref))
    ensures ref.bus in buses ==> MapJobs(buses, f)[ref.bus].fdCapable == buses[ref.bus].fdCapable
  {
  }

  lemma MapJobsKeepsTable(buses: map<string, Bus>, f: (JobRef, Job) -> Job)
    requires TableInv(buses)
    requires forall ref, job :: f(ref, job) == job.(nextDue := f(ref, job).nextDue)
    ensures TableInv(MapJobs(buses, f))
  {
    var t := MapJobs(buses, f);
    forall ref | Known(t, ref) ensures JobOk(t[ref.bus], ref.job, JobAt(t, ref)) {
      MapJobsAt(buses, f, ref);
      assert f(ref, JobAt(buses, ref)) == JobAt(buses, ref).(nextDue := f(ref, JobAt(buses, ref)).nextDue);
    }
    forall r, q | Known(t, r) && Known(t, q) && r.job == q.job ensures r.bus == q.bus {
      MapJobsAt(buses, f, r);
      MapJobsAt(buses, f, q);
    }
  }

  lemma PutKeepsTable(buses: map<string, Bus>, ref: JobRef, job: Job)
    requires TableInv(buses) && ref.bus in buses && JobOk(buses[ref.bus], ref.job, job)
    requires forall q :: Known(buses, q) && q.job == ref.job ==> q.bus == ref.bus
    ensures TableInv(PutJob(buses, ref, job))
  {
    var t := PutJob(buses, ref, job);
    forall q | Known(t, q) ensures (q == ref || Known(buses, q)) && JobOk(t[q.bus], q.job, JobAt(t, q)) {
      assert q != ref ==> Known(buses, q) && JobAt(t, q) == JobAt(buses, q);
    }
  }

  lemma DropKeepsTable(buses: map<string, Bus>, ref: JobRef)
    requires TableInv(buses) && ref.bus in buses
    ensures TableInv(DropJob(buses, ref))
  {
    var t := DropJob(buses, ref);
    forall q | Known(t, q)
      ensures Known(buses, q) && JobAt(t, q) == JobAt(buses, q) && t[q.bus].fdCapable == buses[q.bus].fdCapable
    {
    }
  }

  lemma PeriodAtLeastOne(tickUs: nat, everyUs: nat)
    requires ScheduleTicks(tickUs, everyUs).Some?
    ensures ScheduleTicks(tickUs, everyUs).value >= 1
  {
  }

  lemma AddKeepsTable(tickUs: nat, s: Env, e: Event)
    requires TableInv(s.buses) && e.ScheduleAdd?
    ensures TableInv(AddJob(tickUs, s, e))
  {
    if !Taken(s.buses, e.ref.job) && AddJob(tickUs, s, e) != s.buses {
      PeriodAtLeastOne(tickUs, e.everyUs);
      PutKeepsTable(s.buses, e.ref, JobAt(AddJob(tickUs, s, e), e.ref));
    }
  }

  lemma UpdateKeepsTable(tickUs: nat, s: Env, e: Event)
    requires TableInv(s.buses) && e.ScheduleUpdate?
    ensures TableInv(UpdateJob(tickUs, s, e))
  {
    if Taken(s.buses, e.jobId) && UpdateJob(tickUs, s, e) != s.buses {
      PeriodAtLeastOne(tickUs, e.everyUs);
      var ref := Locate(s.buses, e.jobId);
      PutKeepsTable(s.buses, ref, JobAt(UpdateJob(tickUs, s, e), ref));
    }
  }

  lemma SetEnabledKeepsTable(s: Env, jobId: string, enabled: bool)
    requires TableInv(s.buses)
    ensures TableInv(SetEnabled(s, jobId, enabled).buses)
  {
    if Taken(s.buses, jobId) {
      var ref := Locate(s.buses, jobId);
      PutKeepsTable(s.buses, ref, JobAt(s.buses, ref).(enabled := enabled));
    }
  }

  lemma ApplyKeepsTable(tickUs: nat, s: Env, e: Event)
    requires TableInv(s.buses) && Enabled(s, e)
    ensures TableInv(Apply(tickUs, s, e).buses)
  {
    match e
    case Tick(io, fired) =>
      MapJobsKeepsTable(s.buses, (ref: JobRef, job: Job) => if ref in fired then Resent(job, s.clock) else job);
    case Reset(_, _) => MapJobsKeepsTable(s.buses, (_: JobRef, job: Job) => job.(nextDue := 0));
    case ScheduleAdd(_, _, _, _, _) => AddKeepsTable(tickUs, s, e);
    case ScheduleUpdate(_, _, _, _, _) => UpdateKeepsTable(tickUs, s, e);
    case ScheduleRemove(jobId) =>
      if Taken(s.buses, jobId) {
        DropKeepsTable(s.buses, Locate(s.buses, jobId));
      }
    case ScheduleStop(jobId) => SetEnabledKeepsTable(s, jobId, false);
    case ScheduleStart(jobId) => SetEnabledKeepsTable(s, jobId, true);
    case _ =>
  }

  /** In every reachable table each job sits under its own id on at most one bus, repeats
      every tick or slower, and carries a frame that is the parse of its stored text and
      that its bus can carry. */
  lemma {:induction false} TableStaysSound(tickUs: nat, s: Env, events: seq<Event>)
    requires TableInv(s.buses) && ValidRun(tickUs, s, events)
    ensures TableInv(End(tickUs, s, events).buses)
    decreases |events|
  {
    if events != [] {
      ApplyKeepsTable(tickUs, s, events[0]);
      TableStaysSound(tickUs, Apply(tickUs, s, events[0]), events[1..]);
    }
  }

  lemma BootstrapSound(s: Env)
    requires Bootstrapped(s)
    ensures TableInv(s.buses)
  {
  }

  // ----- one job between two re-armings

  /** The event re-arms or removes the job. */
  ghost predicate Touches(s: Env, e: Event, ref: JobRef)
    requires Enabled(s, e)
  {
    match e
    case Reset(resets, discards) => ResetSucceeds(s, resets, discards)
    case ScheduleUpdate(jobId, _, _, _, _) => jobId == ref.job
    case ScheduleRemove(jobId) => jobId == ref.job
    case _ => false
  }

  ghost predicate Untouched(tickUs: nat, s: Env, events: seq<Event>, ref: JobRef)
    requires ValidRun(tickUs, s, events)
    decreases |events|
  {
    events == [] || (!Touches(s, events[0], ref) && Untouched(tickUs, Apply(tickUs, s, events[0]), events[1..], ref))
  }

  predicate Fires(e: Event, ref: JobRef) {
    e.Tick? && ref in e.fired
  }

  /** The ticks at which a run sends the job, in order. */
  ghost function SendTicks(tickUs: nat, s: Env, events: seq<Event>, ref: JobRef): seq<nat>
    requires ValidRun(tickUs, s, events)
    decreases |events|
  {
    if events == [] then []
    else (if Fires(events[0], ref) then [s.clock] else []) + SendTicks(tickUs, Apply(tickUs, s, events[0]), events[1..], ref)
  }

  function AfterEvent(job: Job, e: Event, clock: nat, ref: JobRef): Job {
    match e
    case Tick(_, fired) => if ref in fired then Resent(job, clock) else job
    case ScheduleStop(jobId) => if jobId == ref.job then job.(enabled := false) else job
    case ScheduleStart(jobId) => if jobId == ref.job then job.(enabled := true) else job
    case _ => job
  }

  lemma PutElsewhere(buses: map<string, Bus>, ref: JobRef, q: JobRef, job: Job)
    requires Known(buses, ref) && q.bus in buses
    ensures Known(PutJob(buses, q, job), ref)
    ensures JobAt(PutJob(buses, q, job), ref) == if q == ref then job else JobAt(buses, ref)
  {
  }

  lemma SetEnabledOnJob(s: Env, jobId: string, enabled: bool, ref: JobRef)
    requires TableInv(s.buses) && Known(s.buses, ref)
    ensures Known(SetEnabled(s, jobId, enabled).buses, ref)
    ensures JobAt(SetEnabled(s, jobId, enabled).buses, ref)
            == if jobId == ref.job then JobAt(s.buses, ref).(enabled := enabled) else JobAt(s.buses, ref)
  {
    if Taken(s.buses, jobId) {
      var q := Locate(s.buses, jobId);
      PutElsewhere(s.buses, ref, q, JobAt(s.buses, q).(enabled := enabled));
    }
  }

  lemma AddOnJob(tickUs: nat, s: Env, e: Event, ref: JobRef)
    requires e.ScheduleAdd? && Known(s.buses, ref)
    ensures Known(AddJob(tickUs, s, e), ref) && JobAt(AddJob(tickUs, s, e), ref) == JobAt(s.buses, ref)
  {
    assert Taken(s.buses, ref.job);
    if AddJob(tickUs, s, e) != s.buses {
      PutElsewhere(s.buses, ref, e.ref, JobAt(AddJob(tickUs, s, e), e.ref));
    }
  }

  lemma UpdateOnJob(tickUs: nat, s: Env, e: Event, ref: JobRef)
    requires e.ScheduleUpdate? && Known(s.buses, ref) && !Touches(s, e, ref)
    ensures Known(UpdateJob(tickUs, s, e), ref) && JobAt(UpdateJob(tickUs, s, e), ref) == JobAt(s.buses, ref)
  {
    if Taken(s.buses, e.jobId) && UpdateJob(tickUs, s, e) != s.buses {
      var q := Locate(s.buses, e.jobId);
      PutElsewhere(s.buses, ref, q, JobAt(UpdateJob(tickUs, s, e), q));
    }
  }

  /** What an event leaves of the schedules. */
  lemma BusesAfter(tickUs: nat, s: Env, e: Event)
    requires Enabled(s, e) && !(e.Reset? && ResetSucceeds(s, e.resets, e.discards))
    ensures Apply(tickUs, s, e).buses ==
            match e
            case Tick(io, fired) => if io.observedBefore then MarkSent(s.buses, fired, s.clock) else s.buses
            case ScheduleAdd(_, _, _, _, _) => AddJob(tickUs, s, e)
            case ScheduleUpdate(_, _, _, _, _) => UpdateJob(tickUs, s, e)
            case ScheduleRemove(jobId) => if Taken(s.buses, jobId) then DropJob(s.buses, Locate(s.buses, jobId)) else s.buses
            case ScheduleStop(jobId) => SetEnabled(s, jobId, false).buses
            case ScheduleStart(jobId) => SetEnabled(s, jobId, true).buses
            case _ => s.buses
  {
  }

  /** What one event does to a job it does not re-arm. */
  lemma ApplyOnJob(tickUs: nat, s: Env, e: Event, ref: JobRef)
    requires TableInv(s.buses) && Enabled(s, e) && Known(s.buses, ref) && !Touches(s, e, ref)
    ensures Known(Apply(tickUs, s, e).buses, ref)
    ensures JobAt(Apply(tickUs, s, e).buses, ref) == AfterEvent(JobAt(s.buses, ref), e, s.clock, ref)
  {
    BusesAfter(tickUs, s, e);
    hide Apply, AddJob, UpdateJob, SetEnabled, TableInv;
    match e
    case Tick(io, fired) =>
      MapJobsAt(s.buses, (r: JobRef, job: Job) => if r in fired then Resent(job, s.clock) else job, ref);
    case ScheduleAdd(_, _, _, _, _) => AddOnJob(tickUs, s, e, ref);
    case ScheduleUpdate(_, _, _, _, _) => UpdateOnJob(tickUs, s, e, ref);
    case ScheduleStop(jobId) => SetEnabledOnJob(s, jobId, false, ref);
    case ScheduleStart(jobId) => SetEnabledOnJob(s, jobId, true, ref);
    case _ =>
  }

  /** None before `from`, and any two at least `gap` apart. (The sum saturates at the
      largest u64, like the runtime's.) */
  predicate Spaced(sends: seq<nat>, from: nat, gap: nat) {
    && (forall k :: 0 <= k < |sends| ==> from <= sends[k])
    && (forall i, j :: 0 <= i < j < |sends| ==> SatAdd(sends[i], gap) <= sends[j])
  }

  lemma SpacedCons(c: nat, rest: seq<nat>, from: nat, gap: nat)
    requires from <= c <= U64_MAX && Spaced(rest, SatAdd(c, gap), gap)
    ensures Spaced([c] + rest, from, gap)
  {
    var all := [c] + rest;
    forall k | 0 <= k < |all| ensures from <= all[k] {
      assert k > 0 ==> all[k] == rest[k - 1];
    }
    forall i, j | 0 <= i < j < |all| ensures SatAdd(all[i], gap) <= all[j] {
      assert all[j] == rest[j - 1] && (i > 0 ==> all[i] == rest[i - 1]);
    }
  }

  lemma SpacedStep(s: Env, e: Event, ref: JobRef, job: Job, rest: seq<nat>)
    requires Enabled(s, e) && Known(s.buses, ref) && job == JobAt(s.buses, ref) && s.clock <= U64_MAX
    requires Spaced(rest, if Fires(e, ref) then SatAdd(s.clock, job.everyTicks) else job.nextDue, job.everyTicks)
    ensures Spaced((if Fires(e, ref) then [s.clock] else []) + rest, job.nextDue, job.everyTicks)
  {
    if Fires(e, ref) {
      assert IsDue(s.buses, s.clock, ref);
      SpacedCons(s.clock, rest, job.nextDue, job.everyTicks);
    } else {
      assert [] + rest == rest;
    }
  }

  /** Between two re-armings, sends of one job are at least its period apart, however many
      ticks fail midway and are retried at the same clock. */
  lemma {:induction false} SendsAreSpaced(tickUs: nat, s: Env, events: seq<Event>, ref: JobRef, job: Job)
    requires TableInv(s.buses) && Known(s.buses, ref) && job == JobAt(s.buses, ref) && s.clock <= U64_MAX
    requires ValidRun(tickUs, s, events) && Untouched(tickUs, s, events, ref)
    ensures Spaced(SendTicks(tickUs, s, events, ref), job.nextDue, job.everyTicks)
    decreases |events|
  {
    if events != [] {
      var e := events[0];
      var t := Apply(tickUs, s, e);
      hide Spaced;
      assert JobOk(s.buses[ref.bus], ref.job, job);
      ApplyOnJob(tickUs, s, e, ref);
      ApplyKeepsTable(tickUs, s, e);
      ApplyClock(tickUs, s, e);
      SendsAreSpaced(tickUs, t, events[1..], ref, JobAt(t.buses, ref));
      SpacedStep(s, e, ref, job, SendTicks(tickUs, t, events[1..], ref));
    }
  }

  /** What an event that neither starts nor removes a job leaves of its being stopped. */
  lemma StaysStopped(tickUs: nat, s: Env, e: Event, ref: JobRef)
    requires TableInv(s.buses) && Enabled(s, e) && Known(s.buses, ref) && !JobAt(s.buses, ref).enabled
    requires e != ScheduleStart(ref.job) && e != ScheduleRemove(ref.job)
    ensures Known(Apply(tickUs, s, e).buses, ref) && !JobAt(Apply(tickUs, s, e).buses, ref).enabled
  {
    if e.Reset? && ResetSucceeds(s, e.resets, e.discards) {
      MapJobsAt(s.buses, (_: JobRef, job: Job) => job.(nextDue := 0), ref);
    } else if e.ScheduleUpdate? && e.jobId == ref.job {
      BusesAfter(tickUs, s, e);
      assert Taken(s.buses, ref.job) && Locate(s.buses, ref.job) == ref;
    } else {
      ApplyOnJob(tickUs, s, e, ref);
    }
  }

  /** A stopped job is never sent until it is started again or removed, whatever updates and
      resets come between. */
  lemma {:induction false} StoppedStaysSilent(tickUs: nat, s: Env, events: seq<Event>, ref: JobRef)
    requires TableInv(s.buses) && Known(s.buses, ref) && !JobAt(s.buses, ref).enabled
    requires ValidRun(tickUs, s, events)
    requires forall k :: 0 <= k < |events| ==> events[k] != ScheduleStart(ref.job) && events[k] != ScheduleRemove(ref.job)
    ensures SendTicks(tickUs, s, events, ref) == []
    decreases |events|
  {
    if events != [] {
      assert !IsDue(s.buses, s.clock, ref) && !Fires(events[0], ref);
      StaysStopped(tickUs, s, events[0], ref);
      ApplyKeepsTable(tickUs, s, events[0]);
      StoppedStaysSilent(tickUs, Apply(tickUs, s, events[0]), events[1..], ref);
    }
  }

  /** After a successful tick every enabled job is due later than that tick, at the latest
      at the end of the clock's range. */
  lemma DueAfterTick(tickUs: nat, s: Env, io: TickIo, fired: set<JobRef>, ref: JobRef)
    requires TableInv(s.buses) && Enabled(s, Tick(io, fired)) && StageOf(s, io).Committed? && s.clock <= U64_MAX
    requires Known(s.buses, ref) && JobAt(s.buses, ref).enabled
    ensures JobAt(Apply(tickUs, s, Tick(io, fired)).buses, ref).nextDue >= SatAdd(s.clock, 1)
  {
    ApplyOnJob(tickUs, s, Tick(io, fired), ref);
    assert JobOk(s.buses[ref.bus], ref.job, JobAt(s.buses, ref));
    assert AllSendable(s, io);
    assert IsDue(s.buses, s.clock, ref) ==> ref in fired;
  }

  /** Nothing stands in a tick's way: the buses can be read before and after, no due job is
      refused, every worker lives and acknowledges, and a row that is due can be sampled. */
  ghost predicate Commits(s: Env, io: TickIo) {
    && io.observedBefore && io.observedAfter
    && (forall ref :: ref in io.refused && Known(s.buses, ref) ==>
          !JobAt(s.buses, ref).enabled || JobAt(s.buses, ref).nextDue > s.clock)
    && io.fan.cut == |s.links|
    && (forall i :: 0 <= i < |s.links| ==> s.links[i].alive)
    && (forall i :: 0 <= i < |io.fan.replies| ==> io.fan.replies[i].Acked?)
    && (s.trace.Some? && s.trace.value.nextDue <= SatAdd(s.clock, 1) ==> io.sampling.Sampled?)
  }

  lemma CommitsIff(s: Env, io: TickIo)
    ensures StageOf(s, io).Committed? <==> Commits(s, io)
  {
  }

  /** The env clock moves, by one, exactly when nothing stands in the way; the trace can gain
      a row only then; and a job whose send is refused counts as not sent. */
  lemma TickCommitsIff(tickUs: nat, s: Env, io: TickIo, fired: set<JobRef>, ref: JobRef)
    requires Enabled(s, Tick(io, fired))
    ensures var t := Apply(tickUs, s, Tick(io, fired));
            && t.clock == (if Commits(s, io) then SatAdd(s.clock, 1) else s.clock)
            && (!Commits(s, io) ==> t.trace == s.trace)
            && (ref in io.refused ==> ref !in fired)
  {
    CommitsIff(s, io);
  }

  // ----- exact schedules

  /** The clock of a run without a successful env reset only moves forward. */
  lemma ApplyClock(tickUs: nat, s: Env, e: Event)
    requires Enabled(s, e) && s.clock <= U64_MAX && !(e.Reset? && ResetSucceeds(s, e.resets, e.discards))
    ensures s.clock <= Apply(tickUs, s, e).clock <= U64_MAX
    ensures Apply(tickUs, s, e).clock == if e.Tick? && StageOf(s, e.io).Committed? then SatAdd(s.clock, 1) else s.clock
  {
  }

  lemma {:induction false} RunClock(tickUs: nat, s: Env, events: seq<Event>, ref: JobRef)
    requires ValidRun(tickUs, s, events) && Untouched(tickUs, s, events, ref) && s.clock <= U64_MAX
    ensures s.clock <= End(tickUs, s, events).clock <= U64_MAX
    decreases |events|
  {
    if events != [] {
      ApplyClock(tickUs, s, events[0]);
      RunClock(tickUs, Apply(tickUs, s, events[0]), events[1..], ref);
    }
  }

  /** `ticks` are the first `n` of from, from + p, ..., all of them up to `clock` and none
      after it; with `strict`, the next one lies strictly after `clock`. */
  predicate Exactly(ticks: seq<nat>, from: nat, p: nat, n: nat, clock: nat, strict: bool) {
    && ticks == Every(from, p, n)
    && (if strict then clock < from + n * p else clock <= from + n * p)
    && (n > 0 ==> from + (n - 1) * p <= clock)
  }

  lemma ExactlyCons(rest: seq<nat>, from: nat, p: nat, n: nat, clock: nat, strict: bool)
    requires Exactly(rest, from + p, p, n, clock, strict) && from <= clock
    ensures Exactly([from] + rest, from, p, n + 1, clock, strict)
  {
    OneMore(p, n);
  }

  lemma ExactlyNone(from: nat, p: nat, clock: nat, strict: bool)
    requires if strict then clock < from else clock <= from
    ensures Exactly([], from, p, 0, clock, strict)
  {
  }

  lemma ExactStep(s: Env, e: Event, ref: JobRef, job: Job, rest: seq<nat>, n: nat, final: nat)
    requires Enabled(s, e) && Known(s.buses, ref) && job == JobAt(s.buses, ref)
    requires s.clock <= job.nextDue && s.clock <= final && final + job.everyTicks <= U64_MAX
    requires var next := if Fires(e, ref) then SatAdd(s.clock, job.everyTicks) else job.nextDue;
             Exactly(rest, next, job.everyTicks, n, final, false)
    ensures Exactly((if Fires(e, ref) then [s.clock] else []) + rest, job.nextDue, job.everyTicks,
                    if Fires(e, ref) then n + 1 else n, final, false)
  {
    if Fires(e, ref) {
      assert s.clock == job.nextDue by {
        assert IsDue(s.buses, s.clock, ref);
      }
      ExactlyCons(rest, job.nextDue, job.everyTicks, n, final, false);
    } else {
      assert [] + rest == rest;
    }
  }

  /** A job that is enabled and not overdue, left alone from then on, is sent exactly at its
      due tick and every period after it: `n` sends, with the next one not before the final
      clock and the last one not after it. Failed ticks neither lose nor repeat a send. */
  lemma {:induction false} SendsAreExact(tickUs: nat, s: Env, events: seq<Event>, ref: JobRef, job: Job) returns (n: nat)
    requires TableInv(s.buses) && Known(s.buses, ref) && job == JobAt(s.buses, ref)
    requires job.enabled && s.clock <= job.nextDue && s.clock <= U64_MAX
    requires ValidRun(tickUs, s, events) && Untouched(tickUs, s, events, ref)
    requires forall k :: 0 <= k < |events| ==> events[k] != ScheduleStop(ref.job)
    requires End(tickUs, s, events).clock + job.everyTicks <= U64_MAX
    ensures Exactly(SendTicks(tickUs, s, events, ref), job.nextDue, job.everyTicks, n, End(tickUs, s, events).clock, false)
    decreases |events|
  {
    hide Exactly;
    if events == [] {
      n := 0;
      ExactlyNone(job.nextDue, job.everyTicks, s.clock, false);
    } else {
      var e := events[0];
      var t := Apply(tickUs, s, e);
      RunClock(tickUs, s, events, ref);
      JobAfter(tickUs, s, e, ref);
      n := SendsAreExact(tickUs, t, events[1..], ref, JobAt(t.buses, ref));
      ExactStep(s, e, ref, job, SendTicks(tickUs, t, events[1..], ref), n, End(tickUs, t, events[1..]).clock);
      n := if Fires(e, ref) then n + 1 else n;
    }
  }

  /** An enabled job that is not overdue stays so, in a sound table. */
  lemma JobAfter(tickUs: nat, s: Env, e: Event, ref: JobRef)
    requires TableInv(s.buses) && Enabled(s, e) && Known(s.buses, ref) && !Touches(s, e, ref) && s.clock <= U64_MAX
    requires JobAt(s.buses, ref).enabled && s.clock <= JobAt(s.buses, ref).nextDue && e != ScheduleStop(ref.job)
    ensures var t := Apply(tickUs, s, e);
            && TableInv(t.buses) && Known(t.buses, ref) && t.clock <= U64_MAX && JobAt(t.buses, ref).enabled
            && t.clock <= JobAt(t.buses, ref).nextDue
            && JobAt(t.buses, ref).everyTicks == JobAt(s.buses, ref).everyTicks >= 1
            && JobAt(t.buses, ref).nextDue == if Fires(e, ref) then SatAdd(s.clock, JobAt(s.buses, ref).everyTicks)
                                              else JobAt(s.buses, ref).nextDue
  {
    ApplyOnJob(tickUs, s, e, ref);
    ApplyKeepsTable(tickUs, s, e);
    ApplyClock(tickUs, s, e);
    assert JobOk(s.buses[ref.bus], ref.job, JobAt(s.buses, ref));
    if e.Tick? && StageOf(s, e.io).Committed? {
      DueAfterTick(tickUs, s, e.io, e.fired, ref);
    }
  }

  // ----- what the schedule actions store

  /** The job carries this request: its frame, as text and parsed, its period in ticks,
      rounded up, and a first send at `clock`. */
  predicate Carries(job: Job, tickUs: nat, clock: nat, arbId: nat, flags: bv8, dataHex: string, everyUs: nat)
    requires tickUs > 0
  {
    && job.arbId == arbId && job.flags == flags && job.dataHex == dataHex
    && ParsedDataHex(dataHex).Ok?
    && job.frame == Frame(arbId, |ParsedDataHex(dataHex).value|, flags, ParsedDataHex(dataHex).value)
    && job.everyTicks == DivCeil(everyUs, tickUs)
    && job.nextDue == clock
  }

  /** The bus exists, the text parses, and the bus can carry the frame. */
  predicate Acceptable(buses: map<string, Bus>, bus: string, arbId: nat, flags: bv8, dataHex: string) {
    && bus in buses && ParsedDataHex(dataHex).Ok?
    && var payload := ParsedDataHex(dataHex).value;
       ValidFrame(buses[bus].fdCapable, Frame(arbId, |payload|, flags, payload))
  }

  predicate SameJob(before: map<string, Bus>, after: map<string, Bus>, ref: JobRef) {
    (Known(after, ref) <==> Known(before, ref)) && (Known(before, ref) ==> JobAt(after, ref) == JobAt(before, ref))
  }

  /** Nothing but the job `ref` differs. */
  ghost predicate OthersKept(before: map<string, Bus>, after: map<string, Bus>, ref: JobRef) {
    && after.Keys == before.Keys && (forall b :: b in before ==> after[b].fdCapable == before[b].fdCapable)
    && forall q :: q != ref ==> SameJob(before, after, q)
  }

  lemma PutKeepsOthers(buses: map<string, Bus>, ref: JobRef, job: Job)
    requires ref.bus in buses
    ensures OthersKept(buses, PutJob(buses, ref, job), ref)
    ensures Known(PutJob(buses, ref, job), ref) && JobAt(PutJob(buses, ref, job), ref) == job
  {
  }

  lemma DropKeepsOthers(buses: map<string, Bus>, ref: JobRef)
    requires ref.bus in buses
    ensures OthersKept(buses, DropJob(buses, ref), ref) && !Known(DropJob(buses, ref), ref)
  {
  }

  /** An accepted addition stores the request as an enabled job. */
  lemma AddedJob(tickUs: nat, s: Env, add: Event)
    requires add.ScheduleAdd? && tickUs > 0 && add.everyUs > 0 && !Taken(s.buses, add.ref.job)
    requires Acceptable(s.buses, add.ref.bus, add.arbId, add.flags, add.dataHex)
    ensures var after := Apply(tickUs, s, add).buses;
            && OthersKept(s.buses, after, add.ref) && Known(after, add.ref)
            && Carries(JobAt(after, add.ref), tickUs, s.clock, add.arbId, add.flags, add.dataHex, add.everyUs)
            && JobAt(after, add.ref).jobId == add.ref.job && JobAt(after, add.ref).enabled
  {
    var job := JobAt(AddJob(tickUs, s, add), add.ref);
    PutKeepsOthers(s.buses, add.ref, job);
  }

  /** An accepted update stores the request in the job that is there, started or stopped as
      it was. */
  lemma UpdatedJob(tickUs: nat, s: Env, update: Event, ref: JobRef)
    requires update.ScheduleUpdate? && tickUs > 0 && update.everyUs > 0
    requires TableInv(s.buses) && Known(s.buses, ref) && ref.job == update.jobId
    requires Acceptable(s.buses, ref.bus, update.arbId, update.flags, update.dataHex)
    ensures var after := Apply(tickUs, s, update).buses;
            && OthersKept(s.buses, after, ref) && Known(after, ref)
            && Carries(JobAt(after, ref), tickUs, s.clock, update.arbId, update.flags, update.dataHex, update.everyUs)
            && JobAt(after, ref).jobId == ref.job && JobAt(after, ref).enabled == JobAt(s.buses, ref).enabled
  {
    assert Taken(s.buses, ref.job) && Locate(s.buses, ref.job) == ref;
    var job := JobAt(UpdateJob(tickUs, s, update), ref);
    PutKeepsOthers(s.buses, ref, job);
    assert JobOk(s.buses[ref.bus], ref.job, JobAt(s.buses, ref));
  }

  /** What is asked of a run so that it tells nothing new about a job of period p. */
  ghost predicate LeftAlone(tickUs: nat, s: Env, events: seq<Event>, ref: JobRef, p: nat) {
    && s.clock <= U64_MAX && ValidRun(tickUs, s, events) && Untouched(tickUs, s, events, ref)
    && (forall k :: 0 <= k < |events| ==> events[k] != ScheduleStop(ref.job))
    && End(tickUs, s, events).clock + p <= U64_MAX
  }

  /** A job accepted at tick `a` with period `p` and left alone is sent at a, a + p, a + 2p
      and so on, up to the final clock. */
  lemma AddedJobSends(tickUs: nat, s: Env, add: Event, events: seq<Event>) returns (n: nat)
    requires TableInv(s.buses) && add.ScheduleAdd? && tickUs > 0 && add.everyUs > 0 && !Taken(s.buses, add.ref.job)
    requires Acceptable(s.buses, add.ref.bus, add.arbId, add.flags, add.dataHex)
    requires LeftAlone(tickUs, Apply(tickUs, s, add), events, add.ref, DivCeil(add.everyUs, tickUs))
    ensures var s1 := Apply(tickUs, s, add);
            Exactly(SendTicks(tickUs, s1, events, add.ref), s.clock, DivCeil(add.everyUs, tickUs),
                    n, End(tickUs, s1, events).clock, false)
  {
    ApplyKeepsTable(tickUs, s, add);
    AddedJob(tickUs, s, add);
    var s1 := Apply(tickUs, s, add);
    n := SendsAreExact(tickUs, s1, events, add.ref, JobAt(s1.buses, add.ref));
  }

  /** A job updated at tick `a` to period `p`, enabled and left alone, is sent at a, a + p,
      a + 2p and so on, whatever its period and due tick were before. */
  lemma UpdatedJobSends(tickUs: nat, s: Env, update: Event, ref: JobRef, events: seq<Event>) returns (n: nat)
    requires update.ScheduleUpdate? && tickUs > 0 && update.everyUs > 0
    requires TableInv(s.buses) && Known(s.buses, ref) && ref.job == update.jobId && JobAt(s.buses, ref).enabled
    requires Acceptable(s.buses, ref.bus, update.arbId, update.flags, update.dataHex)
    requires LeftAlone(tickUs, Apply(tickUs, s, update), events, ref, DivCeil(update.everyUs, tickUs))
    ensures var s1 := Apply(tickUs, s, update);
            Exactly(SendTicks(tickUs, s1, events, ref), s.clock, DivCeil(update.everyUs, tickUs),
                    n, End(tickUs, s1, events).clock, false)
  {
    ApplyKeepsTable(tickUs, s, update);
    UpdatedJob(tickUs, s, update, ref);
    var s1 := Apply(tickUs, s, update);
    n := SendsAreExact(tickUs, s1, events, ref, JobAt(s1.buses, ref));
  }

  /** After an env reset that succeeds, every enabled job left alone is sent at 0, p, 2p and
      so on: the env clock restarts at 0 and nothing stays due later. */
  lemma ResetJobSends(tickUs: nat, s: Env, reset: Event, ref: JobRef, events: seq<Event>) returns (n: nat)
    requires TableInv(s.buses) && Enabled(s, reset) && reset.Reset? && ResetSucceeds(s, reset.resets, reset.discards)
    requires Known(s.buses, ref) && JobAt(s.buses, ref).enabled
    requires LeftAlone(tickUs, Apply(tickUs, s, reset), events, ref, JobAt(s.buses, ref).everyTicks)
    ensures var s1 := Apply(tickUs, s, reset);
            && s1.clock == 0
            && Exactly(SendTicks(tickUs, s1, events, ref), 0, JobAt(s.buses, ref).everyTicks,
                       n, End(tickUs, s1, events).clock, false)
  {
    ApplyKeepsTable(tickUs, s, reset);
    MapJobsAt(s.buses, (_: JobRef, job: Job) => job.(nextDue := 0), ref);
    var s1 := Apply(tickUs, s, reset);
    n := SendsAreExact(tickUs, s1, events, ref, JobAt(s1.buses, ref));
  }

  // ----- the env trace

  ghost predicate TraceKept(s: Env, e: Event)
    requires Enabled(s, e)
  {
    !e.TraceStop? && !(e.Reset? && ResetSucceeds(s, e.resets, e.discards))
  }

  ghost predicate TraceUndisturbed(tickUs: nat, s: Env, events: seq<Event>)
    requires ValidRun(tickUs, s, events)
    decreases |events|
  {
    events == [] || (TraceKept(s, events[0]) && TraceUndisturbed(tickUs, Apply(tickUs, s, events[0]), events[1..]))
  }

  lemma {:induction false} TracedClock(tickUs: nat, s: Env, events: seq<Event>)
    requires ValidRun(tickUs, s, events) && TraceUndisturbed(tickUs, s, events) && s.clock <= U64_MAX
    ensures s.clock <= End(tickUs, s, events).clock <= U64_MAX
    decreases |events|
  {
    if events != [] {
      ApplyClock(tickUs, s, events[0]);
      TracedClock(tickUs, Apply(tickUs, s, events[0]), events[1..]);
    }
  }

  lemma TraceAfter(tickUs: nat, s: Env, e: Event)
    requires Enabled(s, e) && TraceKept(s, e) && s.clock <= U64_MAX
    requires s.trace.Some? && s.trace.value.period >= 1 && s.clock < s.trace.value.nextDue
    requires Apply(tickUs, s, e).clock + s.trace.value.period <= U64_MAX
    ensures var t := Apply(tickUs, s, e);
            && t.clock <= U64_MAX && t.trace.Some? && t.clock < t.trace.value.nextDue
            && (t.trace == s.trace || (t.clock == s.trace.value.nextDue && t.trace == Some(WithRow(s.trace.value, t.clock))))
  {
    ApplyClock(tickUs, s, e);
  }

  /** An active trace left alone gains a row exactly at its due tick and every period after
      it; a tick that fails, before or after sampling, neither loses nor repeats a row. */
  lemma {:induction false} RowsAreExact(tickUs: nat, s: Env, events: seq<Event>) returns (n: nat, rows: seq<nat>)
    requires s.trace.Some? && s.trace.value.period >= 1 && s.clock < s.trace.value.nextDue
    requires ValidRun(tickUs, s, events) && TraceUndisturbed(tickUs, s, events)
    requires s.clock <= U64_MAX && End(tickUs, s, events).clock + s.trace.value.period <= U64_MAX
    ensures End(tickUs, s, events).trace.Some?
    ensures End(tickUs, s, events).trace.value.rows == s.trace.value.rows + rows
    ensures Exactly(rows, s.trace.value.nextDue, s.trace.value.period, n, End(tickUs, s, events).clock, true)
    decreases |events|
  {
    hide Exactly;
    var was := s.trace.value;
    if events == [] {
      n, rows := 0, [];
      ExactlyNone(was.nextDue, was.period, s.clock, true);
    } else {
      var t := Apply(tickUs, s, events[0]);
      ApplyClock(tickUs, s, events[0]);
      TracedClock(tickUs, t, events[1..]);
      TraceAfter(tickUs, s, events[0]);
      n, rows := RowsAreExact(tickUs, t, events[1..]);
      if t.trace != s.trace {
        ExactlyCons(rows, was.nextDue, was.period, n, End(tickUs, s, events).clock, true);
        n, rows := n + 1, [was.nextDue] + rows;
      }
    }
  }

  /** A trace is refused while one is active, without a period, or without a readable signal;
      stopping one ends it. Neither touches anything else. */
  lemma TraceActions(tickUs: nat, s: Env, periodUs: nat, readable: bool)
    ensures s.trace.Some? || periodUs == 0 || !readable ==> Apply(tickUs, s, TraceStart(periodUs, readable)) == s
    ensures Apply(tickUs, s, TraceStop) == s.(trace := None)
    ensures var t := Apply(tickUs, s, TraceStart(periodUs, readable)); t == s.(trace := t.trace)
  {
  }

  /** A trace started at tick t0 has, at tick t, exactly 1 + (t - t0) / p rows: t0, t0 + p,
      t0 + 2p and so on. */
  lemma TraceRowCount(tickUs: nat, s: Env, periodUs: nat, events: seq<Event>)
    requires s.trace.None? && periodUs > 0 && tickUs > 0 && s.clock <= U64_MAX
    requires var s1 := Apply(tickUs, s, TraceStart(periodUs, true));
             && ValidRun(tickUs, s1, events) && TraceUndisturbed(tickUs, s1, events)
             && End(tickUs, s1, events).clock + DivCeil(periodUs, tickUs) <= U64_MAX
    ensures var s1, p := Apply(tickUs, s, TraceStart(periodUs, true)), DivCeil(periodUs, tickUs);
            var t := End(tickUs, s1, events);
            && p >= 1 && s.clock <= t.clock && t.trace.Some?
            && t.trace.value.rows == Every(s.clock, p, 1 + (t.clock - s.clock) / p)
  {
    var s1, p := Apply(tickUs, s, TraceStart(periodUs, true)), DivCeil(periodUs, tickUs);
    PeriodAccuracy(tickUs, periodUs);
    TracedClock(tickUs, s1, events);
    var n, rows := RowsAreExact(tickUs, s1, events);
    var t := End(tickUs, s1, events);
    if n > 0 {
      OneMore(p, n);
    }
    QuotientIs(t.clock - s.clock, p, n);
  }
}
