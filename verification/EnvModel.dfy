/** The env daemon as an event machine: schedule tables, the fan-out of every tick to the
    instances, the env clock and the env trace (runtime/src/envd/server.rs,
    runtime/src/envd/server/tick.rs, runtime/src/envd/server/dispatch.rs).

    Whatever can fail is part of the event, so one run of the machine is one sequence of
    events, failures included, and a theorem over all runs covers every failure pattern. */
module EnvModel {
  import opened Common
  import opened CanFrames
  import opened Traces

  datatype Job = Job(
    jobId: string, arbId: nat, flags: bv8, dataHex: string, frame: Frame,
    everyTicks: nat, nextDue: nat, enabled: bool)

  datatype Bus = Bus(fdCapable: bool, schedules: map<string, Job>)

  datatype JobRef = JobRef(bus: string, job: string)

  datatype Request = StepRequest | ResetRequest | OtherRequest

  /** An instance behind its worker. `owed` are requests accepted by a live worker and not
      yet executed; `inflight` is the request a dead worker was waiting for, which the
      instance may still execute. */
  datatype Link = Link(alive: bool, clock: nat, owed: seq<Request>, inflight: Option<Request>)

  /** `overrun` is history: ticks since the last reset in which every instance stepped but
      the env did not commit. */
  datatype Env = Env(clock: nat, buses: map<string, Bus>, links: seq<Link>, trace: Option<Trace>, overrun: nat)

  /** How one worker request ends: acknowledged; failed, which kills the worker, with the
      instance having executed it, or possibly executing it later; or still queued when the
      env stops waiting. */
  datatype Reply = Acked | Broke(executed: bool, later: bool) | Queued

  /** A fan-out of one request to every instance. Sending stops at index `cut` if the worker
      there refuses it. */
  datatype FanOut = FanOut(cut: nat, replies: seq<Reply>)

  datatype Sampling = Sampled | RowFailed | ReadBroke(link: nat, reply: Reply)

  datatype TickIo = TickIo(
    observedBefore: bool, refused: set<JobRef>, fan: FanOut, observedAfter: bool, sampling: Sampling)

  datatype Event =
    | Tick(io: TickIo, fired: set<JobRef>)
    | Reset(resets: FanOut, discards: FanOut)
    | Query(link: nat, reply: Reply)
    | Settle(link: nat, reply: Reply)
    | Late(link: nat)
    | LocalReset(link: nat)
    | ScheduleAdd(ref: JobRef, arbId: nat, flags: bv8, dataHex: string, everyUs: nat)
    | ScheduleUpdate(jobId: string, arbId: nat, flags: bv8, dataHex: string, everyUs: nat)
    | ScheduleRemove(jobId: string)
    | ScheduleStop(jobId: string)
    | ScheduleStart(jobId: string)
    | TraceStart(periodUs: nat, readable: bool)
    | TraceStop

  // ----- worker requests

  function Execute(clock: nat, request: Request): nat {
    match request
    case StepRequest => SatAdd(clock, 1)
    case ResetRequest => 0
    case OtherRequest => clock
  }

  function Receive(l: Link, request: Request, reply: Reply): Link {
    if !l.alive then l
    else
      match reply
      case Acked => l.(clock := Execute(l.clock, request))
      case Broke(executed, later) =>
        Link(false, if executed then Execute(l.clock, request) else l.clock, [],
             if !executed && later then Some(request) else None)
      case Queued => l.(owed := l.owed + [request])
  }

  /** A worker serves its queue in order, so only a link that owes nothing can have
      answered, or failed, the newest request. */
  predicate Plausible(l: Link, reply: Reply) {
    l.alive && !reply.Queued? ==> l.owed == []
  }

  predicate AllAlive(links: seq<Link>) {
    forall i :: 0 <= i < |links| ==> links[i].alive
  }

  predicate AllAcked(links: seq<Link>, fan: FanOut) {
    AllAlive(links) && forall i :: 0 <= i < |fan.replies| ==> fan.replies[i].Acked?
  }

  /** The env awaits the replies in order and stops at the first failure, so a request may
      only be left queued behind one. */
  ghost predicate FanOutOk(links: seq<Link>, fan: FanOut) {
    && |fan.replies| == |links| && fan.cut <= |links|
    && (fan.cut < |links| ==> !links[fan.cut].alive)
    && (forall i :: 0 <= i < |links| ==> Plausible(links[i], fan.replies[i]))
    && (fan.cut == |links| && !AllAcked(links, fan) ==> exists j :: FailsFirst(links, fan, j))
  }

  predicate FailsFirst(links: seq<Link>, fan: FanOut, j: int)
    requires |fan.replies| == |links|
  {
    && 0 <= j < |links| && (!links[j].alive || fan.replies[j].Broke?)
    && forall i :: 0 <= i < j ==> links[i].alive && fan.replies[i].Acked?
  }

  function FanOutTo(links: seq<Link>, request: Request, fan: FanOut): (r: seq<Link>)
    requires |fan.replies| == |links|
    ensures |r| == |links|
  {
    seq(|links|, i requires 0 <= i < |links| =>
      if i < fan.cut then Receive(links[i], request, fan.replies[i]) else links[i])
  }

  function SettleOne(l: Link, reply: Reply): Link
    requires l.owed != []
  {
    if reply.Acked? then Receive(l, l.owed[0], reply).(owed := l.owed[1..]) else Receive(l, l.owed[0], reply)
  }

  // ----- schedules

  function ScheduleTicks(tickUs: nat, everyUs: nat): Option<nat> {
    if everyUs == 0 || tickUs == 0 then None else Some(DivCeil(everyUs, tickUs))
  }

  predicate Known(buses: map<string, Bus>, ref: JobRef) {
    ref.bus in buses && ref.job in buses[ref.bus].schedules
  }

  function JobAt(buses: map<string, Bus>, ref: JobRef): Job
    requires Known(buses, ref)
  {
    buses[ref.bus].schedules[ref.job]
  }

  predicate IsDue(buses: map<string, Bus>, clock: nat, ref: JobRef) {
    Known(buses, ref) && JobAt(buses, ref).enabled && JobAt(buses, ref).nextDue <= clock
  }

  function Max1(n: nat): nat {
    if n == 0 then 1 else n
  }

  function Resent(job: Job, clock: nat): Job {
    job.(nextDue := SatAdd(clock, Max1(job.everyTicks)))
  }

  function MapJobs(buses: map<string, Bus>, f: (JobRef, Job) -> Job): map<string, Bus> {
    map b | b in buses ::
      buses[b].(schedules := map j | j in buses[b].schedules :: f(JobRef(b, j), buses[b].schedules[j]))
  }

  function MarkSent(buses: map<string, Bus>, fired: set<JobRef>, clock: nat): map<string, Bus> {
    MapJobs(buses, (ref: JobRef, job: Job) => if ref in fired then Resent(job, clock) else job)
  }

  function PutJob(buses: map<string, Bus>, ref: JobRef, job: Job): map<string, Bus>
    requires ref.bus in buses
  {
    buses[ref.bus := buses[ref.bus].(schedules := buses[ref.bus].schedules[ref.job := job])]
  }

  function DropJob(buses: map<string, Bus>, ref: JobRef): map<string, Bus>
    requires ref.bus in buses
  {
    buses[ref.bus := buses[ref.bus].(schedules := buses[ref.bus].schedules - {ref.job})]
  }

  ghost predicate Taken(buses: map<string, Bus>, jobId: string) {
    exists b :: b in buses && jobId in buses[b].schedules
  }

  /** Some bus that holds the job. */
  ghost function Locate(buses: map<string, Bus>, jobId: string): (r: JobRef)
    requires Taken(buses, jobId)
    ensures r.job == jobId && Known(buses, r)
  {
    var b :| b in buses && jobId in buses[b].schedules;
    JobRef(b, jobId)
  }

  /** `parse_env_frame`: the frame, if the bus exists, the hex parses and the bus takes it. */
  function EnvFrame(buses: map<string, Bus>, bus: string, arbId: nat, flags: bv8, dataHex: string): Option<Frame> {
    match ParsedDataHex(dataHex)
    case Err(_) => None
    case Ok(payload) =>
      var frame := Frame(arbId, |payload|, flags, payload);
      if bus in buses && ValidFrame(buses[bus].fdCapable, frame) then Some(frame) else None
  }

  // ----- one tick

  ghost predicate FireOk(s: Env, io: TickIo, fired: set<JobRef>) {
    && (forall ref :: ref in fired ==> IsDue(s.buses, s.clock, ref) && ref !in io.refused)
    && (!io.observedBefore ==> fired == {})
    && (io.observedBefore && AllSendable(s, io) ==> forall ref :: IsDue(s.buses, s.clock, ref) ==> ref in fired)
  }

  ghost predicate AllSendable(s: Env, io: TickIo) {
    forall ref :: ref in io.refused ==> !IsDue(s.buses, s.clock, ref)
  }

  /** How far a tick gets before something fails. */
  datatype Stage = Unobserved | SendFailed | FanOutFailed | Unseen | Unsampled | Committed

  ghost function StageOf(s: Env, io: TickIo): Stage {
    if !io.observedBefore then Unobserved
    else if !AllSendable(s, io) then SendFailed
    else if !(io.fan.cut == |s.links| && AllAcked(s.links, io.fan)) then FanOutFailed
    else if !io.observedAfter then Unseen
    else if TraceDue(s.trace, SatAdd(s.clock, 1)) && !io.sampling.Sampled? then Unsampled
    else Committed
  }

  ghost predicate TickOk(s: Env, io: TickIo, fired: set<JobRef>) {
    && FireOk(s, io, fired) && FanOutOk(s.links, io.fan)
    && (io.sampling.ReadBroke? ==> io.sampling.link < |s.links| && io.sampling.reply.Broke?)
  }

  ghost function TickState(s: Env, io: TickIo, fired: set<JobRef>): Env
    requires TickOk(s, io, fired)
  {
    var sent := s.(buses := MarkSent(s.buses, fired, s.clock));
    match StageOf(s, io)
    case Unobserved => s
    case SendFailed => sent
    case FanOutFailed => sent.(links := FanOutTo(s.links, StepRequest, io.fan))
    case Unseen => sent.(links := FanOutTo(s.links, StepRequest, io.fan), overrun := s.overrun + 1)
    case Unsampled =>
      var stepped := FanOutTo(s.links, StepRequest, io.fan);
      sent.(links := if io.sampling.ReadBroke?
                     then stepped[io.sampling.link := Receive(stepped[io.sampling.link], OtherRequest, io.sampling.reply)]
                     else stepped,
            overrun := s.overrun + 1)
    case Committed =>
      var tick := SatAdd(s.clock, 1);
      sent.(links := FanOutTo(s.links, StepRequest, io.fan), clock := tick,
            trace := if TraceDue(s.trace, tick) then Some(WithRow(s.trace.value, tick)) else s.trace)
  }

  // ----- the other events

  ghost function ResetState(s: Env, resets: FanOut, discards: FanOut): Env
    requires FanOutOk(s.links, resets)
    requires var links := FanOutTo(s.links, ResetRequest, resets);
             ResetReached(s, resets) ==> FanOutOk(links, discards)
  {
    var links := FanOutTo(s.links, ResetRequest, resets);
    if !ResetReached(s, resets) then s.(links := links)
    else
      var after := FanOutTo(links, OtherRequest, discards);
      if !(discards.cut == |links| && AllAcked(links, discards)) then s.(links := after)
      else Env(0, MapJobs(s.buses, (_: JobRef, job: Job) => job.(nextDue := 0)), after, s.trace, 0)
  }

  predicate ResetReached(s: Env, resets: FanOut) {
    resets.cut == |s.links| && AllAcked(s.links, resets)
  }

  ghost predicate ResetSucceeds(s: Env, resets: FanOut, discards: FanOut)
    requires FanOutOk(s.links, resets)
  {
    var links := FanOutTo(s.links, ResetRequest, resets);
    ResetReached(s, resets) && discards.cut == |links| && AllAcked(links, discards)
  }

  ghost predicate Enabled(s: Env, e: Event) {
    match e
    case Tick(io, fired) => TickOk(s, io, fired)
    case Reset(resets, discards) =>
      FanOutOk(s.links, resets) && (ResetReached(s, resets) ==> FanOutOk(FanOutTo(s.links, ResetRequest, resets), discards))
    case Query(i, reply) => i < |s.links| && Plausible(s.links[i], reply) && !reply.Queued?
    case Settle(i, reply) => i < |s.links| && s.links[i].alive && s.links[i].owed != [] && !reply.Queued?
    case Late(i) => i < |s.links| && s.links[i].inflight.Some?
    case LocalReset(i) => i < |s.links|
    case _ => true
  }

  ghost function Apply(tickUs: nat, s: Env, e: Event): Env
    requires Enabled(s, e)
  {
    match e
    case Tick(io, fired) => TickState(s, io, fired)
    case Reset(resets, discards) => ResetState(s, resets, discards)
    case Query(i, reply) => s.(links := s.links[i := Receive(s.links[i], OtherRequest, reply)])
    case Settle(i, reply) => s.(links := s.links[i := SettleOne(s.links[i], reply)])
    case Late(i) =>
      var l := s.links[i];
      s.(links := s.links[i := l.(clock := Execute(l.clock, l.inflight.value), inflight := None)])
    case LocalReset(i) => s.(links := s.links[i := s.links[i].(clock := 0)])
    case ScheduleAdd(_, _, _, _, _) => s.(buses := AddJob(tickUs, s, e))
    case ScheduleUpdate(_, _, _, _, _) => s.(buses := UpdateJob(tickUs, s, e))
    case ScheduleRemove(jobId) =>
      if Taken(s.buses, jobId) then s.(buses := DropJob(s.buses, Locate(s.buses, jobId))) else s
    case ScheduleStop(jobId) => SetEnabled(s, jobId, false)
    case ScheduleStart(jobId) => SetEnabled(s, jobId, true)
    case TraceStart(periodUs, readable) =>
      if s.trace.Some? || periodUs == 0 || tickUs == 0 || !readable then s
      else
        var period := DivCeil(periodUs, tickUs);
        s.(trace := Some(Trace(period, SatAdd(s.clock, period), [s.clock])))
    case TraceStop => s.(trace := None)
  }

  ghost function SetEnabled(s: Env, jobId: string, enabled: bool): Env {
    if !Taken(s.buses, jobId) then s
    else
      var ref := Locate(s.buses, jobId);
      s.(buses := PutJob(s.buses, ref, JobAt(s.buses, ref).(enabled := enabled)))
  }

  ghost function AddJob(tickUs: nat, s: Env, e: Event): map<string, Bus>
    requires e.ScheduleAdd?
  {
    match (ScheduleTicks(tickUs, e.everyUs), EnvFrame(s.buses, e.ref.bus, e.arbId, e.flags, e.dataHex))
    case (Some(ticks), Some(frame)) =>
      if Taken(s.buses, e.ref.job) then s.buses
      else PutJob(s.buses, e.ref, Job(e.ref.job, e.arbId, frame.flags, e.dataHex, frame, ticks, s.clock, true))
    case _ => s.buses
  }

  ghost function UpdateJob(tickUs: nat, s: Env, e: Event): map<string, Bus>
    requires e.ScheduleUpdate?
  {
    if !Taken(s.buses, e.jobId) then s.buses
    else
      var ref := Locate(s.buses, e.jobId);
      match (ScheduleTicks(tickUs, e.everyUs), EnvFrame(s.buses, ref.bus, e.arbId, e.flags, e.dataHex))
      case (Some(ticks), Some(frame)) =>
        PutJob(s.buses, ref, JobAt(s.buses, ref).(
          arbId := e.arbId, flags := frame.flags, dataHex := e.dataHex, frame := frame,
          everyTicks := ticks, nextDue := s.clock))
      case _ => s.buses
  }

  // ----- runs

  ghost predicate ValidRun(tickUs: nat, s: Env, events: seq<Event>)
    decreases |events|
  {
    events == [] || (Enabled(s, events[0]) && ValidRun(tickUs, Apply(tickUs, s, events[0]), events[1..]))
  }

  ghost function End(tickUs: nat, s: Env, events: seq<Event>): Env
    requires ValidRun(tickUs, s, events)
    decreases |events|
  {
    if events == [] then s else End(tickUs, Apply(tickUs, s, events[0]), events[1..])
  }

  /** The daemon right after bootstrap: every clock at zero, nothing scheduled. */
  ghost predicate Bootstrapped(s: Env) {
    && s.clock == 0 && s.trace.None? && s.overrun == 0
    && (forall i :: 0 <= i < |s.links| ==> s.links[i] == Link(true, 0, [], None))
    && (forall b :: b in s.buses ==> s.buses[b].schedules == map[])
  }
}
