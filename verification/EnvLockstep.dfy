/** Lock-step: how the env clock and the instance clocks stay together over every run,
    however ticks and resets fail and are retried. */
module EnvLockstep {
  import opened Common
  import opened EnvModel

  ghost predicate LinkOk(l: Link) {
    if l.alive then l.inflight.None? else l.owed == []
  }

  /** While every worker is alive all instances show the same time: the env clock plus the
      ticks that reached the instances without being committed. */
  ghost predicate InStep(s: Env) {
    && s.clock <= U64_MAX
    && (forall i :: 0 <= i < |s.links| ==> LinkOk(s.links[i]))
    && (AllAlive(s.links) ==>
        forall i :: 0 <= i < |s.links| ==> s.links[i].owed == [] && s.links[i].clock == SatAdd(s.clock, s.overrun))
  }

  ghost predicate SomeDead(links: seq<Link>) {
    exists i :: 0 <= i < |links| && !links[i].alive
  }

  lemma FanOutLinks(links: seq<Link>, request: Request, fan: FanOut)
    requires FanOutOk(links, fan) && forall i :: 0 <= i < |links| ==> LinkOk(links[i])
    ensures var r := FanOutTo(links, request, fan);
            && (forall i :: 0 <= i < |r| ==> LinkOk(r[i]) && (r[i].alive ==> links[i].alive))
            && (AllAlive(links) && AllAlive(r) ==> fan.cut == |links| && AllAcked(links, fan))
            && (fan.cut == |links| && AllAcked(links, fan) ==>
                AllAlive(r) && forall i :: 0 <= i < |r| ==> r[i] == links[i].(clock := Execute(links[i].clock, request)))
  {
    var r := FanOutTo(links, request, fan);
    if AllAlive(links) && !AllAcked(links, fan) {
      var j :| FailsFirst(links, fan, j);
      assert !r[j].alive;
    }
  }

  lemma TickInStep(s: Env, io: TickIo, fired: set<JobRef>)
    requires InStep(s) && TickOk(s, io, fired)
    ensures InStep(TickState(s, io, fired))
  {
    FanOutLinks(s.links, StepRequest, io.fan);
    var t, stepped := TickState(s, io, fired), FanOutTo(s.links, StepRequest, io.fan);
    if StageOf(s, io).Unsampled? && io.sampling.ReadBroke? {
      assert !t.links[io.sampling.link].alive;
    }
  }

  lemma ResetInStep(s: Env, resets: FanOut, discards: FanOut)
    requires InStep(s) && Enabled(s, Reset(resets, discards))
    ensures InStep(ResetState(s, resets, discards))
  {
    FanOutLinks(s.links, ResetRequest, resets);
    if ResetReached(s, resets) {
      FanOutLinks(FanOutTo(s.links, ResetRequest, resets), OtherRequest, discards);
    }
  }

  lemma ApplyInStep(tickUs: nat, s: Env, e: Event)
    requires InStep(s) && Enabled(s, e) && !e.LocalReset?
    ensures InStep(Apply(tickUs, s, e))
  {
    match e
    case Tick(io, fired) => TickInStep(s, io, fired);
    case Reset(resets, discards) => ResetInStep(s, resets, discards);
    case Query(i, reply) =>
      var t := Apply(tickUs, s, e);
      assert t.links[i].alive ==> s.links[i].alive && reply.Acked?;
      assert forall j :: 0 <= j < |t.links| && t.links[j].alive ==> s.links[j].alive;
    case Settle(i, reply) =>
      assert forall j :: 0 <= j < |s.links| && !s.links[j].alive ==> !Apply(tickUs, s, e).links[j].alive;
    case Late(i) => assert !Apply(tickUs, s, e).links[i].alive;
    case _ =>
  }

  /** Over every run without a local instance reset, as long as all workers live, every
      instance clock is the env clock plus the uncommitted ticks. In particular all of them
      agree and none is behind the env. */
  lemma {:induction false} ClocksInStep(tickUs: nat, s: Env, events: seq<Event>)
    requires InStep(s) && ValidRun(tickUs, s, events)
    requires forall k :: 0 <= k < |events| ==> !events[k].LocalReset?
    ensures var t := End(tickUs, s, events);
            && InStep(t)
            && (AllAlive(t.links) ==> forall i :: 0 <= i < |t.links| ==>
                t.clock <= t.links[i].clock == SatAdd(t.clock, t.overrun))
    decreases |events|
  {
    if events != [] {
      ApplyInStep(tickUs, s, events[0]);
      ClocksInStep(tickUs, Apply(tickUs, s, events[0]), events[1..]);
    }
  }

  // ----- a dead worker stops the env clock for good

  lemma ApplyFrozen(tickUs: nat, s: Env, e: Event, i: nat)
    requires Enabled(s, e) && i < |s.links| && !s.links[i].alive
    ensures var t := Apply(tickUs, s, e); i < |t.links| && !t.links[i].alive && t.clock == s.clock
  {
  }

  /** Once a worker request has failed, no later event, local resets included, moves the env
      clock again. */
  lemma {:induction false} DeadWorkerFreezesClock(tickUs: nat, s: Env, events: seq<Event>, i: nat)
    requires ValidRun(tickUs, s, events) && i < |s.links| && !s.links[i].alive
    ensures var t := End(tickUs, s, events); i < |t.links| && !t.links[i].alive && t.clock == s.clock
    decreases |events|
  {
    if events != [] {
      ApplyFrozen(tickUs, s, events[0], i);
      DeadWorkerFreezesClock(tickUs, Apply(tickUs, s, events[0]), events[1..], i);
    }
  }

  // ----- the env is never ahead, not even after a worker has died

  /** The instance is not behind, and no reset it was sent can still put it behind. */
  ghost predicate AtLeast(l: Link, clock: nat) {
    clock <= l.clock && ResetRequest !in l.owed && l.inflight != Some(ResetRequest)
  }

  /** Either no instance is or can fall behind, or the env is stuck at tick 0. */
  ghost predicate NotAhead(s: Env) {
    && s.clock <= U64_MAX
    && ((s.clock == 0 && SomeDead(s.links)) || forall i :: 0 <= i < |s.links| ==> AtLeast(s.links[i], s.clock))
  }

  /** At tick 0 anything; later no local reset, and every env reset goes through. */
  ghost predicate Harmless(s: Env, e: Event)
    requires Enabled(s, e)
  {
    s.clock == 0 || (!e.LocalReset? && (e.Reset? ==> ResetSucceeds(s, e.resets, e.discards)))
  }

  ghost predicate HarmlessRun(tickUs: nat, s: Env, events: seq<Event>)
    requires ValidRun(tickUs, s, events)
    decreases |events|
  {
    events == [] || (Harmless(s, events[0]) && HarmlessRun(tickUs, Apply(tickUs, s, events[0]), events[1..]))
  }

  lemma TickNotAhead(s: Env, io: TickIo, fired: set<JobRef>)
    requires NotAhead(s) && !(s.clock == 0 && SomeDead(s.links)) && TickOk(s, io, fired)
    ensures NotAhead(TickState(s, io, fired))
  {
    var stepped := FanOutTo(s.links, StepRequest, io.fan);
    forall i | 0 <= i < |stepped| ensures AtLeast(stepped[i], s.clock) {
      assert AtLeast(s.links[i], s.clock);
    }
    if StageOf(s, io).Committed? {
      forall i | 0 <= i < |stepped| ensures AtLeast(stepped[i], SatAdd(s.clock, 1)) {
        assert AtLeast(s.links[i], s.clock);
      }
    }
  }

  /** A fan-out that does not succeed leaves a dead worker behind. */
  lemma FailureLeavesDead(links: seq<Link>, request: Request, fan: FanOut) returns (j: nat)
    requires FanOutOk(links, fan) && !(fan.cut == |links| && AllAcked(links, fan))
    ensures j < |links| && !FanOutTo(links, request, fan)[j].alive
  {
    if fan.cut < |links| {
      j := fan.cut;
    } else {
      var k :| FailsFirst(links, fan, k);
      j := k;
    }
  }

  lemma FailedResetLeavesDead(tickUs: nat, s: Env, resets: FanOut, discards: FanOut) returns (j: nat)
    requires Enabled(s, Reset(resets, discards)) && !ResetSucceeds(s, resets, discards)
    ensures var t := Apply(tickUs, s, Reset(resets, discards));
            j < |t.links| && !t.links[j].alive && t.clock == s.clock
  {
    if ResetReached(s, resets) {
      j := FailureLeavesDead(FanOutTo(s.links, ResetRequest, resets), OtherRequest, discards);
    } else {
      j := FailureLeavesDead(s.links, ResetRequest, resets);
    }
  }

  lemma ApplyNotAhead(tickUs: nat, s: Env, e: Event)
    requires NotAhead(s) && Enabled(s, e) && Harmless(s, e)
    ensures NotAhead(Apply(tickUs, s, e))
  {
    if s.clock == 0 && SomeDead(s.links) {
      var i :| 0 <= i < |s.links| && !s.links[i].alive;
      ApplyFrozen(tickUs, s, e, i);
    } else {
      match e
      case Tick(io, fired) => TickNotAhead(s, io, fired);
      case Reset(resets, discards) =>
        assert forall i :: 0 <= i < |s.links| ==> AtLeast(s.links[i], s.clock);
        if !ResetSucceeds(s, resets, discards) {
          var j := FailedResetLeavesDead(tickUs, s, resets, discards);
        }
      case Query(i, reply) => assert AtLeast(s.links[i], s.clock);
      case Settle(i, reply) => assert AtLeast(s.links[i], s.clock) && s.links[i].owed[0] in s.links[i].owed;
      case Late(i) => assert AtLeast(s.links[i], s.clock);
      case _ =>
    }
  }

  /** However ticks fail part-way and are retried, the env clock never exceeds the clock of
      any instance, dead or alive. Only a local reset or a failed env reset once the env
      clock has moved is excluded. */
  lemma {:induction false} EnvNeverAhead(tickUs: nat, s: Env, events: seq<Event>)
    requires NotAhead(s) && ValidRun(tickUs, s, events) && HarmlessRun(tickUs, s, events)
    ensures var t := End(tickUs, s, events);
            NotAhead(t) && forall i :: 0 <= i < |t.links| ==> t.clock <= t.links[i].clock
    decreases |events|
  {
    if events != [] {
      ApplyNotAhead(tickUs, s, events[0]);
      EnvNeverAhead(tickUs, Apply(tickUs, s, events[0]), events[1..]);
    } else if !(s.clock == 0 && SomeDead(s.links)) {
      assert forall i :: 0 <= i < |s.links| ==> AtLeast(s.links[i], s.clock);
    }
  }

  // ----- exactly equal while nothing has failed

  ghost predicate Together(s: Env) {
    forall i :: 0 <= i < |s.links| ==>
      && s.links[i].clock == s.clock
      && (forall k :: 0 <= k < |s.links[i].owed| ==> s.links[i].owed[k].OtherRequest?)
      && (s.links[i].inflight.Some? ==> s.links[i].inflight.value.OtherRequest?)
  }

  ghost predicate Succeeds(s: Env, e: Event)
    requires Enabled(s, e)
  {
    && !e.LocalReset?
    && (e.Tick? ==> StageOf(s, e.io).Committed?)
    && (e.Reset? ==> ResetSucceeds(s, e.resets, e.discards))
  }

  ghost predicate SucceedingRun(tickUs: nat, s: Env, events: seq<Event>)
    requires ValidRun(tickUs, s, events)
    decreases |events|
  {
    events == [] || (Succeeds(s, events[0]) && SucceedingRun(tickUs, Apply(tickUs, s, events[0]), events[1..]))
  }

  lemma ApplyTogether(tickUs: nat, s: Env, e: Event)
    requires Together(s) && Enabled(s, e) && Succeeds(s, e)
    ensures Together(Apply(tickUs, s, e))
  {
  }

  /** While no tick and no reset has failed, all clocks are equal. */
  lemma {:induction false} AllClocksEqual(tickUs: nat, s: Env, events: seq<Event>)
    requires Together(s) && ValidRun(tickUs, s, events) && SucceedingRun(tickUs, s, events)
    ensures Together(End(tickUs, s, events))
    decreases |events|
  {
    if events != [] {
      ApplyTogether(tickUs, s, events[0]);
      AllClocksEqual(tickUs, Apply(tickUs, s, events[0]), events[1..]);
    }
  }

  lemma CommittedTick(tickUs: nat, s: Env, e: Event)
    requires Together(s) && Enabled(s, e) && Succeeds(s, e) && e.Tick?
    ensures Together(Apply(tickUs, s, e)) && Apply(tickUs, s, e).clock == SatAdd(s.clock, 1)
  {
    ApplyTogether(tickUs, s, e);
  }

  /** A step of n ticks that all succeed moves the env and every instance by exactly n. */
  lemma {:induction false} TicksAdvanceTogether(tickUs: nat, s: Env, events: seq<Event>)
    requires Together(s) && ValidRun(tickUs, s, events) && SucceedingRun(tickUs, s, events)
    requires forall k :: 0 <= k < |events| ==> events[k].Tick?
    requires s.clock + |events| <= U64_MAX
    ensures var t := End(tickUs, s, events);
            && t.clock == s.clock + |events|
            && forall i :: 0 <= i < |t.links| ==> t.links[i].clock == s.clock + |events|
    decreases |events|
  {
    if events != [] {
      CommittedTick(tickUs, s, events[0]);
      hide Apply, Enabled, Succeeds;
      TicksAdvanceTogether(tickUs, Apply(tickUs, s, events[0]), events[1..]);
    }
  }

  lemma BootstrapInStep(s: Env)
    requires Bootstrapped(s)
    ensures InStep(s) && NotAhead(s) && Together(s)
  {
  }

  // ----- exactly when the excluded events break it

  /** A local instance reset puts that instance behind the env exactly when the env clock
      has moved. */
  lemma LocalResetBehindIff(tickUs: nat, s: Env, i: nat)
    requires Enabled(s, LocalReset(i))
    ensures Apply(tickUs, s, LocalReset(i)).clock <= Apply(tickUs, s, LocalReset(i)).links[i].clock <==> s.clock == 0
  {
  }

  /** Instance `i` has executed the reset by the time the env gives up. */
  predicate ExecutedReset(s: Env, resets: FanOut, i: nat)
    requires |resets.replies| == |s.links| && i < |s.links|
  {
    && i < resets.cut && s.links[i].alive
    && (resets.replies[i].Acked? || (resets.replies[i].Broke? && resets.replies[i].executed))
  }

  /** An env reset that fails, in either of its two rounds, leaves the env ahead of instance
      `i` at once exactly when that instance executed its reset and the env clock had moved,
      or was behind already. */
  lemma FailedResetAheadIff(tickUs: nat, s: Env, resets: FanOut, discards: FanOut, i: nat)
    requires Enabled(s, Reset(resets, discards)) && i < |s.links|
    requires !ResetSucceeds(s, resets, discards)
    ensures var t := Apply(tickUs, s, Reset(resets, discards));
            t.clock > t.links[i].clock <==>
            if ExecutedReset(s, resets, i) then s.clock > 0 else s.clock > s.links[i].clock
  {
  }

  /** The reset reached the worker of instance `i` and was not lost before the instance got
      it: it was executed, or is owed, or is in flight. */
  predicate ReachedInstance(s: Env, resets: FanOut, i: nat)
    requires |resets.replies| == |s.links| && i < |s.links|
  {
    i < resets.cut && s.links[i].alive && resets.replies[i] != Broke(false, false)
  }

  /** Neither a local nor an env reset. */
  ghost predicate NoReset(events: seq<Event>) {
    forall k :: 0 <= k < |events| ==> !events[k].LocalReset? && !events[k].Reset?
  }

  ghost predicate CanFallBehind(tickUs: nat, s: Env, i: nat) {
    exists events :: FallsBehind(tickUs, s, events, i)
  }

  ghost predicate FallsBehind(tickUs: nat, s: Env, events: seq<Event>, i: nat) {
    && ValidRun(tickUs, s, events) && NoReset(events) && i < |End(tickUs, s, events).links|
    && End(tickUs, s, events).clock > End(tickUs, s, events).links[i].clock
  }

  /** An instance that owes no reset stays level with an env whose clock stands still. */
  lemma {:induction false} StaysLevel(tickUs: nat, s: Env, events: seq<Event>, i: nat, j: nat)
    requires ValidRun(tickUs, s, events) && NoReset(events)
    requires i < |s.links| && j < |s.links| && !s.links[j].alive && AtLeast(s.links[i], s.clock)
    requires s.clock <= U64_MAX
    ensures !FallsBehind(tickUs, s, events, i)
    decreases |events|
  {
    if events != [] {
      var e := events[0];
      ApplyFrozen(tickUs, s, e, j);
      LevelStep(tickUs, s, e, i);
      StaysLevel(tickUs, Apply(tickUs, s, e), events[1..], i, j);
    }
  }

  lemma LevelStep(tickUs: nat, s: Env, e: Event, i: nat)
    requires Enabled(s, e) && !e.LocalReset? && !e.Reset?
    requires i < |s.links| && AtLeast(s.links[i], s.clock) && s.clock <= U64_MAX
    ensures var t := Apply(tickUs, s, e); i < |t.links| && AtLeast(t.links[i], s.clock)
  {
    if e.Settle? && e.link == i {
      assert s.links[i].owed[0] in s.links[i].owed;
    }
  }

  /** With the env clock at 0 for good nobody is behind. */
  lemma {:induction false} StuckAtZero(tickUs: nat, s: Env, events: seq<Event>, i: nat, j: nat)
    requires ValidRun(tickUs, s, events) && s.clock == 0 && j < |s.links| && !s.links[j].alive
    ensures !FallsBehind(tickUs, s, events, i)
  {
    DeadWorkerFreezesClock(tickUs, s, events, j);
  }

  /** Answering what an instance owes, up to and including a reset, puts it at 0. */
  lemma {:induction false} OwedResetRuns(tickUs: nat, s: Env, i: nat) returns (events: seq<Event>)
    requires i < |s.links| && s.links[i].alive && ResetRequest in s.links[i].owed
    ensures ValidRun(tickUs, s, events) && NoReset(events)
    ensures var t := End(tickUs, s, events); i < |t.links| && t.clock == s.clock && t.links[i].clock == 0
    decreases |s.links[i].owed|
  {
    var e := Settle(i, Acked);
    var t := Apply(tickUs, s, e);
    var rest: seq<Event> := [];
    if s.links[i].owed[0] != ResetRequest {
      rest := OwedResetRuns(tickUs, t, i);
    }
    events := [e] + rest;
    assert events[1..] == rest;
  }

  lemma OneEvent(tickUs: nat, s: Env, e: Event)
    requires Enabled(s, e)
    ensures ValidRun(tickUs, s, [e]) && End(tickUs, s, [e]) == Apply(tickUs, s, e)
  {
    hide Enabled, Apply;
    assert [e][1..] == [];
  }

  /** A reset that was executed, is owed or is in flight puts the instance at 0. */
  lemma ReachedResetRuns(tickUs: nat, t: Env, i: nat) returns (events: seq<Event>)
    requires i < |t.links|
    requires || t.links[i].clock == 0 || t.links[i].inflight == Some(ResetRequest)
             || (t.links[i].alive && ResetRequest in t.links[i].owed)
    ensures ValidRun(tickUs, t, events) && NoReset(events)
    ensures var u := End(tickUs, t, events); i < |u.links| && u.clock == t.clock && u.links[i].clock == 0
  {
    if t.links[i].clock == 0 {
      events := [];
    } else if t.links[i].inflight == Some(ResetRequest) {
      OneEvent(tickUs, t, Late(i));
      events := [Late(i)];
    } else {
      events := OwedResetRuns(tickUs, t, i);
    }
  }

  lemma AfterFailedReset(tickUs: nat, s: Env, resets: FanOut, discards: FanOut, i: nat)
    requires Enabled(s, Reset(resets, discards)) && i < |s.links|
    requires !ResetSucceeds(s, resets, discards)
    ensures var l := Apply(tickUs, s, Reset(resets, discards)).links[i];
            if ReachedInstance(s, resets, i)
            then l.clock == 0 || l.inflight == Some(ResetRequest) || (l.alive && ResetRequest in l.owed)
            else AtLeast(s.links[i], s.clock) ==> AtLeast(l, s.clock)
  {
    if ReachedInstance(s, resets, i) && resets.replies[i].Queued? {
      assert ResetRequest in s.links[i].owed + [ResetRequest];
    }
  }

  /** Over whole runs: from an instance that is not behind, after a failed env reset some
      continuation without further resets puts the env ahead of it exactly when the env
      clock had moved and the reset reached the instance. */
  lemma FailedResetOvertakesIff(tickUs: nat, s: Env, resets: FanOut, discards: FanOut, i: nat)
    requires Enabled(s, Reset(resets, discards)) && !ResetSucceeds(s, resets, discards)
    requires i < |s.links| && AtLeast(s.links[i], s.clock) && s.clock <= U64_MAX
    ensures CanFallBehind(tickUs, Apply(tickUs, s, Reset(resets, discards)), i)
            <==> s.clock > 0 && ReachedInstance(s, resets, i)
  {
    var t := Apply(tickUs, s, Reset(resets, discards));
    var j := FailedResetLeavesDead(tickUs, s, resets, discards);
    AfterFailedReset(tickUs, s, resets, discards, i);
    hide Apply, Enabled, ResetSucceeds;
    if s.clock > 0 && ReachedInstance(s, resets, i) {
      var events := ReachedResetRuns(tickUs, t, i);
      assert FallsBehind(tickUs, t, events, i);
    } else {
      forall events ensures !FallsBehind(tickUs, t, events, i) {
        if ValidRun(tickUs, t, events) && NoReset(events) {
          if s.clock == 0 {
            StuckAtZero(tickUs, t, events, i, j);
          } else {
            StaysLevel(tickUs, t, events, i, j);
          }
        }
      }
    }
  }

  lemma OneGoodTick(buses: map<string, Bus>, idle: Link, good: FanOut)
    requires forall b :: b in buses ==> buses[b].schedules == map[]
    requires idle == Link(true, 0, [], None) && good == FanOut(2, [Acked, Acked])
    ensures var s, e := Env(0, buses, [idle, idle], None, 0), Tick(TickIo(true, {}, good, true, Sampled), {});
            && Enabled(s, e)
            && Apply(20, s, e) == Env(1, MarkSent(buses, {}, 0), [idle.(clock := 1), idle.(clock := 1)], None, 0)
  {
    assert FanOutTo([idle, idle], StepRequest, good) == [idle.(clock := 1), idle.(clock := 1)];
  }

  lemma OneFailedReset(buses: map<string, Bus>, l: Link, bad: FanOut, discards: FanOut)
    requires l.alive && l.owed == [] && bad == FanOut(2, [Acked, Broke(false, false)])
    ensures var s, e := Env(1, buses, [l, l], None, 0), Reset(bad, discards);
            && Enabled(s, e)
            && Apply(20, s, e).clock == 1 && |Apply(20, s, e).links| == 2 && Apply(20, s, e).links[0].clock == 0
  {
    assert FailsFirst([l, l], bad, 1);
    assert bad.replies[1].Broke?;
    assert FanOutTo([l, l], ResetRequest, bad)[0] == l.(clock := 0);
  }

  lemma TwoEvents(tickUs: nat, s: Env, e0: Event, e1: Event)
    requires Enabled(s, e0) && Enabled(Apply(tickUs, s, e0), e1)
    ensures ValidRun(tickUs, s, [e0, e1])
    ensures End(tickUs, s, [e0, e1]) == Apply(tickUs, Apply(tickUs, s, e0), e1)
  {
    hide Enabled, Apply;
    var s1 := Apply(tickUs, s, e0);
    assert [e0, e1][1..] == [e1] && [e1][1..] == [];
    assert ValidRun(tickUs, s1, [e1]) && End(tickUs, s1, [e1]) == Apply(tickUs, s1, e1);
  }

  lemma OneFailedDiscard(buses: map<string, Bus>, l: Link, good: FanOut, bad: FanOut)
    requires l.alive && l.owed == [] && good == FanOut(2, [Acked, Acked]) && bad == FanOut(2, [Acked, Broke(false, false)])
    ensures var s, e := Env(1, buses, [l, l], None, 0), Reset(good, bad);
            && Enabled(s, e) && ResetReached(s, good)
            && Apply(20, s, e).clock == 1
            && forall i :: 0 <= i < |Apply(20, s, e).links| ==> Apply(20, s, e).links[i].clock == 0
  {
    var zero := l.(clock := 0);
    assert FanOutTo([l, l], ResetRequest, good) == [zero, zero];
    assert FailsFirst([zero, zero], bad, 1);
    assert bad.replies[1].Broke?;
    assert FanOutTo([zero, zero], OtherRequest, bad) == [zero, Link(false, 0, [], None)];
  }

  /** Such a run exists: one good tick, then a reset that the second instance never answers. */
  lemma FailedResetExample(buses: map<string, Bus>)
    requires forall b :: b in buses ==> buses[b].schedules == map[]
    ensures var idle := Link(true, 0, [], None);
            var s := Env(0, buses, [idle, idle], None, 0);
            var good := FanOut(2, [Acked, Acked]);
            var bad := FanOut(2, [Acked, Broke(false, false)]);
            var run := [Tick(TickIo(true, {}, good, true, Sampled), {}), Reset(bad, good)];
            && Bootstrapped(s) && ValidRun(20, s, run)
            && End(20, s, run).clock == 1 && |End(20, s, run).links| == 2 && End(20, s, run).links[0].clock == 0
  {
    var idle := Link(true, 0, [], None);
    var s := Env(0, buses, [idle, idle], None, 0);
    var good, bad := FanOut(2, [Acked, Acked]), FanOut(2, [Acked, Broke(false, false)]);
    assert Bootstrapped(s);
    OneGoodTick(buses, idle, good);
    OneFailedReset(MarkSent(buses, {}, 0), idle.(clock := 1), bad, good);
    TwoEvents(20, s, Tick(TickIo(true, {}, good, true, Sampled), {}), Reset(bad, good));
  }

  /** So does one in which every instance acknowledges its reset and only the discarding
      that follows fails: all instances are at 0, the env is not. */
  lemma FailedDiscardExample(buses: map<string, Bus>)
    requires forall b :: b in buses ==> buses[b].schedules == map[]
    ensures var idle := Link(true, 0, [], None);
            var s := Env(0, buses, [idle, idle], None, 0);
            var good, bad := FanOut(2, [Acked, Acked]), FanOut(2, [Acked, Broke(false, false)]);
            var run := [Tick(TickIo(true, {}, good, true, Sampled), {}), Reset(good, bad)];
            && Bootstrapped(s) && ValidRun(20, s, run) && End(20, s, run).clock == 1
            && forall i :: 0 <= i < |End(20, s, run).links| ==> End(20, s, run).links[i].clock == 0
  {
    var idle := Link(true, 0, [], None);
    var s := Env(0, buses, [idle, idle], None, 0);
    var good, bad := FanOut(2, [Acked, Acked]), FanOut(2, [Acked, Broke(false, false)]);
    assert Bootstrapped(s);
    OneGoodTick(buses, idle, good);
    OneFailedDiscard(MarkSent(buses, {}, 0), idle.(clock := 1), good, bad);
    TwoEvents(20, s, Tick(TickIo(true, {}, good, true, Sampled), {}), Reset(good, bad));
  }
}
