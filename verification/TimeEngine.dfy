/** The time engine (runtime/src/sim/time.rs). Its `f64` quantities are reals here, so the
    theorems are about the algorithm, not about rounding. Times are in microseconds. */
module TimeEngines {
  import opened Common

  datatype TimeState = Paused | Running

  datatype Engine = Engine(state: TimeState, speed: real, elapsedTicks: nat, remainderUs: real, last: Option<real>)

  datatype TimeError = AlreadyRunning | AlreadyPaused | InvalidSpeed | StepWhileRunning

  datatype StepResult = StepResult(requestedUs: nat, advancedTicks: nat, advancedUs: nat)

  const Initial: Engine := Engine(Paused, 1.0, 0, 0.0, None)

  /** `x.floor() as u64`: the cast saturates at both ends. */
  function FloorToU64(x: real): nat {
    if x < 0.0 then 0 else if x.Floor > U64_MAX then U64_MAX else x.Floor
  }

  /** `Instant::duration_since`, zero if the clock seems to run backwards. */
  function Since(now: real, last: real): real {
    if now < last then 0.0 else now - last
  }

  /** Scaled time that a poll at `now` adds. */
  function Gain(e: Engine, now: real): real {
    if e.state.Running? && e.last.Some? then Since(now, e.last.value) * e.speed else 0.0
  }

  function TicksDue(e: Engine, tickUs: nat, now: real): nat {
    if e.state.Paused? || e.last.None? || tickUs == 0 then 0
    else FloorToU64((e.remainderUs + Gain(e, now)) / tickUs as real)
  }

  function Polled(e: Engine, tickUs: nat, now: real): Engine {
    if e.state.Paused? then e
    else
      e.(last := Some(now), remainderUs := e.remainderUs + Gain(e, now) - TicksDue(e, tickUs, now) as real * tickUs as real)
  }

  /** What every reachable engine satisfies. A paused engine carries no remainder, so every
      start begins from zero. */
  predicate EngineInv(e: Engine) {
    && e.speed > 0.0 && e.remainderUs >= 0.0
    && (e.state.Paused? ==> e.remainderUs == 0.0 && e.last.None?)
    && (e.state.Running? ==> e.last.Some?)
  }

  /** A granted step: the most whole ticks that fit the requested duration. */
  predicate WholeTicks(step: StepResult, tickUs: nat, durationUs: nat) {
    && step.requestedUs == durationUs
    && (tickUs == 0 ==> step.advancedTicks == step.advancedUs == 0)
    && (tickUs > 0 ==> step.advancedUs == step.advancedTicks * tickUs <= durationUs < step.advancedUs + tickUs)
  }

  class TimeEngine {
    var state: TimeState
    var speed: real
    var elapsedTicks: nat
    var remainderUs: real
    var last: Option<real>

    function Value(): Engine
      reads this
    {
      Engine(state, speed, elapsedTicks, remainderUs, last)
    }

    constructor ()
      ensures Value() == Initial
    {
      state, speed, elapsedTicks, remainderUs, last := Paused, 1.0, 0, 0.0, None;
    }

    method Reset()
      modifies this
      ensures Value() == Initial
    {
      state, speed, elapsedTicks, remainderUs, last := Paused, 1.0, 0, 0.0, None;
    }

    method Start(now: real) returns (r: Result<(), TimeError>)
      requires EngineInv(Value())
      modifies this
      ensures EngineInv(Value())
      ensures r.Err? <==> old(state).Running?
      ensures Value() == if r.Err? then old(Value()) else old(Value()).(state := Running, last := Some(now))
    {
      if state.Running? {
        return Err(AlreadyRunning);
      }
      state := Running;
      last := Some(now);
      r := Ok(());
    }

    method Pause() returns (r: Result<(), TimeError>)
      requires EngineInv(Value())
      modifies this
      ensures EngineInv(Value())
      ensures r.Err? <==> old(state).Paused?
      ensures Value() == if r.Err? then old(Value()) else old(Value()).(state := Paused, last := None, remainderUs := 0.0)
    {
      if state.Paused? {
        return Err(AlreadyPaused);
      }
      state := Paused;
      last := None;
      remainderUs := 0.0;
      r := Ok(());
    }

    method SetSpeed(speed: real) returns (r: Result<(), TimeError>)
      requires EngineInv(Value())
      modifies this`speed
      ensures EngineInv(Value())
      ensures r.Ok? <==> speed > 0.0
      ensures this.speed == if r.Ok? then speed else old(this.speed)
    {
      if speed <= 0.0 {
        return Err(InvalidSpeed);
      }
      this.speed := speed;
      r := Ok(());
    }

    /** Whole ticks of a requested duration: the part executed and the part cut off are
        accounted for exactly, and nothing is granted while the engine runs. */
    method StepTicks(tickUs: nat, durationUs: nat) returns (r: Result<StepResult, TimeError>)
      requires durationUs <= U64_MAX
      ensures r.Err? <==> state.Running?
      ensures r.Ok? ==> WholeTicks(r.value, tickUs, durationUs)
    {
      if state.Running? {
        return Err(StepWhileRunning);
      }
      var ticks := if tickUs == 0 then 0 else durationUs / tickUs;
      assert tickUs > 0 ==> durationUs == ticks * tickUs + durationUs % tickUs;
      r := Ok(StepResult(durationUs, ticks, Min(ticks * tickUs, U64_MAX)));
    }

    method TickRealtimeDue(tickUs: nat, now: real) returns (ticks: nat)
      modifies this`last, this`remainderUs
      ensures Value() == Polled(old(Value()), tickUs, now)
      ensures ticks == TicksDue(old(Value()), tickUs, now)
      ensures old(state).Paused? ==> ticks == 0 && Value() == old(Value())
      ensures state.Running? ==> last == Some(now)
    {
      if state.Paused? {
        return 0;
      }
      if last.None? {
        last := Some(now);
        return 0;
      }
      var delta := Since(now, last.value) * speed;
      last := Some(now);
      remainderUs := remainderUs + delta;
      if tickUs == 0 {
        return 0;
      }
      ticks := FloorToU64(remainderUs / tickUs as real);
      if ticks == 0 {
        return 0;
      }
      remainderUs := remainderUs - ticks as real * tickUs as real;
    }

    method AdvanceTicks(ticks: nat)
      modifies this`elapsedTicks
      ensures elapsedTicks == SatAdd(old(elapsedTicks), ticks)
    {
      elapsedTicks := SatAdd(elapsedTicks, ticks);
    }
  }

  // ----- polling, however divided

  lemma Sign(a: real, t: real)
    requires t > 0.0
    ensures a * t >= 0.0 <==> a >= 0.0
  {
  }

  lemma Bracket(x: real, q: real, f: real, t: real)
    requires t > 0.0 && q * t == x
    ensures f * t <= x < f * t + t <==> f <= q < f + 1.0
  {
    var over, under := q - f - 1.0, q - f;
    Sign(over, t);
    Sign(under, t);
    assert over * t == x - f * t - t;
    assert under * t == x - f * t;
  }

  lemma IsFloor(q: real, k: int)
    ensures k as real <= q < k as real + 1.0 <==> q.Floor == k
  {
  }

  /** The floor of x / t is the only whole number k with k * t <= x < k * t + t. */
  lemma FloorBounds(x: real, t: real, k: int)
    requires t > 0.0
    ensures k as real * t <= x < k as real * t + t <==> (x / t).Floor == k
  {
    IsFloor(x / t, k);
    Bracket(x, x / t, k as real, t);
  }

  /** What a poll does to x microseconds of pending time and ticks of t microseconds. */
  lemma PollSplits(x: real, t: real)
    requires x >= 0.0 && t > 0.0
    ensures x - FloorToU64(x / t) as real * t >= 0.0
    ensures x - FloorToU64(x / t) as real * t < t <==> (x / t).Floor <= U64_MAX
  {
    var q := x / t;
    Sign(q, t);
    IsFloor(q, q.Floor);
    var given := FloorToU64(q) as real;
    assert given <= q;
    Sign(q - given, t);
    assert (q - given) * t == x - given * t;
    var missing := q - given - 1.0;
    Sign(missing, t);
    assert missing * t == x - given * t - t;
  }

  /** A poll leaves a non-negative remainder, and one below a whole tick exactly when the
      number of ticks it found fits a u64. */
  lemma PollRemainder(e: Engine, tickUs: nat, now: real)
    requires EngineInv(e) && e.state.Running? && tickUs > 0
    ensures EngineInv(Polled(e, tickUs, now))
    ensures Polled(e, tickUs, now).remainderUs < tickUs as real
            <==> ((e.remainderUs + Gain(e, now)) / tickUs as real).Floor <= U64_MAX
  {
    MulNonNegative(Since(now, e.last.value), e.speed);
    PollSplits(e.remainderUs + Gain(e, now), tickUs as real);
  }

  lemma MulNonNegative(a: real, b: real)
    requires a >= 0.0 && b >= 0.0
    ensures a * b >= 0.0
  {
  }

  datatype PollEvent = Poll(now: real) | SetSpeed(speed: real)

  function AfterPollEvent(e: Engine, tickUs: nat, ev: PollEvent): Engine {
    match ev
    case Poll(now) => Polled(e, tickUs, now)
    case SetSpeed(speed) => if speed > 0.0 then e.(speed := speed) else e
  }

  function AfterPolls(e: Engine, tickUs: nat, events: seq<PollEvent>): Engine
    decreases |events|
  {
    if events == [] then e else AfterPolls(AfterPollEvent(e, tickUs, events[0]), tickUs, events[1..])
  }

  /** Ticks handed out over a run of polls. */
  function HandedOut(e: Engine, tickUs: nat, events: seq<PollEvent>): nat
    decreases |events|
  {
    if events == [] then 0
    else
      (if events[0].Poll? then TicksDue(e, tickUs, events[0].now) else 0)
      + HandedOut(AfterPollEvent(e, tickUs, events[0]), tickUs, events[1..])
  }

  /** A stretch of wall-clock time, times the speed. A clock that seems to run backwards adds
      nothing. */
  function Stretch(speed: real, from: real, to: real): real {
    if from <= to then speed * (to - from) else 0.0
  }

  /** Scaled time over a run of polls, from the events alone: each stretch between one poll
      and the next, times the speed last set when it ends. */
  function ScaledTime(last: real, speed: real, events: seq<PollEvent>): real
    decreases |events|
  {
    if events == [] then 0.0
    else
      match events[0]
      case Poll(now) => Stretch(speed, last, now) + ScaledTime(now, speed, events[1..])
      case SetSpeed(v) => ScaledTime(last, if v > 0.0 then v else speed, events[1..])
  }

  /** No single poll finds 2^64 ticks or more. */
  predicate Countable(e: Engine, tickUs: nat, events: seq<PollEvent>)
    requires tickUs > 0
    decreases |events|
  {
    events == [] ||
    ((events[0].Poll? ==> ((e.remainderUs + Gain(e, events[0].now)) / tickUs as real).Floor <= U64_MAX)
     && Countable(AfterPollEvent(e, tickUs, events[0]), tickUs, events[1..]))
  }

  /** What was there plus what passed is what was handed out plus what remains. */
  predicate Balanced(before: real, passed: real, handedOut: nat, after: real, t: real) {
    before + passed == handedOut as real * t + after
  }

  lemma BalancedTwice(before: real, gain: real, due: nat, middle: real, passed: real, later: nat, after: real, t: real)
    requires Balanced(before, gain, due, middle, t) && Balanced(middle, passed, later, after, t)
    ensures Balanced(before, gain + passed, due + later, after, t)
  {
    assert (due + later) as real == due as real + later as real;
    assert (due as real + later as real) * t == due as real * t + later as real * t;
  }

  lemma PollGains(e: Engine, tickUs: nat, now: real)
    requires e.state.Running? && e.last.Some?
    ensures Polled(e, tickUs, now).last == Some(now) && Polled(e, tickUs, now).speed == e.speed
    ensures Gain(e, now) == Stretch(e.speed, e.last.value, now)
  {
    if now < e.last.value {
      assert 0.0 * e.speed == 0.0;
    }
  }

  lemma PollBalances(e: Engine, tickUs: nat, now: real)
    requires EngineInv(e) && e.state.Running? && tickUs > 0
    ensures Balanced(e.remainderUs, Stretch(e.speed, e.last.value, now), TicksDue(e, tickUs, now),
                     Polled(e, tickUs, now).remainderUs, tickUs as real)
    ensures EngineInv(Polled(e, tickUs, now)) && Polled(e, tickUs, now).state.Running?
    ensures Polled(e, tickUs, now).last == Some(now) && Polled(e, tickUs, now).speed == e.speed
  {
    PollGains(e, tickUs, now);
    PollRemainder(e, tickUs, now);
    hide Stretch, Gain, TicksDue;
  }

  /** No time is lost or invented. */
  lemma {:induction false} TimeIsConserved(e: Engine, tickUs: nat, events: seq<PollEvent>)
    requires EngineInv(e) && e.state.Running? && tickUs > 0
    ensures EngineInv(AfterPolls(e, tickUs, events)) && AfterPolls(e, tickUs, events).state.Running?
    ensures Balanced(e.remainderUs, ScaledTime(e.last.value, e.speed, events), HandedOut(e, tickUs, events),
                     AfterPolls(e, tickUs, events).remainderUs, tickUs as real)
    ensures Countable(e, tickUs, events) && e.remainderUs < tickUs as real
            ==> AfterPolls(e, tickUs, events).remainderUs < tickUs as real
    decreases |events|
  {
    if events != [] {
      var next := AfterPollEvent(e, tickUs, events[0]);
      hide Balanced, Stretch, FloorToU64;
      match events[0]
      case SetSpeed(_) =>
        TimeIsConserved(next, tickUs, events[1..]);
      case Poll(now) =>
        PollBalances(e, tickUs, now);
        PollRemainder(e, tickUs, now);
        hide TicksDue, Gain, Polled, EngineInv;
        TimeIsConserved(next, tickUs, events[1..]);
        BalancedTwice(e.remainderUs, Stretch(e.speed, e.last.value, now), TicksDue(e, tickUs, now), next.remainderUs,
                      ScaledTime(now, e.speed, events[1..]), HandedOut(next, tickUs, events[1..]),
                      AfterPolls(next, tickUs, events[1..]).remainderUs, tickUs as real);
    }
  }

  lemma FloorOfBalance(passed: real, handedOut: nat, after: real, t: real)
    requires 0.0 <= after < t && Balanced(0.0, passed, handedOut, after, t)
    ensures handedOut == (passed / t).Floor
  {
    FloorBounds(passed, t, handedOut);
  }

  /** From a start on, the ticks handed out are the whole ticks in the scaled time that
      passed, however the polls divide it and however often the speed changes. */
  lemma TicksAreTheFloor(e: Engine, tickUs: nat, events: seq<PollEvent>)
    requires EngineInv(e) && e.state.Running? && e.remainderUs == 0.0 && tickUs > 0
    requires Countable(e, tickUs, events)
    ensures HandedOut(e, tickUs, events) == (ScaledTime(e.last.value, e.speed, events) / tickUs as real).Floor
    ensures 0.0 <= AfterPolls(e, tickUs, events).remainderUs < tickUs as real
  {
    hide Balanced, HandedOut, ScaledTime, AfterPolls, Countable;
    TimeIsConserved(e, tickUs, events);
    FloorOfBalance(ScaledTime(e.last.value, e.speed, events), HandedOut(e, tickUs, events),
                   AfterPolls(e, tickUs, events).remainderUs, tickUs as real);
  }

  // ----- one speed

  function PollsAt(instants: seq<real>): seq<PollEvent> {
    seq(|instants|, i requires 0 <= i < |instants| => Poll(instants[i]))
  }

  /** Instants that never go back, from `start` on. */
  predicate Forward(start: real, instants: seq<real>)
    decreases |instants|
  {
    instants == [] || (start <= instants[0] && Forward(instants[0], instants[1..]))
  }

  function LastOf(start: real, instants: seq<real>): real {
    if instants == [] then start else instants[|instants| - 1]
  }

  lemma PollsUnfold(instants: seq<real>)
    requires instants != []
    ensures PollsAt(instants) == [Poll(instants[0])] + PollsAt(instants[1..])
    ensures PollsAt(instants)[0] == Poll(instants[0]) && PollsAt(instants)[1..] == PollsAt(instants[1..])
  {
  }

  lemma {:induction false} LastIsLatest(start: real, instants: seq<real>)
    requires Forward(start, instants)
    ensures start <= LastOf(start, instants)
    decreases |instants|
  {
    if instants != [] {
      LastIsLatest(instants[0], instants[1..]);
    }
  }

  /** The stretches between the polls add up. */
  lemma {:induction false} StretchesAddUp(start: real, speed: real, instants: seq<real>)
    requires Forward(start, instants)
    ensures ScaledTime(start, speed, PollsAt(instants)) == Stretch(speed, start, LastOf(start, instants))
    decreases |instants|
  {
    LastIsLatest(start, instants);
    if instants != [] {
      PollsUnfold(instants);
      LastIsLatest(instants[0], instants[1..]);
      Adjacent(speed, start, instants[0], LastOf(start, instants));
      hide Stretch;
      StretchesAddUp(instants[0], speed, instants[1..]);
    }
  }

  lemma Adjacent(speed: real, a: real, b: real, c: real)
    requires a <= b <= c
    ensures Stretch(speed, a, b) + Stretch(speed, b, c) == Stretch(speed, a, c)
    ensures speed > 0.0 ==> Stretch(speed, a, b) >= 0.0
  {
  }

  /** x microseconds are fewer than 2^64 ticks. */
  predicate Few(x: real, tickUs: nat) {
    x < (U64_MAX as real + 1.0) * tickUs as real
  }

  lemma FewFloor(x: real, tickUs: nat)
    requires tickUs > 0 && Few(x, tickUs)
    ensures (x / tickUs as real).Floor <= U64_MAX
  {
    var t := tickUs as real;
    var q := U64_MAX as real + 1.0 - x / t;
    Sign(q, t);
    assert q * t == (U64_MAX as real + 1.0) * t - x;
  }

  lemma FewerLeft(before: real, gain: real, due: nat, after: real, later: real, tickUs: nat)
    requires Balanced(before, gain, due, after, tickUs as real) && later >= 0.0 && Few(before + (gain + later), tickUs)
    ensures Few(after + later, tickUs) && Few(before + gain, tickUs)
  {
    MulNonNegative(due as real, tickUs as real);
  }

  /** When a whole run has fewer than 2^64 ticks, so has each poll. */
  lemma {:induction false} FewTicks(e: Engine, tickUs: nat, start: real, instants: seq<real>)
    requires EngineInv(e) && e.state.Running? && e.last == Some(start) && tickUs > 0 && Forward(start, instants)
    requires Few(e.remainderUs + Stretch(e.speed, start, LastOf(start, instants)), tickUs)
    ensures Countable(e, tickUs, PollsAt(instants))
    decreases |instants|
  {
    if instants != [] {
      var now, end := instants[0], LastOf(start, instants);
      var next := Polled(e, tickUs, now);
      assert e.speed > 0.0;
      PollsUnfold(instants);
      PollBalances(e, tickUs, now);
      PollGains(e, tickUs, now);
      LastIsLatest(now, instants[1..]);
      Adjacent(e.speed, start, now, end);
      Adjacent(e.speed, now, end, end);
      hide Stretch, Few, Balanced, Polled, TicksDue, Gain, EngineInv, PollsAt;
      FewerLeft(e.remainderUs, Stretch(e.speed, start, now), TicksDue(e, tickUs, now), next.remainderUs,
                Stretch(e.speed, now, end), tickUs);
      FewFloor(e.remainderUs + Stretch(e.speed, start, now), tickUs);
      FewTicks(next, tickUs, now, instants[1..]);
    }
  }

  /** At one speed v, polls at instants t0 <= t1 <= ... <= tn hand out exactly the whole
      ticks in v * (tn - t0), however many polls there are and wherever they fall. */
  lemma ConstantSpeedTicks(e: Engine, tickUs: nat, start: real, instants: seq<real>)
    requires EngineInv(e) && e.state.Running? && e.remainderUs == 0.0 && e.last == Some(start) && tickUs > 0
    requires Forward(start, instants)
    requires e.speed * (LastOf(start, instants) - start) < (U64_MAX as real + 1.0) * tickUs as real
    ensures HandedOut(e, tickUs, PollsAt(instants)) == (e.speed * (LastOf(start, instants) - start) / tickUs as real).Floor
  {
    LastIsLatest(start, instants);
    assert Stretch(e.speed, start, LastOf(start, instants)) == e.speed * (LastOf(start, instants) - start);
    assert Few(e.remainderUs + Stretch(e.speed, start, LastOf(start, instants)), tickUs);
    StretchesAddUp(start, e.speed, instants);
    hide *;
    FewTicks(e, tickUs, start, instants);
    TicksAreTheFloor(e, tickUs, PollsAt(instants));
  }

  /** Half a tick of wall-clock time at double speed is one tick. */
  lemma DoubleSpeedExample(e: Engine)
    requires e == Engine(Running, 2.0, 0, 0.0, Some(0.0))
    ensures TicksDue(e, 20000, 10000.0) == 1
  {
    assert Gain(e, 10000.0) == 20000.0;
    FloorBounds(20000.0, 20000.0, 1);
  }
}
