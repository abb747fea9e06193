/** The serial request/response link between the env daemon and one instance
    (runtime/src/envd/server/instance_worker.rs).

    The state machine interleaves callers, the worker task, an instance that may answer
    late, twice, out of order or with rubbish, and time-outs that may strike at any
    moment. The only thing asked of the instance is that it cannot name the random id of
    a request it has not received. */
module WorkerLink {
  import opened Common

  type Ticket = nat
  type Action = int
  type Answer = int

  datatype LinkError = WriteFailed | TimedOut | ConnectionClosed | InvalidResponse | MismatchedId | MissingPayload | Refused

  datatype Line = Reply(id: nat, success: bool, data: Option<Answer>) | Rubbish

  /** What one `read_line` under a time-out yields. */
  datatype Reading = Silence | EndOfStream | Got(line: Line)

  datatype Outcome = Answered(answer: Answer) | Failed(error: LinkError) | ChannelClosed

  /** The judgement `send_request` passes on what it read for the request with this id. */
  function Judge(id: nat, reading: Reading): Result<Answer, LinkError> {
    match reading
    case Silence => Err(TimedOut)
    case EndOfStream => Err(ConnectionClosed)
    case Got(Rubbish) => Err(InvalidResponse)
    case Got(Reply(replyId, success, data)) =>
      if replyId != id then Err(MismatchedId)
      else if !success then Err(Refused)
      else if data.None? then Err(MissingPayload)
      else Ok(data.value)
  }

  /** Only a successful reply to this request's own id, with a payload, is an answer; a
      stranger's reply is never looked into. */
  lemma JudgeIff(id: nat, reading: Reading, answer: Answer)
    ensures Judge(id, reading) == Ok(answer) <==> reading == Got(Reply(id, true, Some(answer)))
    ensures reading.Got? && reading.line.Reply? && reading.line.id != id ==> Judge(id, reading) == Err(MismatchedId)
    ensures reading == Got(Reply(id, false, None)) || reading == Got(Reply(id, false, Some(answer)))
            ==> Judge(id, reading) == Err(Refused)
    ensures reading == Got(Reply(id, true, None)) ==> Judge(id, reading) == Err(MissingPayload)
    ensures reading == Got(Rubbish) ==> Judge(id, reading) == Err(InvalidResponse)
    ensures reading == EndOfStream ==> Judge(id, reading) == Err(ConnectionClosed)
    ensures reading == Silence ==> Judge(id, reading) == Err(TimedOut)
  {
  }

  // ----- the worker task as a loop

  /** The worker's end of the connection: the readings still to come. */
  class Connection {
    var readings: seq<Reading>

    constructor (readings: seq<Reading>)
      ensures this.readings == readings
    {
      this.readings := readings;
    }

    method SendRequest(id: nat, written: bool) returns (r: Result<Answer, LinkError>)
      modifies this
      ensures !written ==> r == Err(WriteFailed) && readings == old(readings)
      ensures written && old(readings) == [] ==> r == Err(TimedOut) && readings == []
      ensures written && old(readings) != [] ==> r == Judge(id, old(readings)[0]) && readings == old(readings)[1..]
    {
      if !written {
        return Err(WriteFailed);
      }
      if readings == [] {
        return Err(TimedOut);
      }
      var reading := readings[0];
      readings := readings[1..];
      return Judge(id, reading);
    }

    /** Serves a queue of requests, the k-th under id k; `written[k]` says whether writing
        it succeeds. Some prefix is answered, each by its own reply; if anything is left,
        the next request has failed and every later caller finds the channel closed. */
    method RunWorker(queue: seq<Action>, written: seq<bool>) returns (outcomes: seq<Outcome>)
      requires |written| == |queue|
      modifies this
      ensures |outcomes| == |queue|
      ensures exists served: nat :: Served(queue, written, old(readings), outcomes, served)
    {
      outcomes := [];
      var k := 0;
      while k < |queue|
        invariant 0 <= k <= |queue| && |outcomes| == k
        invariant k <= |old(readings)| && readings == old(readings)[k..]
        invariant forall i :: 0 <= i < k ==> AnsweredAt(written, old(readings), i, outcomes[i])
      {
        var result := SendRequest(k, written[k]);
        if result.Err? {
          assert result == ResultAt(written, old(readings), k);
          ghost var served := k;
          outcomes := outcomes + [Failed(result.error)];
          while |outcomes| < |queue|
            invariant k < |outcomes| <= |queue|
            invariant forall i :: 0 <= i < k ==> AnsweredAt(written, old(readings), i, outcomes[i])
            invariant outcomes[k] == Failed(result.error)
            invariant forall i :: k < i < |outcomes| ==> outcomes[i] == ChannelClosed
          {
            outcomes := outcomes + [ChannelClosed];
          }
          assert Served(queue, written, old(readings), outcomes, served);
          return;
        }
        outcomes := outcomes + [Answered(result.value)];
        k := k + 1;
      }
      assert Served(queue, written, old(readings), outcomes, k);
    }
  }

  /** What request `i` comes to: its own write, then its own reading. */
  function ResultAt(written: seq<bool>, readings: seq<Reading>, i: nat): Result<Answer, LinkError>
    requires i < |written|
  {
    if !written[i] then Err(WriteFailed) else if i >= |readings| then Err(TimedOut) else Judge(i, readings[i])
  }

  predicate AnsweredAt(written: seq<bool>, readings: seq<Reading>, i: nat, outcome: Outcome)
    requires i < |written|
  {
    && written[i] && i < |readings| && outcome.Answered?
    && readings[i] == Got(Reply(i, true, Some(outcome.answer)))
  }

  /** The first `served` requests are answered, the next one fails for its own reason, and
      the rest find the channel closed. */
  predicate Served(queue: seq<Action>, written: seq<bool>, readings: seq<Reading>, outcomes: seq<Outcome>, served: nat)
    requires |outcomes| == |queue| == |written|
  {
    && served <= |queue|
    && (forall i :: 0 <= i < served ==> AnsweredAt(written, readings, i, outcomes[i]))
    && (served < |queue| ==>
          ResultAt(written, readings, served).Err?
          && outcomes[served] == Failed(ResultAt(written, readings, served).error))
    && (forall i :: served < i < |queue| ==> outcomes[i] == ChannelClosed)
  }

  lemma AnsweredIsOk(written: seq<bool>, readings: seq<Reading>, i: nat, outcome: Outcome)
    requires i < |written| && AnsweredAt(written, readings, i, outcome)
    ensures ResultAt(written, readings, i) == Ok(outcome.answer)
  {
  }

  /** So the outcomes are determined by what was written and read. */
  lemma ServedIsOne(queue: seq<Action>, written: seq<bool>, readings: seq<Reading>,
                    a: seq<Outcome>, m: nat, b: seq<Outcome>, n: nat)
    requires |a| == |b| == |queue| == |written|
    requires Served(queue, written, readings, a, m) && Served(queue, written, readings, b, n)
    ensures m == n && a == b
  {
    forall i | 0 <= i < m ensures ResultAt(written, readings, i) == Ok(a[i].answer) && a[i].Answered? {
      AnsweredIsOk(written, readings, i, a[i]);
    }
    forall i | 0 <= i < n ensures ResultAt(written, readings, i) == Ok(b[i].answer) && b[i].Answered? {
      AnsweredIsOk(written, readings, i, b[i]);
    }
    hide AnsweredAt, ResultAt;
  }

  // ----- the interleaved protocol

  datatype Phase = Waiting | Awaiting(id: nat) | Dead

  /** The capacity of the request channel. */
  const CAPACITY: nat := 64

  /** `tickets` callers have been accepted so far. `issued[id]` is the ticket served under
      request `id`; `emitted` is every line the instance ever wrote. */
  datatype State = State(
    tickets: nat,
    queue: seq<Ticket>,
    phase: Phase,
    issued: seq<Ticket>,
    wire: seq<Line>,
    emitted: set<Line>,
    outcomes: map<Ticket, Outcome>)

  datatype Step =
    | Submit
    | Take(written: bool)
    | Emit(line: Line)
    | Read
    | GiveUp(error: LinkError)

  const Start: State := State(0, [], Waiting, [], [], {}, map[])

  predicate Enabled(s: State, step: Step) {
    match step
    case Submit => !s.phase.Dead? && |s.queue| < CAPACITY
    case Take(_) => s.phase.Waiting? && s.queue != []
    case Emit(line) => line.Reply? ==> line.id < |s.issued|
    case Read => s.phase.Awaiting? && s.phase.id < |s.issued| && s.wire != []
    case GiveUp(error) => s.phase.Awaiting? && s.phase.id < |s.issued| && (error.TimedOut? || error.ConnectionClosed?)
  }

  /** The failing caller is told; the channel is dropped with everything still queued. */
  function Die(s: State, ticket: Ticket, error: LinkError): State {
    s.(phase := Dead, queue := [],
       outcomes := s.outcomes[ticket := Failed(error)] + map t | t in s.queue :: ChannelClosed)
  }

  function Next(s: State, step: Step): State
    requires Enabled(s, step)
  {
    match step
    case Submit => s.(tickets := s.tickets + 1, queue := s.queue + [s.tickets])
    case Take(written) =>
      var t := s.(queue := s.queue[1..], issued := s.issued + [s.queue[0]], phase := Awaiting(|s.issued|));
      if written then t else Die(t, s.queue[0], WriteFailed)
    case Emit(line) => s.(wire := s.wire + [line], emitted := s.emitted + {line})
    case Read =>
      var t := s.(wire := s.wire[1..]);
      var ticket := s.issued[s.phase.id];
      (match Judge(s.phase.id, Got(s.wire[0]))
       case Err(error) => Die(t, ticket, error)
       case Ok(answer) => t.(phase := Waiting, outcomes := s.outcomes[ticket := Answered(answer)]))
    case GiveUp(error) => Die(s, s.issued[s.phase.id], error)
  }

  predicate ValidRun(s: State, steps: seq<Step>)
    decreases |steps|
  {
    steps == [] || (Enabled(s, steps[0]) && ValidRun(Next(s, steps[0]), steps[1..]))
  }

  function End(s: State, steps: seq<Step>): State
    requires ValidRun(s, steps)
    decreases |steps|
  {
    if steps == [] then s else End(Next(s, steps[0]), steps[1..])
  }

  /** Tickets are issued in the order of acceptance, and only to their owners' requests. */
  predicate InOrder(s: State) {
    && |s.issued| + |s.queue| <= s.tickets
    && (!s.phase.Dead? ==> |s.issued| + |s.queue| == s.tickets)
    && (forall i :: 0 <= i < |s.issued| ==> s.issued[i] == i)
    && (forall i :: 0 <= i < |s.queue| ==> s.queue[i] == |s.issued| + i)
  }

  predicate OwnAnswer(s: State, t: Ticket)
    requires t in s.outcomes
  {
    s.outcomes[t].Answered? ==> t < |s.issued| && Reply(t, true, Some(s.outcomes[t].answer)) in s.emitted
  }

  /** How far the link has got: requests below this number are answered. */
  function Frontier(s: State): int {
    if s.phase.Waiting? then |s.issued| else |s.issued| - 1
  }

  predicate Inv(s: State) {
    && InOrder(s)
    && (s.phase.Awaiting? ==> s.phase.id == |s.issued| - 1)
    && (s.phase.Dead? ==> s.queue == [] && |s.issued| > 0)
    && |s.queue| <= CAPACITY
    && (forall i :: 0 <= i < |s.wire| ==> s.wire[i] in s.emitted)
    && (forall t :: t in s.outcomes ==> t < s.tickets && OwnAnswer(s, t))
    && (forall t :: 0 <= t < Frontier(s) ==> t in s.outcomes && s.outcomes[t].Answered?)
    && (s.phase.Dead? ==> forall t :: Frontier(s) <= t < s.tickets ==> t in s.outcomes && !s.outcomes[t].Answered?)
    && (!s.phase.Dead? ==> forall t :: t in s.outcomes ==> t < Frontier(s))
    && (forall t :: t in s.outcomes && s.outcomes[t].Failed? ==> s.phase.Dead? && t == Frontier(s))
  }

  /** Dying right after the last issued request keeps the invariant. */
  lemma DieKeepsInv(s: State, error: LinkError)
    requires Inv(s) && s.phase.Awaiting?
    ensures Inv(Die(s, s.issued[s.phase.id], error))
  {
    var t := Die(s, s.issued[s.phase.id], error);
    forall u | Frontier(t) <= u < t.tickets ensures u in t.outcomes && !t.outcomes[u].Answered? {
      assert u >= |s.issued| ==> s.queue[u - |s.issued|] == u;
    }
  }

  lemma TakeKeepsInv(s: State)
    requires Inv(s) && Enabled(s, Take(true))
    ensures Inv(Next(s, Take(true)))
  {
  }

  lemma ReadKeepsInv(s: State)
    requires Inv(s) && Enabled(s, Read)
    ensures Inv(Next(s, Read))
  {
    var rest := s.(wire := s.wire[1..]);
    assert Inv(rest);
    match Judge(s.phase.id, Got(s.wire[0]))
    case Err(error) => DieKeepsInv(rest, error);
    case Ok(answer) => assert s.wire[0] in s.emitted;
  }

  lemma NextKeepsInv(s: State, step: Step)
    requires Inv(s) && Enabled(s, step)
    ensures Inv(Next(s, step))
  {
    match step
    case Take(written) =>
      TakeKeepsInv(s);
      DieKeepsInv(Next(s, Take(true)), WriteFailed);
    case Read => ReadKeepsInv(s);
    case GiveUp(error) => DieKeepsInv(s, error);
    case _ =>
  }

  lemma {:induction false} RunKeepsInv(s: State, steps: seq<Step>)
    requires Inv(s) && ValidRun(s, steps)
    ensures Inv(End(s, steps))
    decreases |steps|
  {
    if steps != [] {
      NextKeepsInv(s, steps[0]);
      RunKeepsInv(Next(s, steps[0]), steps[1..]);
    }
  }

  /** Whatever the instance and the clock do, a caller that receives an answer receives one
      the instance wrote for that caller's own request, so a late or stray reply never
      reaches anybody else. */
  lemma AnswersAreOnesOwn(steps: seq<Step>, t: Ticket)
    requires ValidRun(Start, steps) && t in End(Start, steps).outcomes && End(Start, steps).outcomes[t].Answered?
    ensures var s := End(Start, steps);
            exists id: nat :: id < |s.issued| && s.issued[id] == t && Reply(id, true, Some(s.outcomes[t].answer)) in s.emitted
  {
    RunKeepsInv(Start, steps);
    var s := End(Start, steps);
    assert OwnAnswer(s, t) && s.issued[t] == t;
  }

  /** Requests are answered strictly in the order they were accepted. */
  lemma AnsweredInOrder(steps: seq<Step>, t: Ticket, u: Ticket)
    requires ValidRun(Start, steps) && t < u
    requires u in End(Start, steps).outcomes && End(Start, steps).outcomes[u].Answered?
    ensures t in End(Start, steps).outcomes && End(Start, steps).outcomes[t].Answered?
  {
    RunKeepsInv(Start, steps);
  }

  /** The rules the env machine assumes of a link: a request is answered or fails only when
      nothing before it is still owed, and a failure leaves every later request unserved. */
  lemma NothingOwedBefore(steps: seq<Step>, t: Ticket)
    requires ValidRun(Start, steps) && t in End(Start, steps).outcomes && !End(Start, steps).outcomes[t].ChannelClosed?
    ensures var s := End(Start, steps);
            && (forall u :: 0 <= u < t ==> u in s.outcomes && s.outcomes[u].Answered?)
            && (s.outcomes[t].Failed? ==>
                  s.phase.Dead? && s.queue == []
                  && forall u :: t < u < s.tickets ==> u in s.outcomes && s.outcomes[u] == ChannelClosed)
  {
    RunKeepsInv(Start, steps);
  }

  /** The step ends the link for this reason. */
  predicate Ends(s: State, step: Step, error: LinkError)
    requires Enabled(s, step)
  {
    match step
    case Take(written) => !written && error == WriteFailed
    case GiveUp(reason) => error == reason
    case Read => Judge(s.phase.id, Got(s.wire[0])) == Err(error)
    case _ => false
  }

  /** Whatever ends the link, the caller being served is told that reason, and every caller
      still queued that the channel is closed. */
  lemma FailureReasons(s: State, step: Step, error: LinkError)
    requires Inv(s) && Enabled(s, step)
    requires Ends(s, step, error)
    ensures var t, ticket := Next(s, step), if step.Take? then s.queue[0] else s.issued[s.phase.id];
            && t.phase.Dead? && t.queue == [] && ticket in t.outcomes && t.outcomes[ticket] == Failed(error)
            && forall u :: u in s.queue && u != ticket ==> u in t.outcomes && t.outcomes[u] == ChannelClosed
  {
  }

  // ----- an instance that answers is heard

  /** One request served by an instance that answers it. */
  function Served1(id: nat, answer: Answer): seq<Step> {
    [Take(true), Emit(Reply(id, true, Some(answer))), Read]
  }

  function ServeAll(id: nat, answers: seq<Answer>): seq<Step>
    decreases |answers|
  {
    if answers == [] then [] else Served1(id, answers[0]) + ServeAll(id + 1, answers[1..])
  }

  lemma StepThen(s: State, step: Step, rest: seq<Step>)
    requires Enabled(s, step) && ValidRun(Next(s, step), rest)
    ensures ValidRun(s, [step] + rest) && End(s, [step] + rest) == End(Next(s, step), rest)
  {
    assert ([step] + rest)[1..] == rest;
  }

  /** Taking the first request of the queue, its answer, and reading that. */
  lemma AnswerOne(s: State, answer: Answer, rest: seq<Step>) returns (t: State)
    requires s.phase.Waiting? && s.wire == [] && s.queue != []
    ensures t == s.(queue := s.queue[1..], issued := s.issued + [s.queue[0]],
                    emitted := s.emitted + {Reply(|s.issued|, true, Some(answer))},
                    outcomes := s.outcomes[s.queue[0] := Answered(answer)])
    ensures ValidRun(t, rest) ==>
              ValidRun(s, Served1(|s.issued|, answer) + rest) && End(s, Served1(|s.issued|, answer) + rest) == End(t, rest)
  {
    var line := Reply(|s.issued|, true, Some(answer));
    var s1 := Next(s, Take(true));
    var s2 := Next(s1, Emit(line));
    assert s2.wire == [line] && s2.wire[1..] == [];
    JudgeIff(|s.issued|, Got(line), answer);
    t := Next(s2, Read);
    assert s.wire == s2.wire[1..];
    if ValidRun(t, rest) {
      StepThen(s2, Read, rest);
      StepThen(s1, Emit(line), [Read] + rest);
      StepThen(s, Take(true), [Emit(line)] + ([Read] + rest));
      assert Served1(|s.issued|, answer) + rest == [Take(true)] + ([Emit(line)] + ([Read] + rest));
    }
  }

  /** With an instance that answers every request, the worker serves its whole queue: each
      caller gets the answer to its own request, and the link lives on. */
  lemma {:induction false} QueueIsServed(s: State, answers: seq<Answer>)
    requires Inv(s) && s.phase.Waiting? && s.wire == [] && |answers| == |s.queue|
    ensures ValidRun(s, ServeAll(|s.issued|, answers))
    ensures var t := End(s, ServeAll(|s.issued|, answers));
            && t.phase.Waiting? && t.queue == [] && t.tickets == s.tickets
            && (forall u :: u in s.outcomes && u !in s.queue ==> u in t.outcomes && t.outcomes[u] == s.outcomes[u])
            && forall k :: 0 <= k < |s.queue| ==> s.queue[k] in t.outcomes && t.outcomes[s.queue[k]] == Answered(answers[k])
    decreases |answers|
  {
    if answers != [] {
      var rest := ServeAll(|s.issued| + 1, answers[1..]);
      var t := AnswerOne(s, answers[0], rest);
      assert |t.issued| == |s.issued| + 1;
      AnswerKeepsInv(s, answers[0], t);
      QueueIsServed(t, answers[1..]);
      forall k | 0 <= k < |s.queue|
        ensures s.queue[k] in End(t, rest).outcomes && End(t, rest).outcomes[s.queue[k]] == Answered(answers[k])
      {
        assert s.queue[0] !in t.queue;
        assert k > 0 ==> s.queue[k] == t.queue[k - 1] && answers[k] == answers[1..][k - 1];
      }
    }
  }

  lemma AnswerKeepsInv(s: State, answer: Answer, t: State)
    requires Inv(s) && s.phase.Waiting? && s.wire == [] && s.queue != []
    requires t == s.(queue := s.queue[1..], issued := s.issued + [s.queue[0]],
                     emitted := s.emitted + {Reply(|s.issued|, true, Some(answer))},
                     outcomes := s.outcomes[s.queue[0] := Answered(answer)])
    ensures Inv(t) && s.queue[0] !in t.queue
  {
  }

  /** The channel holds up to 64 requests in every run, and a waiting link takes that many. */
  lemma HoldsSixtyFour(steps: seq<Step>)
    requires ValidRun(Start, steps)
    ensures |End(Start, steps).queue| <= 64
    ensures Enabled(End(Start, steps), Submit) <==> !End(Start, steps).phase.Dead? && |End(Start, steps).queue| < 64
  {
    RunKeepsInv(Start, steps);
  }

  /** The first failure is final: from then on the set of answered callers never grows,
      every caller is told, and nobody new is accepted. */
  lemma {:induction false} FailureIsFinal(s: State, steps: seq<Step>)
    requires Inv(s) && s.phase.Dead? && ValidRun(s, steps)
    ensures End(s, steps).phase.Dead? && End(s, steps).outcomes == s.outcomes && End(s, steps).tickets == s.tickets
    ensures forall t :: 0 <= t < s.tickets ==> t in s.outcomes
    decreases |steps|
  {
    if steps != [] {
      NextKeepsInv(s, steps[0]);
      FailureIsFinal(Next(s, steps[0]), steps[1..]);
    }
  }
}
