/** The shared-snapshot seqlock (runtime/src/shared/mod.rs) as an interleaving of one
    writer and any number of readers. Every load or store of the generation, of the
    initialized flag and of each word of the slot area is one step, so a reader may see a
    slot that is half old and half new.

    `pubs`, `completed`, `log` and the counters inside readers are history: they record
    what happened and never influence a step. */
module Seqlock {
  import opened Common
  import opened Slots

  /** MAX_SNAPSHOT_SPINS. */
  const SPINS: nat := 32

  /** Values of the u64 generation, and publishes after which it repeats. */
  const MODULUS: nat := 0x1_0000_0000_0000_0000
  const WRAP: nat := 0x8000_0000_0000_0000

  type ReaderId = nat

  datatype Writer =
    | Idle
    | Loaded(slots: seq<Slot>, generation: nat)
    | Storing(slots: seq<Slot>, generation: nat, next: nat)
    | Closing(slots: seq<Slot>, generation: nat)

  /** `since` publishes were complete when the call began; `tried` times the call has sampled
      the generation; `begun` publishes had begun when `before` was sampled. */
  datatype Reader =
    | Resting
    | Sampling(since: nat, spin: nat, tried: nat)
    | Checking(since: nat, spin: nat, tried: nat, before: nat, begun: nat)
    | Copying(since: nat, spin: nat, tried: nat, before: nat, begun: nat, done: seq<Slot>, part: seq<int>)

  datatype Outcome = Snapshot(slots: seq<Slot>) | Busy | Uninitialized | Invalid

  /** A finished read: `at` publishes were complete and `started` had begun on return, after
      `attempts` samples of the generation. */
  datatype Event = Event(reader: ReaderId, since: nat, outcome: Outcome, at: nat, started: nat, attempts: nat)

  datatype State = State(
    slotCount: nat,
    generation: nat,
    initialized: bool,
    words: seq<int>,
    writer: Writer,
    readers: map<ReaderId, Reader>,
    completed: nat,
    pubs: seq<seq<Slot>>,
    log: seq<Event>)

  datatype Step =
    | WLoad(slots: seq<Slot>)
    | WOdd
    | WStore
    | WFlag
    | WEven
    | RBegin(r: ReaderId)
    | RSample(r: ReaderId)
    | RCheck(r: ReaderId)
    | RLoad(r: ReaderId)
    | RVerify(r: ReaderId)

  function At(s: State, r: ReaderId): Reader {
    if r in s.readers then s.readers[r] else Resting
  }

  /** The region right after a writer opened it: everything zero, nothing published. */
  function Opened(slotCount: nat): State {
    State(slotCount, 0, false, seq(4 * slotCount, _ => 0), Idle, map[], 0, [], [])
  }

  /** The checks `publish` makes before it touches the region. */
  predicate Publishable(s: State, slots: seq<Slot>) {
    |slots| == s.slotCount && Dense(slots)
  }

  predicate Enabled(s: State, step: Step) {
    match step
    case WLoad(slots) => s.writer.Idle? && Publishable(s, slots)
    case WOdd => s.writer.Loaded?
    case WStore => s.writer.Storing? && s.writer.next < |s.words| && s.writer.next < |Encode(s.writer.slots)|
    case WFlag => s.writer.Storing? && s.writer.next == |s.words|
    case WEven => s.writer.Closing?
    case RBegin(r) => At(s, r).Resting?
    case RSample(r) => At(s, r).Sampling?
    case RCheck(r) => At(s, r).Checking?
    case RLoad(r) =>
      var c := At(s, r);
      c.Copying? && |c.done| < s.slotCount && |c.part| < 4 && 4 * |c.done| + |c.part| < |s.words|
    case RVerify(r) => At(s, r).Copying? && |At(s, r).done| == s.slotCount
  }

  function SetReader(s: State, r: ReaderId, c: Reader): State {
    s.(readers := s.readers[r := c])
  }

  function Finish(s: State, r: ReaderId, since: nat, tried: nat, outcome: Outcome): State {
    SetReader(s, r, Resting).(log := s.log + [Event(r, since, outcome, s.completed, |s.pubs|, tried)])
  }

  function Retry(s: State, r: ReaderId, since: nat, spin: nat, tried: nat): State {
    if spin + 1 == SPINS then Finish(s, r, since, tried, Busy)
    else SetReader(s, r, Sampling(since, spin + 1, tried))
  }

  function LoadWord(s: State, r: ReaderId): State
    requires Enabled(s, RLoad(r))
  {
    var c := At(s, r);
    var part := c.part + [s.words[4 * |c.done| + |c.part|]];
    if |part| < 4 then SetReader(s, r, c.(part := part))
    else
      match FromRaw(part, |c.done|)
      case Err(_) => Finish(s, r, c.since, c.tried, Invalid)
      case Ok(slot) => SetReader(s, r, c.(done := c.done + [slot], part := []))
  }

  function Next(s: State, step: Step): State
    requires Enabled(s, step)
  {
    match step
    case WLoad(slots) => s.(writer := Loaded(slots, s.generation))
    case WOdd =>
      s.(generation := (s.writer.generation + 1) % MODULUS,
         writer := Storing(s.writer.slots, s.writer.generation, 0),
         pubs := s.pubs + [s.writer.slots])
    case WStore =>
      s.(words := s.words[s.writer.next := Encode(s.writer.slots)[s.writer.next]],
         writer := s.writer.(next := s.writer.next + 1))
    case WFlag => s.(initialized := true, writer := Closing(s.writer.slots, s.writer.generation))
    case WEven =>
      s.(generation := (s.writer.generation + 2) % MODULUS, writer := Idle, completed := s.completed + 1)
    case RBegin(r) => SetReader(s, r, Sampling(s.completed, 0, 0))
    case RSample(r) =>
      var c := At(s, r);
      if s.generation % 2 != 0 then Retry(s, r, c.since, c.spin, c.tried + 1)
      else SetReader(s, r, Checking(c.since, c.spin, c.tried + 1, s.generation, |s.pubs|))
    case RCheck(r) =>
      var c := At(s, r);
      if !s.initialized then Finish(s, r, c.since, c.tried, Uninitialized)
      else SetReader(s, r, Copying(c.since, c.spin, c.tried, c.before, c.begun, [], []))
    case RLoad(r) => LoadWord(s, r)
    case RVerify(r) =>
      var c := At(s, r);
      if c.before == s.generation && s.generation % 2 == 0 then Finish(s, r, c.since, c.tried, Snapshot(c.done))
      else Retry(s, r, c.since, c.spin, c.tried)
  }

  /** No read attempt is overtaken by 2^63 publishes. */
  ghost predicate Paced(s: State) {
    forall r | r in s.readers ::
      (s.readers[r].Checking? || s.readers[r].Copying?) ==> |s.pubs| - s.readers[r].begun < WRAP
  }

  ghost predicate ValidRun(s: State, steps: seq<Step>)
    decreases |steps|
  {
    steps == [] || (Paced(s) && Enabled(s, steps[0]) && ValidRun(Next(s, steps[0]), steps[1..]))
  }

  ghost function End(s: State, steps: seq<Step>): State
    requires ValidRun(s, steps)
    decreases |steps|
  {
    if steps == [] then s else End(Next(s, steps[0]), steps[1..])
  }

  // ----- the invariant

  predicate Settled(s: State) {
    && s.initialized == (s.completed > 0)
    && |s.pubs| == s.completed
    && s.generation == 2 * s.completed % MODULUS
    && (s.completed > 0 ==> s.words == Encode(s.pubs[s.completed - 1]))
  }

  predicate Publishing(s: State, slots: seq<Slot>, generation: nat) {
    && |s.pubs| == s.completed + 1
    && s.pubs[s.completed] == slots
    && generation == 2 * s.completed % MODULUS
    && s.generation == (generation + 1) % MODULUS
  }

  predicate WriterInv(s: State) {
    && |s.words| == 4 * s.slotCount
    && (forall i :: 0 <= i < |s.pubs| ==> Publishable(s, s.pubs[i]))
    && match s.writer
       case Idle => Settled(s)
       case Loaded(slots, g) => Settled(s) && Publishable(s, slots) && g == s.generation
       case Storing(slots, g, next) =>
         && Publishing(s, slots, g) && s.initialized == (s.completed > 0)
         && next <= |s.words| && s.words[..next] == Encode(slots)[..next]
       case Closing(slots, g) => Publishing(s, slots, g) && s.initialized && s.words == Encode(slots)
  }

  /** What a reader holds so far is a piece of one publish, if no publish has begun since
      its sample. */
  predicate Faithful(s: State, begun: nat, done: seq<Slot>, part: seq<int>)
    requires begun <= |s.pubs|
  {
    begun == |s.pubs| ==>
      && begun > 0
      && var slots := s.pubs[begun - 1];
         && |done| <= |slots| && done == slots[..|done|]
         && |part| <= 4 && (if |done| < |slots| then part == ToRaw(slots[|done|])[..|part|] else part == [])
  }

  predicate Sampled(s: State, since: nat, before: nat, begun: nat) {
    since <= begun <= s.completed <= |s.pubs| && before == 2 * begun % MODULUS
  }

  predicate ReaderInv(s: State, c: Reader) {
    match c
    case Resting => true
    case Sampling(since, spin, tried) =>
      since <= s.completed && tried == spin < SPINS && (spin > 0 ==> since < |s.pubs|)
    case Checking(since, spin, tried, before, begun) =>
      tried == spin + 1 <= SPINS && Sampled(s, since, before, begun)
    case Copying(since, spin, tried, before, begun, done, part) =>
      && tried == spin + 1 <= SPINS && Sampled(s, since, before, begun)
      && |done| <= s.slotCount && |part| < 4 && (|done| == s.slotCount ==> part == [])
      && Faithful(s, begun, done, part)
  }

  /** `e` returned exactly publish number `k`. */
  predicate Returned(e: Event, pubs: seq<seq<Slot>>, k: nat) {
    && e.outcome.Snapshot? && 1 <= k <= |pubs|
    && e.since <= k <= e.at && e.outcome.slots == pubs[k - 1]
  }

  ghost predicate Credible(e: Event, s: State) {
    && e.since <= e.at <= s.completed && e.started <= |s.pubs|
    && (e.outcome.Snapshot? ==> exists k: nat :: Returned(e, s.pubs, k))
    && (e.outcome.Uninitialized? ==> e.since == 0)
    && (e.outcome.Busy? || e.outcome.Invalid? ==> e.since < e.started)
    && 1 <= e.attempts <= SPINS && (e.outcome.Busy? ==> e.attempts == SPINS)
  }

  ghost predicate LogInv(s: State) {
    && (forall i :: 0 <= i < |s.log| ==> Credible(s.log[i], s))
    && (forall i, j :: 0 <= i < j < |s.log| && s.log[i].reader == s.log[j].reader ==> s.log[i].at <= s.log[j].since)
    && (forall i :: 0 <= i < |s.log| && !At(s, s.log[i].reader).Resting? ==> s.log[i].at <= At(s, s.log[i].reader).since)
  }

  predicate RegionInv(s: State) {
    && WriterInv(s)
    && s.completed <= |s.pubs|
    && (forall r | r in s.readers :: ReaderInv(s, s.readers[r]))
  }

  ghost predicate Inv(s: State) {
    RegionInv(s) && LogInv(s)
  }

  // ----- generations

  /** Even generations mean no publish is in progress, odd ones that one is. */
  lemma GenerationParity(s: State)
    requires WriterInv(s)
    ensures s.generation % 2 == 0 <==> (s.writer.Idle? || s.writer.Loaded?)
    ensures s.generation % 2 == 0 ==> |s.pubs| == s.completed && Settled(s)
  {
  }

  lemma SameGeneration(a: nat, b: nat)
    requires a <= b
    ensures 2 * a % MODULUS == 2 * b % MODULUS <==> (b - a) % WRAP == 0
  {
  }

  /** Exactly when the second generation check of `read_snapshot` passes: no publish is in
      progress and the number begun since the sample is a multiple of 2^63. The bound in
      `Paced` is therefore the weakest one under which a passing check means "undisturbed". */
  lemma CheckPassesIff(s: State, r: ReaderId)
    requires RegionInv(s) && r in s.readers && s.readers[r].Copying?
    ensures s.readers[r].before == s.generation && s.generation % 2 == 0
            <==> |s.pubs| == s.completed && (|s.pubs| - s.readers[r].begun) % WRAP == 0
  {
    GenerationParity(s);
    SameGeneration(s.readers[r].begun, |s.pubs|);
  }

  // ----- preservation

  lemma CredibleGrows(e: Event, s: State, t: State)
    requires Credible(e, s) && s.pubs <= t.pubs && s.completed <= t.completed
    ensures Credible(e, t)
  {
    if e.outcome.Snapshot? {
      var k: nat :| Returned(e, s.pubs, k);
      assert Returned(e, t.pubs, k);
    }
  }

  /** The log stays in order when history only grows and readers keep their place. */
  lemma LogFrame(s: State, t: State)
    requires LogInv(s) && t.log == s.log && s.pubs <= t.pubs && s.completed <= t.completed
    requires forall r :: || At(t, r).Resting? || At(t, r).since == s.completed
                         || (!At(s, r).Resting? && At(t, r).since == At(s, r).since)
    ensures LogInv(t)
  {
    forall i | 0 <= i < |t.log| ensures Credible(t.log[i], t) {
      CredibleGrows(s.log[i], s, t);
    }
  }

  lemma StoreKeepsRegion(s: State)
    requires WriterInv(s) && Enabled(s, WStore)
    ensures WriterInv(Next(s, WStore))
  {
    var t, k, code := Next(s, WStore), s.writer.next, Encode(s.writer.slots);
    assert t.words[..k + 1] == s.words[..k] + [code[k]];
    assert code[..k + 1] == code[..k] + [code[k]];
  }

  lemma FlagKeepsRegion(s: State)
    requires WriterInv(s) && Enabled(s, WFlag)
    ensures WriterInv(Next(s, WFlag))
  {
    assert s.words == s.words[..s.writer.next];
    assert Publishable(s, s.pubs[s.completed]);
    assert Encode(s.writer.slots) == Encode(s.writer.slots)[..s.writer.next];
  }

  lemma OddKeepsRegion(s: State)
    requires WriterInv(s) && Enabled(s, WOdd)
    ensures WriterInv(Next(s, WOdd))
  {
  }

  lemma EvenKeepsRegion(s: State)
    requires WriterInv(s) && Enabled(s, WEven)
    ensures WriterInv(Next(s, WEven))
  {
    assert (s.writer.generation + 2) % MODULUS == 2 * (s.completed + 1) % MODULUS;
  }

  lemma WriterStepKeepsRegion(s: State, step: Step)
    requires WriterInv(s) && Enabled(s, step)
    requires step.WLoad? || step.WOdd? || step.WStore? || step.WFlag? || step.WEven?
    ensures WriterInv(Next(s, step))
  {
    match step
    case WLoad(_) =>
    case WOdd => OddKeepsRegion(s);
    case WStore => StoreKeepsRegion(s);
    case WFlag => FlagKeepsRegion(s);
    case WEven => EvenKeepsRegion(s);
  }

  lemma WriterStep(s: State, step: Step)
    requires RegionInv(s) && Enabled(s, step)
    requires step.WLoad? || step.WOdd? || step.WStore? || step.WFlag? || step.WEven?
    ensures RegionInv(Next(s, step))
  {
    var t := Next(s, step);
    WriterStepKeepsRegion(s, step);
    assert s.pubs <= t.pubs && t.readers == s.readers;
    forall r | r in t.readers ensures ReaderInv(t, t.readers[r]) {
      assert ReaderInv(s, s.readers[r]);
    }
  }

  /** Reader `r` is put in a consistent position. */
  lemma ReaderMoves(s: State, r: ReaderId, c: Reader)
    requires RegionInv(s) && ReaderInv(s, c)
    ensures RegionInv(SetReader(s, r, c))
  {
    var t := SetReader(s, r, c);
    assert WriterInv(t);
    forall q | q in t.readers ensures ReaderInv(t, t.readers[q]) {
      assert q != r ==> ReaderInv(s, s.readers[q]);
    }
  }

  lemma ReaderReturns(s: State, r: ReaderId, since: nat, tried: nat, outcome: Outcome)
    requires RegionInv(s)
    ensures RegionInv(Finish(s, r, since, tried, outcome))
  {
    var t := Finish(s, r, since, tried, outcome);
    assert WriterInv(t);
    forall q | q in t.readers ensures ReaderInv(t, t.readers[q]) {
      assert q != r ==> ReaderInv(s, s.readers[q]);
    }
  }

  /** Reader `r` carries on with the call it is in, or begins one now. */
  lemma LogMoves(s: State, r: ReaderId, c: Reader)
    requires LogInv(s) && !c.Resting?
    requires if At(s, r).Resting? then c.since == s.completed else c.since == At(s, r).since
    ensures LogInv(SetReader(s, r, c))
  {
    LogFrame(s, SetReader(s, r, c));
  }

  /** Reader `r` returns `outcome`. */
  lemma LogFinishes(s: State, r: ReaderId, tried: nat, outcome: Outcome)
    requires LogInv(s) && !At(s, r).Resting?
    requires Credible(Event(r, At(s, r).since, outcome, s.completed, |s.pubs|, tried), s)
    ensures LogInv(Finish(s, r, At(s, r).since, tried, outcome))
  {
    var t := Finish(s, r, At(s, r).since, tried, outcome);
    forall i | 0 <= i < |t.log| ensures Credible(t.log[i], t) {
      CredibleGrows(t.log[i], s, t);
    }
  }

  lemma ReaderRetries(s: State, r: ReaderId)
    requires At(s, r).Sampling? || At(s, r).Copying?
    requires RegionInv(s) && At(s, r).since < |s.pubs|
    ensures RegionInv(Retry(s, r, At(s, r).since, At(s, r).spin, At(s, r).spin + 1))
  {
    var c := At(s, r);
    assert ReaderInv(s, c);
    if c.spin + 1 == SPINS {
      ReaderReturns(s, r, c.since, c.spin + 1, Busy);
    } else {
      ReaderMoves(s, r, Sampling(c.since, c.spin + 1, c.spin + 1));
    }
  }

  lemma LogRetries(s: State, r: ReaderId)
    requires LogInv(s) && !At(s, r).Resting? && At(s, r).since < |s.pubs| && At(s, r).since <= s.completed
    ensures LogInv(Retry(s, r, At(s, r).since, At(s, r).spin, At(s, r).spin + 1))
  {
    var c := At(s, r);
    if c.spin + 1 == SPINS {
      LogFinishes(s, r, c.spin + 1, Busy);
    } else {
      LogMoves(s, r, Sampling(c.since, c.spin + 1, c.spin + 1));
    }
  }

  lemma SettledWords(s: State, begun: nat)
    requires WriterInv(s) && 0 < begun <= s.completed && begun == |s.pubs|
    ensures s.words == Encode(s.pubs[begun - 1]) && Publishable(s, s.pubs[begun - 1])
  {
    GenerationParity(s);
  }

  /** Loading one more word of a settled region keeps the reader's copy a piece of the last
      publish, and a completed slot decodes to the published one. */
  lemma LoadUndisturbed(s: State, begun: nat, done: seq<Slot>, part: seq<int>)
    requires WriterInv(s) && 0 < begun <= s.completed && begun == |s.pubs|
    requires Faithful(s, begun, done, part) && |done| < s.slotCount && |part| < 4
    ensures 4 * |done| + |part| < |s.words|
    ensures var more, slots := part + [s.words[4 * |done| + |part|]], s.pubs[begun - 1];
            && |done| < |slots|
            && (|more| < 4 ==> Faithful(s, begun, done, more))
            && (|more| == 4 ==>
                FromRaw(more, |done|) == Ok(slots[|done|]) && Faithful(s, begun, done + [slots[|done|]], []))
  {
    var slots := s.pubs[begun - 1];
    SettledWords(s, begun);
    EncodeAt(slots, |done|, |part|);
    FromRawToRaw(slots[|done|]);
  }

  /** The reader's new position after a load is consistent, or the slot fails to decode
      and a publish has begun since the sample. */
  lemma LoadKeepsReader(s: State, c: Reader, part: seq<int>)
    requires WriterInv(s) && c.Copying? && ReaderInv(s, c) && |c.done| < s.slotCount
    requires 4 * |c.done| + |c.part| < |s.words| && part == c.part + [s.words[4 * |c.done| + |c.part|]]
    ensures |part| < 4 ==> ReaderInv(s, c.(part := part))
    ensures |part| == 4 && FromRaw(part, |c.done|).Ok?
            ==> ReaderInv(s, c.(done := c.done + [FromRaw(part, |c.done|).value], part := []))
    ensures |part| == 4 && FromRaw(part, |c.done|).Err? ==> c.since < |s.pubs|
  {
    if c.begun == |s.pubs| {
      LoadUndisturbed(s, c.begun, c.done, c.part);
    }
  }

  /** The three ways one load can go. */
  lemma LoadCases(s: State, r: ReaderId, c: Reader, part: seq<int>)
    requires Enabled(s, RLoad(r)) && c == At(s, r) && c.Copying? && 4 * |c.done| + |c.part| < |s.words|
    requires part == c.part + [s.words[4 * |c.done| + |c.part|]]
    ensures |part| < 4 ==> LoadWord(s, r) == SetReader(s, r, c.(part := part))
    ensures |part| >= 4 ==> |part| == 4
    ensures |part| == 4 && FromRaw(part, |c.done|).Ok? ==>
              LoadWord(s, r) == SetReader(s, r, c.(done := c.done + [FromRaw(part, |c.done|).value], part := []))
    ensures |part| == 4 && FromRaw(part, |c.done|).Err? ==> LoadWord(s, r) == Finish(s, r, c.since, c.tried, Invalid)
  {
    hide FromRaw;
  }

  lemma LoadStep(s: State, r: ReaderId)
    requires RegionInv(s) && Enabled(s, RLoad(r))
    ensures RegionInv(LoadWord(s, r))
  {
    var c := At(s, r);
    var part := c.part + [s.words[4 * |c.done| + |c.part|]];
    LoadKeepsReader(s, c, part);
    LoadCases(s, r, c, part);
    hide LoadWord, FromRaw;
    if |part| < 4 {
      ReaderMoves(s, r, c.(part := part));
    } else if FromRaw(part, |c.done|).Ok? {
      ReaderMoves(s, r, c.(done := c.done + [FromRaw(part, |c.done|).value], part := []));
    } else {
      ReaderReturns(s, r, c.since, c.tried, Invalid);
    }
  }

  lemma LogLoads(s: State, r: ReaderId)
    requires RegionInv(s) && LogInv(s) && Enabled(s, RLoad(r))
    ensures LogInv(LoadWord(s, r))
  {
    var c := At(s, r);
    var part := c.part + [s.words[4 * |c.done| + |c.part|]];
    LoadCases(s, r, c, part);
    hide LoadWord, FromRaw;
    if |part| < 4 {
      LogMoves(s, r, c.(part := part));
    } else if FromRaw(part, |c.done|).Ok? {
      LogMoves(s, r, c.(done := c.done + [FromRaw(part, |c.done|).value], part := []));
    } else {
      LoadKeepsReader(s, c, part);
      LogFinishes(s, r, c.tried, Invalid);
    }
  }

  lemma VerifyStep(s: State, r: ReaderId)
    requires RegionInv(s) && Enabled(s, RVerify(r))
    ensures RegionInv(Next(s, RVerify(r)))
  {
    var c := At(s, r);
    assert ReaderInv(s, c);
    GenerationParity(s);
    if c.before == s.generation && s.generation % 2 == 0 {
      ReaderReturns(s, r, c.since, c.tried, Snapshot(c.done));
    } else {
      ReaderRetries(s, r);
    }
  }

  /** The heart of the matter: a passing second check means no publish began in between, so
      the copy is the whole of the last one. */
  lemma LogVerifies(s: State, r: ReaderId)
    requires RegionInv(s) && LogInv(s) && Paced(s) && Enabled(s, RVerify(r))
    ensures LogInv(Next(s, RVerify(r)))
  {
    var c := At(s, r);
    assert ReaderInv(s, c);
    CheckPassesIff(s, r);
    if c.before == s.generation && s.generation % 2 == 0 {
      assert c.done == s.pubs[c.begun - 1];
      assert Returned(Event(r, c.since, Snapshot(c.done), s.completed, |s.pubs|, c.tried), s.pubs, c.begun);
      LogFinishes(s, r, c.tried, Snapshot(c.done));
    } else {
      LogRetries(s, r);
    }
  }

  lemma CheckStep(s: State, r: ReaderId)
    requires RegionInv(s) && Enabled(s, RCheck(r))
    ensures RegionInv(Next(s, RCheck(r)))
    ensures !s.initialized ==> At(s, r).since == 0
  {
    var c := At(s, r);
    assert ReaderInv(s, c);
    GenerationParity(s);
    if !s.initialized {
      ReaderReturns(s, r, c.since, c.tried, Uninitialized);
    } else {
      ReaderMoves(s, r, Copying(c.since, c.spin, c.tried, c.before, c.begun, [], []));
    }
  }

  lemma SampleStep(s: State, r: ReaderId)
    requires RegionInv(s) && Enabled(s, RSample(r))
    ensures RegionInv(Next(s, RSample(r)))
    ensures s.generation % 2 != 0 ==> At(s, r).since < |s.pubs|
  {
    var c := At(s, r);
    assert ReaderInv(s, c);
    GenerationParity(s);
    if s.generation % 2 != 0 {
      ReaderRetries(s, r);
    } else {
      ReaderMoves(s, r, Checking(c.since, c.spin, c.tried + 1, s.generation, |s.pubs|));
    }
  }

  lemma NextKeepsRegion(s: State, step: Step)
    requires RegionInv(s) && Enabled(s, step)
    ensures RegionInv(Next(s, step))
  {
    match step
    case RBegin(r) => ReaderMoves(s, r, Sampling(s.completed, 0, 0));
    case RSample(r) => SampleStep(s, r);
    case RCheck(r) => CheckStep(s, r);
    case RLoad(r) => LoadStep(s, r);
    case RVerify(r) => VerifyStep(s, r);
    case _ => WriterStep(s, step);
  }

  lemma LogSamples(s: State, r: ReaderId)
    requires RegionInv(s) && LogInv(s) && Enabled(s, RSample(r))
    ensures LogInv(Next(s, RSample(r)))
  {
    var c := At(s, r);
    assert ReaderInv(s, c);
    SampleStep(s, r);
    hide RegionInv, LogInv, WriterInv, ReaderInv;
    if s.generation % 2 != 0 {
      LogRetries(s, r);
    } else {
      LogMoves(s, r, Checking(c.since, c.spin, c.tried + 1, s.generation, |s.pubs|));
    }
  }

  lemma LogChecks(s: State, r: ReaderId)
    requires RegionInv(s) && LogInv(s) && Enabled(s, RCheck(r))
    ensures LogInv(Next(s, RCheck(r)))
  {
    var c := At(s, r);
    assert ReaderInv(s, c);
    CheckStep(s, r);
    hide RegionInv, LogInv, WriterInv, ReaderInv;
    if !s.initialized {
      LogFinishes(s, r, c.tried, Uninitialized);
    } else {
      LogMoves(s, r, Copying(c.since, c.spin, c.tried, c.before, c.begun, [], []));
    }
  }

  lemma NextKeepsLog(s: State, step: Step)
    requires RegionInv(s) && LogInv(s) && Paced(s) && Enabled(s, step)
    ensures LogInv(Next(s, step))
  {
    match step
    case RBegin(r) => LogMoves(s, r, Sampling(s.completed, 0, 0));
    case RSample(r) => LogSamples(s, r);
    case RCheck(r) => LogChecks(s, r);
    case RLoad(r) => LogLoads(s, r);
    case RVerify(r) => LogVerifies(s, r);
    case _ => LogFrame(s, Next(s, step));
  }

  lemma NextKeepsInv(s: State, step: Step)
    requires Inv(s) && Paced(s) && Enabled(s, step)
    ensures Inv(Next(s, step))
  {
    NextKeepsRegion(s, step);
    NextKeepsLog(s, step);
  }

  lemma {:induction false} RunKeepsInv(s: State, steps: seq<Step>)
    requires Inv(s) && ValidRun(s, steps)
    ensures Inv(End(s, steps))
    decreases |steps|
  {
    if steps != [] {
      NextKeepsInv(s, steps[0]);
      RunKeepsInv(Next(s, steps[0]), steps[1..]);
    }
  }

  // ----- the theorems

  /** In every interleaving, a snapshot that `read_snapshot` returns is the slot list of
      one single publish, one that had completed when the call returned and was no older
      than the last publish completed before the call began. */
  lemma SnapshotIsOnePublish(slotCount: nat, steps: seq<Step>, i: nat)
    requires ValidRun(Opened(slotCount), steps)
    requires i < |End(Opened(slotCount), steps).log|
    requires End(Opened(slotCount), steps).log[i].outcome.Snapshot?
    ensures var s := End(Opened(slotCount), steps);
            exists k: nat :: Returned(s.log[i], s.pubs, k)
  {
    RunKeepsInv(Opened(slotCount), steps);
    var s := End(Opened(slotCount), steps);
    assert Credible(s.log[i], s);
  }

  /** Two successive snapshots of one reader never go backwards: whichever publishes they
      are, the later one is not older. */
  lemma SnapshotsNeverGoBack(slotCount: nat, steps: seq<Step>, i: nat, j: nat, ki: nat, kj: nat)
    requires ValidRun(Opened(slotCount), steps)
    requires var s := End(Opened(slotCount), steps);
             && i < j < |s.log| && s.log[i].reader == s.log[j].reader
             && Returned(s.log[i], s.pubs, ki) && Returned(s.log[j], s.pubs, kj)
    ensures ki <= kj
  {
    RunKeepsInv(Opened(slotCount), steps);
  }

  /** Once a publish has completed, no later read reports an unpublished region; and a read
      that no publish overlaps is neither `Busy` nor `Invalid`. */
  lemma OnlyOverlapDisturbs(s: State, steps: seq<Step>, i: nat)
    requires Inv(s) && ValidRun(s, steps) && i < |End(s, steps).log|
    ensures var e := End(s, steps).log[i];
            && (e.since > 0 ==> !e.outcome.Uninitialized?)
            && (e.started == e.since ==> !e.outcome.Busy? && !e.outcome.Invalid?)
  {
    RunKeepsInv(s, steps);
    assert Credible(End(s, steps).log[i], End(s, steps));
  }

  /** A read samples the generation at least once and at most 32 times, and gives up as
      `Busy` only after the 32nd attempt has been disturbed. */
  lemma BusyAfterAllAttempts(slotCount: nat, steps: seq<Step>, i: nat)
    requires ValidRun(Opened(slotCount), steps) && i < |End(Opened(slotCount), steps).log|
    ensures var e := End(Opened(slotCount), steps).log[i];
            1 <= e.attempts <= 32 && (e.outcome.Busy? ==> e.attempts == 32)
  {
    RunKeepsInv(Opened(slotCount), steps);
    assert Credible(End(Opened(slotCount), steps).log[i], End(Opened(slotCount), steps));
  }
}
