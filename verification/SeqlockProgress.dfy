/** What the seqlock's steps achieve when they run without interruption: the writer finishes
    its publish, and a read that it held up tries again and returns that publish. */
module SeqlockProgress {
  import opened Common
  import opened Slots
  import opened Seqlock

  // ----- runs

  lemma EmptyRun(s: State)
    ensures ValidRun(s, []) && End(s, []) == s
  {
  }

  lemma StepThen(s: State, step: Step, rest: seq<Step>)
    requires Paced(s) && Enabled(s, step) && ValidRun(Next(s, step), rest)
    ensures ValidRun(s, [step] + rest) && End(s, [step] + rest) == End(Next(s, step), rest)
  {
    assert ([step] + rest)[1..] == rest;
  }

  lemma {:induction false} ChainRuns(s: State, a: seq<Step>, b: seq<Step>)
    requires ValidRun(s, a) && ValidRun(End(s, a), b)
    ensures ValidRun(s, a + b) && End(s, a + b) == End(End(s, a), b)
    decreases |a|
  {
    if a == [] {
      assert a + b == b;
    } else {
      assert (a + b)[1..] == a[1..] + b && (a + b)[0] == a[0];
      ChainRuns(Next(s, a[0]), a[1..], b);
    }
  }

  lemma {:induction false} RunKeepsRegion(s: State, steps: seq<Step>)
    requires RegionInv(s) && ValidRun(s, steps)
    ensures RegionInv(End(s, steps))
    decreases |steps|
  {
    if steps != [] {
      NextKeepsRegion(s, steps[0]);
      RunKeepsRegion(Next(s, steps[0]), steps[1..]);
    }
  }

  // ----- the writer finishes its publish

  function Stores(n: nat): seq<Step> {
    if n == 0 then [] else [WStore] + Stores(n - 1)
  }

  function Finishing(n: nat): seq<Step> {
    Stores(n) + ([WFlag] + [WEven])
  }

  lemma {:induction false} StoreAlone(s: State, n: nat)
    requires Paced(s) && s.writer.Storing? && s.writer.next + n == |s.words| == |Encode(s.writer.slots)|
    requires s.words[..s.writer.next] == Encode(s.writer.slots)[..s.writer.next]
    ensures ValidRun(s, Stores(n))
    ensures End(s, Stores(n)) == s.(words := Encode(s.writer.slots), writer := s.writer.(next := |s.words|))
    decreases n
  {
    var code, k := Encode(s.writer.slots), s.writer.next;
    if n > 0 {
      var t := Next(s, WStore);
      assert t.words[..k + 1] == s.words[..k] + [code[k]] && code[..k + 1] == code[..k] + [code[k]];
      StoreAlone(t, n - 1);
      StepThen(s, WStore, Stores(n - 1));
    } else {
      assert s.words == s.words[..k] && code == code[..k];
      assert s.writer == s.writer.(next := |s.words|);
    }
  }

  lemma FlagAndClose(s: State)
    requires Paced(s) && s.writer.Storing? && s.writer.next == |s.words|
    ensures ValidRun(s, [WFlag] + [WEven])
    ensures End(s, [WFlag] + [WEven])
            == s.(generation := (s.writer.generation + 2) % MODULUS, initialized := true, writer := Idle,
                  completed := s.completed + 1)
  {
    var t := Next(s, WFlag);
    StepThen(t, WEven, []);
    assert [WEven] + [] == [WEven];
    StepThen(s, WFlag, [WEven]);
  }

  /** Whatever is left to store, then the flag and the even generation. */
  lemma StoreAndClose(s: State)
    requires Paced(s) && s.writer.Storing? && s.writer.next <= |s.words| == |Encode(s.writer.slots)|
    requires s.words[..s.writer.next] == Encode(s.writer.slots)[..s.writer.next]
    ensures ValidRun(s, Finishing(|s.words| - s.writer.next))
    ensures End(s, Finishing(|s.words| - s.writer.next))
            == s.(generation := (s.writer.generation + 2) % MODULUS, initialized := true,
                  words := Encode(s.writer.slots), writer := Idle, completed := s.completed + 1)
  {
    var n := |s.words| - s.writer.next;
    StoreAlone(s, n);
    FlagAndClose(End(s, Stores(n)));
    ChainRuns(s, Stores(n), [WFlag] + [WEven]);
  }

  /** The writer's remaining steps, if a publish is in progress. */
  function CloseSteps(s: State): seq<Step> {
    match s.writer
    case Storing(_, _, next) => if next <= |s.words| then Finishing(|s.words| - next) else []
    case Closing(_, _) => [WEven]
    case _ => []
  }

  lemma WriterCloses(s: State)
    requires RegionInv(s) && Paced(s)
    ensures ValidRun(s, CloseSteps(s))
    ensures var t := End(s, CloseSteps(s));
            && RegionInv(t) && Paced(t) && t.generation % 2 == 0 && t.completed == |t.pubs|
            && t.pubs == s.pubs && t.log == s.log && t.readers == s.readers && t.slotCount == s.slotCount
  {
    match s.writer {
      case Storing(slots, _, _) =>
        assert Publishable(s, s.pubs[s.completed]) && |Encode(slots)| == 4 * s.slotCount;
        StoreAndClose(s);
      case Closing(_, _) => StepThen(s, WEven, []);
      case _ => EmptyRun(s);
    }
    RunKeepsRegion(s, CloseSteps(s));
    GenerationParity(End(s, CloseSteps(s)));
  }

  // ----- an undisturbed attempt succeeds

  function Loads(r: ReaderId, n: nat): seq<Step> {
    if n == 0 then [] else [RLoad(r)] + Loads(r, n - 1)
  }

  lemma LoadsUnfold(r: ReaderId, n: nat)
    ensures Loads(r, n) == if n == 0 then [] else [RLoad(r)] + Loads(r, n - 1)
  {
  }

  lemma ReplaceReader(s: State, r: ReaderId, a: Reader, b: Reader)
    ensures SetReader(SetReader(s, r, a), r, b) == SetReader(s, r, b)
  {
    assert s.readers[r := a][r := b] == s.readers[r := b];
  }

  lemma PacedHere(s: State, r: ReaderId, c: Reader)
    requires Paced(s) && (c.Checking? || c.Copying? ==> c.begun == |s.pubs|)
    ensures Paced(SetReader(s, r, c))
  {
  }

  function CopiedOneMore(s: State, c: Reader): (d: Reader)
    requires c.Copying? && |c.done| < s.slotCount && 4 * |c.done| + |c.part| < |s.words|
    requires 0 < |s.pubs| && |c.done| < |s.pubs[|s.pubs| - 1]| && |c.part| < 4
    ensures d.Copying? && d == c.(done := d.done, part := d.part)
    ensures 4 * |d.done| + |d.part| == 4 * |c.done| + |c.part| + 1
  {
    var part := c.part + [s.words[4 * |c.done| + |c.part|]];
    if |part| < 4 then c.(part := part)
    else c.(done := c.done + [s.pubs[|s.pubs| - 1][|c.done|]], part := [])
  }

  predicate Undisturbed(s: State, c: Reader) {
    WriterInv(s) && s.completed <= |s.pubs| && c.Copying? && c.begun == |s.pubs| && ReaderInv(s, c)
  }

  lemma StaysUndisturbed(s: State, c: Reader)
    requires Undisturbed(s, c) && |c.done| < s.slotCount
    ensures 0 < |s.pubs| && |c.done| < |s.pubs[|s.pubs| - 1]| && |c.part| < 4 && 4 * |c.done| + |c.part| < |s.words|
    ensures Undisturbed(s, CopiedOneMore(s, c))
    ensures var part := c.part + [s.words[4 * |c.done| + |c.part|]];
            |part| == 4 ==> FromRaw(part, |c.done|) == Ok(s.pubs[|s.pubs| - 1][|c.done|])
  {
    LoadUndisturbed(s, c.begun, c.done, c.part);
    LoadKeepsReader(s, c, c.part + [s.words[4 * |c.done| + |c.part|]]);
  }

  lemma LoadIsCopy(s: State, r: ReaderId, c: Reader)
    requires c.Copying? && |c.done| < s.slotCount && 4 * |c.done| + |c.part| < |s.words|
    requires 0 < |s.pubs| && |c.done| < |s.pubs[|s.pubs| - 1]| && |c.part| < 4
    requires var part := c.part + [s.words[4 * |c.done| + |c.part|]];
             |part| == 4 ==> FromRaw(part, |c.done|) == Ok(s.pubs[|s.pubs| - 1][|c.done|])
    ensures Enabled(SetReader(s, r, c), RLoad(r))
    ensures Next(SetReader(s, r, c), RLoad(r)) == SetReader(s, r, CopiedOneMore(s, c))
  {
    hide FromRaw;
    ReplaceReader(s, r, c, CopiedOneMore(s, c));
  }

  /** One load of an undisturbed copy. */
  lemma LoadAlone(s: State, r: ReaderId, c: Reader)
    requires Undisturbed(s, c) && |c.done| < s.slotCount
    ensures 0 < |s.pubs| && |c.done| < |s.pubs[|s.pubs| - 1]| && |c.part| < 4 && 4 * |c.done| + |c.part| < |s.words|
    ensures Enabled(SetReader(s, r, c), RLoad(r))
    ensures Next(SetReader(s, r, c), RLoad(r)) == SetReader(s, r, CopiedOneMore(s, c))
    ensures Undisturbed(s, CopiedOneMore(s, c))
  {
    StaysUndisturbed(s, c);
    CopyBounds(s, c);
    hide *;
    LoadIsCopy(s, r, c);
  }

  lemma CopyBounds(s: State, c: Reader)
    requires Undisturbed(s, c)
    ensures c.Copying? && c.begun == |s.pubs|
    ensures |c.done| <= s.slotCount && |c.part| < 4 && (|c.done| == s.slotCount ==> c.part == [])
  {
  }

  lemma CopyDone(s: State, c: Reader)
    requires Undisturbed(s, c) && |c.done| == s.slotCount
    ensures 0 < |s.pubs| && c == c.(done := s.pubs[|s.pubs| - 1], part := [])
  {
    SettledWords(s, c.begun);
  }

  /** Copying the remaining words with nobody else moving yields the last publish. */
  lemma {:induction false} CopyAlone(s: State, r: ReaderId, c: Reader, n: nat)
    requires Undisturbed(s, c) && Paced(s)
    requires n == 4 * s.slotCount - 4 * |c.done| - |c.part|
    ensures ValidRun(SetReader(s, r, c), Loads(r, n)) && |s.pubs| > 0
    ensures End(SetReader(s, r, c), Loads(r, n)) == SetReader(s, r, c.(done := s.pubs[|s.pubs| - 1], part := []))
    decreases n
  {
    hide *;
    CopyBounds(s, c);
    LoadsUnfold(r, n);
    if |c.done| == s.slotCount {
      CopyDone(s, c);
      EmptyRun(SetReader(s, r, c));
    } else {
      LoadAlone(s, r, c);
      CopyAlone(s, r, CopiedOneMore(s, c), n - 1);
      PacedHere(s, r, c);
      StepThen(SetReader(s, r, c), RLoad(r), Loads(r, n - 1));
    }
  }

  /** The second generation check of an undisturbed, complete copy. */
  lemma VerifyAlone(s: State, r: ReaderId, c: Reader)
    requires Paced(s) && c.Copying? && c.before == s.generation && s.generation % 2 == 0 && c.begun == |s.pubs|
    requires |c.done| == s.slotCount
    ensures ValidRun(SetReader(s, r, c), [RVerify(r)])
    ensures End(SetReader(s, r, c), [RVerify(r)]).log
            == s.log + [Event(r, c.since, Snapshot(c.done), s.completed, |s.pubs|, c.tried)]
  {
    PacedHere(s, r, c);
    StepThen(SetReader(s, r, c), RVerify(r), []);
  }

  /** One attempt of a read: sample, check the flag, copy everything, sample again. */
  function Attempt(r: ReaderId, slotCount: nat): seq<Step> {
    [RSample(r)] + ([RCheck(r)] + (Loads(r, 4 * slotCount) + [RVerify(r)]))
  }

  /** From the first sample to an empty copy, with nobody else moving. */
  lemma StartAlone(s: State, r: ReaderId, c: Reader, rest: seq<Step>)
    requires RegionInv(s) && Paced(s) && s.generation % 2 == 0 && s.completed > 0 && At(s, r).Sampling?
    requires c == Copying(At(s, r).since, At(s, r).spin, At(s, r).tried + 1, s.generation, |s.pubs|, [], [])
    requires ValidRun(SetReader(s, r, c), rest)
    ensures ValidRun(s, [RSample(r)] + ([RCheck(r)] + rest))
    ensures End(s, [RSample(r)] + ([RCheck(r)] + rest)) == End(SetReader(s, r, c), rest)
  {
    var c2 := Checking(c.since, c.spin, c.tried, c.before, c.begun);
    GenerationParity(s);
    PacedHere(s, r, c2);
    ReplaceReader(s, r, c2, c);
    StepThen(SetReader(s, r, c2), RCheck(r), rest);
    StepThen(s, RSample(r), [RCheck(r)] + rest);
  }

  lemma FreshCopy(s: State, r: ReaderId, c: Reader)
    requires RegionInv(s) && s.generation % 2 == 0 && s.completed > 0 && At(s, r).Sampling?
    requires c == Copying(At(s, r).since, At(s, r).spin, At(s, r).tried + 1, s.generation, |s.pubs|, [], [])
    ensures |s.pubs| == s.completed && |s.pubs[|s.pubs| - 1]| == s.slotCount && Undisturbed(s, c)
  {
    GenerationParity(s);
    assert Publishable(s, s.pubs[|s.pubs| - 1]) && ReaderInv(s, At(s, r));
  }

  /** An attempt that runs alone over a published region returns its last publish. */
  lemma AttemptSucceeds(s: State, r: ReaderId)
    requires RegionInv(s) && Paced(s) && s.generation % 2 == 0 && s.completed > 0 && At(s, r).Sampling?
    ensures |s.pubs| > 0 && ValidRun(s, Attempt(r, s.slotCount))
    ensures End(s, Attempt(r, s.slotCount)).log
            == s.log + [Event(r, At(s, r).since, Snapshot(s.pubs[|s.pubs| - 1]), s.completed, |s.pubs|, At(s, r).tried + 1)]
  {
    var n := 4 * s.slotCount;
    var c := Copying(At(s, r).since, At(s, r).spin, At(s, r).tried + 1, s.generation, |s.pubs|, [], []);
    FreshCopy(s, r, c);
    var last := s.pubs[|s.pubs| - 1];
    hide Paced, RegionInv, Undisturbed, ValidRun, End, Loads, WriterInv;
    CopyAlone(s, r, c, n);
    VerifyAlone(s, r, c.(done := last));
    ChainRuns(SetReader(s, r, c), Loads(r, n), [RVerify(r)]);
    StartAlone(s, r, c, Loads(r, n) + [RVerify(r)]);
  }

  lemma BeginsRead(s: State, r: ReaderId, rest: seq<Step>)
    requires RegionInv(s) && Paced(s) && At(s, r).Resting?
    requires ValidRun(SetReader(s, r, Sampling(s.completed, 0, 0)), rest)
    ensures ValidRun(s, [RBegin(r)] + rest)
    ensures End(s, [RBegin(r)] + rest) == End(SetReader(s, r, Sampling(s.completed, 0, 0)), rest)
  {
    StepThen(s, RBegin(r), rest);
  }

  /** A read that runs alone over a published region returns its last publish at the first
      attempt. */
  lemma QuietReadSucceeds(s: State, r: ReaderId)
    requires RegionInv(s) && Paced(s) && (s.writer.Idle? || s.writer.Loaded?) && s.completed > 0 && At(s, r).Resting?
    ensures var steps := [RBegin(r)] + Attempt(r, s.slotCount);
            && ValidRun(s, steps)
            && End(s, steps).log
               == s.log + [Event(r, s.completed, Snapshot(s.pubs[|s.pubs| - 1]), s.completed, |s.pubs|, 1)]
  {
    var t := SetReader(s, r, Sampling(s.completed, 0, 0));
    GenerationParity(s);
    ReaderMoves(s, r, Sampling(s.completed, 0, 0));
    PacedHere(s, r, Sampling(s.completed, 0, 0));
    AttemptSucceeds(t, r);
    BeginsRead(s, r, Attempt(r, s.slotCount));
  }

  // ----- a disturbed attempt is tried again

  /** A read held up by a publish: once the writer has finished, the next attempt returns it. */
  lemma HeldUpReadSucceeds(s: State, r: ReaderId)
    requires RegionInv(s) && Paced(s) && At(s, r).Sampling? && |s.pubs| > 0
    ensures var steps := CloseSteps(s) + Attempt(r, s.slotCount);
            && ValidRun(s, steps)
            && End(s, steps).log
               == s.log + [Event(r, At(s, r).since, Snapshot(s.pubs[|s.pubs| - 1]), |s.pubs|, |s.pubs|, At(s, r).tried + 1)]
  {
    hide Paced, RegionInv, ValidRun, End, Attempt, CloseSteps;
    WriterCloses(s);
    AttemptSucceeds(End(s, CloseSteps(s)), r);
    ChainRuns(s, CloseSteps(s), Attempt(r, s.slotCount));
  }

  function Spins(r: ReaderId, k: nat): seq<Step> {
    if k == 0 then [] else [RSample(r)] + Spins(r, k - 1)
  }

  lemma SpinOnce(s: State, r: ReaderId, c: Reader)
    requires s.generation % 2 != 0 && c.Sampling? && c.spin + 1 < 32
    ensures Enabled(SetReader(s, r, c), RSample(r))
    ensures Next(SetReader(s, r, c), RSample(r)) == SetReader(s, r, Sampling(c.since, c.spin + 1, c.tried + 1))
  {
    ReplaceReader(s, r, c, Sampling(c.since, c.spin + 1, c.tried + 1));
  }

  /** Sampling an odd generation leaves the read where it was, one attempt further. */
  lemma {:induction false} SpinsAlone(s: State, r: ReaderId, c: Reader, k: nat)
    requires Paced(s) && s.generation % 2 != 0 && c.Sampling? && c.spin + k < 32
    ensures ValidRun(SetReader(s, r, c), Spins(r, k))
    ensures End(SetReader(s, r, c), Spins(r, k)) == SetReader(s, r, Sampling(c.since, c.spin + k, c.tried + k))
    decreases k
  {
    PacedHere(s, r, c);
    if k > 0 {
      SpinOnce(s, r, c);
      SpinsAlone(s, r, Sampling(c.since, c.spin + 1, c.tried + 1), k - 1);
      StepThen(SetReader(s, r, c), RSample(r), Spins(r, k - 1));
    }
  }

  lemma PublishesBegun(s: State, c: Reader)
    requires RegionInv(s) && (s.writer.Storing? || s.writer.Closing?)
    requires c.Sampling? && c.since == s.completed && c.spin == c.tried < 32
    ensures ReaderInv(s, c) && |s.pubs| == s.completed + 1 && s.generation % 2 != 0
  {
    GenerationParity(s);
  }

  /** The same for a reader put at a sampling position. */
  lemma HeldUpHereSucceeds(s: State, r: ReaderId, c: Reader)
    requires RegionInv(s) && Paced(s) && c.Sampling? && ReaderInv(s, c) && |s.pubs| > 0
    ensures var steps := CloseSteps(s) + Attempt(r, s.slotCount);
            && ValidRun(SetReader(s, r, c), steps)
            && End(SetReader(s, r, c), steps).log
               == s.log + [Event(r, c.since, Snapshot(s.pubs[|s.pubs| - 1]), |s.pubs|, |s.pubs|, c.tried + 1)]
  {
    var t := SetReader(s, r, c);
    assert CloseSteps(t) == CloseSteps(s);
    assert At(t, r) == c && t.pubs == s.pubs && t.log == s.log && t.slotCount == s.slotCount;
    ReaderMoves(s, r, c);
    PacedHere(s, r, c);
    hide *;
    HeldUpReadSucceeds(t, r);
  }

  /** A read begins, samples an odd generation k times, and then `rest` happens. */
  lemma SpinsThen(s: State, r: ReaderId, k: nat, rest: seq<Step>)
    requires RegionInv(s) && Paced(s) && s.generation % 2 != 0 && At(s, r).Resting? && k < 32
    requires ValidRun(SetReader(s, r, Sampling(s.completed, k, k)), rest)
    ensures ValidRun(s, [RBegin(r)] + (Spins(r, k) + rest))
    ensures End(s, [RBegin(r)] + (Spins(r, k) + rest)) == End(SetReader(s, r, Sampling(s.completed, k, k)), rest)
  {
    var c := Sampling(s.completed, 0, 0);
    SpinsAlone(s, r, c, k);
    hide *;
    ChainRuns(SetReader(s, r, c), Spins(r, k), rest);
    BeginsRead(s, r, Spins(r, k) + rest);
  }

  /** A read that begins while a publish is in progress and samples the odd generation up to
      31 times is not lost: when the writer has finished, it returns that publish. */
  lemma SpinningReadSucceeds(s: State, r: ReaderId, k: nat)
    requires RegionInv(s) && Paced(s) && (s.writer.Storing? || s.writer.Closing?) && At(s, r).Resting? && k < 32
    ensures var steps := [RBegin(r)] + (Spins(r, k) + (CloseSteps(s) + Attempt(r, s.slotCount)));
            && |s.pubs| > 0 && ValidRun(s, steps)
            && End(s, steps).log
               == s.log + [Event(r, s.completed, Snapshot(s.pubs[|s.pubs| - 1]), |s.pubs|, |s.pubs|, k + 1)]
  {
    var held := Sampling(s.completed, k, k);
    hide *;
    PublishesBegun(s, held);
    HeldUpHereSucceeds(s, r, held);
    SpinsThen(s, r, k, CloseSteps(s) + Attempt(r, s.slotCount));
  }

  /** The 32nd sample of an odd generation gives the read up. */
  lemma SpinsRunOut(s: State, r: ReaderId)
    requires RegionInv(s) && Paced(s) && (s.writer.Storing? || s.writer.Closing?) && At(s, r).Resting?
    ensures var steps := [RBegin(r)] + (Spins(r, 31) + [RSample(r)]);
            && ValidRun(s, steps)
            && End(s, steps).log == s.log + [Event(r, s.completed, Busy, s.completed, |s.pubs|, 32)]
  {
    var last := Sampling(s.completed, 31, 31);
    GenerationParity(s);
    PacedHere(s, r, last);
    StepThen(SetReader(s, r, last), RSample(r), []);
    SpinsThen(s, r, 31, [RSample(r)]);
  }

  predicate Fails(s: State, c: Reader)
    requires c.Copying?
  {
    c.before != s.generation || s.generation % 2 != 0
  }

  lemma FailedCheckMeansPublish(s: State, r: ReaderId)
    requires RegionInv(s) && At(s, r).Copying? && Fails(s, At(s, r))
    ensures |s.pubs| > 0 && At(s, r).since < |s.pubs|
  {
    assert ReaderInv(s, At(s, r));
    GenerationParity(s);
  }

  /** A copy that the second check rejects is thrown away and, before the 32nd attempt, made
      again: once the writer has finished, the read returns the last publish. */
  lemma RejectedCopyIsRetried(s: State, r: ReaderId)
    requires RegionInv(s) && Paced(s) && Enabled(s, RVerify(r)) && Fails(s, At(s, r)) && At(s, r).tried < 32
    ensures var steps := [RVerify(r)] + (CloseSteps(s) + Attempt(r, s.slotCount));
            && |s.pubs| > 0 && ValidRun(s, steps)
            && End(s, steps).log
               == s.log + [Event(r, At(s, r).since, Snapshot(s.pubs[|s.pubs| - 1]), |s.pubs|, |s.pubs|, At(s, r).tried + 1)]
  {
    var c := At(s, r);
    var held := Sampling(c.since, c.spin + 1, c.tried);
    assert ReaderInv(s, c);
    FailedCheckMeansPublish(s, r);
    assert Next(s, RVerify(r)) == SetReader(s, r, held) && ReaderInv(s, held);
    hide *;
    HeldUpHereSucceeds(s, r, held);
    StepThen(s, RVerify(r), CloseSteps(s) + Attempt(r, s.slotCount));
  }

  /** The copy of the 32nd attempt is the last one. */
  lemma LastCopyGivesUp(s: State, r: ReaderId)
    requires RegionInv(s) && Enabled(s, RVerify(r)) && Fails(s, At(s, r)) && At(s, r).tried == 32
    ensures Next(s, RVerify(r)).log == s.log + [Event(r, At(s, r).since, Busy, s.completed, |s.pubs|, 32)]
  {
    assert ReaderInv(s, At(s, r));
  }
}
