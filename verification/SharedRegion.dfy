/** One mapped shared region as a single process sees it (runtime/src/shared/mod.rs), the
    file it lives in, and the order in which an env attaches its members
    (runtime/src/envd/server/bootstrap.rs, runtime/src/daemon/server/action_router.rs). */
module SharedRegions {
  import opened Common
  import opened Slots
  import Seqlock
  import SeqlockProgress

  datatype Region = Region(generation: nat, initialized: bool, words: seq<int>)

  datatype ReadError = Busy(attempts: nat) | Uninitialized | Invalid(error: DecodeError)

  datatype PublishError = WrongCount | WrongId(index: nat)

  /** What `read_snapshot` returns when nobody writes meanwhile. */
  function Read(region: Region): Result<seq<Slot>, ReadError>
    requires |region.words| % 4 == 0
  {
    if region.generation % 2 != 0 then Err(Busy(Seqlock.SPINS))
    else if !region.initialized then Err(Uninitialized)
    else
      match Decode(region.words)
      case Err(e) => Err(Invalid(e))
      case Ok(slots) => Ok(slots)
  }

  function Published(region: Region, slots: seq<Slot>): Region {
    Region((region.generation + 2) % Seqlock.MODULUS, true, Encode(slots))
  }

  lemma {:induction false} DecodePrefix(words: seq<int>, k: nat)
    requires 4 * k <= |words| && |words| % 4 == 0 && Decode(words[..4 * k]).Err?
    ensures Decode(words) == Decode(words[..4 * k])
    decreases |words|
  {
    if 4 * k == |words| {
      assert words[..4 * k] == words;
    } else {
      var front := words[..|words| - 4];
      assert front[..4 * k] == words[..4 * k];
      DecodePrefix(front, k);
    }
  }

  /** Decoding one slot more. */
  lemma DecodeOneMore(words: seq<int>, i: nat, front: seq<Slot>)
    requires 4 * i + 4 <= |words| && |words| % 4 == 0 && Decode(words[..4 * i]) == Ok(front)
    ensures match FromRaw(words[4 * i..4 * i + 4], i)
            case Err(e) => Decode(words) == Err(e)
            case Ok(slot) => Decode(words[..4 * (i + 1)]) == Ok(front + [slot])
  {
    hide Decode, FromRaw;
    DecodeStep(words[..4 * i], words[4 * i..4 * i + 4]);
    assert words[..4 * (i + 1)] == words[..4 * i] + words[4 * i..4 * i + 4];
    if FromRaw(words[4 * i..4 * i + 4], i).Err? {
      DecodePrefix(words, i + 1);
    }
  }

  lemma NothingDecoded()
    ensures Decode([]) == Ok([])
  {
  }

  lemma EncodePrefix(slots: seq<Slot>, i: nat)
    requires i < |slots|
    ensures 4 * i + 4 <= |Encode(slots)|
    ensures Encode(slots)[..4 * (i + 1)] == Encode(slots)[..4 * i] + ToRaw(slots[i])
  {
    EncodeAt(slots, i, 0);
    EncodeAt(slots, i, 1);
    EncodeAt(slots, i, 2);
    EncodeAt(slots, i, 3);
    hide Encode, ToRaw;
    var code, raw := Encode(slots), ToRaw(slots[i]);
    assert code[4 * i..4 * i + 4] == raw;
    assert code[..4 * (i + 1)] == code[..4 * i] + code[4 * i..4 * i + 4];
  }

  class SharedRegion {
    var slotCount: nat
    var generation: nat
    var initialized: bool
    var words: array<int>

    predicate Valid()
      reads this
    {
      words.Length == 4 * slotCount && generation < Seqlock.MODULUS
    }

    function Contents(): Region
      reads this, words
    {
      Region(generation, initialized, words[..])
    }

    constructor (slotCount: nat)
      ensures Valid() && fresh(words) && this.slotCount == slotCount
      ensures Contents() == Region(0, false, seq(4 * slotCount, _ => 0))
    {
      this.slotCount := slotCount;
      generation := 0;
      initialized := false;
      words := new int[4 * slotCount](_ => 0);
    }

    /** A rejected slot list leaves the region as it was: all checks come before the first
        store. */
    method Publish(slots: seq<Slot>) returns (r: Result<(), PublishError>)
      requires Valid()
      modifies this`generation, this`initialized, words
      ensures Valid() && words == old(words)
      ensures r.Ok? <==> |slots| == slotCount && Dense(slots)
      ensures r == Err(WrongCount) <==> |slots| != slotCount
      ensures r.Err? && r.error.WrongId? ==>
                && r.error.index < |slots| && slots[r.error.index].slotId != r.error.index
                && forall k :: 0 <= k < r.error.index ==> slots[k].slotId == k
      ensures r.Ok? ==> initialized && generation == (old(generation) + 2) % 0x1_0000_0000_0000_0000
      ensures Contents() == if r.Ok? then Published(old(Contents()), slots) else old(Contents())
    {
      if |slots| != slotCount {
        return Err(WrongCount);
      }
      for i := 0 to |slots|
        invariant forall k :: 0 <= k < i ==> slots[k].slotId == k
      {
        if slots[i].slotId != i {
          return Err(WrongId(i));
        }
      }
      var g := generation;
      generation := (g + 1) % Seqlock.MODULUS;
      StoreSlots(slots);
      initialized := true;
      generation := (g + 2) % Seqlock.MODULUS;
      return Ok(());
    }

    method StoreSlots(slots: seq<Slot>)
      requires Valid() && |slots| == slotCount
      modifies words
      ensures words[..] == Encode(slots)
    {
      hide Encode, ToRaw;
      for i := 0 to |slots|
        invariant words[..4 * i] == Encode(slots)[..4 * i]
      {
        var raw := ToRaw(slots[i]);
        EncodePrefix(slots, i);
        ghost var before := words[..4 * i];
        words[4 * i], words[4 * i + 1] := raw[0], raw[1];
        words[4 * i + 2], words[4 * i + 3] := raw[2], raw[3];
        assert words[..4 * i] == before;
        assert words[..4 * (i + 1)] == before + raw;
      }
      assert words[..] == words[..4 * |slots|];
    }

    method ReadSnapshot() returns (r: Result<seq<Slot>, ReadError>)
      requires Valid()
      ensures r == Read(Contents())
    {
      hide FromRaw, Decode;
      ghost var region := Contents();
      for attempt := 0 to Seqlock.SPINS
        invariant attempt > 0 ==> generation % 2 != 0
      {
        var before := generation;
        if before % 2 != 0 {
          continue;
        }
        if !initialized {
          return Err(Uninitialized);
        }
        var snapshot := [];
        NothingDecoded();
        for i := 0 to slotCount
          invariant Decode(region.words[..4 * i]) == Ok(snapshot)
        {
          var raw := words[4 * i..4 * i + 4];
          assert raw == region.words[4 * i..4 * i + 4];
          DecodeOneMore(region.words, i, snapshot);
          match FromRaw(raw, i) {
            case Err(e) => return Err(Invalid(e));
            case Ok(slot) => snapshot := snapshot + [slot];
          }
        }
        assert region.words[..4 * slotCount] == region.words;
        var after := generation;
        if before == after && after % 2 == 0 {
          return Ok(snapshot);
        }
      }
      return Err(Busy(Seqlock.SPINS));
    }
  }

  /** What the words of a settled region say: the slots they were stored from, if any. */
  lemma {:induction false} DecodesIff(words: seq<int>, slots: seq<Slot>)
    requires |words| % 4 == 0
    ensures Decode(words) == Ok(slots) <==> Dense(slots) && words == Encode(slots)
    decreases |words|
  {
    if words != [] && Decode(words) == Ok(slots) {
      var cut := |words| - 4;
      var front, last := slots[..|slots| - 1], slots[|slots| - 1];
      assert slots == front + [last];
      LastSlot(words);
      DecodesIff(words[..cut], front);
      FromRawIff(RawAt(words, |front|), |front|, last);
      EncodeSnoc(front, last);
      assert words == words[..cut] + RawAt(words, |front|);
    }
    if Dense(slots) && words == Encode(slots) {
      DecodeEncode(slots);
    }
  }

  /** With nobody writing, a read gives the slots that are stored, and otherwise says in this
      order that the generation is odd after 32 attempts, that nothing was published yet, or
      that the words are no slots. */
  lemma ReadMeans(region: Region)
    requires |region.words| % 4 == 0
    ensures forall slots :: Read(region) == Ok(slots) <==>
              region.generation % 2 == 0 && region.initialized && Dense(slots) && region.words == Encode(slots)
    ensures Read(region) == Err(Busy(32)) <==> region.generation % 2 == 1
    ensures Read(region) == Err(Uninitialized) <==> region.generation % 2 == 0 && !region.initialized
  {
    forall slots ensures Decode(region.words) == Ok(slots) <==> Dense(slots) && region.words == Encode(slots) {
      DecodesIff(region.words, slots);
    }
    hide Decode, Dense, Encode;
  }

  /** Reading back a publish, over the whole range of an even generation, wrap included. */
  lemma PublishThenRead(region: Region, slots: seq<Slot>)
    requires region.generation % 2 == 0 && Dense(slots)
    ensures Read(Published(region, slots)) == Ok(slots)
    ensures region.generation == 0xFFFF_FFFF_FFFF_FFFE ==> Published(region, slots).generation == 0
  {
    DecodeEncode(slots);
  }

  // ----- `publish` is the writer's steps run to the end

  function RegionOf(s: Seqlock.State): Region {
    Region(s.generation, s.initialized, s.words)
  }

  /** The writer's steps, run without interruption, do exactly what `Publish` promises. */
  lemma PublishAlone(s: Seqlock.State, slots: seq<Slot>)
    requires Seqlock.Paced(s) && s.writer.Idle? && Seqlock.Publishable(s, slots) && |s.words| == 4 * s.slotCount
    requires forall r | r in s.readers ::
               s.readers[r].Checking? || s.readers[r].Copying? ==> |s.pubs| + 1 - s.readers[r].begun < Seqlock.WRAP
    ensures var steps := [Seqlock.WLoad(slots)] + ([Seqlock.WOdd] + SeqlockProgress.Finishing(|s.words|));
            && Seqlock.ValidRun(s, steps)
            && RegionOf(Seqlock.End(s, steps)) == Published(RegionOf(s), slots)
  {
    var s1 := Seqlock.Next(s, Seqlock.WLoad(slots));
    var s2 := Seqlock.Next(s1, Seqlock.WOdd);
    assert Seqlock.Paced(s1) && Seqlock.Paced(s2);
    SeqlockProgress.StoreAndClose(s2);
    SeqlockProgress.StepThen(s1, Seqlock.WOdd, SeqlockProgress.Finishing(|s.words|));
    SeqlockProgress.StepThen(s, Seqlock.WLoad(slots), [Seqlock.WOdd] + SeqlockProgress.Finishing(|s.words|));
  }

  // ----- attaching the members of a channel

  datatype Member = Member(instance: string, channel: string)

  /** What the loaded project of a member answers: the declared slot count of the channel,
      if it declares it, and the result of `sim_shared_write`. */
  datatype Device = Device(slotCount: Option<nat>, prime: Option<seq<Slot>>)

  datatype File = Missing | Empty | Sized(capacity: nat, headerSlots: nat, region: Region)

  /** Stable sort on "is not the writer": the writer's members first, otherwise in order. */
  function WriterFirst(members: seq<Member>, writer: string): seq<Member> {
    Only(members, writer, true) + Only(members, writer, false)
  }

  function Only(members: seq<Member>, writer: string, isWriter: bool): (r: seq<Member>)
    ensures forall m :: m in r <==> m in members && (m.instance == writer) == isWriter
  {
    if members == [] then []
    else
      var rest := Only(members[1..], writer, isWriter);
      if (members[0].instance == writer) == isWriter then [members[0]] + rest else rest
  }

  lemma {:induction false} OnlyAppends(a: seq<Member>, b: seq<Member>, writer: string, isWriter: bool)
    ensures Only(a + b, writer, isWriter) == Only(a, writer, isWriter) + Only(b, writer, isWriter)
  {
    if a == [] {
      assert a + b == b;
    } else {
      assert (a + b)[1..] == a[1..] + b;
      OnlyAppends(a[1..], b, writer, isWriter);
    }
  }

  /** Some member stands at i, another at j, in this order. */
  predicate Before(xs: seq<Member>, x: Member, y: Member) {
    exists i, j :: 0 <= i < j < |xs| && xs[i] == x && xs[j] == y
  }

  lemma WriterFirstKeepsAll(members: seq<Member>, writer: string)
    ensures multiset(WriterFirst(members, writer)) == multiset(members)
  {
    OnlySplits(members, writer);
    hide Only;
  }

  /** The order keeps every member, puts the writer's first, and otherwise leaves any two in
      the order they came in. */
  lemma WriterFirstIsStable(members: seq<Member>, writer: string, i: nat, j: nat)
    requires i < j < |members|
    ensures multiset(WriterFirst(members, writer)) == multiset(members)
    ensures members[i].instance == writer || members[j].instance != writer
            ==> Before(WriterFirst(members, writer), members[i], members[j])
    ensures members[i].instance != writer && members[j].instance == writer
            ==> Before(WriterFirst(members, writer), members[j], members[i])
  {
    WriterFirstKeepsAll(members, writer);
    var first, rest := Only(members, writer, true), Only(members, writer, false);
    var a, b := members[i].instance == writer, members[j].instance == writer;
    var x := OnlyIndex(members, writer, i);
    var y := OnlyIndex(members, writer, j);
    if a == b {
      OnlyAscends(members, writer, i, j);
    }
    var all := WriterFirst(members, writer);
    hide Only, OnlyIndex, WriterFirst;
    var at, bt := if a then x else |first| + x, if b then y else |first| + y;
    assert all[at] == members[i] && all[bt] == members[j];
  }

  lemma {:induction false} OnlySplits(members: seq<Member>, writer: string)
    ensures multiset(Only(members, writer, true)) + multiset(Only(members, writer, false)) == multiset(members)
  {
    if members != [] {
      OnlySplits(members[1..], writer);
      assert members == [members[0]] + members[1..];
    }
  }

  /** Where a member stands among those of its kind. */
  function OnlyIndex(members: seq<Member>, writer: string, i: nat): (k: nat)
    requires i < |members|
    ensures var kept := Only(members, writer, members[i].instance == writer);
            k < |kept| && kept[k] == members[i] && k == |Only(members[..i], writer, members[i].instance == writer)|
  {
    var kind := members[i].instance == writer;
    OnlyAppends(members[..i], members[i..], writer, kind);
    assert members == members[..i] + members[i..];
    |Only(members[..i], writer, kind)|
  }

  lemma OnlyAscends(members: seq<Member>, writer: string, i: nat, j: nat)
    requires i < j < |members| && (members[i].instance == writer) == (members[j].instance == writer)
    ensures OnlyIndex(members, writer, i) < OnlyIndex(members, writer, j)
  {
    var kind := members[i].instance == writer;
    OnlyAppends(members[..i], members[i..j], writer, kind);
    assert members[..j] == members[..i] + members[i..j];
    assert Only(members[i..j], writer, kind) != [] by {
      assert members[i..j][0] == members[i];
    }
  }

  datatype Host = Host(file: File, attached: set<Member>)

  /** Opening succeeds: a writer needs a region it can create or clear, a reader one of its
      own size. */
  predicate Opens(file: File, slotCount: nat, initialize: bool) {
    if initialize then !file.Sized? || file.capacity == slotCount
    else file.Sized? && file.capacity == slotCount && file.headerSlots == slotCount
  }

  function Cleared(slotCount: nat): File {
    Sized(slotCount, slotCount, Region(0, false, seq(4 * slotCount, _ => 0)))
  }

  /** What one `SharedAttach` leaves, and whether it succeeds. */
  function AttachOne(devices: map<Member, Device>, h: Host, m: Member, writer: bool): (Host, bool) {
    if m in h.attached || m !in devices || devices[m].slotCount.None? then (h, false)
    else
      var n := devices[m].slotCount.value;
      if !Opens(h.file, n, writer) then (h, false)
      else if !writer then (h.(attached := h.attached + {m}), true)
      else
        match devices[m].prime
        case None => (h.(file := Cleared(n)), false)
        case Some(slots) =>
          if |slots| != n || !Dense(slots) then (h.(file := Cleared(n)), false)
          else (Host(Cleared(n).(region := Published(Cleared(n).region, slots)), h.attached + {m}), true)
  }

  /** The members in their order, up to the first that fails. */
  function AttachAll(devices: map<Member, Device>, h: Host, order: seq<Member>, writer: string): (Host, bool)
    decreases |order|
  {
    if order == [] then (h, true)
    else
      var (next, ok) := AttachOne(devices, h, order[0], order[0].instance == writer);
      if ok then AttachAll(devices, next, order[1..], writer) else (next, false)
  }

  predicate Declared(devices: map<Member, Device>, m: Member) {
    m in devices && devices[m].slotCount.Some?
  }

  /** What the member needs beyond being declared: a reader a region of its size, the writer
      none of another size and its full, dense first slots. */
  predicate Attaches(devices: map<Member, Device>, file: File, m: Member, writer: bool)
    requires Declared(devices, m)
  {
    var n := devices[m].slotCount.value;
    if writer then
      && (file.Sized? ==> file.capacity == n)
      && devices[m].prime.Some? && |devices[m].prime.value| == n && Dense(devices[m].prime.value)
    else file.Sized? && file.capacity == file.headerSlots == n
  }

  /** Members that agree on a size n, none attached yet, attach one and all once the first of
      them is the writer, given its first slots and no region of another size in the way. */
  lemma {:induction false} AllAttach(devices: map<Member, Device>, h: Host, order: seq<Member>, writer: string, n: nat)
    requires forall i, j :: 0 <= i < j < |order| ==> order[i] != order[j]
    requires forall i :: 0 <= i < |order| ==>
               && order[i] !in h.attached && Declared(devices, order[i]) && devices[order[i]].slotCount == Some(n)
               && (order[i].instance == writer ==>
                     devices[order[i]].prime.Some? && |devices[order[i]].prime.value| == n && Dense(devices[order[i]].prime.value))
    requires if h.file.Sized? then h.file.capacity == n else order != [] ==> order[0].instance == writer
    requires h.file.Sized? && h.file.headerSlots != n ==> order != [] ==> order[0].instance == writer
    ensures AttachAll(devices, h, order, writer).1
    decreases |order|
  {
    if order != [] {
      var (next, ok) := AttachOne(devices, h, order[0], order[0].instance == writer);
      assert ok && next.file.Sized? && next.file.capacity == next.file.headerSlots == n;
      assert forall i :: 1 <= i < |order| ==> order[i] == order[1..][i - 1] && order[i] != order[0];
      AllAttach(devices, next, order[1..], writer, n);
    }
  }

  class ChannelHost {
    var file: File
    var attached: set<Member>
    const devices: map<Member, Device>

    constructor (file: File, devices: map<Member, Device>)
      ensures this.file == file && this.devices == devices && attached == {}
    {
      this.file := file;
      this.devices := devices;
      attached := {};
    }

    /** `SharedRegion::open`: a writer creates or clears the region, a reader only opens one
        of the right size. */
    method Open(slotCount: nat, initialize: bool) returns (ok: bool)
      modifies this`file
      ensures ok <==> Opens(old(file), slotCount, initialize)
      ensures ok <==> if initialize then old(file).Sized? ==> old(file).capacity == slotCount
                      else old(file).Sized? && old(file).capacity == old(file).headerSlots == slotCount
      ensures file == if initialize && ok then Cleared(slotCount) else old(file)
    {
      if !initialize && file.Missing? {
        return false;
      }
      if !file.Sized? {
        if !initialize {
          return false;
        }
      } else if file.capacity != slotCount {
        return false;
      }
      if initialize {
        file := Sized(slotCount, slotCount, Region(0, false, seq(4 * slotCount, _ => 0)));
        return true;
      }
      return file.headerSlots == slotCount;
    }

    /** The `SharedAttach` action of one member. */
    method SharedAttach(m: Member, writer: bool) returns (ok: bool)
      modifies this`file, this`attached
      ensures (Host(file, attached), ok) == AttachOne(devices, old(Host(file, attached)), m, writer)
      ensures ok <==> Declared(devices, m) && m !in old(attached) && Attaches(devices, old(file), m, writer)
      ensures ok ==> attached == old(attached) + {m} && m !in old(attached) && file.Sized?
      ensures !ok ==> attached == old(attached)
      ensures !writer ==> file == old(file)
      ensures writer && ok ==> Primed(file, devices[m].prime.value)
      ensures writer && !ok ==>
                file == if m !in old(attached) && Declared(devices, m)
                           && (old(file).Sized? ==> old(file).capacity == devices[m].slotCount.value)
                        then Cleared(devices[m].slotCount.value) else old(file)
    {
      if m in attached || m !in devices || devices[m].slotCount.None? {
        return false;
      }
      var slotCount := devices[m].slotCount.value;
      ok := Open(slotCount, writer);
      if !ok {
        return;
      }
      if writer {
        if devices[m].prime.None? || |devices[m].prime.value| != slotCount || !Dense(devices[m].prime.value) {
          return false;
        }
        var slots := devices[m].prime.value;
        file := file.(region := Published(file.region, slots));
        assert Primed(file, slots);
      }
      attached := attached + {m};
    }

    /** `attach_shared_channel`: whenever it succeeds the region is primed, with exactly one
        publish in it, and every member is attached. */
    method AttachSharedChannel(members: seq<Member>, writer: string) returns (ok: bool)
      modifies this`file, this`attached
      ensures ok ==> (exists slots :: Primed(file, slots)) && (forall m | m in members :: m in attached)
      ensures ok <==>
                && (exists m :: m in members && m.instance == writer)
                && AttachAll(devices, old(Host(file, attached)), WriterFirst(members, writer), writer).1
    {
      if forall m | m in members :: m.instance != writer {
        return false;
      }
      var order := WriterFirst(members, writer);
      var writers := |Only(members, writer, true)|;
      for i := 0 to |order|
        invariant forall k :: 0 <= k < i ==> order[k] in attached
        invariant 0 < i ==> exists slots :: Primed(file, slots)
        invariant AttachAll(devices, old(Host(file, attached)), order, writer)
                  == AttachAll(devices, Host(file, attached), order[i..], writer)
      {
        assert order[i..][0] == order[i] && order[i..][1..] == order[i + 1..];
        assert i < writers ==> order[i] == Only(members, writer, true)[i] && order[i] in Only(members, writer, true);
        assert i == 0 ==> order[0].instance == writer by {
          var m :| m in members && m.instance == writer;
          assert m in Only(members, writer, true);
        }
        ok := SharedAttach(order[i], order[i].instance == writer);
        if !ok {
          return;
        }
      }
      forall m | m in members ensures m in attached {
        assert m in order;
      }
      ok := true;
    }
  }

  ghost predicate Primed(file: File, slots: seq<Slot>) {
    && file.Sized? && file.capacity == file.headerSlots == |slots| && Dense(slots)
    && file.region == Region(2, true, Encode(slots))
  }

  /** The interleaving that starts when attachment has finished. */
  function Attached(slots: seq<Slot>): Seqlock.State {
    Seqlock.State(|slots|, 2, true, Encode(slots), Seqlock.Idle, map[], 1, [slots], [])
  }

  ghost predicate Floor(s: Seqlock.State) {
    && s.completed >= 1
    && (forall r | r in s.readers :: !s.readers[r].Resting? ==> s.readers[r].since >= 1)
    && (forall i :: 0 <= i < |s.log| ==> s.log[i].since >= 1)
  }

  lemma {:induction false} RunKeepsFloor(s: Seqlock.State, steps: seq<Seqlock.Step>)
    requires Floor(s) && Seqlock.ValidRun(s, steps)
    ensures Floor(Seqlock.End(s, steps))
    decreases |steps|
  {
    if steps != [] {
      assert Floor(Seqlock.Next(s, steps[0]));
      RunKeepsFloor(Seqlock.Next(s, steps[0]), steps[1..]);
    }
  }

  /** After a successful attachment no reader, in any interleaving of publishes and reads,
      is ever told that the region is unpublished. */
  lemma NeverUninitialized(file: File, slots: seq<Slot>, steps: seq<Seqlock.Step>, i: nat)
    requires Primed(file, slots)
    requires Seqlock.ValidRun(Attached(slots), steps) && i < |Seqlock.End(Attached(slots), steps).log|
    ensures RegionOf(Attached(slots)) == file.region
    ensures !Seqlock.End(Attached(slots), steps).log[i].outcome.Uninitialized?
  {
    RunKeepsFloor(Attached(slots), steps);
    Seqlock.OnlyOverlapDisturbs(Attached(slots), steps, i);
  }
}
