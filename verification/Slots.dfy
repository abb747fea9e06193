/** The shared-memory form of a slot (runtime/src/sim/types.rs) as the words a
    writer stores and a reader loads one at a time. */
module Slots {
  import opened Common

  datatype SignalType = Bool | U32 | I32 | F32 | F64

  /** A typed slot. `data` stands for the payload bits of the value union. */
  datatype Slot = Slot(slotId: nat, kind: SignalType, data: int)

  datatype DecodeError = InvalidTypeTag | MismatchedTypeTags | WrongSlotId

  function Tag(kind: SignalType): nat {
    match kind
    case Bool => 0
    case U32 => 1
    case I32 => 2
    case F32 => 3
    case F64 => 4
  }

  function TypeOfTag(tag: int): Option<SignalType> {
    if tag == 0 then Some(Bool)
    else if tag == 1 then Some(U32)
    else if tag == 2 then Some(I32)
    else if tag == 3 then Some(F32)
    else if tag == 4 then Some(F64)
    else None
  }

  /** Four words: slot id, slot type tag, value type tag, value payload. */
  function ToRaw(slot: Slot): (raw: seq<int>)
    ensures |raw| == 4
  {
    [slot.slotId, Tag(slot.kind), Tag(slot.kind), slot.data]
  }

  /** `try_from_raw` followed by the dense-index check of `read_snapshot`. */
  function FromRaw(raw: seq<int>, expectedId: nat): Result<Slot, DecodeError>
    requires |raw| == 4
  {
    match (TypeOfTag(raw[1]), TypeOfTag(raw[2]))
    case (None, _) => Err(InvalidTypeTag)
    case (Some(_), None) => Err(InvalidTypeTag)
    case (Some(slotType), Some(valueType)) =>
      if slotType != valueType then Err(MismatchedTypeTags)
      else if raw[0] != expectedId then Err(WrongSlotId)
      else Ok(Slot(expectedId, slotType, raw[3]))
  }

  /** Slot ids are exactly 0, 1, 2, ... in order. */
  predicate Dense(slots: seq<Slot>) {
    forall i :: 0 <= i < |slots| ==> slots[i].slotId == i
  }

  /** The storage area after `slots` has been stored slot by slot. */
  function Encode(slots: seq<Slot>): (words: seq<int>)
    ensures |words| == 4 * |slots|
  {
    seq(4 * |slots|, i requires 0 <= i < 4 * |slots| => ToRaw(slots[i / 4])[i % 4])
  }

  /** Decodes the complete slots of a word sequence, first failure first. */
  function Decode(words: seq<int>): (r: Result<seq<Slot>, DecodeError>)
    requires |words| % 4 == 0
    ensures r.Ok? ==> |r.value| == |words| / 4 && Dense(r.value)
    decreases |words|
  {
    if words == [] then Ok([])
    else
      var cut := |words| - 4;
      match Decode(words[..cut])
      case Err(e) => Err(e)
      case Ok(front) =>
        match FromRaw(words[cut..], cut / 4)
        case Err(e) => Err(e)
        case Ok(slot) => Ok(front + [slot])
  }

  lemma FromRawToRaw(slot: Slot)
    ensures FromRaw(ToRaw(slot), slot.slotId) == Ok(slot)
  {
    assert TypeOfTag(Tag(slot.kind)) == Some(slot.kind);
  }

  /** The words of a slot: its id, its type twice (0 for a boolean, then 1 and 2 for the
      integers and 3 and 4 for the floats), and its payload. */
  lemma RawLayout(slot: Slot)
    ensures var tag := if slot.kind.Bool? then 0 else if slot.kind.U32? then 1 else if slot.kind.I32? then 2
                       else if slot.kind.F32? then 3 else 4;
            ToRaw(slot) == [slot.slotId, tag, tag, slot.data]
  {
  }

  /** Words are read as a slot exactly when they are the ones stored for it, under its own
      index; what keeps other words from being one is told in this order: a type unknown, two
      types, another id. */
  lemma FromRawIff(raw: seq<int>, expectedId: nat, slot: Slot)
    requires |raw| == 4
    ensures FromRaw(raw, expectedId) == Ok(slot) <==> slot.slotId == expectedId && raw == ToRaw(slot)
    ensures FromRaw(raw, expectedId) == Err(InvalidTypeTag) <==> !(0 <= raw[1] <= 4 && 0 <= raw[2] <= 4)
    ensures FromRaw(raw, expectedId) == Err(MismatchedTypeTags) <==> 0 <= raw[1] <= 4 && 0 <= raw[2] <= 4 && raw[1] != raw[2]
    ensures FromRaw(raw, expectedId) == Err(WrongSlotId) <==> 0 <= raw[1] == raw[2] <= 4 && raw[0] != expectedId
  {
    FromRawToRaw(slot);
    if FromRaw(raw, expectedId) == Ok(slot) {
      assert raw == [raw[0], raw[1], raw[2], raw[3]];
    }
  }

  /** Slot `k` occupies words 4k to 4k+3 of the encoding. */
  lemma EncodeAt(slots: seq<Slot>, k: nat, j: nat)
    requires k < |slots| && j < 4
    ensures 4 * k + j < |Encode(slots)| && Encode(slots)[4 * k + j] == ToRaw(slots[k])[j]
  {
    assert (4 * k + j) / 4 == k && (4 * k + j) % 4 == j;
  }

  lemma EncodeSnoc(front: seq<Slot>, last: Slot)
    ensures Encode(front + [last]) == Encode(front) + ToRaw(last)
  {
    forall j | 0 <= j < 4 ensures Encode(front + [last])[4 * |front| + j] == ToRaw(last)[j] {
      EncodeAt(front + [last], |front|, j);
    }
  }

  /** What a writer stores is what a reader of the same words decodes. */
  lemma {:induction false} DecodeEncode(slots: seq<Slot>)
    requires Dense(slots)
    ensures Decode(Encode(slots)) == Ok(slots)
    decreases |slots|
  {
    if slots != [] {
      var front, last := slots[..|slots| - 1], slots[|slots| - 1];
      DecodeEncode(front);
      EncodeSnoc(front, last);
      FromRawToRaw(last);
      DecodeStep(Encode(front), ToRaw(last));
      assert front + [last] == slots;
    }
  }

  /** Decoding one slot more. */
  lemma DecodeStep(words: seq<int>, raw: seq<int>)
    requires |words| % 4 == 0 && |raw| == 4 && Decode(words).Ok?
    ensures Decode(words + raw) ==
            match FromRaw(raw, |words| / 4)
            case Err(e) => Err(e)
            case Ok(slot) => Ok(Decode(words).value + [slot])
  {
    var all := words + raw;
    assert all[..|all| - 4] == words && all[|all| - 4..] == raw;
  }

  /** The words of slot `k`. */
  function RawAt(words: seq<int>, k: nat): (raw: seq<int>)
    requires 4 * k + 4 <= |words|
    ensures |raw| == 4
  {
    words[4 * k..4 * k + 4]
  }

  lemma RawAtPrefix(words: seq<int>, cut: nat, k: nat)
    requires cut <= |words| && 4 * k + 4 <= cut
    ensures RawAt(words[..cut], k) == RawAt(words, k)
  {
  }

  predicate ReadsAt(words: seq<int>, k: nat, slot: Result<Slot, DecodeError>)
    requires 4 * k + 4 <= |words|
  {
    FromRaw(RawAt(words, k), k) == slot
  }

  predicate ReadsAll(words: seq<int>, slots: seq<Slot>) {
    4 * |slots| <= |words| && forall k :: 0 <= k < |slots| ==> ReadsAt(words, k, Ok(slots[k]))
  }

  lemma ReadsAllPrefix(words: seq<int>, cut: nat, slots: seq<Slot>)
    requires cut <= |words| && ReadsAll(words[..cut], slots)
    ensures ReadsAll(words, slots)
  {
    forall k | 0 <= k < |slots| ensures ReadsAt(words, k, Ok(slots[k])) {
      assert ReadsAt(words[..cut], k, Ok(slots[k]));
      RawAtPrefix(words, cut, k);
    }
  }

  lemma ReadsOneMore(words: seq<int>, slots: seq<Slot>, slot: Slot)
    requires ReadsAll(words, slots) && 4 * |slots| + 4 <= |words| && ReadsAt(words, |slots|, Ok(slot))
    ensures ReadsAll(words, slots + [slot])
  {
  }

  /** Decoding reads every slot under its own index, and fails exactly with the first slot
      that is malformed or carries another id. */
  lemma {:induction false} DecodeIff(words: seq<int>) returns (good: seq<Slot>)
    requires |words| % 4 == 0
    ensures ReadsAll(words, good)
    ensures match Decode(words)
            case Ok(slots) => slots == good && 4 * |good| == |words|
            case Err(e) => 4 * |good| < |words| && |good| < |words| / 4 && ReadsAt(words, |good|, Err(e))
    decreases |words|
  {
    good := [];
    if words != [] {
      hide FromRaw, ReadsAll, RawAt;
      var cut := |words| - 4;
      good := DecodeIff(words[..cut]);
      ReadsAllPrefix(words, cut, good);
      if Decode(words[..cut]).Ok? {
        LastSlot(words);
        if Decode(words).Ok? {
          var slot := FromRaw(RawAt(words, |good|), |good|).value;
          ReadsOneMore(words, good, slot);
          good := good + [slot];
        }
      } else {
        RawAtPrefix(words, cut, |good|);
      }
    }
  }

  lemma LastSlot(words: seq<int>)
    requires |words| % 4 == 0 && words != [] && Decode(words[..|words| - 4]).Ok?
    ensures var front, n := Decode(words[..|words| - 4]).value, |words| / 4 - 1;
            && |front| == n && 4 * n + 4 <= |words|
            && Decode(words) == match FromRaw(RawAt(words, n), n)
                                case Err(e) => Err(e)
                                case Ok(slot) => Ok(front + [slot])
  {
    assert words[|words| - 4..] == RawAt(words, |words| / 4 - 1);
  }
}
