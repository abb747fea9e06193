/** DBC signals in CAN frames (runtime/src/can/dbc.rs): a signal of 1 to 64 bits is packed
    into and read out of the 64 data bytes bit by bit, in one of two bit orders. */
module Dbc {
  import opened Common
  import opened Bits

  const FRAME_BITS: nat := 512

  datatype ByteOrder = LittleEndian | BigEndian

  datatype ValueType = Signed | Unsigned

  datatype Signal = Signal(
    start: nat, size: nat, order: ByteOrder, valueType: ValueType,
    factor: real, offset: real, min: real, max: real, messageSize: nat, extended: bool)

  datatype DbcError = OutOfBounds | OutOfRange | ZeroFactor | RawOutOfRange

  predicate ValidSignal(s: Signal) {
    1 <= s.size <= 64
  }

  function NextMotorolaBit(p: nat): nat {
    if p % 8 == 0 then p + 15 else p - 1
  }

  // ----- where the bits of a signal lie

  /** Numbers the bits of a frame byte by byte, highest bit first. */
  function Sawtooth(p: nat): nat {
    8 * (p / 8) + 7 - p % 8
  }

  /** The Motorola walk goes through the bits in exactly that order. */
  lemma MotorolaStep(p: nat)
    ensures Sawtooth(NextMotorolaBit(p)) == Sawtooth(p) + 1
    ensures Sawtooth(Sawtooth(p)) == p
    ensures p < FRAME_BITS <==> Sawtooth(p) < FRAME_BITS
  {
  }

  /** Frame bit that holds the signal's bit of weight 2^i. */
  function Position(s: Signal, i: nat): nat
    requires i < s.size
  {
    if s.order.LittleEndian? then s.start + i else Sawtooth(Sawtooth(s.start) + (s.size - 1 - i))
  }

  predicate Fits(s: Signal) {
    (if s.order.LittleEndian? then s.start else Sawtooth(s.start)) + s.size <= FRAME_BITS
  }

  predicate Occupies(s: Signal, p: nat) {
    exists i :: 0 <= i < s.size && Position(s, i) == p
  }

  predicate Disjoint(s: Signal, t: Signal) {
    forall i, j :: 0 <= i < s.size && 0 <= j < t.size ==> Position(s, i) != Position(t, j)
  }

  lemma PositionsDistinct(s: Signal, i: nat, j: nat)
    requires i < s.size && j < s.size && Position(s, i) == Position(s, j)
    ensures i == j
  {
    if s.order.BigEndian? {
      MotorolaStep(Sawtooth(s.start) + (s.size - 1 - i));
      MotorolaStep(Sawtooth(s.start) + (s.size - 1 - j));
    }
  }

  lemma FitsIff(s: Signal)
    requires ValidSignal(s)
    ensures Fits(s) <==> forall i :: 0 <= i < s.size ==> Position(s, i) < FRAME_BITS
  {
    forall i | 0 <= i < s.size ensures Fits(s) ==> Position(s, i) < FRAME_BITS {
      MotorolaStep(Sawtooth(s.start) + (s.size - 1 - i));
    }
    var last := if s.order.LittleEndian? then s.size - 1 else 0;
    MotorolaStep(Sawtooth(s.start) + (s.size - 1 - last));
    assert Position(s, last) < FRAME_BITS ==> Fits(s);
  }

  // ----- what a signal reads

  /** The number in the low `n` bits of a signal. */
  function LowBits(data: seq<bv8>, s: Signal, n: nat): nat
    requires |data| == 64 && n <= s.size && Fits(s)
  {
    if n == 0 then 0
    else LowBits(data, s, n - 1) + (if SignalBit(data, s, n - 1) then Pow2(n - 1) else 0)
  }

  predicate SignalBit(data: seq<bv8>, s: Signal, i: nat)
    requires |data| == 64 && i < s.size && Fits(s)
  {
    PositionInFrame(s, i);
    BitAt(data, Position(s, i))
  }

  lemma PositionInFrame(s: Signal, i: nat)
    requires i < s.size && Fits(s)
    ensures Position(s, i) < FRAME_BITS
  {
    MotorolaStep(Sawtooth(s.start) + (s.size - 1 - i));
  }

  /** Where the bit of weight 2^i lies. In little-endian order: i bits above the start, bytes
      filled from their lowest bit up. In big-endian order the start is the highest bit, and
      the lower ones follow down through its byte and then from the top of each next byte. */
  lemma BitsLie(data: seq<bv8>, s: Signal, i: nat)
    requires |data| == 64 && i < s.size && Fits(s)
    ensures s.order.LittleEndian? ==>
              (s.start + i) / 8 < 64 && SignalBit(data, s, i) == ByteBit(data[(s.start + i) / 8], (s.start + i) % 8)
    ensures s.order.BigEndian? ==>
              var below := 7 - s.start % 8 + (s.size - 1 - i);
              s.start / 8 + below / 8 < 64 && SignalBit(data, s, i) == ByteBit(data[s.start / 8 + below / 8], 7 - below % 8)
  {
    PositionInFrame(s, i);
    if s.order.BigEndian? {
      var below := 7 - s.start % 8 + (s.size - 1 - i);
      BelowStart(s.start, s.size - 1 - i);
      hide Sawtooth;
    }
  }

  lemma BelowStart(start: nat, steps: nat)
    ensures var below := 7 - start % 8 + steps;
            Sawtooth(Sawtooth(start) + steps) == 8 * (start / 8 + below / 8) + (7 - below % 8)
  {
    var below := 7 - start % 8 + steps;
    assert Sawtooth(start) + steps == 8 * (start / 8) + below;
    assert (8 * (start / 8) + below) / 8 == start / 8 + below / 8;
  }

  /** A signal of n whole bytes from byte b on holds them least significant first in
      little-endian order and most significant first in big-endian order. */
  lemma WholeBytes(data: seq<bv8>, s: Signal, b: nat, n: nat, j: nat, k: nat)
    requires |data| == 64 && s.size == 8 * n && b + n <= 64 && j < n && k < 8
    requires s.start == if s.order.LittleEndian? then 8 * b else 8 * b + 7
    ensures Fits(s)
    ensures SignalBit(data, s, 8 * j + k) == ByteBit(data[if s.order.LittleEndian? then b + j else b + n - 1 - j], k)
  {
    WholeBytesFit(s, b, n);
    BitsLie(data, s, 8 * j + k);
    hide *;
    if s.order.BigEndian? {
      EightTimes(b, 7);
      EightTimes(n - 1 - j, 7 - k);
      assert 7 - s.start % 8 + (s.size - 1 - (8 * j + k)) == 8 * (n - 1 - j) + (7 - k);
    } else {
      EightTimes(b + j, k);
      assert s.start + (8 * j + k) == 8 * (b + j) + k;
    }
  }

  lemma WholeBytesFit(s: Signal, b: nat, n: nat)
    requires s.size == 8 * n && b + n <= 64 && s.start == if s.order.LittleEndian? then 8 * b else 8 * b + 7
    ensures Fits(s)
  {
  }

  lemma EightTimes(q: nat, r: nat)
    requires r < 8
    ensures (8 * q + r) / 8 == q && (8 * q + r) % 8 == r
  {
  }

  function RawOf(data: seq<bv8>, s: Signal): nat
    requires |data| == 64 && Fits(s)
  {
    LowBits(data, s, s.size)
  }

  /** `after` is `before` with the signal's bits replaced by those of `raw`. */
  ghost predicate Inserted(before: seq<bv8>, after: seq<bv8>, s: Signal, raw: nat)
    requires |before| == |after| == 64 && Fits(s)
  {
    && (forall i :: 0 <= i < s.size ==> SignalBit(after, s, i) == NumberBit(raw, i))
    && (forall p :: 0 <= p < FRAME_BITS && !Occupies(s, p) ==> BitAt(after, p) == BitAt(before, p))
  }

  lemma {:induction false} LowBitsOf(data: seq<bv8>, s: Signal, raw: nat, n: nat)
    requires |data| == 64 && Fits(s) && n <= s.size
    requires forall i :: 0 <= i < n ==> SignalBit(data, s, i) == NumberBit(raw, i)
    ensures LowBits(data, s, n) == raw % Pow2(n)
    decreases n
  {
    if n > 0 {
      LowBitsOf(data, s, raw, n - 1);
      ModNextPow2(raw, n - 1);
    }
  }

  lemma {:induction false} LowBitsBound(data: seq<bv8>, s: Signal, n: nat)
    requires |data| == 64 && Fits(s) && n <= s.size
    ensures LowBits(data, s, n) < Pow2(n)
    decreases n
  {
    if n > 0 {
      LowBitsBound(data, s, n - 1);
    }
  }

  /** Reading back gives the number written, modulo the signal's size. */
  lemma ReadBack(before: seq<bv8>, after: seq<bv8>, s: Signal, raw: nat)
    requires |before| == |after| == 64 && Fits(s) && Inserted(before, after, s, raw)
    ensures RawOf(after, s) == raw % Pow2(s.size)
  {
    LowBitsOf(after, s, raw, s.size);
  }

  /** The new frame is determined by the old one and the number modulo the signal's size. */
  lemma InsertedIsOne(before: seq<bv8>, a: seq<bv8>, b: seq<bv8>, s: Signal, raw: nat)
    requires |before| == |a| == |b| == 64 && Fits(s) && Inserted(before, a, s, raw) && Inserted(before, b, s, raw)
    ensures a == b
  {
    forall p | 0 <= p < 8 * |a| ensures BitAt(a, p) == BitAt(b, p) {
      if Occupies(s, p) {
        var i :| 0 <= i < s.size && Position(s, i) == p;
        assert SignalBit(a, s, i) == SignalBit(b, s, i);
      }
    }
    BitsExtensional(a, b);
  }

  lemma DisjointBit(s: Signal, t: Signal, i: nat)
    requires Disjoint(s, t) && i < s.size
    ensures !Occupies(t, Position(s, i))
  {
  }

  /** Writing a signal leaves every disjoint signal as it was. */
  lemma {:induction false} DisjointUntouched(before: seq<bv8>, after: seq<bv8>, s: Signal, raw: nat, t: Signal, n: nat)
    requires |before| == |after| == 64 && Fits(s) && Fits(t) && Disjoint(t, s) && n <= t.size
    requires Inserted(before, after, s, raw)
    ensures LowBits(after, t, n) == LowBits(before, t, n)
    decreases n
  {
    if n > 0 {
      DisjointUntouched(before, after, s, raw, t, n - 1);
      DisjointBit(t, s, n - 1);
      PositionInFrame(t, n - 1);
    }
  }

  /** Writes of disjoint signals commute. */
  lemma DisjointCommute(d: seq<bv8>, s: Signal, x: nat, t: Signal, y: nat,
                        ds: seq<bv8>, dst: seq<bv8>, dt: seq<bv8>, dts: seq<bv8>)
    requires |d| == |ds| == |dst| == |dt| == |dts| == 64 && Fits(s) && Fits(t) && Disjoint(s, t)
    requires Inserted(d, ds, s, x) && Inserted(ds, dst, t, y)
    requires Inserted(d, dt, t, y) && Inserted(dt, dts, s, x)
    ensures dst == dts
  {
    forall p | 0 <= p < 8 * |d| ensures BitAt(dst, p) == BitAt(dts, p) {
      if Occupies(s, p) {
        var i :| 0 <= i < s.size && Position(s, i) == p;
        DisjointBit(s, t, i);
        assert SignalBit(ds, s, i) == SignalBit(dts, s, i);
      } else if Occupies(t, p) {
        var j :| 0 <= j < t.size && Position(t, j) == p;
        assert SignalBit(dst, t, j) == SignalBit(dt, t, j);
      }
    }
    BitsExtensional(dst, dts);
  }

  // ----- packing and unpacking in place

  method GetBit(data: array<bv8>, p: nat) returns (r: Result<bool, DbcError>)
    requires data.Length == 64
    ensures r == if p < FRAME_BITS then Ok(BitAt(data[..], p)) else Err(OutOfBounds)
  {
    if p / 8 >= data.Length {
      return Err(OutOfBounds);
    }
    r := Ok(ByteBit(data[p / 8], p % 8));
  }

  method SetBit(data: array<bv8>, p: nat, on: bool) returns (r: Result<(), DbcError>)
    requires data.Length == 64
    modifies data
    ensures r.Ok? <==> p < FRAME_BITS
    ensures r.Err? ==> data[..] == old(data[..])
    ensures r.Ok? ==> forall q :: 0 <= q < FRAME_BITS ==>
                        BitAt(data[..], q) == if q == p then on else BitAt(old(data[..]), q)
  {
    if p / 8 >= data.Length {
      return Err(OutOfBounds);
    }
    data[p / 8] := WithByteBit(data[p / 8], p % 8, on);
    forall q | 0 <= q < FRAME_BITS
      ensures BitAt(data[..], q) == if q == p then on else BitAt(old(data[..]), q)
    {
      WithByteBitChanges(old(data[p / 8]), p % 8, on, q % 8);
    }
    r := Ok(());
  }

  /** The bits of weight 2^lo up to but not including 2^hi are written, nothing else is. */
  ghost predicate Written(before: seq<bv8>, after: seq<bv8>, s: Signal, raw: nat, lo: nat, hi: nat)
    requires |before| == |after| == 64 && lo <= hi <= s.size
  {
    && (forall i :: lo <= i < hi ==> Position(s, i) < FRAME_BITS && BitAt(after, Position(s, i)) == NumberBit(raw, i))
    && (forall p :: 0 <= p < FRAME_BITS && (forall i :: lo <= i < hi ==> Position(s, i) != p) ==>
          BitAt(after, p) == BitAt(before, p))
  }

  lemma WriteOneMore(before: seq<bv8>, mid: seq<bv8>, after: seq<bv8>, s: Signal, raw: nat, lo: nat, hi: nat, i: nat)
    requires |before| == |mid| == |after| == 64 && lo <= hi <= s.size && i < s.size && (i == hi || i + 1 == lo)
    requires Written(before, mid, s, raw, lo, hi) && Position(s, i) < FRAME_BITS
    requires forall q :: 0 <= q < FRAME_BITS ==>
               BitAt(after, q) == if q == Position(s, i) then NumberBit(raw, i) else BitAt(mid, q)
    ensures Written(before, after, s, raw, Min(lo, i), if i == hi then hi + 1 else hi)
  {
    hide BitAt, NumberBit;
    forall j | lo <= j < hi ensures BitAt(after, Position(s, j)) == NumberBit(raw, j) {
      if Position(s, j) == Position(s, i) {
        PositionsDistinct(s, i, j);
      }
    }
  }

  lemma NothingWritten(before: seq<bv8>, s: Signal, raw: nat, i: nat)
    requires |before| == 64 && i <= s.size
    ensures Written(before, before, s, raw, i, i)
  {
  }

  lemma WrittenOutside(before: seq<bv8>, after: seq<bv8>, s: Signal, raw: nat, lo: nat, hi: nat, p: nat)
    requires |before| == |after| == 64 && lo <= hi <= s.size && Written(before, after, s, raw, lo, hi)
    requires p < FRAME_BITS && !Occupies(s, p)
    ensures BitAt(after, p) == BitAt(before, p)
  {
  }

  /** `bit_pos` after k + 1 steps, from `bit_pos` after k steps. */
  lemma WalkStep(start: nat, k: nat)
    ensures NextMotorolaBit(Sawtooth(Sawtooth(start) + k)) == Sawtooth(Sawtooth(start) + k + 1)
  {
    var p := Sawtooth(Sawtooth(start) + k);
    MotorolaStep(Sawtooth(start) + k);
    MotorolaStep(p);
    MotorolaStep(NextMotorolaBit(p));
  }

  lemma WrittenIsInserted(before: seq<bv8>, after: seq<bv8>, s: Signal, raw: nat)
    requires |before| == |after| == 64 && ValidSignal(s) && Written(before, after, s, raw, 0, s.size)
    ensures Fits(s) && Inserted(before, after, s, raw)
  {
    FitsIff(s);
  }

  ghost predicate SameOutside(before: seq<bv8>, after: seq<bv8>, s: Signal)
    requires |before| == |after| == 64
  {
    forall p :: 0 <= p < FRAME_BITS && !Occupies(s, p) ==> BitAt(after, p) == BitAt(before, p)
  }

  /** Succeeds exactly when the signal lies inside the frame; on failure too, no bit outside
      the signal changes. */
  method InsertRaw(data: array<bv8>, s: Signal, raw: nat) returns (r: Result<(), DbcError>)
    requires data.Length == 64 && ValidSignal(s)
    modifies data
    ensures r.Ok? <==> Fits(s)
    ensures r.Ok? ==> Inserted(old(data[..]), data[..], s, raw)
    ensures SameOutside(old(data[..]), data[..], s)
  {
    hide BitAt, NumberBit, Written, Occupies, Sawtooth, NextMotorolaBit, Fits, Inserted;
    FitsIff(s);
    ghost var before := data[..];
    ghost var lo, hi := 0, 0;
    match s.order {
      case LittleEndian =>
        var idx := 0;
        NothingWritten(before, s, raw, 0);
        while idx < s.size
          invariant idx <= s.size && Written(before, data[..], s, raw, 0, idx)
        {
          ghost var mid := data[..];
          var done := SetBit(data, s.start + idx, NumberBit(raw, idx));
          assert s.start + idx == Position(s, idx);
          if done.Err? {
            r := Err(done.error);
            break;
          }
          WriteOneMore(before, mid, data[..], s, raw, 0, idx, idx);
          idx := idx + 1;
        }
        lo, hi := 0, idx;
        if idx == s.size {
          WrittenIsInserted(before, data[..], s, raw);
          r := Ok(());
        }
      case BigEndian =>
        var bitPos := s.start;
        var idx := 0;
        MotorolaStep(s.start);
        NothingWritten(before, s, raw, s.size);
        while idx < s.size
          invariant idx <= s.size && bitPos == Sawtooth(Sawtooth(s.start) + idx)
          invariant Written(before, data[..], s, raw, s.size - idx, s.size)
        {
          ghost var mid := data[..];
          var shift := s.size - 1 - idx;
          var done := SetBit(data, bitPos, NumberBit(raw, shift));
          assert bitPos == Position(s, shift);
          if done.Err? {
            r := Err(done.error);
            break;
          }
          WriteOneMore(before, mid, data[..], s, raw, s.size - idx, s.size, shift);
          WalkStep(s.start, idx);
          bitPos := NextMotorolaBit(bitPos);
          idx := idx + 1;
        }
        lo, hi := s.size - idx, s.size;
        if idx == s.size {
          WrittenIsInserted(before, data[..], s, raw);
          r := Ok(());
        }
    }
    forall p | 0 <= p < FRAME_BITS && !Occupies(s, p) ensures BitAt(data[..], p) == BitAt(before, p) {
      WrittenOutside(before, data[..], s, raw, lo, hi, p);
    }
  }

  /** The number read from the signal's higher bits, scaled to weight 2^n, and the rest. */
  ghost predicate ReadFrom(data: seq<bv8>, s: Signal, n: nat, high: nat)
    requires |data| == 64 && n <= s.size
  {
    Fits(s) ==> high * Pow2(n) + LowBits(data, s, n) == RawOf(data, s)
  }

  lemma ReadOneMore(data: seq<bv8>, s: Signal, n: nat, high: nat, bit: bool)
    requires |data| == 64 && n < s.size && ReadFrom(data, s, n + 1, high)
    requires Fits(s) ==> bit == SignalBit(data, s, n)
    ensures ReadFrom(data, s, n, 2 * high + (if bit then 1 else 0))
  {
    var m := Pow2(n);
    assert (2 * high + 1) * m == high * (2 * m) + m;
    assert (2 * high) * m == high * (2 * m);
  }

  lemma ReadFromStart(data: seq<bv8>, s: Signal)
    requires |data| == 64
    ensures ReadFrom(data, s, s.size, 0)
  {
  }

  lemma ReadAll(data: seq<bv8>, s: Signal, raw: nat)
    requires |data| == 64 && Fits(s)
    ensures ReadFrom(data, s, 0, raw) ==> raw == RawOf(data, s)
    ensures RawOf(data, s) < Pow2(s.size)
  {
    LowBitsBound(data, s, s.size);
  }

  method ExtractRaw(data: array<bv8>, s: Signal) returns (r: Result<nat, DbcError>)
    requires data.Length == 64 && ValidSignal(s)
    ensures r.Ok? <==> Fits(s)
    ensures r.Ok? ==> r.value == RawOf(data[..], s) < Pow2(s.size)
  {
    hide BitAt, Sawtooth, NextMotorolaBit, Fits, ReadFrom, Pow2;
    FitsIff(s);
    match s.order {
      case LittleEndian =>
        var raw: nat := 0;
        var idx := 0;
        while idx < s.size
          invariant idx <= s.size
          invariant forall i :: 0 <= i < idx ==> Position(s, i) < FRAME_BITS
          invariant Fits(s) ==> raw == LowBits(data[..], s, idx)
        {
          var bit := GetBit(data, s.start + idx);
          assert s.start + idx == Position(s, idx);
          if bit.Err? {
            return Err(bit.error);
          }
          raw := raw + (if bit.value then Pow2(idx) else 0);
          idx := idx + 1;
        }
        ReadAll(data[..], s, raw);
        return Ok(raw);
      case BigEndian =>
        var raw: nat := 0;
        var bitPos := s.start;
        var idx := 0;
        MotorolaStep(s.start);
        ReadFromStart(data[..], s);
        while idx < s.size
          invariant idx <= s.size && bitPos == Sawtooth(Sawtooth(s.start) + idx)
          invariant forall i :: s.size - idx <= i < s.size ==> Position(s, i) < FRAME_BITS
          invariant ReadFrom(data[..], s, s.size - idx, raw)
        {
          var bit := GetBit(data, bitPos);
          assert bitPos == Position(s, s.size - idx - 1);
          if bit.Err? {
            return Err(bit.error);
          }
          ReadOneMore(data[..], s, s.size - idx - 1, raw, bit.value);
          raw := 2 * raw + (if bit.value then 1 else 0);
          WalkStep(s.start, idx);
          bitPos := NextMotorolaBit(bitPos);
          idx := idx + 1;
        }
        ReadAll(data[..], s, raw);
        return Ok(raw);
    }
  }
}
