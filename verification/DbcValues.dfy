/** Physical values in DBC signals (runtime/src/can/dbc.rs): scaling, rounding, range checks
    and two's complement. Values are reals, so what `f64` rounds away is not modelled; 64-bit
    integers wrap and saturate as in the runtime. */
module DbcValues {
  import opened Arithmetic
  import opened Common
  import opened Bits
  import opened CanFrames
  import opened Dbc

  const I64_MIN: int := -0x8000_0000_0000_0000
  const I64_MAX: int := 0x7FFF_FFFF_FFFF_FFFF

  predicate IsI64(x: int) {
    I64_MIN <= x <= I64_MAX
  }

  /** The i64 with the low 64 bits of x. */
  function WrapI64(x: int): (r: int)
    ensures IsI64(r)
  {
    var low := x % 0x1_0000_0000_0000_0000;
    if low > I64_MAX then low - 0x1_0000_0000_0000_0000 else low
  }

  /** The number that n bits stand for in two's complement. */
  function TwosComplement(raw: nat, n: nat): int
    requires n >= 1
  {
    if raw >= Pow2(n - 1) then raw - Pow2(n) else raw
  }

  /** The exact value `signed_from_raw` subtracts its way to, before it wraps. */
  function SignedExactly(raw: nat, n: nat): int
    requires n >= 1
  {
    if n >= 64 then WrapI64(raw)
    else if !NumberBit(raw, n - 1) then WrapI64(raw)
    else WrapI64(raw) - WrapI64(Pow2(n))
  }

  function SignedFromRaw(raw: nat, n: nat): int
    requires n >= 1
  {
    WrapI64(SignedExactly(raw, n))
  }

  lemma TopBit(raw: nat, n: nat)
    requires n >= 1 && raw < Pow2(n)
    ensures NumberBit(raw, n - 1) <==> raw >= Pow2(n - 1)
  {
    var m := Pow2(n - 1);
    if raw >= m {
      RemainderIs(raw, m, 1, raw - m);
    } else {
      RemainderIs(raw, m, 0, raw);
    }
  }

  lemma WrapValues(x: int)
    ensures IsI64(x) ==> WrapI64(x) == x
    ensures I64_MAX < x < 0x1_0000_0000_0000_0000 ==> WrapI64(x) == x - 0x1_0000_0000_0000_0000
  {
  }

  /** The sizes of an n-bit word. */
  lemma WordSizes(n: nat)
    requires 1 <= n <= 64
    ensures Pow2(n) == 2 * Pow2(n - 1)
    ensures n == 64 ==> Pow2(n) == 0x1_0000_0000_0000_0000
    ensures n == 63 ==> Pow2(n) == 0x8000_0000_0000_0000
    ensures n < 63 ==> Pow2(n) <= 0x4000_0000_0000_0000
  {
    assert Pow2(63) == 2 * Pow2(62);
    assert Pow2(n) == 2 * Pow2(n - 1);
    hide Pow2;
    Pow2Words();
    if n < 63 {
      Pow2Grows(n, 62);
    }
  }

  /** With wrapping subtraction the result is the two's complement reading at every size;
      the subtraction leaves the range of an i64 exactly at size 63 with the sign bit set. */
  lemma SignedIsTwosComplement(raw: nat, n: nat)
    requires 1 <= n <= 64 && raw < Pow2(n)
    ensures SignedFromRaw(raw, n) == TwosComplement(raw, n)
    ensures IsI64(SignedExactly(raw, n)) <==> !(n == 63 && raw >= Pow2(n - 1))
  {
    hide Pow2, NumberBit, WrapI64;
    WordSizes(n);
    TopBit(raw, n);
    WrapValues(raw);
    WrapValues(Pow2(n));
    WrapValues(SignedExactly(raw, n));
  }

  /** The smallest 63-bit number with its sign bit set: the exact difference is
      2^62 + 2^63, and what wraps out of it is -2^62. */
  lemma OverflowExample(raw: nat)
    requires raw == 0x4000_0000_0000_0000
    ensures raw < Pow2(63) && !IsI64(SignedExactly(raw, 63)) && SignedFromRaw(raw, 63) == 0 - raw
  {
    assert Pow2(63) == 2 * Pow2(62);
    hide Pow2, WrapI64, NumberBit;
    Pow2Words();
    SignedIsTwosComplement(raw, 63);
  }

  // ----- the integer part of encoding

  predicate InRange(valueType: ValueType, n: nat, value: int)
    requires n >= 1
  {
    match valueType
    case Signed => 0 - Pow2(n - 1) <= value < Pow2(n - 1)
    case Unsigned => 0 <= value < Pow2(n)
  }

  function EncodeRaw(valueType: ValueType, n: nat, value: int): Option<nat>
    requires n >= 1
  {
    if !InRange(valueType, n, value) then None
    else
      match valueType
      case Signed => Some(value % 0x1_0000_0000_0000_0000 % Pow2(n))
      case Unsigned => Some(value)
  }

  function DecodeRaw(valueType: ValueType, n: nat, raw: nat): int
    requires n >= 1
  {
    if valueType.Signed? then SignedFromRaw(raw, n) else raw
  }

  lemma NegativeMod(value: int, word: nat)
    requires word > 0 && 0 - word <= value < 0
    ensures value % word == value + word
  {
  }

  lemma MaskOf(value: int, word: nat, m: nat, k: nat)
    requires m > 0 && k > 0 && word == m * k && 0 - m <= value < m
    ensures value % word % m == if value < 0 then value + m else value
  {
    MulMonotone(1, k, m);
    if value < 0 {
      NegativeMod(value, word);
      WordIsMultiple(value, m, k, word);
    } else {
      RemainderIs(value, word, 0, value);
      RemainderIs(value, m, 0, value);
    }
  }

  /** What the mask leaves of a signed value that fits n bits. */
  lemma SignedEncodesTo(n: nat, value: int)
    requires 1 <= n <= 64 && InRange(Signed, n, value)
    ensures EncodeRaw(Signed, n, value) == Some(if value < 0 then value + Pow2(n) else value)
  {
    Pow2Adds(n, 64 - n);
    hide Pow2;
    Pow2Words();
    WordSizes(n);
    MaskOf(value, 0x1_0000_0000_0000_0000, Pow2(n), Pow2(64 - n));
  }

  /** An encodable integer fills n bits at most and is decoded to itself; the two ranges are
      exactly what n bits can say. */
  lemma IntegersRoundTrip(valueType: ValueType, n: nat, value: int)
    requires 1 <= n <= 64
    ensures EncodeRaw(valueType, n, value).Some? <==> InRange(valueType, n, value)
    ensures InRange(valueType, n, value) ==>
              var raw := EncodeRaw(valueType, n, value).value;
              raw < Pow2(n) && DecodeRaw(valueType, n, raw) == value
  {
    if InRange(valueType, n, value) && valueType.Signed? {
      SignedEncodesTo(n, value);
      hide Pow2, SignedFromRaw, EncodeRaw;
      WordSizes(n);
      SignedIsTwosComplement(EncodeRaw(valueType, n, value).value, n);
    }
  }

  lemma SignedReadsInRange(raw: nat, n: nat)
    requires 1 <= n && raw < Pow2(n) && Pow2(n) == 2 * Pow2(n - 1)
    ensures InRange(Signed, n, TwosComplement(raw, n))
    ensures raw == if TwosComplement(raw, n) < 0 then TwosComplement(raw, n) + Pow2(n) else TwosComplement(raw, n)
  {
    hide Pow2;
  }

  /** Every number of n bits is what exactly one value in range is encoded to: the ranges leave
      out nothing the bits can say. */
  lemma RawsRoundTrip(valueType: ValueType, n: nat, raw: nat)
    requires 1 <= n <= 64 && raw < Pow2(n)
    ensures InRange(valueType, n, DecodeRaw(valueType, n, raw))
    ensures EncodeRaw(valueType, n, DecodeRaw(valueType, n, raw)) == Some(raw)
  {
    hide *;
    if valueType.Signed? {
      DecodesSigned(n, raw);
      WordSizes(n);
      SignedReadsInRange(raw, n);
      SignedEncodesTo(n, TwosComplement(raw, n));
    } else {
      UnsignedRoundTrip(n, raw);
    }
  }

  lemma DecodesSigned(n: nat, raw: nat)
    requires 1 <= n <= 64 && raw < Pow2(n)
    ensures DecodeRaw(Signed, n, raw) == TwosComplement(raw, n)
  {
    SignedIsTwosComplement(raw, n);
    hide Pow2, SignedFromRaw;
  }

  lemma UnsignedRoundTrip(n: nat, raw: nat)
    requires 1 <= n && raw < Pow2(n)
    ensures DecodeRaw(Unsigned, n, raw) == raw && InRange(Unsigned, n, raw) && EncodeRaw(Unsigned, n, raw) == Some(raw)
  {
    hide Pow2;
  }

  lemma WordIsMultiple(value: int, m: nat, k: nat, word: nat)
    requires m > 0 && k > 0 && word == m * k && 0 - m <= value < 0
    ensures (value + word) % m == value + m
  {
    assert value + word == (k - 1) * m + (value + m);
    RemainderIs(value + word, m, k - 1, value + m);
  }

  // ----- physical values

  /** `f64::round`: halves go away from zero. */
  function Round(x: real): int {
    if x >= 0.0 then (x + 0.5).Floor else 0 - (0.5 - x).Floor
  }

  /** `round() as i64`. */
  function RoundToI64(x: real): (r: int)
    ensures IsI64(r)
  {
    if Round(x) > I64_MAX then I64_MAX else if Round(x) < I64_MIN then I64_MIN else Round(x)
  }

  function Abs(x: real): real {
    if x < 0.0 then 0.0 - x else x
  }

  /** The number an encoding writes, or why there is none. */
  function EncodeTarget(s: Signal, value: real): Result<nat, DbcError>
    requires ValidSignal(s)
  {
    if (s.min != 0.0 || s.max != 0.0) && (value < s.min || value > s.max) then Err(OutOfRange)
    else if s.factor == 0.0 then Err(ZeroFactor)
    else
      match EncodeRaw(s.valueType, s.size, RoundToI64((value - s.offset) / s.factor))
      case None => Err(RawOutOfRange)
      case Some(raw) => Ok(raw)
  }

  /** The integer a signal of a frame holds, and the value it stands for. */
  function IntegerOf(data: seq<bv8>, s: Signal): int
    requires |data| == 64 && ValidSignal(s) && Fits(s)
  {
    DecodeRaw(s.valueType, s.size, RawOf(data, s))
  }

  function ValueOf(data: seq<bv8>, s: Signal): real
    requires |data| == 64 && ValidSignal(s) && Fits(s)
  {
    Physical(s, IntegerOf(data, s))
  }

  function Physical(s: Signal, x: int): real {
    x as real * s.factor + s.offset
  }

  /** A rounded number is at most a half off exactly when it lies in the range of an i64,
      give or take a half. */
  lemma RoundsToNearest(x: real)
    ensures Abs(RoundToI64(x) as real - x) <= 0.5 <==> I64_MIN as real - 0.5 <= x <= I64_MAX as real + 0.5
  {
    if x >= 0.0 {
      var f := (x + 0.5).Floor;
      assert f as real <= x + 0.5 < f as real + 1.0;
    } else {
      var f := (0.5 - x).Floor;
      assert f as real <= 0.5 - x < f as real + 1.0;
    }
  }

  /** A number is rounded to the nearest integer, halves away from zero, and what lies beyond
      the range of an i64 becomes its nearer end. */
  lemma RoundsLike(x: real, k: int)
    requires k >= 0
    ensures x == k as real + 0.5 && k < 0x7FFF_FFFF_FFFF_FFFF ==> RoundToI64(x) == k + 1 && RoundToI64(0.0 - x) == -k - 1
    ensures k as real - 0.5 < x < k as real + 0.5 && k <= 0x7FFF_FFFF_FFFF_FFFF ==> RoundToI64(x) == k
    ensures k as real - 0.5 < 0.0 - x < k as real + 0.5 && k <= 0x8000_0000_0000_0000 ==> RoundToI64(x) == -k
    ensures x >= 0x7FFF_FFFF_FFFF_FFFF as real ==> RoundToI64(x) == 0x7FFF_FFFF_FFFF_FFFF
    ensures x <= -0x8000_0000_0000_0000 as real ==> RoundToI64(x) == -0x8000_0000_0000_0000
  {
    if x >= 0.0 {
      FloorIs(x + 0.5, k);
      FloorIs(x + 0.5, k + 1);
    } else {
      FloorIs(0.5 - x, k);
      FloorIs(0.5 - x, k + 1);
    }
  }

  lemma FloorIs(x: real, k: int)
    ensures x.Floor == k <==> k as real <= x < k as real + 1.0
  {
  }

  /** When a value can be encoded, and otherwise the first reason why not: it is outside the
      range the database gives, unless that is 0 to 0; the factor is zero; or the rounded
      quotient does not fit the signal. */
  lemma EncodesIff(s: Signal, value: real)
    requires ValidSignal(s)
    ensures EncodeTarget(s, value) == Err(OutOfRange) <==>
            !(s.min == s.max == 0.0) && !(s.min <= value <= s.max)
    ensures EncodeTarget(s, value) == Err(ZeroFactor) <==>
            (s.min == s.max == 0.0 || s.min <= value <= s.max) && s.factor == 0.0
    ensures EncodeTarget(s, value).Ok? <==>
            && (s.min == s.max == 0.0 || s.min <= value <= s.max) && s.factor != 0.0
            && var x := RoundToI64((value - s.offset) / s.factor);
               if s.valueType.Signed? then 0 - Pow2(s.size - 1) <= x < Pow2(s.size - 1) else 0 <= x < Pow2(s.size)
    ensures EncodeTarget(s, value).Err? ==> EncodeTarget(s, value).error in [OutOfRange, ZeroFactor, RawOutOfRange]
  {
    hide Pow2, RoundToI64;
  }

  lemma AbsScales(a: real, factor: real)
    ensures Abs(a * factor) == Abs(a) * Abs(factor)
  {
  }

  lemma PositiveTimes(d: real, c: real)
    requires c > 0.0
    ensures d * c >= 0.0 <==> d >= 0.0
  {
  }

  lemma ErrorScales(e: real, factor: real)
    requires factor != 0.0
    ensures Abs(e * factor) <= 0.5 * Abs(factor) <==> Abs(e) <= 0.5
  {
    AbsScales(e, factor);
    var d := 0.5 - Abs(e);
    PositiveTimes(d, Abs(factor));
    assert d * Abs(factor) == 0.5 * Abs(factor) - Abs(e) * Abs(factor);
  }

  lemma PhysicalError(s: Signal, x: int, q: real, value: real)
    requires s.factor != 0.0 && q * s.factor == value - s.offset
    ensures Abs(Physical(s, x) - value) <= 0.5 * Abs(s.factor) <==> Abs(x as real - q) <= 0.5
  {
    assert (x as real - q) * s.factor == Physical(s, x) - value;
    hide Abs;
    ErrorScales(x as real - q, s.factor);
  }

  lemma Quotient(a: real, b: real)
    requires b != 0.0
    ensures a / b * b == a
  {
  }

  /** A frame whose signal was encoded decodes to the rounded quotient, and so to the given
      value up to half a factor; only a quotient beyond an i64 can be further off. */
  lemma EncodedDecodes(before: seq<bv8>, after: seq<bv8>, s: Signal, value: real)
    requires |before| == |after| == 64 && ValidSignal(s) && Fits(s) && EncodeTarget(s, value).Ok?
    requires Inserted(before, after, s, EncodeTarget(s, value).value)
    ensures IntegerOf(after, s) == RoundToI64((value - s.offset) / s.factor)
    ensures Abs(ValueOf(after, s) - value) <= 0.5 * Abs(s.factor)
            <==> I64_MIN as real - 0.5 <= (value - s.offset) / s.factor <= I64_MAX as real + 0.5
  {
    hide Inserted, RawOf, Fits, RoundToI64, EncodeRaw, DecodeRaw, Abs, Pow2;
    var q := (value - s.offset) / s.factor;
    var raw := EncodeTarget(s, value).value;
    ReadBack(before, after, s, raw);
    IntegersRoundTrip(s.valueType, s.size, RoundToI64(q));
    RemainderIs(raw, Pow2(s.size), 0, raw);
    RoundsToNearest(q);
    Quotient(value - s.offset, s.factor);
    hide Physical;
    PhysicalError(s, RoundToI64(q), q, value);
  }

  function FrameFlags(flags: bv8, long: bool, extended: bool): bv8 {
    var fd := if long then flags | FLAG_FD else flags & !FLAG_FD;
    if extended then fd | FLAG_EXTENDED else fd & !FLAG_EXTENDED
  }

  lemma FlagsFollow(flags: bv8, long: bool, extended: bool)
    ensures var after := FrameFlags(flags, long, extended);
            && (after & FLAG_FD != 0 <==> long) && (after & FLAG_EXTENDED != 0 <==> extended)
            && after | FLAG_FD | FLAG_EXTENDED == flags | FLAG_FD | FLAG_EXTENDED
  {
  }

  /** The checks that come before anything is written. */
  method FindRaw(s: Signal, value: real) returns (r: Result<nat, DbcError>)
    requires ValidSignal(s)
    ensures r == EncodeTarget(s, value)
  {
    if (s.min != 0.0 || s.max != 0.0) && (value < s.min || value > s.max) {
      return Err(OutOfRange);
    }
    if s.factor == 0.0 {
      return Err(ZeroFactor);
    }
    hide EncodeRaw, RoundToI64;
    var raw := EncodeRaw(s.valueType, s.size, RoundToI64((value - s.offset) / s.factor));
    if raw.None? {
      return Err(RawOutOfRange);
    }
    r := Ok(raw.value);
  }

  class CanFrame {
    const data: array<bv8>
    var len: nat
    var flags: bv8

    constructor ()
      ensures data.Length == 64 && fresh(data) && len == 0 && flags == 0
    {
      data := new bv8[64](_ => 0);
      len, flags := 0, 0;
    }

    /** Encodes a value into its signal. The frame then is long enough for the message, and
        its FD and extended flags follow from the length and the signal. */
    method EncodeSignal(s: Signal, value: real) returns (r: Result<(), DbcError>)
      requires data.Length == 64 && ValidSignal(s)
      modifies data, this`len, this`flags
      ensures r.Ok? <==> EncodeTarget(s, value).Ok? && Fits(s)
      ensures r.Err? ==> len == old(len) && flags == old(flags)
      ensures EncodeTarget(s, value).Err? ==> r == Err(EncodeTarget(s, value).error) && data[..] == old(data[..])
      ensures SameOutside(old(data[..]), data[..], s)
      ensures r.Ok? ==> Inserted(old(data[..]), data[..], s, EncodeTarget(s, value).value)
      ensures r.Ok? ==> len == if s.messageSize > old(len) then s.messageSize else old(len)
      ensures r.Ok? ==> flags == FrameFlags(old(flags), len > 8, s.extended)
    {
      var raw := FindRaw(s, value);
      if raw.Err? {
        return Err(raw.error);
      }
      hide EncodeTarget, Inserted, SameOutside, Fits, FrameFlags;
      var done := InsertRaw(data, s, raw.value);
      if done.Err? {
        return Err(done.error);
      }
      if s.messageSize > len {
        len := s.messageSize;
      }
      flags := FrameFlags(flags, len > 8, s.extended);
      r := Ok(());
    }

    method DecodeSignal(s: Signal) returns (r: Result<real, DbcError>)
      requires data.Length == 64 && ValidSignal(s)
      ensures r == if Fits(s) then Ok(ValueOf(data[..], s)) else Err(OutOfBounds)
    {
      hide RawOf, Fits, Physical, SignedFromRaw, Pow2;
      var raw := ExtractRaw(data, s);
      if raw.Err? {
        return Err(OutOfBounds);
      }
      var numeric := if s.valueType.Signed? then SignedFromRaw(raw.value, s.size) else raw.value;
      r := Ok(Physical(s, numeric));
    }
  }
}
