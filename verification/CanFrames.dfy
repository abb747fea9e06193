/** CAN frames, payload hex and frame validation (runtime/src/can/mod.rs). Text is ASCII. */
module CanFrames {
  import opened Common
  import opened Hex

  const FLAG_EXTENDED: bv8 := 0x01
  const FLAG_FD: bv8 := 0x02
  const FLAG_BRS: bv8 := 0x04
  const FLAG_ESI: bv8 := 0x08
  const FLAG_RTR: bv8 := 0x10
  const FLAG_RESERVED: bv8 := 0xE0

  datatype Frame = Frame(arbId: nat, len: nat, flags: bv8, payload: seq<Byte>)

  datatype HexError = OddLength | TooLong | BadByte

  predicate Skipped(c: char) {
    c == ' ' || '\t' <= c <= '\r' || c == '_'
  }

  function Compact(raw: string): string {
    if raw == [] then []
    else (if Skipped(raw[0]) then [] else [raw[0]]) + Compact(raw[1..])
  }

  function ParsedDataHex(raw: string): Result<seq<Byte>, HexError> {
    var compact := Compact(raw);
    if |compact| % 2 != 0 then Err(OddLength)
    else if |compact| / 2 > 64 then Err(TooLong)
    else
      match HexBytes(compact)
      case None => Err(BadByte)
      case Some(bytes) => Ok(bytes)
  }

  method ParseDataHex(raw: string) returns (r: Result<seq<Byte>, HexError>)
    ensures r == ParsedDataHex(raw)
  {
    hide Compact, HexBytes, HexPair;
    var compact := Compact(raw);
    if |compact| % 2 != 0 {
      return Err(OddLength);
    }
    if |compact| / 2 > 64 {
      return Err(TooLong);
    }
    var payload := [];
    var idx := 0;
    NoHexBytes();
    while idx < |compact|
      invariant idx == 2 * |payload| <= |compact|
      invariant HexBytes(compact[..idx]) == Some(payload)
    {
      HexBytesOneMore(compact, |payload|);
      match HexPair(compact[idx], compact[idx + 1]) {
        case None =>
          HexBytesPrefix(compact, |payload| + 1);
          return Err(BadByte);
        case Some(value) => payload := payload + [value];
      }
      idx := idx + 2;
    }
    assert compact[..idx] == compact;
    return Ok(payload);
  }

  predicate FdLength(len: nat) {
    len <= 8 || len == 12 || len == 16 || len == 20 || len == 24 || len == 32 || len == 48 || len == 64
  }

  predicate FdRequested(flags: bv8) {
    flags & FLAG_FD != 0 || flags & (FLAG_BRS | FLAG_ESI) != 0
  }

  /** `validate_frame` accepts the frame on a bus of this capability. */
  predicate ValidFrame(fdCapable: bool, frame: Frame) {
    && frame.flags & FLAG_RESERVED == 0
    && (if frame.flags & FLAG_EXTENDED != 0 then frame.arbId <= 0x1FFF_FFFF else frame.arbId <= 0x7FF)
    && frame.len <= 64
    && if FdRequested(frame.flags) then fdCapable && FdLength(frame.len) && frame.flags & FLAG_RTR == 0
       else frame.len <= 8
  }

  datatype FrameError = ReservedFlags | BadId | BadLength | ClassicBus | RemoteFd

  /** The checks in the order of the runtime; each error means that all earlier ones passed. */
  method ValidateFrame(fdCapable: bool, frame: Frame) returns (r: Result<(), FrameError>)
    ensures r.Ok? <==> ValidFrame(fdCapable, frame)
    ensures r == Err(ReservedFlags) <==> frame.flags & 0xE0 != 0
    ensures r == Err(BadId) ==> frame.arbId > 0x7FF && (frame.arbId > 0x1FFF_FFFF || frame.flags & 0x01 == 0)
    ensures r == Err(ClassicBus) ==> !fdCapable && frame.len <= 64 && frame.flags & 0x0E != 0
    ensures r == Err(RemoteFd) ==> fdCapable && frame.flags & 0x10 != 0 && frame.flags & 0x0E != 0
    ensures r == Err(BadLength) ==> frame.len > 8
  {
    if frame.flags & FLAG_RESERVED != 0 {
      return Err(ReservedFlags);
    }
    if frame.flags & FLAG_EXTENDED != 0 {
      if frame.arbId > 0x1FFF_FFFF {
        return Err(BadId);
      }
    } else if frame.arbId > 0x7FF {
      return Err(BadId);
    }
    if frame.len > 64 {
      return Err(BadLength);
    }
    var fdRequested := frame.flags & FLAG_FD != 0 || frame.flags & (FLAG_BRS | FLAG_ESI) != 0;
    if fdRequested {
      if !fdCapable {
        return Err(ClassicBus);
      }
      if !FdLength(frame.len) {
        return Err(BadLength);
      }
      if frame.flags & FLAG_RTR != 0 {
        return Err(RemoteFd);
      }
    } else if frame.len > 8 {
      return Err(BadLength);
    }
    r := Ok(());
  }

  // ----- what is accepted, flag by flag

  /** The flag byte of a frame without reserved bits. */
  function FlagByte(extended: bool, fd: bool, brs: bool, esi: bool, rtr: bool): bv8 {
    (if extended then 1 else 0) | (if fd then 2 else 0) | (if brs then 4 else 0) | (if esi then 8 else 0)
    | (if rtr then 16 else 0)
  }

  /** The payload length of a data length code (ISO 11898-1): bytes up to 8, then 12, 16, 20,
      24, then 32, 48, 64. */
  function CodedLength(code: nat): nat {
    if code <= 8 then code else if code <= 12 then 4 * (code - 6) else 16 * (code - 11)
  }

  lemma FdLengthIff(len: nat)
    ensures FdLength(len) <==> exists code :: 0 <= code <= 15 && CodedLength(code) == len
  {
    if FdLength(len) {
      var code := if len <= 8 then len else if len <= 24 then len / 4 + 6 else len / 16 + 11;
      assert CodedLength(code) == len;
    }
  }

  /** A frame is taken exactly when its id fits its format and its length its kind: up to 8
      bytes without any FD flag; with one, an FD bus, a coded length and no remote request. */
  lemma ValidFrameIff(fdCapable: bool, frame: Frame, extended: bool, fd: bool, brs: bool, esi: bool, rtr: bool)
    requires frame.flags == FlagByte(extended, fd, brs, esi, rtr)
    ensures ValidFrame(fdCapable, frame) <==>
            && (if extended then frame.arbId < 0x2000_0000 else frame.arbId < 0x800)
            && if fd || brs || esi then fdCapable && !rtr && exists code :: 0 <= code <= 15 && CodedLength(code) == frame.len
               else frame.len <= 8
  {
    FdLengthIff(frame.len);
    assert frame.flags & 0xE0 == 0 && (frame.flags & 0x01 != 0 <==> extended) && (frame.flags & 0x10 != 0 <==> rtr);
    assert (frame.flags & 0x02 != 0 <==> fd) && (frame.flags & 0x0C != 0 <==> brs || esi);
    assert FLAG_BRS | FLAG_ESI == 0x0C;
    assert FdLength(frame.len) ==> frame.len <= 64;
    hide FdLength, FlagByte;
  }

  /** Reserved bits, the three highest, are refused on any bus; all other bytes are made of
      the five flags. */
  lemma ReservedRefused(fdCapable: bool, frame: Frame)
    ensures frame.flags >= 0x20 ==> !ValidFrame(fdCapable, frame)
    ensures frame.flags < 0x20 ==>
              frame.flags == FlagByte(frame.flags & 1 != 0, frame.flags & 2 != 0, frame.flags & 4 != 0,
                                      frame.flags & 8 != 0, frame.flags & 16 != 0)
  {
  }

  // ----- what payload text says

  lemma {:induction false} CompactAppend(a: string, b: string)
    ensures Compact(a + b) == Compact(a) + Compact(b)
  {
    if a == [] {
      assert a + b == b;
    } else {
      assert (a + b)[1..] == a[1..] + b;
      CompactAppend(a[1..], b);
    }
  }

  /** White space and underscores may stand anywhere. */
  lemma SeparatorsIgnored(a: string, c: char, b: string)
    requires c in [' ', '\t', '\n', '\U{000B}', '\U{000C}', '\r', '_']
    ensures ParsedDataHex(a + [c] + b) == ParsedDataHex(a + b)
  {
    CompactAppend(a + [c], b);
    CompactAppend(a, [c]);
    CompactAppend(a, b);
    assert [c][1..] == [];
    assert Compact([c]) == [] && Compact(a) + [] == Compact(a);
  }

  lemma {:induction false} CompactSolid(s: string)
    requires forall i :: 0 <= i < |s| ==> !Skipped(s[i])
    ensures Compact(s) == s
  {
    if s != [] {
      CompactSolid(s[1..]);
      assert s == [s[0]] + s[1..];
    }
  }

  lemma DigitsAreSolid(text: string)
    requires AllDigits(text)
    ensures Compact(text) == text
  {
    CompactSolid(text);
  }

  lemma PrintedWithDigit(bytes: seq<Byte>, digit: char)
    requires IsDigit(digit)
    ensures AllDigits(Printed(bytes)) && AllDigits(Printed(bytes) + [digit])
  {
    PrintedDigits(bytes);
    hide Printed, IsDigit;
  }

  lemma ParsesSolid(text: string)
    requires Compact(text) == text
    ensures |text| % 2 != 0 ==> ParsedDataHex(text) == Err(OddLength)
    ensures |text| % 2 == 0 && HexBytes(text).Some? ==>
              ParsedDataHex(text) == if |text| <= 128 then Ok(HexBytes(text).value) else Err(TooLong)
  {
    hide Compact, HexBytes;
  }

  /** The text the runtime prints for a payload parses to that payload up to 64 bytes and is
      too long beyond. */
  lemma PrintedDataParses(bytes: seq<Byte>)
    ensures ParsedDataHex(Printed(bytes)) == if |bytes| <= 64 then Ok(bytes) else Err(TooLong)
  {
    var text := Printed(bytes);
    PrintedWithDigit(bytes, '0');
    PrintedReads(bytes);
    DigitsAreSolid(text);
    EvenText(text, |bytes|);
    hide *;
    ParsesSolid(text);
  }

  lemma EvenText(text: string, n: nat)
    requires |text| == 2 * n
    ensures |text| % 2 == 0 && (|text| <= 128 <==> n <= 64)
  {
  }

  /** Half a byte more makes it odd. */
  lemma HalfByteIsOdd(bytes: seq<Byte>, digit: char)
    requires IsDigit(digit)
    ensures ParsedDataHex(Printed(bytes) + [digit]) == Err(OddLength)
  {
    PrintedWithDigit(bytes, digit);
    DigitsAreSolid(Printed(bytes) + [digit]);
    ParsesSolid(Printed(bytes) + [digit]);
    hide Printed, HexBytes, Compact, ParsedDataHex;
  }

  /** Letters of either case say the same, and any other character is an error. */
  lemma DataDigits(a: string, b: string)
    requires |a| % 2 == 0 && |a| <= 128 && forall i :: 0 <= i < |a| ==> !Skipped(a[i])
    ensures SameDigits(a, b) && (forall i :: 0 <= i < |b| ==> !Skipped(b[i])) ==> ParsedDataHex(a) == ParsedDataHex(b)
    ensures ParsedDataHex(a).Ok? <==> HexText(a)
  {
    CompactSolid(a);
    if SameDigits(a, b) && forall i :: 0 <= i < |b| ==> !Skipped(b[i]) {
      CompactSolid(b);
      CaseIgnored(a, b);
    }
    HexBytesIff(a);
  }
}
