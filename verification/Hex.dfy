/** Hexadecimal text, read two characters a byte the way `u8::from_str_radix` reads them
    (runtime/src/can/mod.rs, runtime/src/load/mod.rs). Text is ASCII. */
module Hex {
  import opened Common

  type Byte = x: int | 0 <= x < 256

  function HexDigit(c: char): Option<nat> {
    if '0' <= c <= '9' then Some(c as int - '0' as int)
    else if 'a' <= c <= 'f' then Some(c as int - 'a' as int + 10)
    else if 'A' <= c <= 'F' then Some(c as int - 'A' as int + 10)
    else None
  }

  /** `u8::from_str_radix(_, 16)` on two characters; a leading plus sign is accepted. */
  function HexPair(a: char, b: char): Option<Byte> {
    match (HexDigit(a), HexDigit(b))
    case (Some(high), Some(low)) => Some(16 * high + low)
    case (None, Some(low)) => if a == '+' then Some(low) else None
    case (_, None) => None
  }

  /** Every pair of an even-length text, in order; the first bad pair fails it all. */
  function HexBytes(text: string): (r: Option<seq<Byte>>)
    requires |text| % 2 == 0
    ensures r.Some? ==> 2 * |r.value| == |text|
    decreases |text|
  {
    if text == [] then Some([])
    else
      match (HexBytes(text[..|text| - 2]), HexPair(text[|text| - 2], text[|text| - 1]))
      case (Some(front), Some(last)) => Some(front + [last])
      case _ => None
  }

  lemma {:induction false} HexBytesPrefix(text: string, k: nat)
    requires |text| % 2 == 0 && 2 * k <= |text| && HexBytes(text[..2 * k]).None?
    ensures HexBytes(text).None?
    decreases |text|
  {
    if 2 * k < |text| {
      var front := text[..|text| - 2];
      assert front[..2 * k] == text[..2 * k];
      HexBytesPrefix(front, k);
    } else {
      assert text[..2 * k] == text;
    }
  }

  lemma NoHexBytes()
    ensures HexBytes([]) == Some([])
  {
  }

  lemma HexBytesOneMore(text: string, k: nat)
    requires |text| % 2 == 0 && 2 * k + 2 <= |text| && HexBytes(text[..2 * k]).Some?
    ensures HexBytes(text[..2 * k + 2]) ==
            match HexPair(text[2 * k], text[2 * k + 1])
            case None => None
            case Some(b) => Some(HexBytes(text[..2 * k]).value + [b])
  {
    var more := text[..2 * k + 2];
    assert more[..|more| - 2] == text[..2 * k];
  }

  // ----- printing

  function DigitChar(d: nat): char
    requires d < 16
  {
    if d < 10 then (d + '0' as int) as char else (d - 10 + 'A' as int) as char
  }

  function Printed(bytes: seq<Byte>): (r: string)
    ensures |r| == 2 * |bytes|
    decreases |bytes|
  {
    if bytes == [] then []
    else
      var last := bytes[|bytes| - 1];
      Printed(bytes[..|bytes| - 1]) + [DigitChar(last / 16), DigitChar(last % 16)]
  }

  lemma DigitsRoundTrip(d: nat)
    requires d < 16
    ensures HexDigit(DigitChar(d)) == Some(d)
  {
  }

  lemma PairRoundTrip(b: Byte)
    ensures HexPair(DigitChar(b / 16), DigitChar(b % 16)) == Some(b)
  {
    DigitsRoundTrip(b / 16);
    DigitsRoundTrip(b % 16);
  }

  lemma {:induction false} PrintedReads(bytes: seq<Byte>)
    ensures HexBytes(Printed(bytes)) == Some(bytes)
    decreases |bytes|
  {
    if bytes != [] {
      var front, last := bytes[..|bytes| - 1], bytes[|bytes| - 1];
      var text := Printed(bytes);
      assert text[..|text| - 2] == Printed(front);
      PrintedReads(front);
      PairRoundTrip(last);
      assert front + [last] == bytes;
    }
  }

  // ----- what else is read

  /** Letters may be of either case. */
  function Upper(c: char): char {
    if 'a' <= c <= 'f' then (c as int - 32) as char else c
  }

  predicate SameDigits(a: string, b: string) {
    |a| == |b| && forall i :: 0 <= i < |a| ==> Upper(a[i]) == Upper(b[i])
  }

  lemma HexDigitIff(c: char)
    ensures HexDigit(c).Some? <==> c in "0123456789abcdefABCDEF"
  {
    assert c in "0123456789abcdefABCDEF" <==> '0' <= c <= '9' || 'a' <= c <= 'f' || 'A' <= c <= 'F';
  }

  /** A byte is two digits, or a plus sign and one. */
  lemma HexPairIff(a: char, b: char)
    ensures HexPair(a, b).Some? <==> b in "0123456789abcdefABCDEF" && a in "+0123456789abcdefABCDEF"
    ensures a == '+' ==> HexPair(a, b) == HexPair('0', b)
  {
    HexDigitIff(a);
    HexDigitIff(b);
  }

  lemma SamePair(a: char, b: char, c: char, d: char)
    requires Upper(a) == Upper(c) && Upper(b) == Upper(d)
    ensures HexPair(a, b) == HexPair(c, d)
  {
    UpperDigit(a);
    UpperDigit(b);
    UpperDigit(c);
    UpperDigit(d);
    hide HexDigit, Upper;
  }

  lemma UpperDigit(c: char)
    ensures HexDigit(Upper(c)) == HexDigit(c) && (Upper(c) == '+' <==> c == '+')
  {
  }

  /** Text that differs only in the case of its letters is read as the same bytes. */
  lemma {:induction false} CaseIgnored(a: string, b: string)
    requires SameDigits(a, b) && |a| % 2 == 0
    ensures HexBytes(a) == HexBytes(b)
    decreases |a|
  {
    if a != [] {
      var n := |a| - 2;
      CaseIgnored(a[..n], b[..n]);
      SamePair(a[n], a[n + 1], b[n], b[n + 1]);
    }
  }

  predicate IsHex(c: char) {
    c in "0123456789abcdefABCDEF"
  }

  /** Digits, but for a plus sign in the place of a first digit. */
  predicate HexText(text: string) {
    forall i :: 0 <= i < |text| ==> IsHex(text[i]) || (text[i] == '+' && i % 2 == 0)
  }

  lemma PairIsHex(a: char, b: char)
    ensures HexPair(a, b).Some? <==> IsHex(b) && (IsHex(a) || a == '+')
  {
    HexPairIff(a, b);
  }

  lemma HexTextSnoc(front: string, a: char, b: char)
    requires |front| % 2 == 0
    ensures HexText(front + [a, b]) <==> HexText(front) && IsHex(b) && (IsHex(a) || a == '+')
  {
    var text, n := front + [a, b], |front|;
    HexDigitIff('+');
    assert !IsHex('+');
    hide IsHex;
    assert text[n] == a && text[n + 1] == b && (n + 1) % 2 == 1;
    if HexText(text) {
      forall i | 0 <= i < n ensures IsHex(front[i]) || (front[i] == '+' && i % 2 == 0) {
        assert text[i] == front[i];
      }
    }
  }

  /** Only such text is bytes. */
  lemma {:induction false} HexBytesIff(text: string)
    requires |text| % 2 == 0
    ensures HexBytes(text).Some? <==> HexText(text)
    decreases |text|
  {
    if text != [] {
      var n := |text| - 2;
      var front := text[..n];
      assert text == front + [text[n], text[n + 1]];
      assert HexBytes(text).Some? <==> HexBytes(front).Some? && HexPair(text[n], text[n + 1]).Some?;
      hide HexBytes, HexPair, IsHex, HexText;
      HexBytesIff(front);
      PairIsHex(text[n], text[n + 1]);
      HexTextSnoc(front, text[n], text[n + 1]);
    }
  }

  predicate IsDigit(c: char) {
    '0' <= c <= '9' || 'A' <= c <= 'F'
  }

  predicate AllDigits(s: string) {
    forall i :: 0 <= i < |s| ==> IsDigit(s[i])
  }

  lemma {:induction false} PrintedDigits(bytes: seq<Byte>)
    ensures forall i :: 0 <= i < |Printed(bytes)| ==> IsDigit(Printed(bytes)[i])
    decreases |bytes|
  {
    if bytes != [] {
      PrintedDigits(bytes[..|bytes| - 1]);
    }
  }
}
