/** Powers of two, the bits of a number, and the bits of a byte array. */
module Bits {
  import opened Arithmetic

  function Pow2(n: nat): (r: nat)
    ensures r >= 1
  {
    if n == 0 then 1 else 2 * Pow2(n - 1)
  }

  lemma {:induction false} Pow2Adds(a: nat, b: nat)
    ensures Pow2(a + b) == Pow2(a) * Pow2(b)
    decreases a
  {
    if a > 0 {
      Pow2Adds(a - 1, b);
    }
  }

  lemma Pow2Byte()
    ensures Pow2(8) == 0x100
  {
    assert Pow2(4) == 16;
    Pow2Adds(4, 4);
  }

  lemma Pow2Doubled(n: nat, square: nat)
    requires Pow2(n) * Pow2(n) == square
    ensures Pow2(2 * n) == square
  {
    Pow2Adds(n, n);
  }

  lemma Pow2Last()
    ensures Pow2(64) == 2 * Pow2(63)
  {
  }

  lemma Pow2Words()
    ensures Pow2(63) == 0x8000_0000_0000_0000 && Pow2(64) == 0x1_0000_0000_0000_0000
  {
    hide Pow2;
    Pow2Byte();
    Pow2Doubled(8, 0x1_0000);
    Pow2Doubled(16, 0x1_0000_0000);
    Pow2Doubled(32, 0x1_0000_0000_0000_0000);
    Pow2Last();
  }

  /** Bit `i` of a number, bit 0 being the lowest. */
  predicate NumberBit(x: nat, i: nat) {
    x / Pow2(i) % 2 == 1
  }

  lemma {:induction false} Pow2Grows(a: nat, b: nat)
    requires a <= b
    ensures Pow2(a) <= Pow2(b)
    decreases b - a
  {
    if a < b {
      Pow2Grows(a + 1, b);
    }
  }

  lemma SplitQuotient(h: nat, b: nat, m: nat)
    ensures (2 * h + b) * m == h * (2 * m) + b * m
  {
  }

  /** One more low bit of a number with quotient q and remainder r. */
  lemma OneMoreBit(x: nat, m: nat, q: nat, r: nat)
    requires r < m && x == q * m + r
    ensures x % (2 * m) == r + (if q % 2 == 1 then m else 0)
  {
    var h, b := q / 2, q % 2;
    assert q == 2 * h + b;
    SplitQuotient(h, b, m);
    assert b * m == if b == 1 then m else 0;
    RemainderIs(x, 2 * m, h, b * m + r);
  }

  lemma ModTwice(x: nat, m: nat)
    requires m > 0
    ensures x % (2 * m) == x % m + (if x / m % 2 == 1 then m else 0)
  {
    var q, r := DivMod(x, m);
    OneMoreBit(x, m, q, r);
  }

  lemma ModNextPow2(x: nat, n: nat)
    ensures x % Pow2(n + 1) == x % Pow2(n) + (if NumberBit(x, n) then Pow2(n) else 0)
  {
    ModTwice(x, Pow2(n));
  }

  // ----- bytes

  function Mask(k: nat): bv8
    requires k < 8
  {
    match k
    case 0 => 0x01
    case 1 => 0x02
    case 2 => 0x04
    case 3 => 0x08
    case 4 => 0x10
    case 5 => 0x20
    case 6 => 0x40
    case 7 => 0x80
  }

  predicate ByteBit(b: bv8, k: nat)
    requires k < 8
  {
    b & Mask(k) != 0
  }

  function WithByteBit(b: bv8, k: nat, on: bool): bv8
    requires k < 8
  {
    if on then b | Mask(k) else b & !Mask(k)
  }

  /** A byte is its bits, bit k having weight 2^k. */
  lemma ByteIsItsBits(b: bv8)
    ensures b == (if ByteBit(b, 0) then 1 else 0) | (if ByteBit(b, 1) then 2 else 0)
                 | (if ByteBit(b, 2) then 4 else 0) | (if ByteBit(b, 3) then 8 else 0)
                 | (if ByteBit(b, 4) then 16 else 0) | (if ByteBit(b, 5) then 32 else 0)
                 | (if ByteBit(b, 6) then 64 else 0) | (if ByteBit(b, 7) then 128 else 0)
  {
  }

  lemma WithByteBitChanges(b: bv8, k: nat, on: bool, j: nat)
    requires k < 8 && j < 8
    ensures ByteBit(WithByteBit(b, k, on), j) == if j == k then on else ByteBit(b, j)
  {
  }

  lemma ByteExtensional(b: bv8, c: bv8)
    requires forall k :: 0 <= k < 8 ==> ByteBit(b, k) == ByteBit(c, k)
    ensures b == c
  {
    assert ByteBit(b, 0) == ByteBit(c, 0) && ByteBit(b, 1) == ByteBit(c, 1);
    assert ByteBit(b, 2) == ByteBit(c, 2) && ByteBit(b, 3) == ByteBit(c, 3);
    assert ByteBit(b, 4) == ByteBit(c, 4) && ByteBit(b, 5) == ByteBit(c, 5);
    assert ByteBit(b, 6) == ByteBit(c, 6) && ByteBit(b, 7) == ByteBit(c, 7);
  }

  /** Bit `p` of a byte string: bit p % 8 of byte p / 8. */
  predicate BitAt(data: seq<bv8>, p: nat)
    requires p < 8 * |data|
  {
    ByteBit(data[p / 8], p % 8)
  }

  lemma BitsExtensional(a: seq<bv8>, b: seq<bv8>)
    requires |a| == |b| && forall p :: 0 <= p < 8 * |a| ==> BitAt(a, p) == BitAt(b, p)
    ensures a == b
  {
    forall i | 0 <= i < |a| ensures a[i] == b[i] {
      forall k | 0 <= k < 8 ensures ByteBit(a[i], k) == ByteBit(b[i], k) {
        assert BitAt(a, 8 * i + k) == BitAt(b, 8 * i + k);
      }
      ByteExtensional(a[i], b[i]);
    }
  }
}
