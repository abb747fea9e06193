/** The byte sums of hex records: a wrapping `u8` fold over all encoded bytes. */
module Checksums {
  import opened Hex

  function Sum(bytes: seq<Byte>): nat
    decreases |bytes|
  {
    if bytes == [] then 0 else Sum(bytes[..|bytes| - 1]) + bytes[|bytes| - 1]
  }

  /** `fold(0_u8, wrapping_add)`. */
  function WrappingSum(bytes: seq<Byte>): Byte {
    Sum(bytes) % 256
  }

  lemma SumSnoc(bytes: seq<Byte>, b: Byte)
    ensures Sum(bytes + [b]) == Sum(bytes) + b
  {
    assert (bytes + [b])[..|bytes|] == bytes;
  }

  lemma {:induction false} SumUpdate(bytes: seq<Byte>, k: nat, b: Byte)
    requires k < |bytes|
    ensures Sum(bytes[k := b]) == Sum(bytes) - bytes[k] + b
    decreases |bytes|
  {
    var front := bytes[..|bytes| - 1];
    if k < |front| {
      SumUpdate(front, k, b);
      assert bytes[k := b][..|bytes| - 1] == front[k := b];
    } else {
      assert bytes[k := b][..|bytes| - 1] == front;
    }
  }

  /** No single byte can change without changing the wrapping sum. */
  lemma OneByteShows(bytes: seq<Byte>, k: nat, b: Byte)
    requires k < |bytes| && b != bytes[k]
    ensures WrappingSum(bytes[k := b]) != WrappingSum(bytes)
  {
    SumUpdate(bytes, k, b);
  }

  /** The byte that brings a sum to `target`. */
  function Completing(bytes: seq<Byte>, target: Byte): Byte {
    (256 + target - WrappingSum(bytes)) % 256
  }

  lemma CompletingIsOne(bytes: seq<Byte>, b: Byte, target: Byte)
    requires WrappingSum(bytes + [b]) == target
    ensures b == Completing(bytes, target)
  {
    SumSnoc(bytes, b);
  }

  lemma CompletedSum(bytes: seq<Byte>, target: Byte)
    ensures WrappingSum(bytes + [Completing(bytes, target)]) == target
  {
    SumSnoc(bytes, Completing(bytes, target));
    assert (Sum(bytes) + Completing(bytes, target)) % 256 == target by {
      hide Sum;
    }
  }
}
