/** The flash a project keeps (template/src/adapter.zig) and the loader that writes the
    configured regions into it (runtime/src/sim/project.rs). */
module FlashTarget {
  import opened Hex
  import opened Flash

  const FLASH_BASE: nat := 0x0800_0000
  const FLASH_SIZE: nat := 256

  predicate Accepts(r: Region) {
    r.data == [] || (FLASH_BASE <= r.base && r.base - FLASH_BASE + |r.data| <= FLASH_SIZE)
  }

  /** The flash with the bytes of an image laid over it. */
  function Overlaid(flash: seq<Byte>, m: Image): (r: seq<Byte>)
    requires |flash| == FLASH_SIZE
    ensures |r| == FLASH_SIZE
  {
    seq(FLASH_SIZE, k requires 0 <= k < FLASH_SIZE => if FLASH_BASE + k in m then m[FLASH_BASE + k] else flash[k])
  }

  /** Byte by byte, the flash with one region laid over it. */
  lemma OverlaidBytes(flash: seq<Byte>, base: nat, data: seq<Byte>, k: nat)
    requires |flash| == 256 && k < 256
    ensures Overlaid(flash, Over(map[], Region(base, data)))[k]
            == if base <= 0x0800_0000 + k < base + |data| then data[0x0800_0000 + k - base] else flash[k]
  {
    OverAt(map[], Region(base, data), 0x0800_0000 + k);
  }

  class NonVolatileState {
    const flash: array<Byte>

    constructor ()
      ensures fresh(flash) && flash.Length == FLASH_SIZE && forall k :: 0 <= k < FLASH_SIZE ==> flash[k] == 0xFF
    {
      flash := new Byte[FLASH_SIZE](_ => 0xFF);
    }

    method FlashWrite(base: nat, data: seq<Byte>) returns (ok: bool)
      requires flash.Length == FLASH_SIZE
      modifies flash
      ensures ok <==> Accepts(Region(base, data))
      ensures ok <==> data == [] || (0x0800_0000 <= base && base + |data| <= 0x0800_0100)
      ensures flash[..] == if ok then Overlaid(old(flash[..]), Over(map[], Region(base, data))) else old(flash[..])
    {
      ghost var before := flash[..];
      if |data| == 0 {
        assert flash[..] == Overlaid(before, Over(map[], Region(base, data)));
        return true;
      }
      if base < FLASH_BASE {
        return false;
      }
      var offset := base - FLASH_BASE;
      if offset + |data| > FLASH_SIZE {
        return false;
      }
      forall k | 0 <= k < |data| {
        flash[offset + k] := data[k];
      }
      ok := true;
      assert flash[..] == Overlaid(before, Over(map[], Region(base, data))) by {
        forall k | 0 <= k < FLASH_SIZE
          ensures flash[k] == Overlaid(before, Over(map[], Region(base, data)))[k]
        {
          assert Inside(Region(base, data), FLASH_BASE + k) <==> offset <= k < offset + |data|;
        }
      }
    }

    /** Writes region after region and gives up at the first refusal. */
    method Load(regions: seq<Region>) returns (ok: bool)
      requires flash.Length == FLASH_SIZE
      modifies flash
      ensures ok <==> AllAccepted(regions)
      ensures ok ==> flash[..] == Overlaid(old(flash[..]), Painted(map[], regions))
    {
      var i := 0;
      assert flash[..] == Overlaid(flash[..], Painted(map[], regions[..0]));
      while i < |regions|
        invariant i <= |regions| && AllAccepted(regions[..i])
        invariant flash[..] == Overlaid(old(flash[..]), Painted(map[], regions[..i]))
      {
        ghost var image := Painted(map[], regions[..i]);
        var written := FlashWrite(regions[i].base, regions[i].data);
        if !written {
          return false;
        }
        PaintedSnoc(regions, i);
        OverlaidTwice(old(flash[..]), image, regions[i]);
        i := i + 1;
      }
      assert regions[..i] == regions;
      ok := true;
    }
  }

  predicate AllAccepted(regions: seq<Region>) {
    forall i :: 0 <= i < |regions| ==> Accepts(regions[i])
  }

  lemma PaintedSnoc(regions: seq<Region>, i: nat)
    requires i < |regions|
    ensures Painted(map[], regions[..i + 1]) == Over(Painted(map[], regions[..i]), regions[i])
  {
    assert regions[..i + 1] == regions[..i] + [regions[i]];
    PaintedAppend(map[], regions[..i], [regions[i]]);
    var m := Painted(map[], regions[..i]);
    assert [regions[i]][1..] == [];
    assert Painted(m, [regions[i]]) == Painted(Over(m, regions[i]), []);
  }

  lemma OverlaidTwice(flash: seq<Byte>, m: Image, r: Region)
    requires |flash| == FLASH_SIZE
    ensures Overlaid(Overlaid(flash, m), Over(map[], r)) == Overlaid(flash, Over(m, r))
  {
  }

  // ----- merged or not, the flash ends up the same

  predicate InWindow(m: Image) {
    forall a :: a in m ==> FLASH_BASE <= a < FLASH_BASE + FLASH_SIZE
  }

  /** Regions are all accepted exactly when the bytes they paint lie in the flash. */
  lemma AcceptedIff(regions: seq<Region>)
    ensures AllAccepted(regions) <==> InWindow(Painted(map[], regions))
  {
    var m := Painted(map[], regions);
    if AllAccepted(regions) {
      forall a | a in m ensures FLASH_BASE <= a < FLASH_BASE + FLASH_SIZE {
        PaintedKeys(regions, a);
        var i :| 0 <= i < |regions| && Inside(regions[i], a);
        assert Accepts(regions[i]);
      }
    }
    if InWindow(m) {
      forall i | 0 <= i < |regions| ensures Accepts(regions[i]) {
        if regions[i].data != [] {
          var low, high := regions[i].base, End(regions[i]) - 1;
          assert Inside(regions[i], low) && Inside(regions[i], high);
          PaintedKeys(regions, low);
          PaintedKeys(regions, high);
        }
      }
    }
  }

  /** Loading the merged regions is accepted exactly when loading the pieces in their order
      is, and leaves the same bytes. */
  lemma MergedLoadsAlike(flash: seq<Byte>, pieces: seq<Region>, merged: seq<Region>)
    requires |flash| == FLASH_SIZE && Merged(pieces, merged)
    ensures AllAccepted(merged) <==> AllAccepted(pieces)
    ensures Overlaid(flash, Painted(map[], merged)) == Overlaid(flash, Painted(map[], pieces))
  {
    DenotesPaints(merged, Painted(map[], pieces));
    AcceptedIff(merged);
    AcceptedIff(pieces);
  }
}
