/** Flash images (runtime/src/load/mod.rs): writes into a sparse memory, last write wins,
    and its coalescing into regions. */
module Flash {
  import opened Common
  import opened Hex

  datatype Region = Region(base: nat, data: seq<Byte>)

  type Image = map<nat, Byte>

  datatype FlashError =
    | AddressOverflow(base: nat, len: nat)
    | BadRecord(line: nat)

  /** `ensure_address_range`. */
  predicate InRange(base: nat, len: nat) {
    len == 0 || base + len - 1 <= U32_MAX
  }

  function End(r: Region): nat {
    r.base + |r.data|
  }

  predicate Inside(r: Region, a: nat) {
    r.base <= a < End(r)
  }

  function Over(m: Image, r: Region): Image {
    m + map a: nat | r.base <= a < End(r) && Inside(r, a) :: r.data[a - r.base]
  }

  /** The writes of all regions, in order. */
  function Painted(m: Image, regions: seq<Region>): Image
    decreases |regions|
  {
    if regions == [] then m else Painted(Over(m, regions[0]), regions[1..])
  }

  predicate AllInRange(regions: seq<Region>) {
    forall i :: 0 <= i < |regions| ==> InRange(regions[i].base, |regions[i].data|)
  }

  // ----- canonical region lists

  /** Non-empty regions, ascending, with a gap before each next one. */
  predicate Canonical(rs: seq<Region>) {
    && (forall i :: 0 <= i < |rs| ==> rs[i].data != [])
    && (forall i, j :: 0 <= i < j < |rs| ==> End(rs[i]) < rs[j].base)
  }

  predicate Covered(rs: seq<Region>, a: nat) {
    exists i :: 0 <= i < |rs| && Inside(rs[i], a)
  }

  predicate Agrees(r: Region, m: Image) {
    forall a :: r.base <= a < End(r) ==> a in m && m[a] == r.data[a - r.base]
  }

  /** The list says exactly what the image says. */
  predicate Denotes(rs: seq<Region>, m: Image) {
    && (forall i :: 0 <= i < |rs| ==> Agrees(rs[i], m))
    && (forall a :: a in m ==> Covered(rs, a))
  }

  lemma StartsFirst(a: seq<Region>, b: seq<Region>, m: Image)
    requires Canonical(a) && Canonical(b) && Denotes(a, m) && Denotes(b, m) && a != []
    ensures b != [] && b[0].base <= a[0].base
  {
    assert a[0].base in m;
    assert Covered(b, a[0].base);
    var i :| 0 <= i < |b| && Inside(b[i], a[0].base);
    if i > 0 {
      assert End(b[0]) < b[i].base;
    }
  }

  lemma GapAfterFirst(a: seq<Region>, m: Image)
    requires Canonical(a) && Denotes(a, m) && a != []
    ensures End(a[0]) !in m
  {
    forall i | 0 <= i < |a| ensures !Inside(a[i], End(a[0])) {
    }
  }

  lemma FirstIsLowest(a: seq<Region>, b: seq<Region>, m: Image)
    requires Canonical(a) && Canonical(b) && Denotes(a, m) && Denotes(b, m) && a != []
    ensures b != [] && b[0].base <= a[0].base && End(b[0]) <= End(a[0])
  {
    StartsFirst(a, b, m);
    GapAfterFirst(a, m);
    assert Agrees(b[0], m);
  }

  function Without(m: Image, r: Region): Image {
    map a | a in m && !Inside(r, a) :: m[a]
  }

  lemma TailDenotes(rs: seq<Region>, m: Image)
    requires Canonical(rs) && Denotes(rs, m) && rs != []
    ensures Canonical(rs[1..]) && Denotes(rs[1..], Without(m, rs[0]))
  {
    forall i | 0 <= i < |rs[1..]| ensures Agrees(rs[1..][i], Without(m, rs[0])) {
      TailAgrees(rs[0], rs[i + 1], m);
    }
    forall a | a in Without(m, rs[0]) ensures Covered(rs[1..], a) {
      CoveredCons(rs, a);
    }
  }

  lemma TailAgrees(first: Region, later: Region, m: Image)
    requires End(first) < later.base && Agrees(later, m)
    ensures Agrees(later, Without(m, first))
  {
  }

  /** An image has at most one canonical list: equal images give equal lists. */
  lemma {:induction false} CanonicalIsUnique(a: seq<Region>, b: seq<Region>, m: Image)
    requires Canonical(a) && Canonical(b) && Denotes(a, m) && Denotes(b, m)
    ensures a == b
    decreases |a|
  {
    if a == [] {
      if b != [] {
        FirstIsLowest(b, a, m);
      }
    } else {
      FirstIsLowest(a, b, m);
      FirstIsLowest(b, a, m);
      SameRegion(a[0], b[0], m);
      TailDenotes(a, m);
      TailDenotes(b, m);
      CanonicalIsUnique(a[1..], b[1..], Without(m, a[0]));
      assert a == [a[0]] + a[1..] && b == [b[0]] + b[1..];
    }
  }

  lemma SameRegion(x: Region, y: Region, m: Image)
    requires x.base == y.base && End(x) == End(y) && Agrees(x, m) && Agrees(y, m)
    ensures x == y
  {
    forall k | 0 <= k < |x.data| ensures x.data[k] == y.data[k] {
      assert x.data[k] == m[x.base + k] && y.data[k] == m[x.base + k];
    }
  }

  // ----- painting

  lemma {:induction false} PaintedAppend(m: Image, xs: seq<Region>, ys: seq<Region>)
    ensures Painted(m, xs + ys) == Painted(Painted(m, xs), ys)
    decreases |xs|
  {
    if xs == [] {
      assert xs + ys == ys;
    } else {
      assert (xs + ys)[1..] == xs[1..] + ys;
      PaintedAppend(Over(m, xs[0]), xs[1..], ys);
    }
  }

  /** Painting over an image is painting afresh and laying the result on top. */
  lemma {:induction false} PaintedOver(m: Image, xs: seq<Region>)
    ensures Painted(m, xs) == m + Painted(map[], xs)
    decreases |xs|
  {
    if xs != [] {
      PaintedOver(Over(m, xs[0]), xs[1..]);
      PaintedOver(Over(map[], xs[0]), xs[1..]);
    }
  }

  /** Where regions put bytes. */
  lemma {:induction false} PaintedKeys(xs: seq<Region>, a: nat)
    ensures a in Painted(map[], xs) <==> Covered(xs, a)
    decreases |xs|
  {
    if xs != [] {
      PaintedOver(Over(map[], xs[0]), xs[1..]);
      PaintedKeys(xs[1..], a);
      CoveredCons(xs, a);
    }
  }

  lemma CoveredCons(xs: seq<Region>, a: nat)
    requires xs != []
    ensures Covered(xs, a) <==> Inside(xs[0], a) || Covered(xs[1..], a)
  {
    if Covered(xs[1..], a) {
      var i :| 0 <= i < |xs[1..]| && Inside(xs[1..][i], a);
      assert Inside(xs[i + 1], a);
    }
    if Covered(xs, a) && !Inside(xs[0], a) {
      var i :| 0 <= i < |xs| && Inside(xs[i], a);
      assert Inside(xs[1..][i - 1], a);
    }
  }

  /** Regions that all agree with an image and cover it paint exactly that image. */
  lemma DenotesPaints(rs: seq<Region>, m: Image)
    requires Denotes(rs, m)
    ensures Painted(map[], rs) == m
  {
    var p := Painted(map[], rs);
    forall a | a in p ensures a in m && m[a] == p[a] {
      PaintedKeys(rs, a);
      PaintedAgrees(rs, m, a);
    }
    forall a | a in m ensures a in p {
      PaintedKeys(rs, a);
    }
  }

  lemma {:induction false} PaintedAgrees(rs: seq<Region>, m: Image, a: nat)
    requires forall i :: 0 <= i < |rs| ==> Agrees(rs[i], m)
    requires a in Painted(map[], rs)
    ensures a in m && Painted(map[], rs)[a] == m[a]
    decreases |rs|
  {
    if rs != [] {
      PaintedOver(Over(map[], rs[0]), rs[1..]);
      if a in Painted(map[], rs[1..]) {
        PaintedAgrees(rs[1..], m, a);
      } else {
        assert Agrees(rs[0], m);
      }
    }
  }

  // ----- cutting regions into small pieces

  /** A region in pieces of at most n bytes. */
  function Cut(r: Region, n: nat): seq<Region>
    requires n >= 1
    decreases |r.data|
  {
    if |r.data| <= n then [r] else [Region(r.base, r.data[..n])] + Cut(Region(r.base + n, r.data[n..]), n)
  }

  function CutAll(regions: seq<Region>, n: nat): seq<Region>
    requires n >= 1
  {
    if regions == [] then [] else Cut(regions[0], n) + CutAll(regions[1..], n)
  }

  /** Pieces of at most n bytes that start below a limit. */
  predicate SmallPieces(pieces: seq<Region>, n: nat, limit: nat) {
    AllInRange(pieces) && forall i :: 0 <= i < |pieces| ==> pieces[i].base < limit && |pieces[i].data| <= n
  }

  /** Non-empty regions that lie below a limit. */
  predicate Below(regions: seq<Region>, limit: nat) {
    forall i :: 0 <= i < |regions| ==> regions[i].data != [] && End(regions[i]) <= limit
  }

  lemma OverAt(m: Image, r: Region, a: nat)
    ensures a in Over(m, r) <==> a in m || Inside(r, a)
    ensures a in Over(m, r) ==> Over(m, r)[a] == if Inside(r, a) then r.data[a - r.base] else m[a]
  {
  }

  lemma OverInTwo(m: Image, r: Region, k: nat)
    requires k <= |r.data|
    ensures Over(Over(m, Region(r.base, r.data[..k])), Region(r.base + k, r.data[k..])) == Over(m, r)
  {
    hide Over;
    var low, high := Region(r.base, r.data[..k]), Region(r.base + k, r.data[k..]);
    var x, y := Over(Over(m, low), high), Over(m, r);
    forall a: nat ensures (a in x <==> a in y) && (a in x ==> x[a] == y[a]) {
      OverAt(m, low, a);
      OverAt(Over(m, low), high, a);
      OverAt(m, r, a);
    }
  }

  lemma {:induction false} CutPaints(m: Image, r: Region, n: nat, limit: nat)
    requires n >= 1 && r.data != [] && End(r) <= limit <= U32_MAX + 1
    ensures Painted(m, Cut(r, n)) == Over(m, r) && SmallPieces(Cut(r, n), n, limit)
    decreases |r.data|
  {
    if |r.data| <= n {
      assert [r][1..] == [];
      assert Painted(m, [r]) == Painted(Over(m, r), []);
    } else {
      var first, rest := Region(r.base, r.data[..n]), Region(r.base + n, r.data[n..]);
      CutPaints(Over(m, first), rest, n, limit);
      OverInTwo(m, r, n);
      assert Cut(r, n)[1..] == Cut(rest, n);
    }
  }

  /** Cutting changes nothing about what is painted. */
  lemma {:induction false} CutAllPaints(m: Image, regions: seq<Region>, n: nat, limit: nat)
    requires n >= 1 && Below(regions, limit) && limit <= U32_MAX + 1
    ensures Painted(m, CutAll(regions, n)) == Painted(m, regions) && SmallPieces(CutAll(regions, n), n, limit)
    decreases |regions|
  {
    if regions != [] {
      CutPaints(m, regions[0], n, limit);
      CutAllPaints(Over(m, regions[0]), regions[1..], n, limit);
      PaintedAppend(m, Cut(regions[0], n), CutAll(regions[1..], n));
    }
  }

  /** A canonical list denotes what it paints. */
  lemma CanonicalPaintsItself(rs: seq<Region>)
    requires Canonical(rs)
    ensures Denotes(rs, Painted(map[], rs))
  {
    var m := Painted(map[], rs);
    forall i, a | 0 <= i < |rs| && rs[i].base <= a < End(rs[i]) ensures a in m && m[a] == rs[i].data[a - rs[i].base] {
      PaintedAt(rs, i, a);
    }
    forall i | 0 <= i < |rs| ensures Agrees(rs[i], m) {
    }
    forall a | a in m ensures Covered(rs, a) {
      PaintedKeys(rs, a);
    }
  }

  lemma {:induction false} PaintedAt(rs: seq<Region>, i: nat, a: nat)
    requires Canonical(rs) && i < |rs| && Inside(rs[i], a)
    ensures a in Painted(map[], rs) && Painted(map[], rs)[a] == rs[i].data[a - rs[i].base]
    decreases |rs|
  {
    PaintedOver(Over(map[], rs[0]), rs[1..]);
    OverAt(map[], rs[0], a);
    hide Over;
    if i > 0 {
      PaintedAt(rs[1..], i - 1, a);
    } else {
      PaintedKeys(rs[1..], a);
      forall j | 0 <= j < |rs[1..]| ensures !Inside(rs[1..][j], a) {
        assert End(rs[0]) < rs[j + 1].base;
      }
    }
  }

  /** The byte at an address is that of the last region that writes it. */
  lemma {:induction false} LastWriteWins(xs: seq<Region>, i: nat, a: nat)
    requires i < |xs| && Inside(xs[i], a) && forall j :: i < j < |xs| ==> !Inside(xs[j], a)
    ensures a in Painted(map[], xs) && Painted(map[], xs)[a] == xs[i].data[a - xs[i].base]
    decreases |xs|
  {
    PaintedOver(Over(map[], xs[0]), xs[1..]);
    OverAt(map[], xs[0], a);
    hide Over;
    if i > 0 {
      assert xs[1..][i - 1] == xs[i] && forall j :: i - 1 < j < |xs[1..]| ==> xs[1..][j] == xs[j + 1];
      LastWriteWins(xs[1..], i - 1, a);
    } else {
      PaintedKeys(xs[1..], a);
      forall j | 0 <= j < |xs[1..]| ensures !Inside(xs[1..][j], a) {
        assert xs[1..][j] == xs[j + 1];
      }
    }
  }

  // ----- merging

  /** What merging accepted pieces yields: the one canonical list of what they paint. */
  predicate Merged(pieces: seq<Region>, merged: seq<Region>) {
    AllInRange(pieces) && Canonical(merged) && Denotes(merged, Painted(map[], pieces))
  }

  lemma MergedIsOne(xs: seq<Region>, ys: seq<Region>, a: seq<Region>, b: seq<Region>)
    requires Merged(xs, a) && Merged(ys, b)
    ensures a == b <==> Painted(map[], xs) == Painted(map[], ys)
  {
    if Painted(map[], xs) == Painted(map[], ys) {
      CanonicalIsUnique(a, b, Painted(map[], xs));
    } else if a == b {
      DenotesPaints(a, Painted(map[], xs));
      DenotesPaints(a, Painted(map[], ys));
    }
  }

  lemma CoveredInRange(xs: seq<Region>, a: nat)
    requires AllInRange(xs) && Covered(xs, a)
    ensures a <= U32_MAX
  {
  }

  /** A merged list is accepted again. */
  lemma MergedInRange(xs: seq<Region>, a: seq<Region>)
    requires Merged(xs, a)
    ensures AllInRange(a)
  {
    forall i | 0 <= i < |a| ensures InRange(a[i].base, |a[i].data|) {
      var last := End(a[i]) - 1;
      assert Agrees(a[i], Painted(map[], xs));
      assert last in Painted(map[], xs);
      PaintedKeys(xs, last);
      CoveredInRange(xs, last);
    }
  }

  lemma MergeIsIdempotent(xs: seq<Region>, a: seq<Region>)
    requires Merged(xs, a)
    ensures Merged(a, a)
  {
    MergedInRange(xs, a);
    DenotesPaints(a, Painted(map[], xs));
  }

  /** Merging pieces that were merged before gives what merging all of them at once does. */
  lemma MergeOfMerges(xs: seq<Region>, ys: seq<Region>, a: seq<Region>, b: seq<Region>, c: seq<Region>)
    requires Merged(xs, a) && Merged(ys, b)
    ensures Merged(a + b, c) <==> Merged(xs + ys, c)
  {
    MergedInRange(xs, a);
    MergedInRange(ys, b);
    DenotesPaints(a, Painted(map[], xs));
    DenotesPaints(b, Painted(map[], ys));
    PaintedAppend(map[], a, b);
    PaintedAppend(map[], xs, ys);
    PaintedOver(Painted(map[], xs), b);
    PaintedOver(Painted(map[], xs), ys);
  }

  // ----- the memory itself

  lemma OverSplit(m: Image, base: nat, data: seq<Byte>, k: nat)
    requires k < |data|
    ensures Over(m, Region(base, data[..k]))[base + k := data[k]] == Over(m, Region(base, data[..k + 1]))
  {
    hide Over;
    var r, t := Region(base, data[..k]), Region(base, data[..k + 1]);
    var x, y := Over(m, r)[base + k := data[k]], Over(m, t);
    forall a: nat ensures (a in x <==> a in y) && (a in x ==> x[a] == y[a]) {
      OverAt(m, r, a);
      OverAt(m, t, a);
    }
  }

  predicate IsLowest(a: nat, s: set<nat>) {
    a in s && forall x :: x in s ==> a <= x
  }

  lemma {:induction false} LowestExists(s: set<nat>)
    requires s != {}
    ensures exists a :: IsLowest(a, s)
    decreases s
  {
    var x :| x in s;
    var rest := s - {x};
    if rest == {} {
      assert s == {x};
      assert IsLowest(x, s);
    } else {
      LowestExists(rest);
      var a :| IsLowest(a, rest);
      var low := if a < x then a else x;
      forall y | y in s ensures low <= y {
        assert y == x || y in rest;
      }
      assert IsLowest(low, s);
    }
  }

  /** The part of an image whose addresses have been visited. */
  function Visited(m: Image, todo: set<nat>): Image {
    map a | a in m && a !in todo :: m[a]
  }

  lemma VisitOne(m: Image, todo: set<nat>, addr: nat)
    requires addr in m && addr in todo
    ensures Visited(m, todo - {addr}) == Visited(m, todo)[addr := m[addr]]
  {
  }

  lemma StartRegion(rs: seq<Region>, m: Image, addr: nat, value: Byte)
    requires Canonical(rs) && Denotes(rs, m) && addr !in m
    requires forall i :: 0 <= i < |rs| ==> End(rs[i]) < addr
    ensures Canonical(rs + [Region(addr, [value])])
    ensures Denotes(rs + [Region(addr, [value])], m[addr := value])
  {
    var more, bigger := rs + [Region(addr, [value])], m[addr := value];
    forall i | 0 <= i < |more| ensures Agrees(more[i], bigger) {
      if i < |rs| {
        assert Agrees(rs[i], m);
      }
    }
    forall a | a in bigger ensures Covered(more, a) {
      if a == addr {
        assert Inside(more[|rs|], a);
      } else {
        var i :| 0 <= i < |rs| && Inside(rs[i], a);
        assert Inside(more[i], a);
      }
    }
  }

  lemma GrowRegion(regions: seq<Region>, base: nat, data: seq<Byte>, m: Image, value: Byte)
    requires var rs := regions + [Region(base, data)]; Canonical(rs) && Denotes(rs, m)
    requires base + |data| !in m
    ensures var rs := regions + [Region(base, data + [value])];
            Canonical(rs) && Denotes(rs, m[base + |data| := value])
  {
    var rs, grown := regions + [Region(base, data)], regions + [Region(base, data + [value])];
    var n, addr, bigger := |regions|, base + |data|, m[base + |data| := value];
    GrownCanonical(regions, base, data, value);
    hide Canonical, Agrees, Covered;
    forall i | 0 <= i < |grown| ensures Agrees(grown[i], bigger) {
      assert Agrees(rs[i], m);
      GrownAgrees(rs[i], m, addr, value);
      assert i < n ==> grown[i] == rs[i];
    }
    forall a | a in bigger ensures Covered(grown, a) {
      GrownCovers(regions, base, data, value, a);
    }
  }

  lemma GrownCovers(regions: seq<Region>, base: nat, data: seq<Byte>, value: Byte, a: nat)
    requires Covered(regions + [Region(base, data)], a) || a == base + |data|
    ensures Covered(regions + [Region(base, data + [value])], a)
  {
    var rs, grown := regions + [Region(base, data)], regions + [Region(base, data + [value])];
    if a == base + |data| {
      assert Inside(grown[|regions|], a);
    } else {
      var i :| 0 <= i < |rs| && Inside(rs[i], a);
      assert Inside(grown[i], a);
    }
  }

  lemma GrownAgrees(r: Region, m: Image, addr: nat, value: Byte)
    requires Agrees(r, m) && addr !in m
    ensures Agrees(r, m[addr := value])
    ensures End(r) == addr ==> Agrees(Region(r.base, r.data + [value]), m[addr := value])
  {
  }

  lemma GrownCanonical(regions: seq<Region>, base: nat, data: seq<Byte>, value: Byte)
    requires Canonical(regions + [Region(base, data)])
    ensures Canonical(regions + [Region(base, data + [value])])
  {
    var rs, grown := regions + [Region(base, data)], regions + [Region(base, data + [value])];
    forall i | 0 <= i < |grown| ensures grown[i].data != [] {
      assert rs[i].data != [];
    }
    forall i, j | 0 <= i < j < |grown| ensures End(grown[i]) < grown[j].base {
      assert grown[i] == rs[i] && grown[j].base == rs[j].base;
      assert End(rs[i]) < rs[j].base;
    }
  }

  lemma EndsInOrder(rs: seq<Region>, i: nat)
    requires Canonical(rs) && i < |rs|
    ensures End(rs[i]) <= End(rs[|rs| - 1])
  {
  }

  /** `u32::saturating_add(1)`. */
  function Successor(a: nat): nat {
    if a >= U32_MAX then U32_MAX else a + 1
  }

  class FlashMemory {
    var bytes: Image

    predicate Valid()
      reads this
    {
      forall a :: a in bytes ==> a <= U32_MAX
    }

    constructor ()
      ensures Valid() && bytes == map[]
    {
      bytes := map[];
    }

    method Write(base: nat, data: seq<Byte>) returns (r: Result<(), FlashError>)
      requires Valid()
      modifies this
      ensures Valid()
      ensures r == if InRange(base, |data|) then Ok(()) else Err(AddressOverflow(base, |data|))
      ensures r.Ok? <==> data == [] || base + |data| <= 0x1_0000_0000
      ensures bytes == if r.Ok? then Over(old(bytes), Region(base, data)) else old(bytes)
    {
      if |data| != 0 && base + |data| - 1 > U32_MAX {
        return Err(AddressOverflow(base, |data|));
      }
      var offset := 0;
      assert Over(old(bytes), Region(base, data[..0])) == old(bytes);
      while offset < |data|
        invariant offset <= |data| && bytes == Over(old(bytes), Region(base, data[..offset]))
      {
        OverSplit(old(bytes), base, data, offset);
        bytes := bytes[base + offset := data[offset]];
        offset := offset + 1;
      }
      assert data[..offset] == data;
      r := Ok(());
    }

    /** The image as its canonical list of regions. */
    method IntoRegions() returns (regions: seq<Region>)
      requires Valid()
      ensures Canonical(regions) && Denotes(regions, bytes)
    {
      hide Canonical, Denotes;
      regions := [];
      var currentBase: Option<nat> := None;
      var previousAddr: nat := 0;
      var current: seq<Byte> := [];
      var todo := bytes.Keys;
      Nothing(bytes);
      while todo != {}
        invariant todo <= bytes.Keys
        invariant currentBase.None? ==> todo == bytes.Keys && regions == []
        invariant var rs := if currentBase.None? then [] else regions + [Region(currentBase.value, current)];
                  Canonical(rs) && Denotes(rs, Visited(bytes, todo))
        invariant currentBase.Some? ==> currentBase.value + |current| == previousAddr + 1
        invariant currentBase.Some? ==> forall a :: a in todo ==> previousAddr < a
        decreases todo
      {
        LowestExists(todo);
        var addr: nat :| IsLowest(addr, todo);
        var value := bytes[addr];
        VisitOne(bytes, todo, addr);
        if currentBase.None? {
          Nothing(bytes);
          StartRegionAfter([], Visited(bytes, todo), addr, value);
          assert [] + [Region(addr, [value])] == [Region(addr, [value])];
          currentBase, previousAddr, current := Some(addr), addr, [value];
        } else if addr == Successor(previousAddr) {
          GrowRegion(regions, currentBase.value, current, Visited(bytes, todo), value);
          previousAddr := addr;
          current := current + [value];
        } else {
          var rs := regions + [Region(currentBase.value, current)];
          StartRegionAfter(rs, Visited(bytes, todo), addr, value);
          regions := rs;
          currentBase, previousAddr, current := Some(addr), addr, [value];
        }
        todo := todo - {addr};
      }
      assert Visited(bytes, {}) == bytes;
      if currentBase.Some? {
        regions := regions + [Region(currentBase.value, current)];
      }
    }
  }

  lemma Nothing(m: Image)
    ensures Canonical([]) && Denotes([], Visited(m, m.Keys))
  {
  }

  lemma StartRegionAfter(rs: seq<Region>, m: Image, addr: nat, value: Byte)
    requires Canonical(rs) && Denotes(rs, m) && addr !in m
    requires rs != [] ==> End(rs[|rs| - 1]) < addr
    ensures Canonical(rs + [Region(addr, [value])])
    ensures Denotes(rs + [Region(addr, [value])], m[addr := value])
  {
    forall i | 0 <= i < |rs| ensures End(rs[i]) < addr {
      EndsInOrder(rs, i);
    }
    StartRegion(rs, m, addr, value);
  }

  /** The first piece out of range fails the merge. */
  function FirstOverflow(pieces: seq<Region>): Option<FlashError>
    decreases |pieces|
  {
    if pieces == [] then None
    else if !InRange(pieces[0].base, |pieces[0].data|) then Some(AddressOverflow(pieces[0].base, |pieces[0].data|))
    else FirstOverflow(pieces[1..])
  }

  /** What painting the pieces gives, or the first of them that is out of range. */
  predicate Paints(r: Result<Image, FlashError>, image: Image, pieces: seq<Region>) {
    match r
    case Ok(painted) => AllInRange(pieces) && painted == Painted(image, pieces)
    case Err(error) => !AllInRange(pieces) && FirstOverflow(pieces) == Some(error)
  }

  lemma PaintsOneMore(r: Result<Image, FlashError>, image: Image, piece: Region, pieces: seq<Region>)
    ensures InRange(piece.base, |piece.data|) && Paints(r, Over(image, piece), pieces) ==> Paints(r, image, [piece] + pieces)
    ensures !InRange(piece.base, |piece.data|)
            ==> Paints(Err(AddressOverflow(piece.base, |piece.data|)), image, [piece] + pieces)
  {
    hide Over;
    var all := [piece] + pieces;
    assert all[0] == piece && all[1..] == pieces;
    assert AllInRange(all) <==> InRange(piece.base, |piece.data|) && AllInRange(pieces) by {
      assert forall i :: 1 <= i < |all| ==> all[i] == pieces[i - 1];
      assert forall i :: 0 <= i < |pieces| ==> pieces[i] == all[i + 1];
    }
  }

  method MergeRegions(pieces: seq<Region>) returns (r: Result<seq<Region>, FlashError>)
    ensures r.Ok? <==> AllInRange(pieces)
    ensures r.Ok? ==> Merged(pieces, r.value)
    ensures r.Err? ==> Some(r.error) == FirstOverflow(pieces)
  {
    hide Canonical, Denotes, Over;
    var memory := new FlashMemory();
    var i := 0;
    while i < |pieces|
      invariant i <= |pieces| && AllInRange(pieces[..i]) && memory.Valid()
      invariant Painted(map[], pieces) == Painted(memory.bytes, pieces[i..])
      invariant FirstOverflow(pieces) == FirstOverflow(pieces[i..])
    {
      assert pieces[i..][1..] == pieces[i + 1..];
      var written := memory.Write(pieces[i].base, pieces[i].data);
      if written.Err? {
        return Err(written.error);
      }
      i := i + 1;
    }
    assert pieces[..i] == pieces;
    var regions := memory.IntoRegions();
    r := Ok(regions);
  }
}
