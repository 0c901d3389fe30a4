/** Tile masks: one bit per tile, eight tiles to a byte. */
module Masks {
  import opened Arith
  import opened Tiles

  type Mask = seq<bv8>

  /** The byte with only bit `k` set, from a table; `BitIsShift` says it is the source's shift. */
  function Bit(k: nat): bv8
    requires k < 8
  {
    if k == 0 then 1 else if k == 1 then 2 else if k == 2 then 4 else if k == 3 then 8
    else if k == 4 then 16 else if k == 5 then 32 else if k == 6 then 64 else 128
  }

  lemma BitIsShift(k: nat)
    requires k < 8
    ensures Bit(k) == (1 as bv8) << k
  {
  }

  predicate Lit(b: bv8, k: nat)
    requires k < 8
  {
    b & Bit(k) != 0
  }

  function HasTile(mask: Mask, index: nat): bool {
    index / 8 < |mask| && Lit(mask[index / 8], index % 8)
  }

  /** A bit outside the mask is dropped silently, as in the source. */
  function SetTile(mask: Mask, index: nat): (r: Mask)
    ensures |r| == |mask|
  {
    if index / 8 < |mask| then mask[index / 8 := mask[index / 8] | Bit(index % 8)] else mask
  }

  method SetMapMaskBit(mask: array<bv8>, width: nat, row: nat, column: nat)
    modifies mask
    ensures mask[..] == SetTile(old(mask[..]), TileIndex(width, column, row))
  {
    var index := TileIndex(width, column, row);
    var byteIndex := index / 8;
    var bitIndex := index % 8;
    if byteIndex < mask.Length {
      mask[byteIndex] := mask[byteIndex] | Bit(bitIndex);
    }
  }

  lemma OrThenAnd(b: bv8, x: bv8, y: bv8)
    ensures (b | x) & y == (b & y) | (x & y)
  {
  }

  lemma OrKeepsOtherBits(b: bv8, k: nat, j: nat)
    requires k < 8 && j < 8
    ensures Lit(b | Bit(k), j) <==> j == k || Lit(b, j)
  {
    BitsAreDistinct(k, j);
    OrThenAnd(b, Bit(k), Bit(j));
  }

  lemma BitsAreDistinct(k: nat, j: nat)
    requires k < 8 && j < 8
    ensures Bit(k) & Bit(j) == if k == j then Bit(j) else 0
    ensures Bit(k) != 0
  {
    assert Bit(0) == 1 && Bit(1) == 2 && Bit(2) == 4 && Bit(3) == 8;
    assert Bit(4) == 16 && Bit(5) == 32 && Bit(6) == 64 && Bit(7) == 128;
  }

  /** Setting a tile adds that tile and no other. */
  lemma SetTileAddsOne(mask: Mask, index: nat, j: nat)
    requires index < 8 * |mask|
    ensures HasTile(SetTile(mask, index), j) <==> j == index || HasTile(mask, j)
  {
    if j / 8 == index / 8 {
      OrKeepsOtherBits(mask[index / 8], index % 8, j % 8);
    }
  }

  // ----- a mask is its set of tiles

  lemma ByteIsItsBits(a: bv8, b: bv8)
    requires forall k :: 0 <= k < 8 ==> Lit(a, k) == Lit(b, k)
    ensures a == b
  {
    assert Bit(0) == 1 && Bit(1) == 2 && Bit(2) == 4 && Bit(3) == 8;
    assert Bit(4) == 16 && Bit(5) == 32 && Bit(6) == 64 && Bit(7) == 128;
    assert Lit(a, 0) == Lit(b, 0) && a & 1 == b & 1;
    assert Lit(a, 1) == Lit(b, 1) && a & 2 == b & 2;
    assert Lit(a, 2) == Lit(b, 2) && a & 4 == b & 4;
    assert Lit(a, 3) == Lit(b, 3) && a & 8 == b & 8;
    assert Lit(a, 4) == Lit(b, 4) && a & 16 == b & 16;
    assert Lit(a, 5) == Lit(b, 5) && a & 32 == b & 32;
    assert Lit(a, 6) == Lit(b, 6) && a & 64 == b & 64;
    assert Lit(a, 7) == Lit(b, 7) && a & 128 == b & 128;
    assert a == (a & 1) | (a & 2) | (a & 4) | (a & 8) | (a & 16) | (a & 32) | (a & 64) | (a & 128);
    assert b == (b & 1) | (b & 2) | (b & 4) | (b & 8) | (b & 16) | (b & 32) | (b & 64) | (b & 128);
  }

  /** Two masks of one length holding the same tiles are the same bytes. */
  lemma MaskIsItsTiles(a: Mask, b: Mask)
    requires |a| == |b| && forall i: nat :: i < 8 * |a| ==> HasTile(a, i) == HasTile(b, i)
    ensures a == b
  {
    forall n | 0 <= n < |a| ensures a[n] == b[n] {
      forall k | 0 <= k < 8 ensures Lit(a[n], k) == Lit(b[n], k) {
        DivModUnique(8 * n + k, 8, n, k);
        assert HasTile(a, 8 * n + k) == HasTile(b, 8 * n + k);
      }
      ByteIsItsBits(a[n], b[n]);
    }
  }

  // ----- counting

  function Bits(b: bv8): (s: seq<bool>)
    ensures |s| == 8 && forall k :: 0 <= k < 8 ==> s[k] == Lit(b, k)
  {
    [Lit(b, 0), Lit(b, 1), Lit(b, 2), Lit(b, 3), Lit(b, 4), Lit(b, 5), Lit(b, 6), Lit(b, 7)]
  }

  function CountTrue(s: seq<bool>): nat {
    if s == [] then 0 else CountTrue(s[..|s| - 1]) + if s[|s| - 1] then 1 else 0
  }

  /** The source's `count_ones` over every byte. */
  function CountSetBits(mask: Mask): nat {
    if mask == [] then 0 else CountSetBits(mask[..|mask| - 1]) + CountTrue(Bits(mask[|mask| - 1]))
  }

  /** Positions of the true entries, numbered from `base`. */
  function TrueAt(s: seq<bool>, base: nat): set<nat> { set j: nat | j < |s| && s[j] :: base + j }

  lemma {:induction false} CountTrueCounts(s: seq<bool>, base: nat)
    ensures CountTrue(s) == |TrueAt(s, base)|
  {
    if s == [] {
      assert TrueAt(s, base) == {};
    } else {
      var n := |s| - 1;
      var front := TrueAt(s[..n], base);
      CountTrueCounts(s[..n], base);
      assert TrueAt(s, base) == if s[n] then front + {base + n} else front;
    }
  }

  /** The bits of a mask in one row. */
  function AllBits(mask: Mask): (s: seq<bool>)
    ensures |s| == 8 * |mask|
  {
    if mask == [] then [] else AllBits(mask[..|mask| - 1]) + Bits(mask[|mask| - 1])
  }

  lemma {:induction false} AllBitsAreTiles(mask: Mask, i: nat)
    requires i < 8 * |mask|
    ensures AllBits(mask)[i] == HasTile(mask, i)
  {
    var n := |mask| - 1;
    if i < 8 * n {
      AllBitsAreTiles(mask[..n], i);
    }
  }

  lemma {:induction false} CountTrueAppend(s: seq<bool>, t: seq<bool>)
    ensures CountTrue(s + t) == CountTrue(s) + CountTrue(t)
  {
    if t == [] {
      assert s + t == s;
    } else {
      CountTrueAppend(s, t[..|t| - 1]);
      assert (s + t)[..|s + t| - 1] == s + t[..|t| - 1];
    }
  }

  lemma {:induction false} CountSetBitsIsCountTrue(mask: Mask)
    ensures CountSetBits(mask) == CountTrue(AllBits(mask))
  {
    if mask != [] {
      var n := |mask| - 1;
      CountSetBitsIsCountTrue(mask[..n]);
      CountTrueAppend(AllBits(mask[..n]), Bits(mask[n]));
    }
  }

  /** The tiles a mask holds. */
  function TilesOf(mask: Mask): set<nat> { set i: nat | i < 8 * |mask| && HasTile(mask, i) }

  /** `count_set_bits` is the number of tiles in the mask. */
  lemma CountSetBitsCounts(mask: Mask)
    ensures CountSetBits(mask) == |TilesOf(mask)|
  {
    CountSetBitsIsCountTrue(mask);
    CountTrueCounts(AllBits(mask), 0);
    forall i: nat ensures i in TilesOf(mask) <==> i in TrueAt(AllBits(mask), 0) {
      if i < 8 * |mask| {
        AllBitsAreTiles(mask, i);
      }
    }
    assert TilesOf(mask) == TrueAt(AllBits(mask), 0);
  }
}
