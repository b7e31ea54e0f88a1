/** Byte-array bitmaps as sets of bit numbers. */
module Bitmap {

  /** 1 << (bit & 7) */
  function Mask(bit: nat): bv8 {
    var k := bit % 8;
    if k == 0 then 0x01 else if k == 1 then 0x02 else if k == 2 then 0x04 else if k == 3 then 0x08
    else if k == 4 then 0x10 else if k == 5 then 0x20 else if k == 6 then 0x40 else 0x80
  }

  predicate IsSet(bm: seq<bv8>, bit: nat)
    requires bit / 8 < |bm|
  {
    bm[bit / 8] & Mask(bit) != 0
  }

  /** The bit numbers that are set. */
  function Bits(bm: seq<bv8>): set<nat> {
    set bit: nat | 0 <= bit < 8 * |bm| && IsSet(bm, bit)
  }

  lemma MaskSet(x: bv8, b: nat, c: nat)
    ensures (x | Mask(b)) & Mask(c) != 0 <==> b % 8 == c % 8 || x & Mask(c) != 0
  {
    MasksMeet(b, c);
    var m, n := Mask(b), Mask(c);
    assert (x | m) & n == (x & n) | (m & n);
  }

  lemma MaskClear(x: bv8, b: nat, c: nat)
    ensures (x & !Mask(b)) & Mask(c) != 0 <==> b % 8 != c % 8 && x & Mask(c) != 0
  {
    MasksMeet(b, c);
    var m, n := Mask(b), Mask(c);
    assert (x & !m) & n == x & (n & !m);
    if m & n == 0 {
      assert n & !m == n;
    } else {
      assert n & !n == 0;
    }
  }

  lemma MasksMeet(b: nat, c: nat)
    ensures Mask(b) != 0
    ensures b % 8 == c % 8 ==> Mask(b) == Mask(c)
    ensures b % 8 != c % 8 ==> Mask(b) & Mask(c) == 0
  {
  }

  /** Setting a bit sets that bit and no other. */
  lemma SetAt(bm: seq<bv8>, bit: nat, c: nat)
    requires bit / 8 < |bm| && c / 8 < |bm|
    ensures IsSet(bm[bit / 8 := bm[bit / 8] | Mask(bit)], c) <==> c == bit || IsSet(bm, c)
  {
    hide Mask;
    assert bit == 8 * (bit / 8) + bit % 8 && c == 8 * (c / 8) + c % 8;
    if bit / 8 == c / 8 {
      MaskSet(bm[bit / 8], bit, c);
    }
  }

  /** Clearing a bit clears that bit and no other. */
  lemma ClearAt(bm: seq<bv8>, bit: nat, c: nat)
    requires bit / 8 < |bm| && c / 8 < |bm|
    ensures IsSet(bm[bit / 8 := bm[bit / 8] & !Mask(bit)], c) <==> c != bit && IsSet(bm, c)
  {
    hide Mask;
    assert bit == 8 * (bit / 8) + bit % 8 && c == 8 * (c / 8) + c % 8;
    if bit / 8 == c / 8 {
      MaskClear(bm[bit / 8], bit, c);
    }
  }

  lemma ZeroBits(bm: seq<bv8>)
    requires forall k :: 0 <= k < |bm| ==> bm[k] == 0
    ensures Bits(bm) == {}
  {
    forall bit: nat | bit < 8 * |bm| ensures !IsSet(bm, bit) {
      var m := Mask(bit);
      assert bm[bit / 8] & m == 0;
    }
  }

  lemma SetBits(bm: seq<bv8>, bit: nat)
    requires bit / 8 < |bm|
    ensures Bits(bm[bit / 8 := bm[bit / 8] | Mask(bit)]) == Bits(bm) + {bit}
  {
    hide Mask, IsSet;
    var now := bm[bit / 8 := bm[bit / 8] | Mask(bit)];
    forall c: nat ensures c in Bits(now) <==> c in Bits(bm) + {bit} {
      if c < 8 * |bm| {
        SetAt(bm, bit, c);
      }
    }
  }

  lemma ClearBits(bm: seq<bv8>, bit: nat)
    requires bit / 8 < |bm|
    ensures Bits(bm[bit / 8 := bm[bit / 8] & !Mask(bit)]) == Bits(bm) - {bit}
  {
    hide Mask, IsSet;
    var now := bm[bit / 8 := bm[bit / 8] & !Mask(bit)];
    forall c: nat ensures c in Bits(now) <==> c in Bits(bm) - {bit} {
      if c < 8 * |bm| {
        ClearAt(bm, bit, c);
      }
    }
  }

  method Set(bm: array<bv8>, bit: nat)
    requires bit / 8 < bm.Length
    modifies bm
    ensures Bits(bm[..]) == old(Bits(bm[..])) + {bit}
  {
    hide Mask, IsSet, Bits;
    ghost var was := bm[..];
    bm[bit / 8] := bm[bit / 8] | Mask(bit);
    assert bm[..] == was[bit / 8 := was[bit / 8] | Mask(bit)];
    SetBits(was, bit);
  }

  method Clear(bm: array<bv8>, bit: nat)
    requires bit / 8 < bm.Length
    modifies bm
    ensures Bits(bm[..]) == old(Bits(bm[..])) - {bit}
  {
    hide Mask, IsSet, Bits;
    ghost var was := bm[..];
    bm[bit / 8] := bm[bit / 8] & !Mask(bit);
    assert bm[..] == was[bit / 8 := was[bit / 8] & !Mask(bit)];
    ClearBits(was, bit);
  }

  method Test(bm: array<bv8>, bit: nat) returns (r: bool)
    requires bit / 8 < bm.Length
    ensures r <==> bit in Bits(bm[..])
  {
    r := bm[bit / 8] & Mask(bit) != 0;
  }
}
