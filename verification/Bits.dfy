/** Bitmaps stored LSB first in bytes, shared by the frame allocator and PondFS. */
module Bits {
  import opened Prelude

  function Pow2(n: nat): (p: nat)
    ensures p > 0
  {
    if n == 0 then 1 else 2 * Pow2(n - 1)
  }

  /** Bit k of a number: `(b >> k) & 1 == 1`. */
  predicate Bit(b: nat, k: nat) {
    if k == 0 then b % 2 == 1 else Bit(b / 2, k - 1)
  }

  /** `b | (1 << k)` on a w-bit number. */
  function OrBit(b: nat, k: nat, w: nat): (r: nat)
    requires k < w && b < Pow2(w)
    ensures r < Pow2(w)
  {
    if k == 0 then b / 2 * 2 + 1 else 2 * OrBit(b / 2, k - 1, w - 1) + b % 2
  }

  /** `b & !(1 << k)` on a w-bit number. */
  function AndNotBit(b: nat, k: nat, w: nat): (r: nat)
    requires k < w && b < Pow2(w)
    ensures r < Pow2(w)
  {
    if k == 0 then b / 2 * 2 else 2 * AndNotBit(b / 2, k - 1, w - 1) + b % 2
  }

  lemma {:induction false} OrBitMeaning(b: nat, k: nat, w: nat, j: nat)
    requires k < w && b < Pow2(w)
    ensures Bit(OrBit(b, k, w), j) <==> j == k || Bit(b, j)
  {
    if k > 0 && j > 0 {
      OrBitMeaning(b / 2, k - 1, w - 1, j - 1);
    }
  }

  lemma {:induction false} AndNotBitMeaning(b: nat, k: nat, w: nat, j: nat)
    requires k < w && b < Pow2(w)
    ensures Bit(AndNotBit(b, k, w), j) <==> j != k && Bit(b, j)
  {
    if k > 0 && j > 0 {
      AndNotBitMeaning(b / 2, k - 1, w - 1, j - 1);
    }
  }

  lemma ByteWidth()
    ensures Pow2(8) == 256
  {
    assert Pow2(4) == 16;
  }

  lemma {:induction false} AllOnes(w: nat, k: nat)
    requires k < w
    ensures Bit(Pow2(w) - 1, k) && !Bit(0, k)
  {
    if k > 0 {
      AllOnes(w - 1, k - 1);
    }
  }

  /** All eight bits of 0xFF are set, none of 0. */
  lemma {:induction false} ConstantBytes(k: nat)
    requires k < 8
    ensures Bit(255, k) && !Bit(0, k)
  {
    AllOnes(8, k);
    ByteWidth();
  }

  /** Bit i of a bitmap: bit i % 8 of byte i / 8. */
  predicate BitAt(bm: seq<byte>, i: nat)
    requires i < 8 * |bm|
  {
    Bit(bm[i / 8], i % 8)
  }

  /** `bitmap[i / 8] |= 1 << (i % 8)` */
  function SetBitAt(bm: seq<byte>, i: nat): (r: seq<byte>)
    requires i < 8 * |bm|
    ensures |r| == |bm|
  {
    ByteWidth();
    bm[i / 8 := OrBit(bm[i / 8], i % 8, 8)]
  }

  /** `bitmap[i / 8] &= !(1 << (i % 8))` */
  function ClearBitAt(bm: seq<byte>, i: nat): (r: seq<byte>)
    requires i < 8 * |bm|
    ensures |r| == |bm|
  {
    ByteWidth();
    bm[i / 8 := AndNotBit(bm[i / 8], i % 8, 8)]
  }

  lemma SetBitMeaning(bm: seq<byte>, i: nat)
    requires i < 8 * |bm|
    ensures forall j :: 0 <= j < 8 * |bm| ==> (BitAt(SetBitAt(bm, i), j) <==> j == i || BitAt(bm, j))
  {
    ByteWidth();
    forall j | 0 <= j < 8 * |bm| ensures BitAt(SetBitAt(bm, i), j) <==> j == i || BitAt(bm, j) {
      OrBitMeaning(bm[i / 8], i % 8, 8, j % 8);
    }
  }

  lemma ClearBitMeaning(bm: seq<byte>, i: nat)
    requires i < 8 * |bm|
    ensures forall j :: 0 <= j < 8 * |bm| ==> (BitAt(ClearBitAt(bm, i), j) <==> j != i && BitAt(bm, j))
  {
    ByteWidth();
    forall j | 0 <= j < 8 * |bm| ensures BitAt(ClearBitAt(bm, i), j) <==> j != i && BitAt(bm, j) {
      AndNotBitMeaning(bm[i / 8], i % 8, 8, j % 8);
    }
  }

  /** The clear bits among the first n: the free frames or blocks of a bitmap. */
  function ClearSet(bm: seq<byte>, n: nat): (s: set<nat>)
    requires n <= 8 * |bm|
  {
    set i: nat | i < n && !BitAt(bm, i)
  }

  lemma SetBitClearSet(bm: seq<byte>, n: nat, i: nat)
    requires n <= 8 * |bm| && i < 8 * |bm|
    ensures ClearSet(SetBitAt(bm, i), n) == ClearSet(bm, n) - {i}
  {
    SetBitMeaning(bm, i);
  }

  lemma ClearBitClearSet(bm: seq<byte>, n: nat, i: nat)
    requires n <= 8 * |bm| && i < n
    ensures ClearSet(ClearBitAt(bm, i), n) == ClearSet(bm, n) + {i}
  {
    ClearBitMeaning(bm, i);
  }

  lemma Down(b: nat, k: nat)
    ensures Bit(b, 0) <==> b % 2 == 1
    ensures Bit(b, k + 1) <==> Bit(b / 2, k)
  {
  }

  lemma LowBits(b: nat)
    ensures Bit(b, 0) <==> b % 2 == 1
    ensures Bit(b, 1) <==> b / 2 % 2 == 1
    ensures Bit(b, 2) <==> b / 4 % 2 == 1
    ensures Bit(b, 3) <==> b / 8 % 2 == 1
  {
    hide Bit;
    Down(b, 0);
    Down(b, 1);
    Down(b, 2);
    Down(b / 2, 0);
    Down(b / 2, 1);
    Down(b / 4, 0);
    Down(b / 8, 0);
  }

  lemma FourDown(b: nat, k: nat)
    ensures Bit(b, k + 4) <==> Bit(b / 16, k)
  {
    hide Bit;
    Down(b, k + 3);
    Down(b / 2, k + 2);
    Down(b / 4, k + 1);
    Down(b / 8, k);
  }

  /** The bits of a byte, least significant first. */
  lemma BitValues(b: byte)
    ensures Bit(b, 0) <==> b % 2 == 1
    ensures Bit(b, 1) <==> b / 2 % 2 == 1
    ensures Bit(b, 2) <==> b / 4 % 2 == 1
    ensures Bit(b, 3) <==> b / 8 % 2 == 1
    ensures Bit(b, 4) <==> b / 16 % 2 == 1
    ensures Bit(b, 5) <==> b / 32 % 2 == 1
    ensures Bit(b, 6) <==> b / 64 % 2 == 1
    ensures Bit(b, 7) <==> b / 128 % 2 == 1
  {
    hide Bit;
    LowBits(b);
    LowBits(b / 16);
    FourDown(b, 0);
    FourDown(b, 1);
    FourDown(b, 2);
    FourDown(b, 3);
    assert b / 16 / 2 == b / 32 && b / 16 / 4 == b / 64 && b / 16 / 8 == b / 128;
  }

  lemma BitWeight(b: byte, k: nat)
    requires k < 8
    ensures Bit(b, k) <==> b / [1, 2, 4, 8, 16, 32, 64, 128][k] % 2 == 1
  {
    BitValues(b);
    hide Bit;
  }
}
