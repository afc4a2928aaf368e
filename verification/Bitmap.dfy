/** The byte bitmap of kernel/src/mm/pmm.c as a value: one bit per page, set when the page
    is in use, and the set of free pages it stands for. */
module Bitmap {
  import opened Bits

  predicate TestBit(bm: seq<Byte>, i: nat)
    requires i < 8 * |bm|
  {
    Bit(bm[i / 8], i % 8)
  }

  function SetBit(bm: seq<Byte>, i: nat): (r: seq<Byte>)
    requires i < 8 * |bm|
    ensures |r| == |bm|
  {
    ByteOps(bm[i / 8], i % 8);
    bm[i / 8 := Or(bm[i / 8], Pow2(i % 8))]
  }

  function ClearBit(bm: seq<Byte>, i: nat): (r: seq<Byte>)
    requires i < 8 * |bm|
    ensures |r| == |bm|
  {
    ByteOps(bm[i / 8], i % 8);
    bm[i / 8 := And(bm[i / 8], 255 - Pow2(i % 8))]
  }

  lemma ByteOps(b: Byte, k: nat)
    requires k < 8
    ensures Pow2(k) < 256
    ensures Or(b, Pow2(k)) < 256
    ensures And(b, 255 - Pow2(k)) < 256
  {
    Pow2Values();
    MaskBit(8, k, 0);
    OrBound(b, Pow2(k), 8);
    AndBound(b, 255 - Pow2(k));
  }

  // Page i is bit i % 8 of byte i / 8.
  lemma TestBitIs(bm: seq<Byte>, i: nat)
    requires i < 8 * |bm|
    ensures Pow2(i % 8) > 0
    ensures TestBit(bm, i) <==> bm[i / 8] / Pow2(i % 8) % 2 == 1
  {
    BitIs(bm[i / 8], i % 8);
  }

  lemma TestSetBit(bm: seq<Byte>, i: nat, j: nat)
    requires i < 8 * |bm| && j < 8 * |bm|
    ensures TestBit(SetBit(bm, i), j) <==> j == i || TestBit(bm, j)
  {
    ByteOps(bm[i / 8], i % 8);
    OrBit(bm[i / 8], Pow2(i % 8), j % 8);
    Pow2Bit(i % 8, j % 8);
  }

  lemma TestClearBit(bm: seq<Byte>, i: nat, j: nat)
    requires i < 8 * |bm| && j < 8 * |bm|
    ensures TestBit(ClearBit(bm, i), j) <==> j != i && TestBit(bm, j)
  {
    ByteOps(bm[i / 8], i % 8);
    Pow2Values();
    MaskBit(8, i % 8, j % 8);
    AndBit(bm[i / 8], 255 - Pow2(i % 8), j % 8);
  }

  function SetRange(bm: seq<Byte>, lo: nat, hi: nat): (r: seq<Byte>)
    requires hi <= 8 * |bm|
    ensures |r| == |bm|
  {
    if hi <= lo then bm else SetBit(SetRange(bm, lo, hi - 1), hi - 1)
  }

  function ClearRange(bm: seq<Byte>, lo: nat, hi: nat): (r: seq<Byte>)
    requires hi <= 8 * |bm|
    ensures |r| == |bm|
  {
    if hi <= lo then bm else ClearBit(ClearRange(bm, lo, hi - 1), hi - 1)
  }

  lemma {:induction false} TestSetRange(bm: seq<Byte>, lo: nat, hi: nat, j: nat)
    requires hi <= 8 * |bm| && j < 8 * |bm|
    ensures TestBit(SetRange(bm, lo, hi), j) <==> lo <= j < hi || TestBit(bm, j)
  {
    if lo < hi {
      TestSetRange(bm, lo, hi - 1, j);
      TestSetBit(SetRange(bm, lo, hi - 1), hi - 1, j);
    }
  }

  lemma {:induction false} TestClearRange(bm: seq<Byte>, lo: nat, hi: nat, j: nat)
    requires hi <= 8 * |bm| && j < 8 * |bm|
    ensures TestBit(ClearRange(bm, lo, hi), j) <==> !(lo <= j < hi) && TestBit(bm, j)
  {
    if lo < hi {
      TestClearRange(bm, lo, hi - 1, j);
      TestClearBit(ClearRange(bm, lo, hi - 1), hi - 1, j);
    }
  }

  // The used pages in [lo, hi).
  function CountUsed(bm: seq<Byte>, lo: nat, hi: nat): nat
    requires hi <= 8 * |bm|
  {
    if hi <= lo then 0
    else CountUsed(bm, lo, hi - 1) + (if TestBit(bm, hi - 1) then 1 else 0)
  }

  // The set that the bitmap of `total` pages stands for.
  ghost function FreeIn(bm: seq<Byte>, total: nat): set<nat>
    requires total <= 8 * |bm|
  {
    set i: nat | i < total && !TestBit(bm, i)
  }

  // The pages lo, lo + 1, ..., hi - 1.
  ghost function Span(lo: nat, hi: nat): (r: set<nat>)
    ensures forall i: nat :: i in r <==> lo <= i < hi
    ensures |r| == if lo < hi then hi - lo else 0
  {
    if hi <= lo then {} else Span(lo, hi - 1) + {hi - 1}
  }

  function Min(a: nat, b: nat): nat {
    if a < b then a else b
  }

  function Max(a: nat, b: nat): nat {
    if a < b then b else a
  }

  lemma SetRangeFree(bm: seq<Byte>, total: nat, lo: nat, hi: nat)
    requires total <= 8 * |bm| && hi <= 8 * |bm| && lo <= hi
    ensures FreeIn(SetRange(bm, lo, hi), total) == FreeIn(bm, total) - Span(lo, hi)
  {
    forall j: nat | j < 8 * |bm| {
      TestSetRange(bm, lo, hi, j);
    }
  }

  lemma ClearRangeFree(bm: seq<Byte>, total: nat, lo: nat, hi: nat)
    requires total <= 8 * |bm| && hi <= 8 * |bm| && lo <= hi
    ensures FreeIn(ClearRange(bm, lo, hi), total)
         == FreeIn(bm, total) + Span(lo, Min(hi, total))
  {
    forall j: nat | j < 8 * |bm| {
      TestClearRange(bm, lo, hi, j);
    }
  }

  lemma ClearBitFree(bm: seq<Byte>, total: nat, i: nat)
    requires total <= 8 * |bm| && i < 8 * |bm|
    ensures FreeIn(ClearBit(bm, i), total) == FreeIn(bm, total) + (if i < total then {i} else {})
  {
    forall j: nat | j < 8 * |bm| {
      TestClearBit(bm, i, j);
    }
  }

  lemma ClearBitCount(bm: seq<Byte>, total: nat, i: nat)
    requires total <= 8 * |bm| && i < 8 * |bm|
    ensures |FreeIn(ClearBit(bm, i), total)| == |FreeIn(bm, total)| + (if i < total && TestBit(bm, i) then 1 else 0)
  {
    ClearBitFree(bm, total, i);
    var free := FreeIn(bm, total);
    if i < total {
      assert i in free <==> !TestBit(bm, i);
      if i in free {
        assert free + {i} == free;
      }
    }
  }

  // Clearing a range adds exactly its used pages below `total` to the free set.
  lemma {:induction false} ClearRangeCount(bm: seq<Byte>, total: nat, lo: nat, hi: nat)
    requires total <= 8 * |bm| && hi <= 8 * |bm| && lo <= hi
    ensures |FreeIn(ClearRange(bm, lo, hi), total)| + CountUsed(bm, Max(lo, total), hi)
         == |FreeIn(bm, total)| + CountUsed(bm, lo, hi)
  {
    if lo < hi {
      var last := hi - 1;
      ClearRangeCount(bm, total, lo, last);
      var cleared := ClearRange(bm, lo, last);
      ClearBitCount(cleared, total, last);
      TestClearRange(bm, lo, last, last);
      assert TestBit(cleared, last) == TestBit(bm, last);
      var one := if TestBit(bm, last) then 1 else 0;
      assert CountUsed(bm, lo, hi) == CountUsed(bm, lo, last) + one;
      if last < total {
        assert CountUsed(bm, Max(lo, total), hi) == 0;
        assert CountUsed(bm, Max(lo, total), last) == 0;
      } else {
        assert CountUsed(bm, Max(lo, total), hi) == CountUsed(bm, Max(lo, total), last) + one;
      }
    }
  }

  lemma {:induction false} BitsEqual(a: nat, b: nat, n: nat)
    requires a < Pow2(n) && b < Pow2(n)
    requires forall k: nat | k < n :: Bit(a, k) <==> Bit(b, k)
    ensures a == b
  {
    if n > 0 {
      assert Bit(a, 0) == Bit(b, 0);
      forall k: nat | k < n - 1
        ensures Bit(a / 2, k) <==> Bit(b / 2, k)
      {
        assert Bit(a, k + 1) == Bit(b, k + 1);
      }
      BitsEqual(a / 2, b / 2, n - 1);
    }
  }

  // A bitmap is determined by its bits.
  lemma BitmapEqual(a: seq<Byte>, b: seq<Byte>)
    requires |a| == |b|
    requires forall i: nat | i < 8 * |a| :: TestBit(a, i) <==> TestBit(b, i)
    ensures a == b
  {
    Pow2Values();
    forall p | 0 <= p < |a|
      ensures a[p] == b[p]
    {
      forall k: nat | k < 8
        ensures Bit(a[p], k) <==> Bit(b[p], k)
      {
        assert TestBit(a, 8 * p + k) == TestBit(b, 8 * p + k);
      }
      BitsEqual(a[p], b[p], 8);
    }
  }

  // Freeing a range that was free before it was allocated restores every byte.
  lemma ClearUndoesSet(bm: seq<Byte>, lo: nat, hi: nat)
    requires lo <= hi <= 8 * |bm|
    requires forall j: nat | lo <= j < hi :: !TestBit(bm, j)
    ensures ClearRange(SetRange(bm, lo, hi), lo, hi) == bm
  {
    var r := ClearRange(SetRange(bm, lo, hi), lo, hi);
    forall j: nat | j < 8 * |bm|
      ensures TestBit(r, j) <==> TestBit(bm, j)
    {
      TestSetRange(bm, lo, hi, j);
      TestClearRange(SetRange(bm, lo, hi), lo, hi, j);
    }
    BitmapEqual(r, bm);
  }
}
