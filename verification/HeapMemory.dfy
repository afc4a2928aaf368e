/** The heap of kernel/src/mm/heap.c in memory: every block's header is stored in the heap's own
    bytes, as a 64-bit size, a flag byte and a 64-bit pointer to the next header. */
module HeapMemory {
  import opened Bits
  import opened BlockList

  // Little-endian bytes of a number, and back.
  function ToBytes(v: nat, n: nat): (r: Bytes)
    ensures |r| == n
  {
    if n == 0 then [] else [v % 256] + ToBytes(v / 256, n - 1)
  }

  function FromBytes(bytes: Bytes): nat {
    if bytes == [] then 0 else bytes[0] + 256 * FromBytes(bytes[1..])
  }

  function Pow256(n: nat): nat {
    if n == 0 then 1 else 256 * Pow256(n - 1)
  }

  lemma {:induction false} BytesRoundTrip(v: nat, n: nat)
    requires v < Pow256(n)
    ensures FromBytes(ToBytes(v, n)) == v
  {
    if n > 0 {
      BytesRoundTrip(v / 256, n - 1);
      assert ToBytes(v, n)[1..] == ToBytes(v / 256, n - 1);
    }
  }

  lemma Pow256Of8()
    ensures Pow256(8) == TWO_64
  {
    assert Pow256(2) == 0x1_0000;
    assert Pow256(4) == 0x1_0000_0000;
    assert Pow256(6) == 0x1_0000_0000_0000;
  }

  function Load64(m: Bytes, a: nat): nat
    requires a + 8 <= |m|
  {
    FromBytes(m[a..a + 8])
  }

  function Store64(m: Bytes, a: nat, v: nat): (r: Bytes)
    requires a + 8 <= |m|
    ensures |r| == |m|
    ensures forall k :: 0 <= k < |m| && !(a <= k < a + 8) ==> r[k] == m[k]
  {
    m[..a] + ToBytes(v, 8) + m[a + 8..]
  }

  lemma LoadStore(m: Bytes, a: nat, v: nat)
    requires a + 8 <= |m| && v < TWO_64
    ensures Load64(Store64(m, a, v), a) == v
  {
    assert Store64(m, a, v)[a..a + 8] == ToBytes(v, 8);
    Pow256Of8();
    BytesRoundTrip(v, 8);
  }

  lemma LoadSame(m: Bytes, m': Bytes, a: nat)
    requires |m| == |m'| && a + 8 <= |m|
    requires forall k :: a <= k < a + 8 ==> m'[k] == m[k]
    ensures Load64(m', a) == Load64(m, a)
  {
    assert m'[a..a + 8] == m[a..a + 8];
  }

  // The header stored at `off`.
  predicate HeaderAt(m: Bytes, off: nat, size: nat, free: bool, next: nat) {
    && off + 24 <= |m|
    && Load64(m, off) == size
    && (m[off + 8] != 0 <==> free)
    && Load64(m, off + 16) == next
  }

  function WriteHeader(m: Bytes, off: nat, size: nat, free: bool, next: nat): (r: Bytes)
    requires off + 24 <= |m|
    ensures |r| == |m|
    ensures forall k :: 0 <= k < |m| && !(off <= k < off + 24) ==> r[k] == m[k]
  {
    Store64(Store64(m, off, size)[off + 8 := if free then 1 else 0], off + 16, next)
  }

  lemma HeaderWritten(m: Bytes, off: nat, size: nat, free: bool, next: nat)
    requires off + 24 <= |m| && size < TWO_64 && next < TWO_64
    ensures HeaderAt(WriteHeader(m, off, size, free, next), off, size, free, next)
  {
    var m1 := Store64(m, off, size);
    var m2 := m1[off + 8 := if free then 1 else 0];
    LoadStore(m, off, size);
    LoadSame(m1, m2, off);
    LoadStore(m2, off + 16, next);
    LoadSame(m2, Store64(m2, off + 16, next), off);
  }

  lemma HeaderSame(m: Bytes, m': Bytes, off: nat, size: nat, free: bool, next: nat)
    requires |m| == |m'| && HeaderAt(m, off, size, free, next)
    requires forall k :: off <= k < off + 24 ==> m'[k] == m[k]
    ensures HeaderAt(m', off, size, free, next)
  {
    LoadSame(m, m', off);
    LoadSame(m, m', off + 16);
  }

  // The `next` field of block k: an address, 0 at the end of the list.
  function NextPtr(base: nat, bs: Blocks, k: nat): nat
    requires k < |bs|
  {
    if k + 1 < |bs| then base + bs[k + 1].off else 0
  }

  // The list walked from the first header is bs.
  ghost predicate Encodes(m: Bytes, base: nat, bs: Blocks) {
    forall k :: 0 <= k < |bs| ==> HeaderAt(m, bs[k].off, bs[k].size, bs[k].free, NextPtr(base, bs, k))
  }

  // The heap occupies the bytes from address `base` on.
  ghost predicate HeapAt(m: Bytes, base: nat, bs: Blocks) {
    && 0 < base && base % 8 == 0 && base + |m| < TWO_64
    && Inv(bs, |m|) && Encodes(m, base, bs)
  }

  ghost predicate InHeader(bs: Blocks, a: nat) {
    exists b :: b in bs && b.off <= a < b.off + 24
  }

  ghost predicate InPayload(b: Block, a: nat) {
    b.off + 24 <= a < b.End()
  }

  // Payloads and headers do not overlap.
  lemma PayloadNoHeader(bs: Blocks, end: nat, b: Block, a: nat)
    requires Tiles(bs, 0, end) && b in bs && InPayload(b, a)
    ensures !InHeader(bs, a) && a < end
  {
    var i :| 0 <= i < |bs| && bs[i] == b;
    TilesOrdered(bs, 0, end, i, i);
    if c :| c in bs && c.off <= a < c.off + 24 {
      var j :| 0 <= j < |bs| && bs[j] == c;
      if i < j {
        TilesOrdered(bs, 0, end, i, j);
      } else if j < i {
        TilesOrdered(bs, 0, end, j, i);
      }
    }
  }

  // Live payloads do not overlap.
  lemma PayloadsDisjoint(bs: Blocks, end: nat, b: Block, c: Block, a: nat)
    requires Tiles(bs, 0, end) && b in bs && c in bs && InPayload(b, a) && InPayload(c, a)
    ensures b == c
  {
    var i :| 0 <= i < |bs| && bs[i] == b;
    var j :| 0 <= j < |bs| && bs[j] == c;
    if i < j {
      TilesOrdered(bs, 0, end, i, j);
    } else if j < i {
      TilesOrdered(bs, 0, end, j, i);
    }
  }

  // ----- kmalloc -----

  // What kmalloc writes when it takes block i.
  function TakeMem(m: Bytes, base: nat, bs: Blocks, i: nat, size: nat): (r: Bytes)
    requires i < |bs| && Fits(bs[i], size) && bs[i].End() <= |m|
    ensures |r| == |m|
  {
    var b := bs[i];
    if b.size >= size + 24 + 32 then
      var rest := b.off + 24 + size;
      WriteHeader(WriteHeader(m, rest, b.size - size - 24, true, NextPtr(base, bs, i)), b.off, size, false, base + rest)
    else m[b.off + 8 := 0]
  }

  // Only bytes of the block taken are written: its header and, after a split, the header of the rest.
  lemma TakeWrites(m: Bytes, base: nat, bs: Blocks, i: nat, size: nat)
    requires i < |bs| && Fits(bs[i], size) && bs[i].End() <= |m|
    ensures var r, m' := Replace(bs, i, Take(bs[i], size)), TakeMem(m, base, bs, i, size);
            && (forall a :: 0 <= a < |m| && !(bs[i].off <= a < bs[i].End()) ==> m'[a] == m[a])
            && (forall a: nat :: a < |m| && !InHeader(r, a) ==> m'[a] == m[a])
  {
    var part := Take(bs[i], size);
    var r := Replace(bs, i, part);
    assert r[i] == part[0] && r[i] in r;
    assert |part| > 1 ==> r[i + 1] == part[1] && r[i + 1] in r;
  }

  lemma TakenWhole(m: Bytes, off: nat, size: nat, next: nat)
    requires HeaderAt(m, off, size, true, next)
    ensures HeaderAt(m[off + 8 := 0], off, size, false, next)
  {
    LoadSame(m, m[off + 8 := 0], off);
    LoadSame(m, m[off + 8 := 0], off + 16);
  }

  lemma TakenSplit(m: Bytes, off: nat, size: nat, rest: nat, restSize: nat, base: nat, next: nat)
    requires rest == off + 24 + size && rest + 24 + restSize <= |m| && base + |m| < TWO_64 && next < TWO_64
    ensures var m' := WriteHeader(WriteHeader(m, rest, restSize, true, next), off, size, false, base + rest);
            && HeaderAt(m', off, size, false, base + rest)
            && HeaderAt(m', rest, restSize, true, next)
  {
    var m1 := WriteHeader(m, rest, restSize, true, next);
    HeaderWritten(m, rest, restSize, true, next);
    HeaderWritten(m1, off, size, false, base + rest);
    HeaderSame(m1, WriteHeader(m1, off, size, false, base + rest), rest, restSize, true, next);
  }

  lemma TakeEncodes(m: Bytes, base: nat, bs: Blocks, i: nat, size: nat)
    requires HeapAt(m, base, bs) && i < |bs| && Fits(bs[i], size) && bs[i].End() <= |m|
    ensures Encodes(TakeMem(m, base, bs, i, size), base, Replace(bs, i, Take(bs[i], size)))
  {
    hide HeapAt, HeaderAt, Take, TakeMem, Replace, NextPtr;
    var r, m' := Replace(bs, i, Take(bs[i], size)), TakeMem(m, base, bs, i, size);
    forall k | 0 <= k < |r|
      ensures HeaderAt(m', r[k].off, r[k].size, r[k].free, NextPtr(base, r, k))
    {
      TakeHeader(m, base, bs, i, size, k);
    }
  }

  lemma TakeHeader(m: Bytes, base: nat, bs: Blocks, i: nat, size: nat, k: nat)
    requires HeapAt(m, base, bs) && i < |bs| && Fits(bs[i], size) && bs[i].End() <= |m|
    requires k < |Replace(bs, i, Take(bs[i], size))|
    ensures var r := Replace(bs, i, Take(bs[i], size));
            HeaderAt(TakeMem(m, base, bs, i, size), r[k].off, r[k].size, r[k].free, NextPtr(base, r, k))
  {
    var d := |Take(bs[i], size)| - 1;
    if i <= k <= i + d {
      TakenHeaders(m, base, bs, i, size, k);
    } else {
      UntakenHeader(m, base, bs, i, size, if k < i then k else k - d, k);
    }
  }

  // Where the blocks of a list with block i replaced come from, and what follows them.
  lemma ReplaceRest(bs: Blocks, i: nat, part: Blocks, base: nat, j: nat)
    requires i < |bs| && part != [] && part[0].off == bs[i].off && j < |bs| && j != i
    ensures var r, k := Replace(bs, i, part), if j < i then j else j + |part| - 1;
            k < |r| && r[k] == bs[j] && NextPtr(base, r, k) == NextPtr(base, bs, j)
  {
  }

  lemma ReplacePart(bs: Blocks, i: nat, part: Blocks, base: nat, q: nat)
    requires i < |bs| && q < |part|
    ensures var r := Replace(bs, i, part);
            && i + q < |r| && r[i + q] == part[q]
            && NextPtr(base, r, i + q) == if q + 1 < |part| then base + part[q + 1].off else NextPtr(base, bs, i)
  {
  }

  // The header of block j, which is block k of the new list.
  lemma UntakenHeader(m: Bytes, base: nat, bs: Blocks, i: nat, size: nat, j: nat, k: nat)
    requires HeapAt(m, base, bs) && i < |bs| && Fits(bs[i], size) && bs[i].End() <= |m|
    requires j < |bs| && j != i && k == (if j < i then j else j + |Take(bs[i], size)| - 1)
    ensures var r := Replace(bs, i, Take(bs[i], size));
            && k < |r| && r[k] == bs[j]
            && HeaderAt(TakeMem(m, base, bs, i, size), bs[j].off, bs[j].size, bs[j].free, NextPtr(base, r, k))
  {
    assert Take(bs[i], size) != [] && Take(bs[i], size)[0].off == bs[i].off;
    hide HeaderAt, TakeMem, InHeader, Replace, Take, NextPtr, Tiles, Aligned, Coalesced;
    var m' := TakeMem(m, base, bs, i, size);
    TakeWrites(m, base, bs, i, size);
    ReplaceRest(bs, i, Take(bs[i], size), base, j);
    if j < i {
      TilesOrdered(bs, 0, |m|, j, i);
    } else {
      TilesOrdered(bs, 0, |m|, i, j);
    }
    HeaderSame(m, m', bs[j].off, bs[j].size, bs[j].free, NextPtr(base, bs, j));
  }

  lemma TakenHeaders(m: Bytes, base: nat, bs: Blocks, i: nat, size: nat, k: nat)
    requires HeapAt(m, base, bs) && i < |bs| && Fits(bs[i], size) && bs[i].End() <= |m|
    requires i <= k < i + |Take(bs[i], size)|
    ensures var r := Replace(bs, i, Take(bs[i], size));
            && k < |r|
            && HeaderAt(TakeMem(m, base, bs, i, size), r[k].off, r[k].size, r[k].free, NextPtr(base, r, k))
  {
    hide HeaderAt, WriteHeader, Replace, NextPtr, Tiles, Aligned, Coalesced;
    var b, part := bs[i], Take(bs[i], size);
    NextBound(m, base, bs, i);
    ReplacePart(bs, i, part, base, k - i);
    if |part| > 1 {
      TakenSplit(m, b.off, size, part[1].off, part[1].size, base, NextPtr(base, bs, i));
    } else {
      TakenWhole(m, b.off, b.size, NextPtr(base, bs, i));
    }
  }

  lemma NextBound(m: Bytes, base: nat, bs: Blocks, k: nat)
    requires HeapAt(m, base, bs) && k < |bs|
    ensures NextPtr(base, bs, k) < TWO_64
    ensures NextPtr(base, bs, k) == 0 <==> k + 1 == |bs|
    ensures bs[k].End() <= |m|
  {
    TilesOrdered(bs, 0, |m|, k, if k + 1 < |bs| then k + 1 else k);
  }

  // kmalloc on memory.
  function MallocMem(m: Bytes, base: nat, bs: Blocks, size: nat): (r: Bytes)
    ensures |r| == |m|
  {
    var i := FirstFit(bs, size, 0);
    if i == |bs| || bs[i].End() > |m| then m else TakeMem(m, base, bs, i, size)
  }

  lemma InsideHeap(m: Bytes, base: nat, bs: Blocks)
    requires HeapAt(m, base, bs)
    ensures forall b :: b in bs ==> b.End() <= |m|
  {
    forall b | b in bs
      ensures b.End() <= |m|
    {
      var k :| 0 <= k < |bs| && bs[k] == b;
      TilesOrdered(bs, 0, |m|, k, k);
    }
  }

  // kmalloc keeps the headers in step with the block list, and writes nothing but headers of the
  // new list.
  lemma MallocMemKeeps(m: Bytes, base: nat, bs: Blocks, size: nat)
    requires HeapAt(m, base, bs) && size % 8 == 0
    ensures HeapAt(MallocMem(m, base, bs, size), base, Malloc(bs, size).bs)
    ensures forall a: nat :: a < |m| && !InHeader(Malloc(bs, size).bs, a)
                             ==> MallocMem(m, base, bs, size)[a] == m[a]
  {
    InsideHeap(m, base, bs);
    MallocKeeps(bs, size, |m|);
    var i := FirstFit(bs, size, 0);
    if i < |bs| {
      assert bs[i] in bs;
      TakeEncodes(m, base, bs, i, size);
      TakeWrites(m, base, bs, i, size);
    }
    hide Inv, TakeMem, Encodes, Take, Replace, InHeader;
  }

  // ----- kfree -----

  // One merge step: block k takes over the size and the successor of block k + 1.
  function AbsorbMem(m: Bytes, base: nat, bs: Blocks, k: nat): (r: Bytes)
    requires k + 1 < |bs| && bs[k].End() <= |m|
    ensures |r| == |m|
  {
    Store64(Store64(m, bs[k].off, bs[k].size + 24 + bs[k + 1].size), bs[k].off + 16, NextPtr(base, bs, k + 1))
  }

  // The bytes written by one merge step lie in the header of block k.
  lemma AbsorbHeader(m: Bytes, off: nat, size: nat, free: bool, next: nat, size': nat, next': nat)
    requires HeaderAt(m, off, size, free, next) && size' < TWO_64 && next' < TWO_64
    ensures var m' := Store64(Store64(m, off, size'), off + 16, next');
            && HeaderAt(m', off, size', free, next')
            && forall a :: 0 <= a < |m| && !(off <= a < off + 24) ==> m'[a] == m[a]
  {
    var m1 := Store64(m, off, size');
    LoadStore(m, off, size');
    LoadStore(m1, off + 16, next');
    LoadSame(m1, Store64(m1, off + 16, next'), off);
  }

  lemma AbsorbAt(bs: Blocks, base: nat, k: nat, j: nat)
    requires k + 1 < |bs| && j < |bs| && j != k + 1
    ensures var r, q := Absorb(bs, k), if j <= k then j else j - 1;
            && q < |r|
            && (j != k ==> r[q] == bs[j] && NextPtr(base, r, q) == NextPtr(base, bs, j))
            && r[k].off == bs[k].off && r[k].free == bs[k].free && r[k].size == bs[k].size + 24 + bs[k + 1].size
            && NextPtr(base, r, k) == NextPtr(base, bs, k + 1)
  {
  }

  // The invariant of the merge pass on memory.
  ghost predicate Merging(m: Bytes, base: nat, bs: Blocks) {
    && 0 < base && base % 8 == 0 && base + |m| < TWO_64
    && bs != [] && Tiles(bs, 0, |m|) && Encodes(m, base, bs)
  }

  lemma AbsorbEncodes(m: Bytes, base: nat, bs: Blocks, k: nat)
    requires Merging(m, base, bs) && k + 1 < |bs|
    ensures bs[k].End() <= |m|
    ensures Merging(AbsorbMem(m, base, bs, k), base, Absorb(bs, k))
    ensures forall a :: 0 <= a < |m| && !(bs[k].off <= a < bs[k].off + 24) ==> AbsorbMem(m, base, bs, k)[a] == m[a]
  {
    hide Tiles, HeaderAt, NextPtr, Absorb, AbsorbMem;
    AbsorbReplaces(bs, k, 0, |m|);
    AbsorbedHeader(m, base, bs, k);
    AbsorbLength(bs, k);
    var r, m' := Absorb(bs, k), AbsorbMem(m, base, bs, k);
    forall q | 0 <= q < |r|
      ensures HeaderAt(m', r[q].off, r[q].size, r[q].free, NextPtr(base, r, q))
    {
      if q != k {
        var j := if q < k then q else q + 1;
        AbsorbAt(bs, base, k, j);
        if j < k {
          TilesOrdered(bs, 0, |m|, j, k);
        } else {
          TilesOrdered(bs, 0, |m|, k, j);
        }
        HeaderSame(m, m', bs[j].off, bs[j].size, bs[j].free, NextPtr(base, bs, j));
      }
    }
  }

  lemma AbsorbedHeader(m: Bytes, base: nat, bs: Blocks, k: nat)
    requires Merging(m, base, bs) && k + 1 < |bs|
    ensures bs[k].End() <= |m|
    ensures var r, m' := Absorb(bs, k), AbsorbMem(m, base, bs, k);
            && k < |r| && HeaderAt(m', r[k].off, r[k].size, r[k].free, NextPtr(base, r, k))
            && forall a :: 0 <= a < |m| && !(bs[k].off <= a < bs[k].off + 24) ==> m'[a] == m[a]
  {
    hide Tiles, HeaderAt, NextPtr, Absorb;
    TilesOrdered(bs, 0, |m|, k, k + 1);
    MergingNext(m, base, bs, k + 1);
    AbsorbHeader(m, bs[k].off, bs[k].size, bs[k].free, NextPtr(base, bs, k),
                 bs[k].size + 24 + bs[k + 1].size, NextPtr(base, bs, k + 1));
    AbsorbAt(bs, base, k, k);
  }

  lemma AbsorbLength(bs: Blocks, k: nat)
    requires k + 1 < |bs|
    ensures |Absorb(bs, k)| == |bs| - 1
  {
  }

  lemma MergingNext(m: Bytes, base: nat, bs: Blocks, k: nat)
    requires Merging(m, base, bs) && k < |bs|
    ensures NextPtr(base, bs, k) < TWO_64
    ensures NextPtr(base, bs, k) == 0 <==> k + 1 == |bs|
    ensures bs[k].End() <= |m|
  {
    TilesOrdered(bs, 0, |m|, k, if k + 1 < |bs| then k + 1 else k);
  }

  // The merge pass on memory.
  function MergeMem(m: Bytes, base: nat, bs: Blocks, k: nat): (r: Bytes)
    ensures |r| == |m|
    decreases |bs| - k
  {
    if k + 1 >= |bs| || bs[k].End() > |m| then m
    else if bs[k].free && bs[k + 1].free then MergeMem(AbsorbMem(m, base, bs, k), base, Absorb(bs, k), k)
    else MergeMem(m, base, bs, k + 1)
  }

  // kfree of the block at `off` on memory.
  function FreeMem(m: Bytes, base: nat, bs: Blocks, off: nat): (r: Bytes)
    ensures |r| == |m|
  {
    var i := IndexOf(bs, off);
    if i == |bs| || bs[i].End() > |m| then m
    else MergeMem(m[off + 8 := 1], base, SetFree(bs, i), 0)
  }

  lemma {:induction false} MergeMemKeeps(m: Bytes, base: nat, bs: Blocks, k: nat)
    requires Merging(m, base, bs)
    ensures Merging(MergeMem(m, base, bs, k), base, Merge(bs, k))
    ensures forall a: nat :: a < |m| && !InHeader(bs, a) ==> MergeMem(m, base, bs, k)[a] == m[a]
    decreases |bs| - k
  {
    hide AbsorbMem, Absorb, HeaderAt, NextPtr, Merging, InHeader;
    if k + 1 < |bs| {
      MergingNext(m, base, bs, k);
      if bs[k].free && bs[k + 1].free {
        AbsorbEncodes(m, base, bs, k);
        AbsorbLength(bs, k);
        MergeMemKeeps(AbsorbMem(m, base, bs, k), base, Absorb(bs, k), k);
        forall a: nat | a < |m| && !InHeader(bs, a)
          ensures MergeMem(m, base, bs, k)[a] == m[a]
        {
          AbsorbInHeader(bs, k, a);
        }
      } else {
        MergeMemKeeps(m, base, bs, k + 1);
      }
    }
  }

  lemma AbsorbInHeader(bs: Blocks, k: nat, a: nat)
    requires k + 1 < |bs| && !InHeader(bs, a)
    ensures !InHeader(Absorb(bs, k), a) && !(bs[k].off <= a < bs[k].off + 24)
  {
    assert bs[k] in bs;
    var r := Absorb(bs, k);
    forall b | b in r
      ensures !(b.off <= a < b.off + 24)
    {
      var q :| 0 <= q < |r| && r[q] == b;
      assert bs[if q <= k then q else q + 1] in bs;
    }
  }

  // kfree of a live block keeps the headers in step with the block list and writes nothing but
  // headers of the old list.
  lemma FreeMemKeeps(m: Bytes, base: nat, bs: Blocks, b: Block)
    requires HeapAt(m, base, bs) && b in bs && !b.free
    ensures HeapAt(FreeMem(m, base, bs, b.off), base, Free(bs, b.off))
    ensures forall a: nat :: a < |m| && !InHeader(bs, a) ==> FreeMem(m, base, bs, b.off)[a] == m[a]
  {
    hide HeaderAt, Inv, MergeMem, Merge, InHeader, NextPtr, SetFree, Merging, HeapAt;
    InvOfHeap(m, base, bs);
    FreeKeeps(bs, b, |m|);
    var i := IndexOfBlock(m, base, bs, b);
    SetFreeMerging(m, base, bs, i);
    var marked := m[b.off + 8 := 1];
    MergeMemKeeps(marked, base, SetFree(bs, i), 0);
    MergingToHeap(MergeMem(marked, base, SetFree(bs, i), 0), base, Merge(SetFree(bs, i), 0));
    forall a: nat | a < |m| && !InHeader(bs, a)
      ensures FreeMem(m, base, bs, b.off)[a] == m[a]
    {
      SetFreeHeaders(bs, i, a);
    }
  }

  lemma InvOfHeap(m: Bytes, base: nat, bs: Blocks)
    requires HeapAt(m, base, bs)
    ensures Inv(bs, |m|)
  {
  }

  lemma MergingToHeap(m: Bytes, base: nat, bs: Blocks)
    requires Merging(m, base, bs) && Inv(bs, |m|)
    ensures HeapAt(m, base, bs)
  {
  }

  lemma IndexOfBlock(m: Bytes, base: nat, bs: Blocks, b: Block) returns (i: nat)
    requires HeapAt(m, base, bs) && b in bs
    ensures i < |bs| && bs[i] == b && IndexOf(bs, b.off) == i && b.End() <= |m|
  {
    i :| 0 <= i < |bs| && bs[i] == b;
    IndexFound(bs, 0, |m|, i);
    TilesOrdered(bs, 0, |m|, i, i);
  }

  lemma SetFreeHeaders(bs: Blocks, i: nat, a: nat)
    requires i < |bs|
    ensures InHeader(SetFree(bs, i), a) <==> InHeader(bs, a)
    ensures bs[i].off <= a < bs[i].off + 24 ==> InHeader(bs, a)
  {
    var r := SetFree(bs, i);
    if b :| b in r && b.off <= a < b.off + 24 {
      var q :| 0 <= q < |r| && r[q] == b;
      assert bs[q] in bs;
    }
    if b :| b in bs && b.off <= a < b.off + 24 {
      var q :| 0 <= q < |bs| && bs[q] == b;
      assert r[q] in r;
    }
    assert bs[i] in bs;
  }

  lemma SetFreeMerging(m: Bytes, base: nat, bs: Blocks, i: nat)
    requires HeapAt(m, base, bs) && i < |bs|
    ensures bs[i].End() <= |m|
    ensures Merging(m[bs[i].off + 8 := 1], base, SetFree(bs, i))
  {
    TilesOrdered(bs, 0, |m|, i, i);
    SetFreeKeeps(bs, i, 0, |m|);
    var r, m' := SetFree(bs, i), m[bs[i].off + 8 := 1];
    hide Tiles, Aligned, Coalesced, HeaderAt;
    forall k | 0 <= k < |r|
      ensures HeaderAt(m', r[k].off, r[k].size, r[k].free, NextPtr(base, r, k))
    {
      SetFreeHeader(m, base, bs, i, k);
    }
  }

  lemma SetFreeHeader(m: Bytes, base: nat, bs: Blocks, i: nat, k: nat)
    requires HeapAt(m, base, bs) && i < |bs| && k < |bs| && bs[i].End() <= |m|
    ensures var r := SetFree(bs, i);
            HeaderAt(m[bs[i].off + 8 := 1], r[k].off, r[k].size, r[k].free, NextPtr(base, r, k))
  {
    hide HeaderAt, NextPtr, SetFree, Tiles, Aligned, Coalesced;
    SetFreeNext(bs, i, base, k);
    FlagSet(m, bs[i].off, bs[i].size, bs[i].free, NextPtr(base, bs, i));
    if k < i {
      TilesOrdered(bs, 0, |m|, k, i);
    } else if i < k {
      TilesOrdered(bs, 0, |m|, i, k);
    }
    FlagElsewhere(m, bs[i].off, bs[k].off, bs[k].size, bs[k].free, NextPtr(base, bs, k));
  }

  lemma SetFreeNext(bs: Blocks, i: nat, base: nat, k: nat)
    requires i < |bs| && k < |bs|
    ensures var r := SetFree(bs, i);
            && |r| == |bs| && NextPtr(base, r, k) == NextPtr(base, bs, k)
            && r[k] == if k == i then bs[i].(free := true) else bs[k]
  {
  }

  lemma FlagElsewhere(m: Bytes, at: nat, off: nat, size: nat, free: bool, next: nat)
    requires at + 24 <= |m| && HeaderAt(m, off, size, free, next)
    ensures at + 24 <= off || off + 24 <= at ==> HeaderAt(m[at + 8 := 1], off, size, free, next)
  {
    if at + 24 <= off || off + 24 <= at {
      HeaderSame(m, m[at + 8 := 1], off, size, free, next);
    }
  }

  lemma FlagSet(m: Bytes, off: nat, size: nat, free: bool, next: nat)
    requires HeaderAt(m, off, size, free, next)
    ensures HeaderAt(m[off + 8 := 1], off, size, true, next)
  {
    LoadSame(m, m[off + 8 := 1], off);
    LoadSame(m, m[off + 8 := 1], off + 16);
  }

  // heap_init
  lemma FreshHeapAt(m: Bytes, base: nat)
    requires 24 <= |m| && |m| % 8 == 0 && 0 < base && base % 8 == 0 && base + |m| < TWO_64
    ensures HeapAt(WriteHeader(m, 0, |m| - 24, true, 0), base, Fresh(|m|))
  {
    hide HeaderAt, WriteHeader;
    HeaderWritten(m, 0, |m| - 24, true, 0);
    var bs := Fresh(|m|);
    assert bs[1..] == [] && bs[0].End() == |m|;
    assert Tiles(bs, 0, |m|);
    assert (|m| - 24) % 8 == 0;
    assert Aligned(bs) && Coalesced(bs);
    assert NextPtr(base, bs, 0) == 0;
  }
}
