/** The kernel heap of kernel/src/mm/heap.c as a list of blocks: first fit, splitting, and the
    merge pass of kfree. Offsets count from the start of the heap; a header takes 24 bytes. */
module BlockList {
  import opened Bits

  datatype Block = Block(off: nat, size: nat, free: bool) {
    // The end of the payload, which is where the next header starts.
    function End(): nat {
      off + 24 + size
    }
  }

  type Blocks = seq<Block>

  // The blocks fill [start, end) without a gap.
  ghost predicate Tiles(bs: Blocks, start: nat, end: nat) {
    if bs == [] then start == end
    else bs[0].off == start && Tiles(bs[1..], bs[0].End(), end)
  }

  ghost predicate Aligned(bs: Blocks) {
    forall b :: b in bs ==> b.off % 8 == 0 && b.size % 8 == 0
  }

  // No two neighbours are free.
  ghost predicate Coalesced(bs: Blocks) {
    forall k :: 0 <= k < |bs| - 1 ==> !(bs[k].free && bs[k + 1].free)
  }

  ghost predicate Inv(bs: Blocks, end: nat) {
    bs != [] && Tiles(bs, 0, end) && Aligned(bs) && Coalesced(bs)
  }

  ghost function Live(bs: Blocks): set<Block> {
    set b | b in bs && !b.free
  }

  // (size + 7) & ~7 on 64-bit words
  function Round8(size: nat): nat {
    (size + 7) % TWO_64 / 8 * 8
  }

  predicate Fits(b: Block, size: nat) {
    b.free && b.size >= size
  }

  // The first block at or after k that fits, |bs| when there is none.
  function FirstFit(bs: Blocks, size: nat, k: nat): (i: nat)
    requires k <= |bs|
    ensures k <= i <= |bs|
    ensures i < |bs| ==> Fits(bs[i], size)
    ensures forall j :: k <= j < i ==> !Fits(bs[j], size)
    decreases |bs| - k
  {
    if k == |bs| || Fits(bs[k], size) then k else FirstFit(bs, size, k + 1)
  }

  // What block b becomes when `size` bytes are taken from it.
  function Take(b: Block, size: nat): Blocks
    requires Fits(b, size)
  {
    if b.size >= size + 24 + 32 then
      [Block(b.off, size, false), Block(b.off + 24 + size, b.size - size - 24, true)]
    else [b.(free := false)]
  }

  function Replace(bs: Blocks, i: nat, part: Blocks): Blocks
    requires i < |bs|
  {
    bs[..i] + part + bs[i + 1..]
  }

  datatype Allocation = Allocation(bs: Blocks, off: int)

  // kmalloc on a rounded size: the new list, and the offset of the block taken or -1.
  function Malloc(bs: Blocks, size: nat): Allocation {
    var i := FirstFit(bs, size, 0);
    if i == |bs| then Allocation(bs, -1)
    else Allocation(Replace(bs, i, Take(bs[i], size)), bs[i].off)
  }

  function Absorb(bs: Blocks, k: nat): Blocks
    requires k + 1 < |bs|
  {
    bs[..k] + [bs[k].(size := bs[k].size + 24 + bs[k + 1].size)] + bs[k + 2..]
  }

  // The merge pass from block k on.
  function Merge(bs: Blocks, k: nat): Blocks
    decreases |bs| - k
  {
    if k + 1 >= |bs| then bs
    else if bs[k].free && bs[k + 1].free then Merge(Absorb(bs, k), k)
    else Merge(bs, k + 1)
  }

  // The block at an offset, |bs| when there is none.
  function IndexOf(bs: Blocks, off: nat): (i: nat)
    ensures i <= |bs|
    ensures i < |bs| ==> bs[i].off == off
    ensures forall j :: 0 <= j < i ==> bs[j].off != off
  {
    if bs == [] || bs[0].off == off then 0 else 1 + IndexOf(bs[1..], off)
  }

  function SetFree(bs: Blocks, i: nat): Blocks
    requires i < |bs|
  {
    bs[i := bs[i].(free := true)]
  }

  // kfree of the block at `off`.
  function Free(bs: Blocks, off: nat): Blocks {
    var i := IndexOf(bs, off);
    if i == |bs| then bs else Merge(SetFree(bs, i), 0)
  }

  // ----- tiling -----

  lemma {:induction false} TilesJoin(a: Blocks, b: Blocks, start: nat, mid: nat, end: nat)
    requires Tiles(a, start, mid) && Tiles(b, mid, end)
    ensures Tiles(a + b, start, end)
  {
    if a == [] {
      assert a + b == b;
    } else {
      assert (a + b)[1..] == a[1..] + b;
      TilesJoin(a[1..], b, a[0].End(), mid, end);
    }
  }

  // One block of the tiling can be replaced by any list that fills the same bytes.
  lemma {:induction false} TilesReplace(bs: Blocks, i: nat, part: Blocks, start: nat, end: nat)
    requires Tiles(bs, start, end) && i < |bs|
    requires Tiles(part, bs[i].off, bs[i].End())
    ensures Tiles(Replace(bs, i, part), start, end)
    decreases i
  {
    var r := Replace(bs, i, part);
    if i == 0 {
      assert r == part + bs[1..];
      TilesJoin(part, bs[1..], start, bs[0].End(), end);
    } else {
      TilesReplace(bs[1..], i - 1, part, bs[0].End(), end);
      assert r[1..] == Replace(bs[1..], i - 1, part);
    }
  }

  lemma {:induction false} TilesOrdered(bs: Blocks, start: nat, end: nat, j: nat, k: nat)
    requires Tiles(bs, start, end) && j <= k < |bs|
    ensures start <= bs[j].off && bs[k].End() <= end
    ensures j < k ==> bs[j].End() <= bs[k].off
    ensures j + 1 == k ==> bs[j].End() == bs[k].off
    ensures j == 0 ==> bs[j].off == start
    ensures k + 1 == |bs| ==> bs[k].End() == end
    decreases |bs|
  {
    var rest := bs[1..];
    if j > 0 {
      TilesOrdered(rest, bs[0].End(), end, j - 1, k - 1);
      assert rest[j - 1] == bs[j] && rest[k - 1] == bs[k];
    } else if k > 0 {
      TilesOrdered(rest, bs[0].End(), end, 0, k - 1);
      assert rest[k - 1] == bs[k];
    } else if rest != [] {
      TilesOrdered(rest, bs[0].End(), end, 0, |rest| - 1);
    }
  }

  lemma ReplaceMembers(bs: Blocks, i: nat, part: Blocks, b: Block)
    requires i < |bs|
    ensures b in Replace(bs, i, part) <==> b in bs[..i] || b in part || b in bs[i + 1..]
    ensures b in bs <==> b in bs[..i] || b == bs[i] || b in bs[i + 1..]
  {
    assert bs == bs[..i] + [bs[i]] + bs[i + 1..];
  }

  // Blocks are determined by their offsets.
  lemma OffsetsDistinct(bs: Blocks, start: nat, end: nat, j: nat, k: nat)
    requires Tiles(bs, start, end) && j < |bs| && k < |bs|
    ensures bs[j].off == bs[k].off ==> j == k
  {
    if j < k {
      TilesOrdered(bs, start, end, j, k);
    } else if k < j {
      TilesOrdered(bs, start, end, k, j);
    }
  }

  lemma IndexFound(bs: Blocks, start: nat, end: nat, i: nat)
    requires Tiles(bs, start, end) && i < |bs|
    ensures IndexOf(bs, bs[i].off) == i
  {
    var j := IndexOf(bs, bs[i].off);
    if j < |bs| {
      OffsetsDistinct(bs, start, end, i, j);
    }
  }

  // ----- kmalloc -----

  // The rounded size is a multiple of 8 and, for a 64-bit request, covers it if and only if the
  // addition does not wrap.
  lemma RoundAligned(n: nat)
    ensures Round8(n) % 8 == 0
    ensures n <= TWO_64 - 8 ==> n <= Round8(n) < n + 8
    ensures n < TWO_64 ==> (Round8(n) >= n <==> n <= TWO_64 - 8)
    ensures TWO_64 - 8 < n < TWO_64 ==> Round8(n) == 0
  {
  }

  // kmalloc keeps the tiling, the alignment and the absence of neighbouring free blocks.
  lemma MallocKeeps(bs: Blocks, size: nat, end: nat)
    requires Inv(bs, end) && size % 8 == 0
    ensures Inv(Malloc(bs, size).bs, end)
  {
    var i := FirstFit(bs, size, 0);
    if i < |bs| {
      var part := Take(bs[i], size);
      assert bs[i] in bs;
      TilesReplace(bs, i, part, 0, end);
      forall b
        ensures b in Replace(bs, i, part) ==> b.off % 8 == 0 && b.size % 8 == 0
      {
        ReplaceMembers(bs, i, part, b);
      }
      TakeCoalesced(bs, i, size);
    }
  }

  lemma TakeCoalesced(bs: Blocks, i: nat, size: nat)
    requires Coalesced(bs) && i < |bs| && Fits(bs[i], size)
    ensures Coalesced(Replace(bs, i, Take(bs[i], size)))
  {
    var part := Take(bs[i], size);
    var r := Replace(bs, i, part);
    forall k | 0 <= k < |r| - 1
      ensures !(r[k].free && r[k + 1].free)
    {
      if k + 1 < i {
        assert r[k] == bs[k] && r[k + 1] == bs[k + 1];
      } else if k >= i + |part| - 1 {
        var d := |part| - 1;
        assert k > i + d ==> r[k] == bs[k - d];
        assert r[k + 1] == bs[k + 1 - d];
      }
    }
  }

  // Block b of `after` is what a request for `size` bytes was served with: at least as large, less
  // than 56 bytes larger, cut from the free block that was there when that block was 56 bytes or
  // more too large, and that whole block otherwise.
  ghost predicate Served(bs: Blocks, after: Blocks, size: nat, b: Block) {
    && b in after && !b.free && size <= b.size < size + 56
    && exists f :: f in bs && f.free && f.off == b.off && size <= f.size
                   && if f.size >= size + 56 then b.size == size && Block(b.End(), f.size - size - 24, true) in after
                      else b.size == f.size
  }

  // kmalloc makes exactly one block live: at the offset it returns, cut to the size asked for.
  lemma MallocAddsOne(bs: Blocks, size: nat, end: nat)
    requires Inv(bs, end)
    ensures var a := Malloc(bs, size);
            a.off >= 0 ==> exists b: Block ::
              && b.off == a.off && Served(bs, a.bs, size, b)
              && b.size >= size && !b.free
              && b !in bs && b in a.bs
              && forall c: Block :: !c.free ==> (c in a.bs <==> c in bs || c == b)
  {
    var i := FirstFit(bs, size, 0);
    if i < |bs| {
      var part := Take(bs[i], size);
      var b := part[0];
      assert b !in bs by {
        if j :| 0 <= j < |bs| && bs[j] == b {
          OffsetsDistinct(bs, 0, end, i, j);
        }
      }
      ReplaceMembers(bs, i, part, b);
      forall c: Block | !c.free
        ensures c in Replace(bs, i, part) <==> c in bs || c == b
      {
        ReplaceMembers(bs, i, part, c);
      }
      TakeServes(bs, i, size);
    }
  }

  lemma TakeServes(bs: Blocks, i: nat, size: nat)
    requires i < |bs| && Fits(bs[i], size)
    ensures Served(bs, Replace(bs, i, Take(bs[i], size)), size, Take(bs[i], size)[0])
  {
    var part, f := Take(bs[i], size), bs[i];
    assert f in bs;
    assert part[0] in part;
    ReplaceMembers(bs, i, part, part[0]);
    if |part| == 2 {
      assert part[1] in part;
      ReplaceMembers(bs, i, part, part[1]);
    }
  }

  // The live block at `off` has room for n bytes.
  ghost predicate Owns(bs: Blocks, off: int, n: nat) {
    exists b :: b in bs && !b.free && b.off == off && b.size >= n
  }

  // The block a successful kmalloc(n) hands out has room for the n bytes asked for if and only if
  // rounding n up to 8 does not wrap.
  lemma KmallocOwnsIff(bs: Blocks, n: nat, end: nat)
    requires Inv(bs, end) && n < TWO_64 && end < TWO_64 && Malloc(bs, Round8(n)).off >= 0
    ensures var a := Malloc(bs, Round8(n)); Owns(a.bs, a.off, n) <==> n <= TWO_64 - 8
  {
    RoundAligned(n);
    MallocAddsOne(bs, Round8(n), end);
    MallocKeeps(bs, Round8(n), end);
    var a := Malloc(bs, Round8(n));
    hide Malloc, Round8;
    if n > TWO_64 - 8 {
      forall b | b in a.bs
        ensures b.size < n
      {
        SizeInside(a.bs, end, b);
      }
    }
  }

  lemma SizeInside(bs: Blocks, end: nat, b: Block)
    requires Tiles(bs, 0, end) && b in bs
    ensures b.off + 24 + b.size <= end
  {
    var k :| 0 <= k < |bs| && bs[k] == b;
    TilesOrdered(bs, 0, end, k, k);
  }

  // A request for 2^64 - 1 bytes succeeds on a fresh heap, with a block of no bytes.
  lemma HugeRequest(end: nat)
    requires end >= 80
    ensures Malloc(Fresh(end), Round8(TWO_64 - 1)) == Allocation([Block(0, 0, false), Block(24, end - 48, true)], 0)
  {
    assert Round8(TWO_64 - 1) == 0;
    assert FirstFit(Fresh(end), 0, 0) == 0;
  }

  // ----- what a request can hope for -----

  // Room at `from` for a header and `size` bytes that touch no live block, header included.
  ghost predicate FreeRoom(bs: Blocks, from: nat, size: nat, end: nat) {
    from + 24 + size <= end && forall b :: b in bs && !b.free ==> from + 24 + size <= b.off || b.End() <= from
  }

  // Such room lies inside one free block.
  lemma {:induction false} RoomInBlock(bs: Blocks, from: nat, size: nat, start: nat, end: nat) returns (k: nat)
    requires Tiles(bs, start, end) && Coalesced(bs)
    requires FreeRoom(bs, from, size, end) && start <= from
    ensures k < |bs| && bs[k].free && bs[k].off <= from && from + 24 + size <= bs[k].End()
    decreases |bs|
  {
    var b, rest := bs[0], bs[1..];
    if b.End() <= from {
      forall c | c in rest && !c.free
        ensures from + 24 + size <= c.off || c.End() <= from
      {
        assert c in bs;
      }
      forall j | 0 <= j < |rest| - 1
        ensures !(rest[j].free && rest[j + 1].free)
      {
        assert rest[j] == bs[j + 1] && rest[j + 1] == bs[j + 2];
      }
      k := RoomInBlock(rest, from, size, b.End(), end);
      k := k + 1;
    } else {
      k := 0;
      assert b in bs && (rest != [] ==> bs[1] in bs);
    }
  }

  // kmalloc fails exactly when there is no room for a header and the rounded size anywhere in the heap.
  lemma MallocFailsIff(bs: Blocks, size: nat, end: nat)
    requires Inv(bs, end)
    ensures Malloc(bs, size).off < 0 <==> !exists from: nat :: FreeRoom(bs, from, size, end)
  {
    if from: nat :| FreeRoom(bs, from, size, end) {
      var k := RoomInBlock(bs, from, size, 0, end);
      assert Fits(bs[k], size);
    }
    var i := FirstFit(bs, size, 0);
    if i < |bs| {
      BlockIsRoom(bs, i, size, end);
    }
  }

  lemma BlockIsRoom(bs: Blocks, i: nat, size: nat, end: nat)
    requires Tiles(bs, 0, end) && i < |bs| && Fits(bs[i], size)
    ensures FreeRoom(bs, bs[i].off, size, end)
  {
    TilesOrdered(bs, 0, end, i, i);
    forall b | b in bs && !b.free
      ensures bs[i].off + 24 + size <= b.off || b.End() <= bs[i].off
    {
      var j :| 0 <= j < |bs| && bs[j] == b;
      if j < i {
        TilesOrdered(bs, 0, end, j, i);
      } else if i < j {
        TilesOrdered(bs, 0, end, i, j);
      }
    }
  }

  // kmalloc returns the lowest place where a header and the rounded size fit.
  lemma MallocIsLowest(bs: Blocks, size: nat, end: nat, from: nat)
    requires Inv(bs, end)
    requires FreeRoom(bs, from, size, end)
    ensures var off := Malloc(bs, size).off;
            && 0 <= off <= from
            && FreeRoom(bs, off, size, end)
  {
    var k := RoomInBlock(bs, from, size, 0, end);
    var i := FirstFit(bs, size, 0);
    assert Fits(bs[k], size);
    TilesOrdered(bs, 0, end, i, k);
    BlockIsRoom(bs, i, size, end);
  }

  // ----- kfree -----

  lemma AbsorbReplaces(bs: Blocks, k: nat, start: nat, end: nat)
    requires Tiles(bs, start, end) && k + 1 < |bs|
    ensures Tiles(Absorb(bs, k), start, end)
    decreases k
  {
    var r := Absorb(bs, k);
    TilesOrdered(bs, start, end, k, k + 1);
    if k == 0 {
      assert r[1..] == bs[2..];
    } else {
      AbsorbReplaces(bs[1..], k - 1, bs[0].End(), end);
      assert r[1..] == Absorb(bs[1..], k - 1);
    }
  }

  ghost predicate CoalescedUpTo(bs: Blocks, k: nat) {
    forall j :: 0 <= j < k && j < |bs| - 1 ==> !(bs[j].free && bs[j + 1].free)
  }

  // The merge pass keeps the tiling, the alignment and the live blocks, and leaves no two
  // neighbours free.
  lemma {:induction false} MergeKeeps(bs: Blocks, k: nat, end: nat)
    requires bs != [] && Tiles(bs, 0, end) && Aligned(bs) && CoalescedUpTo(bs, k)
    ensures Inv(Merge(bs, k), end)
    ensures Live(Merge(bs, k)) == Live(bs)
    decreases |bs| - k
  {
    if k + 1 < |bs| {
      if bs[k].free && bs[k + 1].free {
        AbsorbReplaces(bs, k, 0, end);
        AbsorbMembers(bs, k);
        MergeKeeps(Absorb(bs, k), k, end);
      } else {
        MergeKeeps(bs, k + 1, end);
      }
    }
  }

  lemma AbsorbMembers(bs: Blocks, k: nat)
    requires k + 1 < |bs| && bs[k].free && bs[k + 1].free
    ensures Live(Absorb(bs, k)) == Live(bs)
    ensures Aligned(bs) ==> Aligned(Absorb(bs, k))
  {
    var merged := bs[k].(size := bs[k].size + 24 + bs[k + 1].size);
    assert bs == bs[..k] + [bs[k]] + [bs[k + 1]] + bs[k + 2..];
    assert bs[k] in bs && bs[k + 1] in bs;
    forall b
      ensures b in Absorb(bs, k) <==> b in bs[..k] || b == merged || b in bs[k + 2..]
      ensures b in bs <==> b in bs[..k] || b == bs[k] || b == bs[k + 1] || b in bs[k + 2..]
    {
    }
  }

  lemma SetFreeKeeps(bs: Blocks, i: nat, start: nat, end: nat)
    requires Tiles(bs, start, end) && Aligned(bs) && i < |bs|
    ensures Tiles(SetFree(bs, i), start, end) && Aligned(SetFree(bs, i))
    ensures Live(SetFree(bs, i)) == Live(bs) - {bs[i]}
  {
    var b := bs[i].(free := true);
    assert SetFree(bs, i) == Replace(bs, i, [b]);
    TilesReplace(bs, i, [b], start, end);
    forall c
      ensures c in SetFree(bs, i) <==> c in bs[..i] || c == b || c in bs[i + 1..]
      ensures c in bs <==> c in bs[..i] || c == bs[i] || c in bs[i + 1..]
    {
      ReplaceMembers(bs, i, [b], c);
    }
    assert bs[i] in bs;
    forall c | c in bs[..i] || c in bs[i + 1..]
      ensures c.free || c != bs[i]
    {
      if c == bs[i] {
        var j :| 0 <= j < |bs| && j != i && bs[j] == c;
        OffsetsDistinct(bs, start, end, i, j);
      }
    }
  }

  // kfree keeps the invariant and makes exactly one block free.
  lemma FreeKeeps(bs: Blocks, b: Block, end: nat)
    requires Inv(bs, end) && b in bs && !b.free
    ensures Inv(Free(bs, b.off), end)
    ensures Live(Free(bs, b.off)) == Live(bs) - {b}
  {
    var i :| 0 <= i < |bs| && bs[i] == b;
    IndexFound(bs, 0, end, i);
    SetFreeKeeps(bs, i, 0, end);
    MergeKeeps(SetFree(bs, i), 0, end);
  }

  // Where no two neighbours are free the merge pass only moves on.
  lemma {:induction false} MergeSkips(bs: Blocks, k: nat, i: nat)
    requires k <= i <= |bs|
    requires forall j :: k <= j < i && j + 1 < |bs| ==> !(bs[j].free && bs[j + 1].free)
    ensures Merge(bs, k) == Merge(bs, i)
    decreases i - k
  {
    if k < i {
      MergeSkips(bs, k + 1, i);
    }
  }

  // Freeing what kmalloc just returned restores the block list.
  lemma FreeUndoesMalloc(bs: Blocks, size: nat, end: nat)
    requires Inv(bs, end) && Malloc(bs, size).off >= 0
    ensures Free(Malloc(bs, size).bs, Malloc(bs, size).off) == bs
  {
    var i := FirstFit(bs, size, 0);
    var part := Take(bs[i], size);
    TilesReplace(bs, i, part, 0, end);
    IndexFound(Replace(bs, i, part), 0, end, i);
    TakenBack(bs, i, size);
  }

  // Making the taken block free again: the merge pass rejoins the parts of a split.
  lemma TakenBack(bs: Blocks, i: nat, size: nat)
    requires Coalesced(bs) && i < |bs| && Fits(bs[i], size)
    ensures Merge(SetFree(Replace(bs, i, Take(bs[i], size)), i), 0) == bs
  {
    var part := Take(bs[i], size);
    var freed := SetFree(Replace(bs, i, part), i);
    if |part| == 1 {
      assert freed == bs;
      MergeSkips(bs, 0, |bs|);
    } else {
      SplitRejoins(bs, i, size);
      MergeSkips(freed, 0, i);
      MergeSkips(bs, i, |bs|);
    }
  }

  lemma SplitRejoins(bs: Blocks, i: nat, size: nat)
    requires Coalesced(bs) && i < |bs| && Fits(bs[i], size) && |Take(bs[i], size)| == 2
    ensures var freed := SetFree(Replace(bs, i, Take(bs[i], size)), i);
            && |freed| == |bs| + 1
            && (forall j :: 0 <= j < i ==> freed[j] == bs[j])
            && freed[i].free && freed[i + 1].free
            && Absorb(freed, i) == bs
  {
    var freed := SetFree(Replace(bs, i, Take(bs[i], size)), i);
    assert freed[i + 2..] == bs[i + 1..];
    assert freed[..i] == bs[..i];
    assert bs == bs[..i] + [bs[i]] + bs[i + 1..];
  }

  // The one block of heap_init.
  function Fresh(end: nat): Blocks
    requires end >= 24
  {
    [Block(0, end - 24, true)]
  }

  lemma NothingLive(bs: Blocks, end: nat)
    requires Inv(bs, end) && Live(bs) == {}
    ensures end >= 24 && bs == Fresh(end)
  {
    if |bs| > 1 {
      FirstTwo(bs);
    }
    forall k | 0 <= k < |bs|
      ensures bs[k].free
    {
      assert bs[k] !in Live(bs);
    }
    TilesOrdered(bs, 0, end, 0, 0);
  }

  lemma FirstTwo(bs: Blocks)
    requires Coalesced(bs) && |bs| > 1
    ensures !(bs[0].free && bs[1].free)
  {
  }

  function FreeAll(bs: Blocks, order: seq<Block>): Blocks
    decreases |order|
  {
    if order == [] then bs else FreeAll(Free(bs, order[0].off), order[1..])
  }

  // Freeing every live block, in any order, gives back the initial heap.
  lemma {:induction false} FreeAllRestores(bs: Blocks, order: seq<Block>, end: nat)
    requires Inv(bs, end)
    requires forall b :: b in order <==> b in Live(bs)
    requires forall i, j :: 0 <= i < j < |order| ==> order[i] != order[j]
    ensures end >= 24 && FreeAll(bs, order) == Fresh(end)
    decreases |order|
  {
    if order == [] {
      assert Live(bs) == {};
      NothingLive(bs, end);
    } else {
      var b, rest := order[0], order[1..];
      assert b in Live(bs);
      FreeKeeps(bs, b, end);
      forall c
        ensures c in rest <==> c in Live(Free(bs, b.off))
      {
        assert c in order <==> c == b || c in rest;
        if c in rest {
          var j :| 0 <= j < |rest| && rest[j] == c;
          assert order[0] != order[j + 1];
        }
      }
      FreeAllRestores(Free(bs, b.off), rest, end);
    }
  }

  // Headers and payloads together.
  function TotalBytes(bs: Blocks): nat {
    if bs == [] then 0 else 24 + bs[0].size + TotalBytes(bs[1..])
  }

  lemma {:induction false} BytesConserved(bs: Blocks, start: nat, end: nat)
    requires Tiles(bs, start, end)
    ensures start + TotalBytes(bs) == end
  {
    if bs != [] {
      BytesConserved(bs[1..], bs[0].End(), end);
    }
  }
}
