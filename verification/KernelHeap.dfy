/** kmalloc, kzalloc and kfree of kernel/src/mm/heap.c as they run: headers read from and written
    to the heap's own bytes, following the `next` pointers stored there. */
module KernelHeaps {
  import opened Bits
  import opened BlockList
  import opened HeapMemory

  class KernelHeap {
    const base: nat          // s_heap_start, which is also s_head
    const mem: array<Byte>   // the bytes from base on
    ghost var blocks: Blocks // the list that the headers encode

    ghost predicate Valid()
      reads this, mem
    {
      HeapAt(mem[..], base, blocks)
    }

    // heap_init on the pages that pmm_alloc_pages returned.
    constructor Init(pages: array<Byte>, start: nat)
      requires 24 <= pages.Length && pages.Length % 8 == 0
      requires 0 < start && start % 8 == 0 && start + pages.Length < TWO_64
      modifies pages
      ensures Valid() && mem == pages && base == start && blocks == Fresh(pages.Length)
    {
      base, mem, blocks := start, pages, Fresh(pages.Length);
      new;
      PutHeader(0, mem.Length - 24, true, 0);
      FreshHeapAt(old(pages[..]), start);
    }

    method Put64(a: nat, v: nat)
      requires a + 8 <= mem.Length && v < TWO_64
      modifies mem
      ensures mem[..] == Store64(old(mem[..]), a, v)
    {
      ghost var bytes := ToBytes(v, 8);
      var i, rest := 0, v;
      while i < 8
        invariant i <= 8
        invariant bytes[i..] == ToBytes(rest, 8 - i)
        invariant forall k :: 0 <= k < mem.Length ==> mem[k] == if a <= k < a + i then bytes[k - a] else old(mem[k])
      {
        assert bytes[i] == bytes[i..][0] == rest % 256;
        assert bytes[i + 1..] == bytes[i..][1..];
        mem[a + i] := rest % 256;
        i, rest := i + 1, rest / 256;
      }
    }

    method PutHeader(off: nat, size: nat, free: bool, next: nat)
      requires off + 24 <= mem.Length && size < TWO_64 && next < TWO_64
      modifies mem
      ensures mem[..] == WriteHeader(old(mem[..]), off, size, free, next)
    {
      Put64(off, size);
      mem[off + 8] := if free then 1 else 0;
      Put64(off + 16, next);
    }

    // Returns the address of a payload, 0 when no block fits.
    method Kmalloc(size: nat) returns (p: nat)
      requires Valid() && size < TWO_64
      modifies this`blocks, mem
      ensures Valid()
      ensures blocks == Malloc(old(blocks), Round8(size)).bs
      ensures mem[..] == MallocMem(old(mem[..]), base, old(blocks), Round8(size))
      ensures var off := Malloc(old(blocks), Round8(size)).off;
              p == if off < 0 then 0 else base + off + 24
      ensures p != 0 ==> (Owns(blocks, p - base - 24, size) <==> size <= TWO_64 - 8)
      ensures p != 0 ==> exists b :: Served(old(blocks), blocks, Round8(size), b) && p == base + b.off + 24
    {
      hide HeapAt, Owns, Served, Round8, TakeMem, Take, Replace, HeaderAt, Encodes, Inv, InHeader, NextPtr;
      RoundAligned(size);
      RequestOwns(mem[..], base, blocks, size);
      MallocMemKeeps(mem[..], base, blocks, Round8(size));
      var need := Round8(size);
      ghost var k;
      var curr, bsize, next;
      curr, bsize, next, k := FindFit(need);
      if curr == 0 {
        return 0;
      }
      HeapBounds(mem[..], base, blocks);
      TakeBlock(curr - base, bsize, need, next, k);
      blocks := Malloc(blocks, need).bs;
      return curr + 24;
    }

    // The search loop of kmalloc: the first header whose block fits, with the fields read from it.
    method FindFit(need: nat) returns (curr: nat, bsize: nat, next: nat, ghost k: nat)
      requires Valid()
      ensures k == FirstFit(blocks, need, 0)
      ensures if k < |blocks|
              then && curr == base + blocks[k].off && curr != 0 && blocks[k].End() <= mem.Length
                   && bsize == blocks[k].size && next == NextPtr(base, blocks, k) < TWO_64
              else curr == 0
    {
      hide HeapAt, HeaderAt, NextPtr;
      curr, k := base, 0;
      bsize, next := 0, 0;
      HeadOf(mem[..], base, blocks);
      while curr != 0
        invariant k <= |blocks|
        invariant curr == if k < |blocks| then base + blocks[k].off else 0
        invariant FirstFit(blocks, need, 0) == FirstFit(blocks, need, k)
        decreases |blocks| - k
      {
        HeaderOf(mem[..], base, blocks, k);
        NextBound(mem[..], base, blocks, k);
        var off := curr - base;
        bsize, next := Load64(mem[..], off), Load64(mem[..], off + 16);
        if mem[off + 8] != 0 && bsize >= need {
          return;
        }
        NextBlock(base, blocks, k);
        curr, k := next, k + 1;
      }
    }

    // The body of the loop once a block fits.
    method TakeBlock(off: nat, bsize: nat, need: nat, next: nat, ghost k: nat)
      requires k < |blocks| && blocks[k] == Block(off, bsize, true) && bsize >= need
      requires off + 24 + bsize <= mem.Length && base + mem.Length < TWO_64
      requires next == NextPtr(base, blocks, k) < TWO_64
      modifies mem
      ensures mem[..] == TakeMem(old(mem[..]), base, blocks, k, need)
    {
      hide WriteHeader, NextPtr;
      if bsize >= need + 24 + 32 {
        var rest := off + 24 + need;
        PutHeader(rest, bsize - need - 24, true, next);
        PutHeader(off, need, false, base + rest);
      } else {
        mem[off + 8] := 0;
      }
    }

    // Zeroes the bytes asked for, and no other. A request whose rounding wraps must find no block,
    // or memset would run past the end of the one it gets.
    method Kzalloc(size: nat) returns (p: nat)
      requires Valid() && size < TWO_64
      requires size <= TWO_64 - 8 || Malloc(blocks, Round8(size)).off < 0
      modifies this`blocks, mem
      ensures Valid()
      ensures blocks == Malloc(old(blocks), Round8(size)).bs
      ensures var off := Malloc(old(blocks), Round8(size)).off;
              var m := MallocMem(old(mem[..]), base, old(blocks), Round8(size));
              if off < 0 then p == 0 && mem[..] == m
              else && p == base + off + 24
                   && off + 24 + size <= mem.Length
                   && mem[..] == WithZeros(m, off + 24, size)
      ensures p != 0 ==> exists b :: Served(old(blocks), blocks, Round8(size), b) && p == base + b.off + 24
    {
      p := Kmalloc(size);
      if p != 0 {
        ghost var m := mem[..];
        ghost var b := NewBlock(mem[..], base, old(blocks), size);
        hide HeapAt, Malloc, MallocMem, Round8, Inv, InPayload;
        ZeroBytes(p - base, size);
        PayloadZeroed(m, base, blocks, b, size);
      }
    }

    // memset(p, 0, size)
    method ZeroBytes(at: nat, size: nat)
      requires at + size <= mem.Length
      modifies mem
      ensures mem[..] == WithZeros(old(mem[..]), at, size)
    {
      var len := 0;
      while len < size
        invariant len <= size
        invariant forall a :: 0 <= a < mem.Length ==> mem[a] == if at <= a < at + len then 0 else old(mem[a])
      {
        mem[at + len] := 0;
        len := len + 1;
      }
    }

    // Frees the live block whose payload starts at p; address 0 is ignored.
    method Kfree(p: nat)
      requires Valid()
      requires p != 0 ==> exists b :: b in blocks && !b.free && p == base + b.off + 24
      modifies this`blocks, mem
      ensures Valid()
      ensures if p == 0 then blocks == old(blocks) && mem[..] == old(mem[..])
              else && p >= base + 24
                   && blocks == Free(old(blocks), p - base - 24)
                   && mem[..] == FreeMem(old(mem[..]), base, old(blocks), p - base - 24)
    {
      if p == 0 {
        return;
      }
      ghost var b :| b in blocks && !b.free && p == base + b.off + 24;
      hide HeapAt, FreeMem, Free;
      ReleaseBlock(p - base - 24, b);
    }

    method ReleaseBlock(off: nat, ghost b: Block)
      requires Valid() && b in blocks && !b.free && off == b.off
      modifies this`blocks, mem
      ensures Valid()
      ensures blocks == Free(old(blocks), off)
      ensures mem[..] == FreeMem(old(mem[..]), base, old(blocks), off)
    {
      hide HeapAt, Merging, Merge, MergeMem, InHeader, SetFree;
      ghost var i := IndexOfBlock(mem[..], base, blocks, b);
      FreeMemKeeps(mem[..], base, blocks, b);
      SetFreeMerging(mem[..], base, blocks, i);
      mem[off + 8] := 1;
      ghost var bs := MergePass(SetFree(blocks, i));
      blocks := bs;
    }

    // The merge loop of kfree, over headers that encode `list`.
    method MergePass(ghost list: Blocks) returns (ghost bs: Blocks)
      requires Merging(mem[..], base, list)
      modifies mem
      ensures bs == Merge(list, 0)
      ensures mem[..] == MergeMem(old(mem[..]), base, list, 0)
    {
      hide Merging, Encodes, Absorb, AbsorbMem, HeaderAt, NextPtr;
      MergingHead(mem[..], base, list);
      bs := list;
      var curr := base;
      ghost var k := 0;
      var next := NextOf(curr, bs, k);
      while next != 0
        invariant k < |bs| && Merging(mem[..], base, bs)
        invariant curr == base + bs[k].off && next == NextPtr(base, bs, k)
        invariant next == 0 <==> k + 1 == |bs|
        invariant Merge(bs, k) == Merge(list, 0)
        invariant MergeMem(mem[..], base, bs, k) == MergeMem(old(mem[..]), base, list, 0)
        decreases |bs| - k
      {
        MergingNext(mem[..], base, bs, k);
        MergingHeader(mem[..], base, bs, k);
        MergingHeader(mem[..], base, bs, k + 1);
        NextBlock(base, bs, k);
        var off, noff := curr - base, next - base;
        if mem[off + 8] != 0 && mem[noff + 8] != 0 {
          AbsorbEncodes(mem[..], base, bs, k);
          AbsorbLength(bs, k);
          AbsorbAt(bs, base, k, k);
          MergeStep(off, noff, bs, k);
          bs := Absorb(bs, k);
        } else {
          curr, k := next, k + 1;
        }
        next := NextOf(curr, bs, k);
      }
    }

    // The body of the merge loop: the block at `off` takes over the size and the successor of the
    // block at `noff`.
    method MergeStep(off: nat, noff: nat, ghost bs: Blocks, ghost k: nat)
      requires Merging(mem[..], base, bs) && k + 1 < |bs| && off == bs[k].off && noff == bs[k + 1].off
      modifies mem
      ensures bs[k].End() <= mem.Length
      ensures mem[..] == AbsorbMem(old(mem[..]), base, bs, k)
    {
      hide Merging, NextPtr, Store64, Load64;
      MergingHeader(mem[..], base, bs, k);
      MergingHeader(mem[..], base, bs, k + 1);
      MergingPair(mem[..], base, bs, k);
      MergingNext(mem[..], base, bs, k + 1);
      var total := Load64(mem[..], off) + 24 + Load64(mem[..], noff);
      var skip := Load64(mem[..], noff + 16);
      Put64(off, total);
      Put64(off + 16, skip);
    }

    // curr->next
    method NextOf(curr: nat, ghost bs: Blocks, ghost k: nat) returns (next: nat)
      requires Merging(mem[..], base, bs) && k < |bs| && curr == base + bs[k].off
      ensures next == NextPtr(base, bs, k)
      ensures next == 0 <==> k + 1 == |bs|
    {
      MergingHeader(mem[..], base, bs, k);
      MergingNext(mem[..], base, bs, k);
      next := Load64(mem[..], curr - base + 16);
    }
  }

  lemma RequestOwns(m: Bytes, base: nat, bs: Blocks, size: nat)
    requires HeapAt(m, base, bs) && size < TWO_64
    ensures var a := Malloc(bs, Round8(size)); a.off >= 0 ==> (Owns(a.bs, a.off, size) <==> size <= TWO_64 - 8)
    ensures var a := Malloc(bs, Round8(size));
            a.off >= 0 ==> exists b :: Served(bs, a.bs, Round8(size), b) && b.off == a.off
  {
    hide Malloc, Round8, Owns, Served, Inv, Encodes;
    HeapBounds(m, base, bs);
    MallocAddsOne(bs, Round8(size), |m|);
    if Malloc(bs, Round8(size)).off >= 0 {
      KmallocOwnsIff(bs, size, |m|);
    }
  }

  lemma NextBlock(base: nat, bs: Blocks, k: nat)
    requires k < |bs|
    ensures NextPtr(base, bs, k) == if k + 1 < |bs| then base + bs[k + 1].off else 0
  {
  }

  lemma HeapBounds(m: Bytes, base: nat, bs: Blocks)
    requires HeapAt(m, base, bs)
    ensures 0 < base && base + |m| < TWO_64
  {
  }

  lemma HeadOf(m: Bytes, base: nat, bs: Blocks)
    requires HeapAt(m, base, bs)
    ensures |bs| > 0 && bs[0].off == 0 && 0 < base && base + |m| < TWO_64
  {
  }

  lemma MergingHead(m: Bytes, base: nat, bs: Blocks)
    requires Merging(m, base, bs)
    ensures |bs| > 0 && bs[0].off == 0 && 0 < base
  {
  }

  lemma MergingPair(m: Bytes, base: nat, bs: Blocks, k: nat)
    requires Merging(m, base, bs) && k + 1 < |bs|
    ensures bs[k].size + 24 + bs[k + 1].size < TWO_64
  {
    hide Tiles, Encodes;
    TilesOrdered(bs, 0, |m|, k, k + 1);
  }

  lemma HeaderOf(m: Bytes, base: nat, bs: Blocks, k: nat)
    requires HeapAt(m, base, bs) && k < |bs|
    ensures bs[k].End() <= |m|
    ensures Load64(m, bs[k].off) == bs[k].size && (m[bs[k].off + 8] != 0 <==> bs[k].free)
    ensures Load64(m, bs[k].off + 16) == NextPtr(base, bs, k)
  {
    TilesOrdered(bs, 0, |m|, k, k);
  }

  lemma MergingHeader(m: Bytes, base: nat, bs: Blocks, k: nat)
    requires Merging(m, base, bs) && k < |bs|
    ensures bs[k].End() <= |m| && 0 < base
    ensures Load64(m, bs[k].off) == bs[k].size && (m[bs[k].off + 8] != 0 <==> bs[k].free)
    ensures Load64(m, bs[k].off + 16) == NextPtr(base, bs, k)
    ensures bs[0].off == 0
  {
    TilesOrdered(bs, 0, |m|, k, k);
  }

  // m with `size` bytes from `at` on zeroed.
  function WithZeros(m: Bytes, at: nat, size: nat): (r: Bytes)
    requires at + size <= |m|
    ensures |r| == |m|
    ensures forall a :: 0 <= a < |m| ==> r[a] == if at <= a < at + size then 0 else m[a]
  {
    m[..at] + seq(size, _ => 0) + m[at + size..]
  }

  // The block that a successful kmalloc leaves live.
  lemma NewBlock(m: Bytes, base: nat, bs: Blocks, size: nat) returns (b: Block)
    requires Inv(bs, |m|) && HeapAt(m, base, Malloc(bs, Round8(size)).bs)
    requires Malloc(bs, Round8(size)).off >= 0 && size <= TWO_64 - 8
    ensures b in Malloc(bs, Round8(size)).bs && !b.free && b.off == Malloc(bs, Round8(size)).off
    ensures b.size >= size && b.End() <= |m|
  {
    MallocAddsOne(bs, Round8(size), |m|);
    RoundAligned(size);
    hide Malloc, Round8, HeapAt;
    var a := Malloc(bs, Round8(size));
    b :| b in a.bs && !b.free && b.off == a.off && b.size >= Round8(size);
    InsideHeap(m, base, a.bs);
  }

  lemma PayloadZeroed(m: Bytes, base: nat, bs: Blocks, b: Block, size: nat)
    requires HeapAt(m, base, bs) && b in bs && size <= b.size && b.End() <= |m|
    ensures HeapAt(WithZeros(m, b.off + 24, size), base, bs)
  {
    hide HeapAt, WithZeros;
    PayloadWrite(m, WithZeros(m, b.off + 24, size), base, bs, b);
  }

  // Writing a payload leaves the headers alone.
  lemma PayloadWrite(m: Bytes, m': Bytes, base: nat, bs: Blocks, b: Block)
    requires HeapAt(m, base, bs) && b in bs && |m'| == |m|
    requires forall a: nat :: a < |m| && !InPayload(b, a) ==> m'[a] == m[a]
    ensures HeapAt(m', base, bs)
  {
    hide HeaderAt, NextPtr, Inv, InPayload;
    InsideHeap(m, base, bs);
    forall k | 0 <= k < |bs|
      ensures HeaderAt(m', bs[k].off, bs[k].size, bs[k].free, NextPtr(base, bs, k))
    {
      assert bs[k] in bs;
      forall a: nat | bs[k].off <= a < bs[k].off + 24
        ensures m'[a] == m[a]
      {
        HeaderNotPayload(bs, |m|, b, bs[k], a);
      }
      HeaderSame(m, m', bs[k].off, bs[k].size, bs[k].free, NextPtr(base, bs, k));
    }
  }

  lemma HeaderNotPayload(bs: Blocks, end: nat, b: Block, c: Block, a: nat)
    requires Inv(bs, end) && b in bs && c in bs && c.off <= a < c.off + 24
    ensures !InPayload(b, a)
  {
    if InPayload(b, a) {
      PayloadNoHeader(bs, end, b, a);
    }
  }
}
