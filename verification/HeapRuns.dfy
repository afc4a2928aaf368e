/** Every run of the kernel heap: allocations, frees of live blocks, and writes by the owners of
    live blocks into their own payloads, in any order. */
module HeapRuns {
  import opened Bits
  import opened BlockList
  import opened HeapMemory

  datatype Heap = Heap(m: Bytes, bs: Blocks)

  datatype Op =
    | Allocate(size: nat)
    | Release(b: Block)
    | Write(b: Block, i: nat, v: Byte)

  function Step(h: Heap, base: nat, op: Op): (r: Heap)
    ensures |r.m| == |h.m|
  {
    match op
    case Allocate(n) => Heap(MallocMem(h.m, base, h.bs, Round8(n)), Malloc(h.bs, Round8(n)).bs)
    case Release(b) => Heap(FreeMem(h.m, base, h.bs, b.off), Free(h.bs, b.off))
    case Write(b, i, v) => if b.off + 24 + i < |h.m| then h.(m := h.m[b.off + 24 + i := v]) else h
  }

  // Only live blocks are freed, and writes stay inside a live payload.
  ghost predicate MayStep(h: Heap, op: Op) {
    match op
    case Allocate(n) => true
    case Release(b) => b in h.bs && !b.free
    case Write(b, i, v) => b in h.bs && !b.free && i < b.size
  }

  function Run(h: Heap, base: nat, ops: seq<Op>): (r: Heap)
    ensures |r.m| == |h.m|
  {
    if ops == [] then h else Step(Run(h, base, ops[..|ops| - 1]), base, ops[|ops| - 1])
  }

  ghost predicate MayRun(h: Heap, base: nat, ops: seq<Op>) {
    ops == [] || (MayRun(h, base, ops[..|ops| - 1]) && MayStep(Run(h, base, ops[..|ops| - 1]), ops[|ops| - 1]))
  }

  // heap_init: one free block over the whole region.
  function Init(m: Bytes): Heap
    requires |m| >= 24
  {
    Heap(WriteHeader(m, 0, |m| - 24, true, 0), Fresh(|m|))
  }

  lemma InitHeapAt(m: Bytes, base: nat)
    requires 24 <= |m| && |m| % 8 == 0 && 0 < base && base % 8 == 0 && base + |m| < TWO_64
    ensures HeapAt(Init(m).m, base, Init(m).bs)
  {
    FreshHeapAt(m, base);
  }

  lemma StepHeapAt(h: Heap, base: nat, op: Op)
    requires HeapAt(h.m, base, h.bs) && MayStep(h, op)
    ensures HeapAt(Step(h, base, op).m, base, Step(h, base, op).bs)
  {
    hide HeapAt, Malloc, MallocMem, Free, FreeMem, Round8;
    match op
    case Allocate(n) =>
      RoundAligned(n);
      MallocMemKeeps(h.m, base, h.bs, Round8(n));
    case Release(b) =>
      FreeMemKeeps(h.m, base, h.bs, b);
    case Write(b, i, v) =>
      WriteKeeps(h.m, base, h.bs, b, i, v);
  }

  lemma WriteKeeps(m: Bytes, base: nat, bs: Blocks, b: Block, i: nat, v: Byte)
    requires HeapAt(m, base, bs) && b in bs && !b.free && i < b.size
    ensures b.off + 24 + i < |m| && HeapAt(m[b.off + 24 + i := v], base, bs)
  {
    hide Encodes, Tiles, Aligned, Coalesced, InHeader;
    PayloadNoHeader(bs, |m|, b, b.off + 24 + i);
    WriteKeepsHeaders(m, base, bs, b.off + 24 + i, v);
  }

  lemma WriteKeepsHeaders(m: Bytes, base: nat, bs: Blocks, a: nat, v: Byte)
    requires HeapAt(m, base, bs) && a < |m| && !InHeader(bs, a)
    ensures Encodes(m[a := v], base, bs)
  {
    hide HeaderAt, NextPtr, Inv;
    InsideHeap(m, base, bs);
    forall k | 0 <= k < |bs|
      ensures HeaderAt(m[a := v], bs[k].off, bs[k].size, bs[k].free, NextPtr(base, bs, k))
    {
      assert bs[k] in bs;
      assert !(bs[k].off <= a < bs[k].off + 24);
      HeaderSame(m, m[a := v], bs[k].off, bs[k].size, bs[k].free, NextPtr(base, bs, k));
    }
  }

  // In every reachable state the headers in memory encode blocks that tile the heap, aligned, with
  // no two neighbours free.
  lemma {:induction false} RunHeapAt(h: Heap, base: nat, ops: seq<Op>)
    requires HeapAt(h.m, base, h.bs) && MayRun(h, base, ops)
    ensures HeapAt(Run(h, base, ops).m, base, Run(h, base, ops).bs)
  {
    if ops != [] {
      var init := ops[..|ops| - 1];
      RunHeapAt(h, base, init);
      StepHeapAt(Run(h, base, init), base, ops[|ops| - 1]);
    }
  }

  // So it is after every run from heap_init on.
  lemma RunFromInit(m: Bytes, base: nat, ops: seq<Op>)
    requires 24 <= |m| && |m| % 8 == 0 && 0 < base && base % 8 == 0 && base + |m| < TWO_64
    requires MayRun(Init(m), base, ops)
    ensures HeapAt(Run(Init(m), base, ops).m, base, Run(Init(m), base, ops).bs)
  {
    hide HeapAt;
    InitHeapAt(m, base);
    RunHeapAt(Init(m), base, ops);
  }

  function Payload(m: Bytes, b: Block): Bytes
    requires b.End() <= |m|
  {
    m[b.off + 24..b.End()]
  }

  // An operation by anyone but the owner of b leaves b live and every byte of its payload alone.
  lemma StepKeepsPayload(h: Heap, base: nat, op: Op, b: Block)
    requires HeapAt(h.m, base, h.bs) && MayStep(h, op)
    requires b in h.bs && !b.free && op != Release(b) && (op.Write? ==> op.b != b)
    ensures b in Step(h, base, op).bs
    ensures b.End() <= |h.m|
    ensures Payload(Step(h, base, op).m, b) == Payload(h.m, b)
  {
    hide HeapAt, MayStep, Step;
    StepHeapAt(h, base, op);
    InsideHeap(h.m, base, h.bs);
    LiveStays(h, base, op, b);
    var m' := Step(h, base, op).m;
    forall a: nat | InPayload(b, a)
      ensures m'[a] == h.m[a]
    {
      StepKeepsByte(h, base, op, b, a);
    }
    SamePayload(h.m, m', b);
  }

  lemma SamePayload(m: Bytes, m': Bytes, b: Block)
    requires b.End() <= |m| == |m'|
    requires forall a: nat :: InPayload(b, a) ==> m'[a] == m[a]
    ensures Payload(m', b) == Payload(m, b)
  {
    forall j | 0 <= j < b.size
      ensures Payload(m', b)[j] == Payload(m, b)[j]
    {
      assert InPayload(b, b.off + 24 + j);
    }
  }

  lemma LiveStays(h: Heap, base: nat, op: Op, b: Block)
    requires HeapAt(h.m, base, h.bs) && MayStep(h, op)
    requires b in h.bs && !b.free && op != Release(b)
    ensures b in Step(h, base, op).bs
  {
    hide Malloc, Free, Round8, Encodes, MallocMem, FreeMem;
    match op
    case Allocate(n) =>
      MallocAddsOne(h.bs, Round8(n), |h.m|);
      MallocNone(h.bs, Round8(n));
    case Release(c) =>
      FreeKeeps(h.bs, c, |h.m|);
      assert b in Live(h.bs) - {c};
    case Write(_, _, _) =>
  }

  lemma MallocNone(bs: Blocks, size: nat)
    ensures Malloc(bs, size).off < 0 ==> Malloc(bs, size).bs == bs
  {
  }

  lemma StepKeepsByte(h: Heap, base: nat, op: Op, b: Block, a: nat)
    requires HeapAt(h.m, base, h.bs) && MayStep(h, op)
    requires b in h.bs && !b.free && op != Release(b) && (op.Write? ==> op.b != b)
    requires InPayload(b, a)
    ensures a < |h.m| && Step(h, base, op).m[a] == h.m[a]
  {
    hide Malloc, Free, Round8, Encodes, MallocMem, FreeMem, InPayload, InHeader, Tiles, Aligned, Coalesced;
    PayloadNoHeader(h.bs, |h.m|, b, a);
    match op
    case Allocate(n) =>
      AllocateKeepsByte(h, base, n, b, a);
    case Release(c) =>
      FreeMemKeeps(h.m, base, h.bs, c);
    case Write(c, i, _) =>
      if a == c.off + 24 + i {
        assert InPayload(c, a) by {
          WrittenInPayload(c, i);
        }
        PayloadsDisjoint(h.bs, |h.m|, b, c, a);
      }
  }

  lemma WrittenInPayload(b: Block, i: nat)
    requires i < b.size
    ensures InPayload(b, b.off + 24 + i)
  {
  }

  lemma AllocateKeepsByte(h: Heap, base: nat, n: nat, b: Block, a: nat)
    requires HeapAt(h.m, base, h.bs) && b in h.bs && !b.free && InPayload(b, a)
    ensures a < |h.m| && MallocMem(h.m, base, h.bs, Round8(n))[a] == h.m[a]
  {
    hide Malloc, Round8, Encodes, MallocMem, InPayload;
    var r := Malloc(h.bs, Round8(n)).bs;
    LiveStays(h, base, Allocate(n), b);
    RoundAligned(n);
    MallocKeeps(h.bs, Round8(n), |h.m|);
    PayloadNoHeader(r, |h.m|, b, a);
    MallocMemKeeps(h.m, base, h.bs, Round8(n));
  }

  ghost predicate LeavesAlone(ops: seq<Op>, b: Block) {
    forall op :: op in ops ==> op != Release(b) && (op.Write? ==> op.b != b)
  }

  // Over any run in which its owner neither frees it nor writes to it, a live block stays live and
  // keeps every byte of its payload.
  lemma {:induction false} RunKeepsPayload(h: Heap, base: nat, ops: seq<Op>, b: Block)
    requires HeapAt(h.m, base, h.bs) && MayRun(h, base, ops)
    requires b in h.bs && !b.free && LeavesAlone(ops, b)
    ensures b in Run(h, base, ops).bs
    ensures b.End() <= |h.m|
    ensures Payload(Run(h, base, ops).m, b) == Payload(h.m, b)
  {
    if ops == [] {
      InsideHeap(h.m, base, h.bs);
    } else {
      var init, op := ops[..|ops| - 1], ops[|ops| - 1];
      assert op in ops && forall o :: o in init ==> o in ops;
      RunKeepsPayload(h, base, init, b);
      RunHeapAt(h, base, init);
      StepKeepsPayload(Run(h, base, init), base, op, b);
    }
  }

  // From any reachable state, freeing all live blocks in any order leaves the heap as heap_init
  // made it, up to the bytes of the payload.
  lemma FreeingAllResets(h: Heap, base: nat, ops: seq<Op>, order: seq<Block>)
    requires HeapAt(h.m, base, h.bs) && MayRun(h, base, ops)
    requires var bs := Run(h, base, ops).bs;
             && (forall b :: b in order <==> b in Live(bs))
             && (forall i, j :: 0 <= i < j < |order| ==> order[i] != order[j])
    ensures |h.m| >= 24 && FreeAll(Run(h, base, ops).bs, order) == Fresh(|h.m|)
  {
    RunHeapAt(h, base, ops);
    FreeAllRestores(Run(h, base, ops).bs, order, |h.m|);
  }
}
