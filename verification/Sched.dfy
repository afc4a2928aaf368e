/** The cooperative scheduler of kernel/src/proc/sched.c: thread objects linked into a ring by
    `next`, their structures in the kernel heap and their stacks in physical pages. */
module Sched {
  import opened Bits
  import opened Wrappers
  import opened BlockList
  import opened HeapMemory
  import opened KernelHeaps
  import opened MemMap
  import opened Bitmap
  import opened Pmm
  import Ring

  datatype ThreadState = Ready | Running

  // thread_t
  class Thread {
    const at: nat            // its address
    const id: nat
    const state: ThreadState
    const name: seq<Byte>
    const rip: nat
    const rsp: nat
    var next: Thread?
    ghost const stack: Option<nat> // the first page of its stack
    ghost const block: Block       // its heap block

    constructor (at: nat, id: nat, state: ThreadState, name: seq<Byte>, rip: nat, rsp: nat,
                 ghost stack: Option<nat>, ghost block: Block)
      ensures this.at == at && this.id == id && this.state == state && this.name == name
      ensures this.rip == rip && this.rsp == rsp && this.stack == stack && this.block == block
    {
      this.at, this.id, this.state, this.name := at, id, state, name;
      this.rip, this.rsp, this.stack, this.block, next := rip, rsp, stack, block, null;
    }
  }

  ghost function Ids(l: seq<Thread>): (r: seq<nat>)
    ensures |r| == |l|
  {
    seq(|l|, i requires 0 <= i < |l| => l[i].id)
  }

  // The thread after thread i, around the ring.
  ghost function After(l: seq<Thread>, i: nat): Thread
    requires i < |l|
  {
    if i + 1 < |l| then l[i + 1] else l[0]
  }

  ghost predicate Cycle(l: seq<Thread>)
    reads l`next
  {
    forall i :: 0 <= i < |l| ==> l[i].next == After(l, i)
  }

  // The stack pointer starts 16 bytes below the end of the thread's own four pages.
  ghost predicate OwnStack(t: Thread) {
    t.stack.Some? ==> t.rsp == AddrOf(t.stack.value) + 4 * 4096 - 16
  }

  ghost predicate UsedStack(s: Option<nat>, free: set<nat>) {
    s.Some? ==> forall p :: s.value <= p < s.value + 4 ==> p !in free
  }

  ghost predicate Apart(a: Option<nat>, b: Option<nat>) {
    a.Some? && b.Some? ==> a.value + 4 <= b.value || b.value + 4 <= a.value
  }

  // Stacks lie in pages that are not free, no two of them in the same page.
  ghost predicate Stacks(l: seq<Thread>, free: set<nat>) {
    && (forall i :: 0 <= i < |l| ==> OwnStack(l[i]) && UsedStack(l[i].stack, free))
    && (forall i, j :: 0 <= i < j < |l| ==> Apart(l[i].stack, l[j].stack))
  }

  // Every thread's structure is a live heap block of at least 72 bytes, no two the same.
  ghost predicate Housed(l: seq<Thread>, bs: Blocks, base: nat) {
    && (forall i :: 0 <= i < |l| ==>
          l[i].block in bs && !l[i].block.free && l[i].block.size >= 72 && l[i].at == base + l[i].block.off + 24)
    && (forall i, j :: 0 <= i < j < |l| ==> l[i].block != l[j].block)
  }

  // kzalloc(sizeof(thread_t)) gives a block that was not live before, and leaves the others live.
  method NewStructure(heap: KernelHeap) returns (p: nat, ghost b: Block)
    requires heap.Valid() && Malloc(heap.blocks, Round8(72)).off >= 0
    modifies heap`blocks, heap.mem
    ensures heap.Valid()
    ensures b !in old(heap.blocks) && b in heap.blocks && !b.free && 72 <= b.size < 72 + 56
    ensures p == heap.base + b.off + 24
    ensures forall c :: c in old(heap.blocks) && !c.free ==> c in heap.blocks
  {
    ghost var bs := heap.blocks;
    BlockServed(heap.mem[..], heap.base, bs);
    hide HeapAt, Round8, Malloc, MallocMem, WithZeros, Served;
    b :| b.off == Malloc(bs, Round8(72)).off && 72 <= b.size < 72 + 56 && !b.free
         && b !in bs && b in Malloc(bs, Round8(72)).bs;
    p := heap.Kzalloc(72);
  }

  lemma BlockServed(m: Bytes, base: nat, bs: Blocks)
    requires HeapAt(m, base, bs) && Malloc(bs, Round8(72)).off >= 0
    ensures var a := Malloc(bs, Round8(72));
            && (exists b: Block :: b.off == a.off && 72 <= b.size < 72 + 56 && !b.free && b !in bs && b in a.bs)
            && forall c :: c in bs && !c.free ==> c in a.bs
  {
    hide Malloc, Round8, Inv, Encodes, Served;
    Round72();
    MallocAddsOne(bs, 72, |m|);
    var b: Block :| b.off == Malloc(bs, 72).off && Served(bs, Malloc(bs, 72).bs, 72, b) && !b.free
             && b !in bs && b in Malloc(bs, 72).bs;
    ServedSize(bs, Malloc(bs, 72).bs, 72, b);
  }

  lemma Round72()
    ensures Round8(72) == 72
  {
  }

  lemma ServedSize(bs: Blocks, after: Blocks, size: nat, b: Block)
    requires Served(bs, after, size, b)
    ensures size <= b.size < size + 56
  {
  }

  class Scheduler {
    const heap: KernelHeap
    const pages: PageAllocator
    var current: Thread        // s_current_thread
    var threadList: Thread     // s_thread_list
    var nextId: nat            // s_next_id
    ghost var ring: seq<Thread>
    ghost var cur: nat

    ghost function State(): Ring.Ring
      reads this`ring, this`cur, this`nextId
    {
      Ring.Ring(Ids(ring), cur, nextId)
    }

    ghost predicate Linked()
      reads this`current, this`threadList, this`ring, this`cur, ring`next
    {
      cur < |ring| && current == ring[cur] && threadList == ring[0] && Cycle(ring)
    }

    ghost predicate Valid()
      reads this, ring`next, heap, heap.mem, pages, pages.bitmap
    {
      && heap.Valid() && pages.Valid() && pages.bitmap != heap.mem
      && Linked() && Stacks(ring, pages.Free()) && Housed(ring, heap.blocks, heap.base) && Ring.Inv(State())
    }

    // sched_init; the result of kzalloc is used without a check, so there must be room.
    constructor Init(heap: KernelHeap, pages: PageAllocator)
      requires heap.Valid() && pages.Valid() && pages.bitmap != heap.mem
      requires Malloc(heap.blocks, Round8(72)).off >= 0
      modifies heap`blocks, heap.mem
      ensures this.heap == heap && this.pages == pages
      ensures Valid()
      ensures State() == Ring.Init()
      ensures current.id == 1 && current.next == current && threadList == current && nextId == 2 && ring == [current]
      ensures current.state == Running
    {
      hide HeapAt, Round8, Malloc, FreeIn;
      this.heap, this.pages := heap, pages;
      var p;
      ghost var b;
      p, b := NewStructure(heap);
      var t := new Thread(p, 1, Running, [0x6b, 0x6d, 0x61, 0x69, 0x6e], 0, 0, None, b);
      current, threadList, nextId := t, t, 2;
      ring, cur := [t], 0;
      new;
      t.next := t;
      assert Ids(ring) == [1];
    }

    // sched_yield
    method Yield()
      requires Valid()
      modifies this`current, this`cur
      ensures Valid()
      ensures State() == Ring.Yielded(old(State()))
      ensures current == old(current.next)
    {
      hide HeapAt, Stacks, Housed, Ring.Inv, Ids, FreeIn;
      Ring.YieldedInv(State());
      if current.next != null {
        current := current.next;
      }
      cur := if cur + 1 < |ring| then cur + 1 else 0;
    }

    // thread_create
    method ThreadCreate(entry: nat, name: seq<Byte>) returns (t: Thread)
      requires Valid()
      requires Malloc(heap.blocks, Round8(72)).off >= 0
      modifies threadList`next, this`nextId, this`ring, this`cur
      modifies heap`blocks, heap.mem, pages`freePages, pages.bitmap
      ensures Valid()
      ensures State() == Ring.Created(old(State()))
      ensures current == old(current) && fresh(t) && ring == [old(ring)[0], t] + old(ring)[1..]
      ensures t.id == old(nextId) && t.state == Ready && t.rip == entry
      ensures t.name == if |name| > 31 then name[..31] else name
      ensures t.stack == LowestRun(old(pages.Free()), pages.totalPages, 4)
      ensures t.rsp == (if t.stack.Some? then 4096 * t.stack.value else 0) + 16384 - 16
      ensures t.block !in old(heap.blocks)
      ensures threadList.next == t && t.next == old(threadList.next)
    {
      hide HeapAt, Round8, Malloc, Stacks, Housed, Ring.Inv, Ids, FreeIn, Linked, LowestRun;
      NotEmpty();
      ghost var free, bs := pages.Free(), heap.blocks;
      var p, stackPhys;
      ghost var b;
      p, stackPhys, b := Allocate();
      ghost var stack := LowestRun(free, pages.totalPages, 4);
      t := new Thread(p, nextId, Ready, if |name| > 31 then name[..31] else name,
                      entry, stackPhys + 4 * 4096 - 16, stack, b);
      StackAdded(ring, t, free, pages.Free(), pages.totalPages);
      BlockAdded(ring, t, bs, heap.blocks, heap.base);
      Ring.CreatedInv(State());
      ghost var before := State();
      nextId := nextId + 1;
      Link(t, before);
    }

    // The structure and the stack of a new thread.
    method Allocate() returns (p: nat, stackPhys: nat, ghost b: Block)
      requires heap.Valid() && pages.Valid() && pages.bitmap != heap.mem
      requires Malloc(heap.blocks, Round8(72)).off >= 0
      modifies heap`blocks, heap.mem, pages`freePages, pages.bitmap
      ensures heap.Valid() && pages.Valid()
      ensures b !in old(heap.blocks) && b in heap.blocks && !b.free && 72 <= b.size < 72 + 56
      ensures p == heap.base + b.off + 24
      ensures forall c :: c in old(heap.blocks) && !c.free ==> c in heap.blocks
      ensures match LowestRun(old(pages.Free()), pages.totalPages, 4)
              case None => stackPhys == 0 && pages.Free() == old(pages.Free())
              case Some(s) => stackPhys == AddrOf(s) && pages.Free() == old(pages.Free()) - Span(s, s + 4)
    {
      hide HeapAt, Round8, Malloc, FreeIn, LowestRun;
      p, b := NewStructure(heap);
      stackPhys := pages.AllocPages(4);
    }

    lemma NotEmpty()
      requires Linked()
      ensures ring != []
    {
    }

    // The last statements of thread_create.
    method Link(t: Thread, ghost before: Ring.Ring)
      requires Linked() && Ring.Inv(before) && before == Ring.Ring(Ids(ring), cur, t.id)
      modifies threadList`next, t`next, this`ring, this`cur
      ensures Linked()
      ensures Ring.Ring(Ids(ring), cur, t.id + 1) == Ring.Created(before)
      ensures ring == [old(ring)[0], t] + old(ring)[1..]
      ensures old(threadList).next == t && t.next == old(threadList.next) && threadList == old(threadList)
    {
      hide Ring.Inv, Ids, After, Ring.Created, Tail, Cycle;
      ghost var l := ring;
      OnlyOnce(l, cur, t);
      CycleTail(l);
      t.next := threadList.next;
      threadList.next := t;
      CycleInserted(l, t);
      RingInserted(l, t, cur);
      ring, cur := [l[0], t] + l[1..], if cur == 0 then 0 else cur + 1;
    }
  }

  lemma OnlyOnce(l: seq<Thread>, cur: nat, t: Thread)
    requires Ring.Inv(Ring.Ring(Ids(l), cur, t.id))
    ensures l != [] ==> t !in l && l[0] !in l[1..]
  {
    var ids := Ids(l);
    assert forall i :: 0 <= i < |l| ==> l[i].id == ids[i] && ids[i] in ids;
  }

  // All but the first thread of l are linked to their successors.
  ghost predicate Tail(l: seq<Thread>)
    requires l != []
    reads l[1..]`next
  {
    forall i :: 0 <= i < |l[1..]| ==> l[1..][i].next == After(l, i + 1)
  }

  lemma CycleTail(l: seq<Thread>)
    requires l != [] && Cycle(l)
    ensures Tail(l) && l[0].next == After(l, 0)
  {
  }

  // Between the first thread and its successor there is room for one more.
  lemma CycleInserted(l: seq<Thread>, t: Thread)
    requires l != [] && l[0].next == t && t.next == After(l, 0) && Tail(l)
    ensures Cycle([l[0], t] + l[1..])
  {
    var r := [l[0], t] + l[1..];
    forall i | 0 <= i < |r|
      ensures r[i].next == After(r, i)
    {
      if i >= 2 {
        assert r[i] == l[1..][i - 2];
      }
    }
  }

  lemma RingInserted(l: seq<Thread>, t: Thread, cur: nat)
    requires l != [] && cur < |l|
    ensures var r, c := [l[0], t] + l[1..], if cur == 0 then 0 else cur + 1;
            && r[c] == l[cur]
            && Ring.Ring(Ids(r), c, t.id + 1) == Ring.Created(Ring.Ring(Ids(l), cur, t.id))
  {
    assert Ids([l[0], t] + l[1..]) == [Ids(l)[0], t.id] + Ids(l)[1..];
  }

  lemma StackAdded(l: seq<Thread>, t: Thread, free: set<nat>, rest: set<nat>, total: nat)
    requires l != [] && Stacks(l, free)
    requires t.stack == LowestRun(free, total, 4) && OwnStack(t)
    requires forall p :: p in rest ==> p in free && (t.stack.Some? ==> !(t.stack.value <= p < t.stack.value + 4))
    ensures Stacks([l[0], t] + l[1..], rest)
  {
    LowestRunIsLowest(free, total, 4);
    hide LowestRun;
    var r := [l[0], t] + l[1..];
    forall i | 0 <= i < |l|
      ensures Apart(l[i].stack, t.stack)
    {
      UsedApart(l[i].stack, t.stack, free);
    }
    hide Apart;
    ApartSymmetric();
    forall i, j | 0 <= i < j < |r|
      ensures Apart(r[i].stack, r[j].stack)
    {
      assert i != 1 ==> r[i] == l[if i == 0 then 0 else i - 1];
      assert j != 1 ==> r[j] == l[j - 1];
    }
  }

  lemma BlockAdded(l: seq<Thread>, t: Thread, bs: Blocks, after: Blocks, base: nat)
    requires l != [] && Housed(l, bs, base)
    requires t.block !in bs && t.block in after && !t.block.free && t.block.size >= 72
    requires t.at == base + t.block.off + 24
    requires forall c :: c in bs && !c.free ==> c in after
    ensures Housed([l[0], t] + l[1..], after, base)
  {
    var r := [l[0], t] + l[1..];
    forall i | 0 <= i < |r|
      ensures i != 1 ==> r[i] == l[if i == 0 then 0 else i - 1] && r[i].block in bs
    {
    }
  }

  lemma ApartSymmetric()
    ensures forall a, b :: Apart(a, b) ==> Apart(b, a)
  {
  }

  // A run of free pages has no page in common with a stack in use.
  lemma UsedApart(a: Option<nat>, b: Option<nat>, free: set<nat>)
    requires UsedStack(a, free) && (b.Some? ==> IsRun(free, b.value, 4))
    ensures Apart(a, b)
  {
    if a.Some? && b.Some? {
      var p := if a.value < b.value then b.value else a.value;
      assert p < a.value + 4 ==> p !in free;
      assert p < b.value + 4 ==> p in free;
    }
  }
}
