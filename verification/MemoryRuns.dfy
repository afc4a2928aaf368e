/** Every run of the memory stack: page mappings, page-range allocations (the kernel heap, thread
    stacks, user pages), releases, and writes by the owners of live ranges to their own pages. */
module MemoryRuns {
  import opened Bits
  import opened Bitmap
  import opened Pmm
  import opened Paging
  import opened Vmm
  import opened Wrappers

  // A live range of pages handed out by pmm_alloc_pages.
  datatype Extent = Extent(start: nat, count: nat) {
    predicate Covers(page: nat) {
      start <= page < start + count
    }
  }

  datatype System = System(s: State, root: nat, extents: seq<Extent>)

  datatype Op =
    | MapPage(virt: nat, phys: Word, flags: Word)
    | Allocate(count: nat)
    | Release(k: nat)
    | Store(page: nat, i: nat, v: Word)

  ghost function Step(y: System, op: Op): System {
    match op
    case MapPage(virt, phys, flags) => y.(s := Map(y.s, y.root, virt, phys, flags))
    case Allocate(count) =>
      (match LowestRun(y.s.free, y.s.total, count)
       case None => y
       case Some(start) => y.(s := y.s.(free := y.s.free - Span(start, start + count)),
                              extents := y.extents + [Extent(start, count)]))
    case Release(k) =>
      if k < |y.extents| then
        var e := y.extents[k];
        y.(s := y.s.(free := y.s.free + Span(e.start, e.start + e.count)),
           extents := y.extents[..k] + y.extents[k + 1..])
      else y
    case Store(page, i, v) =>
      if InMem(y.s.mem, page) && i < 512 then y.(s := y.s.(mem := SetEntry(y.s.mem, page, i, v))) else y
  }

  ghost function Run(y: System, ops: seq<Op>): System {
    if ops == [] then y else Step(Run(y, ops[..|ops| - 1]), ops[|ops| - 1])
  }

  // The levels a walk along `path` finds without a table.
  function MissingLevels(m: Memory, table: nat, path: Path): nat
    requires |path| >= 1 && IsPath(path)
    decreases |path|
  {
    if |path| == 1 then 0
    else if !InMem(m, table) || !Present(Entry(m, table, path[0])) then |path| - 1
    else MissingLevels(m, FrameOf(Entry(m, table, path[0])), path[1..])
  }

  // vmm_map_page does not check for allocation failure, so a mapping needs a free frame for each
  // missing level. A physical address with bit 2 set would act as a user flag. Writes stay inside
  // the writer's own pages.
  ghost predicate CanStep(y: System, op: Op) {
    && (op.MapPage? ==>
          && |y.s.free| >= MissingLevels(y.s.mem, y.root, Indices(op.virt))
          && (User(op.phys) ==> User(op.flags)))
    && (op.Store? ==> InExtent(y.extents, op.page) && op.i < 512)
  }

  ghost predicate CanRun(y: System, ops: seq<Op>) {
    ops == [] || (CanRun(y, ops[..|ops| - 1]) && CanStep(Run(y, ops[..|ops| - 1]), ops[|ops| - 1]))
  }

  // A zeroed top-level table outside the free set, and free frames that exist and are not frame 0.
  ghost predicate Booted(y: System) {
    && y.extents == []
    && InMem(y.s.mem, y.root) && y.root !in y.s.free
    && (forall i: nat :: i < 512 ==> Entry(y.s.mem, y.root, i) == 0)
    && (forall f :: f in y.s.free ==> 0 < f < y.s.total && InMem(y.s.mem, f))
  }

  // The abstract address space: a leaf entry for each mapped page.
  type Flat = map<nat, Word>

  ghost function FlatStep(flat: Flat, op: Op): Flat {
    match op
    case MapPage(virt, phys, flags) => flat[PageNumber(virt) := LeafWord(phys, flags)]
    case _ => flat
  }

  ghost function FlatRun(ops: seq<Op>): Flat {
    if ops == [] then map[] else FlatStep(FlatRun(ops[..|ops| - 1]), ops[|ops| - 1])
  }

  // Rights are those of the leaf entry alone.
  ghost function FlatTranslate(flat: Flat, virt: nat): Translation {
    var page := PageNumber(virt);
    if page in flat then Mapped(flat[page], User(flat[page]), Writable(flat[page])) else Fault
  }

  // The tables of a system after a step.
  ghost function StepTables(y: System, t: Tables, op: Op): Tables {
    match op
    case MapPage(virt, _, flags) => MapTables(y.s, t, [], Indices(virt), User(flags))
    case _ => t
  }

  ghost function RunTables(y: System, ops: seq<Op>): Tables {
    if ops == [] then map[[] := y.root]
    else StepTables(Run(y, ops[..|ops| - 1]), RunTables(y, ops[..|ops| - 1]), ops[|ops| - 1])
  }

  ghost predicate InExtent(es: seq<Extent>, page: nat) {
    exists k :: 0 <= k < |es| && es[k].Covers(page)
  }

  // No page belongs to two extents.
  ghost predicate Apart(es: seq<Extent>) {
    forall j, k, page: nat {:trigger es[j].Covers(page), es[k].Covers(page)} ::
      0 <= j < |es| && 0 <= k < |es| && es[j].Covers(page) && es[k].Covers(page) ==> j == k
  }

  // Live extents are made of existing pages, none of them free, none of them a page table.
  ghost predicate Placed(es: seq<Extent>, s: State, t: Tables) {
    forall page: nat {:trigger InExtent(es, page)} :: InExtent(es, page)
      ==> 0 < page < s.total && InMem(s.mem, page) && page !in s.free && page !in t.Values
  }

  ghost predicate Valid(y: System, t: Tables) {
    && Tree(y.s, t) && UserUp(y.s.mem, t) && [] in t && t[[]] == y.root
    && Apart(y.extents) && Placed(y.extents, y.s, t)
  }

  lemma BootedValid(y: System)
    requires Booted(y)
    ensures Valid(y, map[[] := y.root])
    ensures forall virt :: Translate(y.s.mem, y.root, virt) == Fault
  {
    FlagBits(false);
    var t: Tables := map[[] := y.root];
    assert [] in t;
  }

  lemma {:induction false} MissingIs(s: State, t: Tables, p: Path, path: Path)
    requires Tree(s, t) && p in t && |p| + |path| == 4 && |path| >= 1 && IsPath(path)
    ensures MissingLevels(s.mem, t[p], path) == Missing(t, p, path)
    decreases |path|
  {
    if |path| > 1 {
      if p + [path[0]] in t {
        MissingIs(s, t, p + [path[0]], path[1..]);
      } else {
        AllMissing(t, p + [path[0]], path[1..]);
      }
    }
  }

  lemma {:induction false} AllMissing(t: Tables, p: Path, path: Path)
    requires Shape(t) && p !in t && |path| >= 1
    ensures Missing(t, p, path) == |path| - 1
    decreases |path|
  {
    if |path| > 1 {
      assert (p + [path[0]])[..|p|] == p;
      AllMissing(t, p + [path[0]], path[1..]);
    }
  }

  // One call of vmm_map_page changes the translation of exactly one page, and it takes exactly one
  // frame for each level that was missing.
  lemma MapChangesOnePage(s: State, t: Tables, virt: nat, phys: Word, flags: Word, other: nat)
    requires Tree(s, t) && UserUp(s.mem, t)
    requires |s.free| >= MissingLevels(s.mem, t[[]], Indices(virt))
    requires User(phys) ==> User(flags)
    ensures var root, s' := t[[]], Map(s, t[[]], virt, phys, flags);
            && var leaf := LeafWord(phys, flags);
            && Translate(s'.mem, root, other)
               == (if PageNumber(other) == PageNumber(virt) then Mapped(leaf, User(leaf), Writable(leaf))
                   else Translate(s.mem, root, other))
            && |s.free| - |s'.free| == MissingLevels(s.mem, root, Indices(virt)) <= 3
  {
    var path, leaf := Indices(virt), LeafWord(phys, flags);
    MapKeeps(s, t, virt, phys, flags);
    MissingIs(s, t, [], path);
    MissingBound(s.mem, t[[]], path);
    MapFromView(s, t, [], path, User(flags), leaf, Indices(other));
    var s', t' := Map(s, t[[]], virt, phys, flags), MapTables(s, t, [], path, User(flags));
    WalkReadsView(s, t, [], Indices(other), true, true);
    WalkReadsView(s', t', [], Indices(other), true, true);
    SamePage(virt, other);
    assert [] + path == path && [] + Indices(other) == Indices(other);
    hide Tree, UserUp, View, MapFrom, MapTables, WalkFrom, MissingLevels, Missing, Indices, PageNumber;
  }

  lemma {:induction false} MissingBound(m: Memory, table: nat, path: Path)
    requires |path| >= 1 && IsPath(path)
    ensures MissingLevels(m, table, path) <= |path| - 1
    decreases |path|
  {
    if |path| > 1 && InMem(m, table) {
      MissingBound(m, FrameOf(Entry(m, table, path[0])), path[1..]);
    }
  }

  lemma MapKeeps(s: State, t: Tables, virt: nat, phys: Word, flags: Word)
    requires Tree(s, t) && UserUp(s.mem, t)
    requires |s.free| >= MissingLevels(s.mem, t[[]], Indices(virt))
    requires User(phys) ==> User(flags)
    ensures CanDescend(s, t, [], Indices(virt))
    ensures var s', t' := Map(s, t[[]], virt, phys, flags), MapTables(s, t, [], Indices(virt), User(flags));
            && Tree(s', t') && UserUp(s'.mem, t')
            && (forall q :: q in t ==> q in t' && t'[q] == t[q])
            && s'.free <= s.free && s'.total == s.total && |s'.mem| == |s.mem|
            && |s.free| - |s'.free| == MissingLevels(s.mem, t[[]], Indices(virt))
            && (forall f :: (f in s'.free || f in t'.Values) <==> (f in s.free || f in t.Values))
  {
    var path := Indices(virt);
    MissingIs(s, t, [], path);
    forall f: nat {
      MapFromFrames(s, t, [], path, User(flags), LeafWord(phys, flags), f);
    }
    hide Tree, UserUp, MapFrom, MapTables, MissingLevels, Missing;
    MapFromKeeps(s, t, [], path, User(flags), LeafWord(phys, flags));
    MapFromUserUp(s, t, [], path, User(flags), LeafWord(phys, flags));
  }

  // The pages that are free, a table, or in a live extent.
  ghost predicate Held(y: System, t: Tables, f: nat) {
    f in y.s.free || f in t.Values || InExtent(y.extents, f)
  }

  lemma MapStepValid(y: System, t: Tables, op: Op)
    requires Valid(y, t) && op.MapPage? && CanStep(y, op)
    ensures Valid(Step(y, op), StepTables(y, t, op))
    ensures forall f :: Held(Step(y, op), StepTables(y, t, op), f) <==> Held(y, t, f)
  {
    MapKeeps(y.s, t, op.virt, op.phys, op.flags);
    hide Tree, UserUp, Map, MapTables, CanDescend, Apart, InExtent, InMem;
    var z, u := Step(y, op), StepTables(y, t, op);
    assert Placed(z.extents, z.s, u) by {
      assert |z.s.mem| == |y.s.mem|;
      SameMemory(y.s.mem, z.s.mem);
    }
  }

  lemma SameMemory(m: Memory, n: Memory)
    requires |m| == |n|
    ensures forall f :: InMem(m, f) <==> InMem(n, f)
  {
  }

  lemma AllocateStepValid(y: System, t: Tables, count: nat)
    requires Valid(y, t)
    ensures Valid(Step(y, Allocate(count)), t)
    ensures forall f :: Held(Step(y, Allocate(count)), t, f) <==> Held(y, t, f)
  {
    var r := LowestRun(y.s.free, y.s.total, count);
    if r.Some? {
      LowestRunIsLowest(y.s.free, y.s.total, count);
      AddExtent(y, t, Extent(r.value, count));
    }
  }

  // Moving pages between the free set and the extents keeps everything else.
  lemma MoveFrames(y: System, z: System, t: Tables)
    requires Valid(y, t)
    requires z.root == y.root && z.s.mem == y.s.mem && z.s.total == y.s.total && Apart(z.extents)
    requires forall f: nat :: f in z.s.free || InExtent(z.extents, f) <==> f in y.s.free || InExtent(y.extents, f)
    requires forall f: nat :: !(f in z.s.free && InExtent(z.extents, f))
    ensures Valid(z, t)
    ensures forall f :: Held(z, t, f) <==> Held(y, t, f)
  {
    hide InExtent, Apart;
    forall f: nat | f in z.s.free || InExtent(z.extents, f)
      ensures 0 < f < y.s.total && InMem(y.s.mem, f) && f !in t.Values
    {
      FreeFrame(y.s, t, f);
    }
    FreeChanges(y.s, t, z.s.free);
    hide Tree, UserUp;
  }

  lemma FreeFrame(s: State, t: Tables, p: nat)
    requires Tree(s, t)
    ensures p in s.free ==> 0 < p < s.total && InMem(s.mem, p) && p !in t.Values
  {
  }

  lemma FreeChanges(s: State, t: Tables, free: set<nat>)
    requires Tree(s, t)
    requires forall p: nat :: p in free ==> 0 < p < s.total && InMem(s.mem, p) && p !in t.Values
    ensures Tree(s.(free := free), t)
  {
    forall p | p in t
      ensures t[p] !in free
    {
      assert t[p] in t.Values;
    }
  }

  lemma AddExtent(y: System, t: Tables, e: Extent)
    requires Valid(y, t)
    requires forall p: nat :: e.start <= p < e.start + e.count ==> p in y.s.free
    ensures var free := y.s.free - Span(e.start, e.start + e.count);
            var z := y.(s := y.s.(free := free), extents := y.extents + [e]);
            && Valid(z, t)
            && forall f :: Held(z, t, f) <==> Held(y, t, f)
  {
    var free := y.s.free - Span(e.start, e.start + e.count);
    var z := y.(s := y.s.(free := free), extents := y.extents + [e]);
    forall f: nat
      ensures InExtent(z.extents, f) <==> InExtent(y.extents, f) || e.Covers(f)
      ensures f in free <==> f in y.s.free && !e.Covers(f)
    {
      AppendExtent(y.extents, e, f);
    }
    assert forall f: nat :: e.Covers(f) ==> f in y.s.free;
    AppendApart(y.extents, e);
    hide Tree, UserUp, InExtent, Apart, Extent.Covers, Held;
    MoveFrames(y, z, t);
  }

  lemma AppendExtent(es: seq<Extent>, e: Extent, f: nat)
    ensures InExtent(es + [e], f) <==> InExtent(es, f) || e.Covers(f)
  {
    hide Extent.Covers;
    var fs := es + [e];
    if InExtent(es, f) {
      var k :| 0 <= k < |es| && es[k].Covers(f);
      assert fs[k] == es[k];
    }
    assert fs[|es|] == e;
  }

  lemma AppendApart(es: seq<Extent>, e: Extent)
    requires Apart(es)
    requires forall f: nat :: e.Covers(f) ==> !InExtent(es, f)
    ensures Apart(es + [e])
  {
    hide Extent.Covers;
    var fs := es + [e];
    forall j, k, f: nat | 0 <= j < |fs| && 0 <= k < |fs| && fs[j].Covers(f) && fs[k].Covers(f)
      ensures j == k
    {
      assert j < |es| ==> fs[j] == es[j];
      assert k < |es| ==> fs[k] == es[k];
    }
  }

  lemma ReleaseStepValid(y: System, t: Tables, k: nat)
    requires Valid(y, t)
    ensures Valid(Step(y, Release(k)), t)
    ensures forall f :: Held(Step(y, Release(k)), t, f) <==> Held(y, t, f)
  {
    if k < |y.extents| {
      var e, es, z := y.extents[k], y.extents, Step(y, Release(k));
      forall f: nat
        ensures InExtent(es, f) <==> InExtent(z.extents, f) || e.Covers(f)
        ensures f in z.s.free <==> f in y.s.free || e.Covers(f)
        ensures !(InExtent(z.extents, f) && e.Covers(f))
      {
        DropExtent(es, k, f);
      }
      DropApart(es, k);
      hide Tree, UserUp, InExtent, Apart, Extent.Covers, Held;
      MoveFrames(y, z, t);
    }
  }

  lemma DropExtent(es: seq<Extent>, k: nat, f: nat)
    requires k < |es| && Apart(es)
    ensures InExtent(es, f) <==> InExtent(es[..k] + es[k + 1..], f) || es[k].Covers(f)
    ensures !(InExtent(es[..k] + es[k + 1..], f) && es[k].Covers(f))
  {
    hide Extent.Covers;
    var fs := es[..k] + es[k + 1..];
    assert forall j :: 0 <= j < |fs| ==> fs[j] == es[if j < k then j else j + 1];
    if InExtent(es, f) && !es[k].Covers(f) {
      var j :| 0 <= j < |es| && es[j].Covers(f);
      assert fs[if j < k then j else j - 1].Covers(f);
    }
    if InExtent(fs, f) {
      var j :| 0 <= j < |fs| && fs[j].Covers(f);
      assert es[if j < k then j else j + 1].Covers(f);
    }
  }

  lemma DropApart(es: seq<Extent>, k: nat)
    requires k < |es| && Apart(es)
    ensures Apart(es[..k] + es[k + 1..])
  {
    hide Extent.Covers;
    var fs := es[..k] + es[k + 1..];
    assert forall j :: 0 <= j < |fs| ==> fs[j] == es[if j < k then j else j + 1];
  }

  lemma StoreStepValid(y: System, t: Tables, page: nat, i: nat, v: Word)
    requires Valid(y, t) && InExtent(y.extents, page) && i < 512
    ensures Valid(Step(y, Store(page, i, v)), t)
    ensures forall f :: Held(Step(y, Store(page, i, v)), t, f) <==> Held(y, t, f)
  {
    var z := Step(y, Store(page, i, v));
    SameMemory(y.s.mem, z.s.mem);
    TablesKeep(y, t, page, i, v);
    SameTree(y.s, z.s, t);
    hide Tree, UserUp, InExtent, Apart, InMem, Entry;
  }

  // A write to a page of a live extent touches no table.
  lemma TablesKeep(y: System, t: Tables, page: nat, i: nat, v: Word)
    requires Valid(y, t) && InExtent(y.extents, page) && i < 512
    ensures SameTables(y.s.mem, Step(y, Store(page, i, v)).s.mem, t)
  {
    hide InExtent, Linked, UserUp, Apart, Distinct;
    forall p, k: nat | p in t && k < 512
      ensures SameEntry(y.s.mem, Step(y, Store(page, i, v)).s.mem, t[p], k)
    {
      assert t[p] in t.Values;
      StoreElsewhere(y, page, i, v, t[p], k);
    }
  }

  lemma StoreElsewhere(y: System, page: nat, i: nat, v: Word, f: nat, k: nat)
    requires InMem(y.s.mem, f) && k < 512 && f != page
    ensures SameEntry(y.s.mem, Step(y, Store(page, i, v)).s.mem, f, k)
  {
  }

  lemma StepValid(y: System, t: Tables, op: Op)
    requires Valid(y, t) && CanStep(y, op)
    ensures Valid(Step(y, op), StepTables(y, t, op))
    ensures forall f :: Held(Step(y, op), StepTables(y, t, op), f) <==> Held(y, t, f)
  {
    hide Valid, Held, Step, InExtent;
    match op
    case MapPage(_, _, _) => MapStepValid(y, t, op);
    case Allocate(count) => AllocateStepValid(y, t, count);
    case Release(k) => ReleaseStepValid(y, t, k);
    case Store(page, i, v) => StoreStepValid(y, t, page, i, v);
  }

  lemma {:induction false} RunValid(y: System, ops: seq<Op>)
    requires Booted(y) && CanRun(y, ops)
    ensures Valid(Run(y, ops), RunTables(y, ops)) && Run(y, ops).root == y.root
    ensures forall f :: Held(Run(y, ops), RunTables(y, ops), f) <==> f in y.s.free || f == y.root
  {
    hide Valid, CanStep, Step, StepTables;
    if ops == [] {
      BootedValid(y);
      assert RunTables(y, []).Values == {y.root};
    } else {
      var init := ops[..|ops| - 1];
      RunValid(y, init);
      hide Held, Booted;
      StepValid(Run(y, init), RunTables(y, init), ops[|ops| - 1]);
      StepRoot(Run(y, init), ops[|ops| - 1]);
    }
  }

  lemma StepRoot(y: System, op: Op)
    ensures Step(y, op).root == y.root
  {
  }

  // In every reachable state the frames that serve as page tables form a tree, linked by their
  // present entries, in which no frame occurs twice; they, the free pages and the live extents are
  // disjoint; and together they are exactly the pages that were free at boot and the top-level table.
  lemma FramesAreOwnedOnce(y: System, ops: seq<Op>, f: nat)
    requires Booted(y) && CanRun(y, ops)
    ensures var z, t := Run(y, ops), RunTables(y, ops);
            && Tree(z.s, t) && [] in t && t[[]] == y.root && Apart(z.extents)
            && !(f in z.s.free && f in t.Values)
            && !(f in z.s.free && InExtent(z.extents, f))
            && !(f in t.Values && InExtent(z.extents, f))
            && (f in z.s.free || f in t.Values || InExtent(z.extents, f) <==> f in y.s.free || f == y.root)
  {
    RunValid(y, ops);
    var z, t := Run(y, ops), RunTables(y, ops);
    assert Held(z, t, f) <==> f in y.s.free || f == y.root;
    hide Run, RunTables, CanRun, Booted, InExtent;
    FreeFrame(z.s, t, f);
  }

  lemma {:induction false} FlatView(y: System, ops: seq<Op>, virt: nat)
    requires Booted(y) && CanRun(y, ops)
    ensures Translate(Run(y, ops).s.mem, y.root, virt) == FlatTranslate(FlatRun(ops), virt)
  {
    if ops == [] {
      BootedValid(y);
    } else {
      var init, op := ops[..|ops| - 1], ops[|ops| - 1];
      FlatView(y, init, virt);
      RunValid(y, init);
      StepView(Run(y, init), RunTables(y, init), op, FlatRun(init), virt);
    }
  }

  lemma StepView(y: System, t: Tables, op: Op, flat: Flat, virt: nat)
    requires Valid(y, t) && CanStep(y, op)
    requires Translate(y.s.mem, y.root, virt) == FlatTranslate(flat, virt)
    ensures Translate(Step(y, op).s.mem, y.root, virt) == FlatTranslate(FlatStep(flat, op), virt)
  {
    if op.MapPage? {
      MapChangesOnePage(y.s, t, op.virt, op.phys, op.flags, virt);
      hide Tree, UserUp, Map, Translate, Placed, Apart, User, Writable;
    } else if op.Store? {
      StoreKeepsTranslation(y, t, op.page, op.i, op.v, virt);
      hide Tree, UserUp, Translate, Placed, Apart, InExtent;
    }
  }

  // What the owners of live pages write there changes no translation.
  lemma StoreKeepsTranslation(y: System, t: Tables, page: nat, i: nat, v: Word, virt: nat)
    requires Valid(y, t) && InExtent(y.extents, page) && i < 512
    ensures Translate(Step(y, Store(page, i, v)).s.mem, y.root, virt) == Translate(y.s.mem, y.root, virt)
  {
    var z, path := Step(y, Store(page, i, v)), Indices(virt);
    StoreStepValid(y, t, page, i, v);
    TablesKeep(y, t, page, i, v);
    hide InExtent, Apart, Placed, Indices, Entry;
    WalkReadsView(y.s, t, [], path, true, true);
    WalkReadsView(z.s, t, [], path, true, true);
    assert [] + path == path;
    ViewSame(y.s.mem, z.s.mem, t, path);
    hide Tree, UserUp, View, WalkFrom;
  }

  // ----- what the owners of live pages can rely on -----

  // No mapping, allocation or release, and no write to another word, changes a word of a live extent.
  lemma StepKeepsWord(y: System, t: Tables, op: Op, page: nat, i: nat)
    requires Valid(y, t) && CanStep(y, op)
    requires InExtent(y.extents, page) && i < 512
    requires op.Store? ==> op.page != page || op.i != i
    ensures InMem(y.s.mem, page)
    ensures var m' := Step(y, op).s.mem; InMem(m', page) && Entry(m', page, i) == Entry(y.s.mem, page, i)
  {
    assert page !in y.s.free && page !in t.Values && InMem(y.s.mem, page);
    hide InExtent, Apart, Placed, UserUp;
    if op.MapPage? {
      MapKeeps(y.s, t, op.virt, op.phys, op.flags);
      hide Tree, CanDescend, MapFrom;
      MapFromLeaves(y.s, t, [], Indices(op.virt), User(op.flags), LeafWord(op.phys, op.flags), page, i);
    }
  }

  // Throughout the run the page belongs to a live extent, and nobody writes to word i of it.
  ghost predicate LeftAlone(y: System, ops: seq<Op>, page: nat, i: nat) {
    && InExtent(y.extents, page)
    && (ops == [] ||
        (var init, op := ops[..|ops| - 1], ops[|ops| - 1];
         && LeftAlone(y, init, page, i)
         && InExtent(Run(y, ops).extents, page)
         && (op.Store? ==> op.page != page || op.i != i)))
  }

  // From boot on, and from any state reached by `before`: a word of a live extent that its owner
  // leaves alone keeps its value over every run, whatever is mapped, allocated and released.
  lemma {:induction false} RunKeepsWord(y: System, before: seq<Op>, ops: seq<Op>, page: nat, i: nat)
    requires Booted(y) && CanRun(y, before) && CanRun(Run(y, before), ops)
    requires i < 512 && LeftAlone(Run(y, before), ops, page, i)
    ensures var z := Run(y, before); InMem(z.s.mem, page) && InMem(Run(z, ops).s.mem, page)
    ensures var z := Run(y, before); Entry(Run(z, ops).s.mem, page, i) == Entry(z.s.mem, page, i)
    decreases |ops|
  {
    var z := Run(y, before);
    hide Valid, CanStep, Step, InExtent, Entry;
    RunValid(y, before);
    RunOnValid(z, RunTables(y, before), ops);
    if ops == [] {
      ExtentInMemory(z, RunTables(y, before), page);
    } else {
      var init, op := ops[..|ops| - 1], ops[|ops| - 1];
      RunKeepsWord(y, before, init, page, i);
      RunOnValid(z, RunTables(y, before), init);
      LeftAloneEnd(z, init, page, i);
      hide LeftAlone, Booted;
      StepKeepsWord(Run(z, init), TablesAfter(z, RunTables(y, before), init), op, page, i);
    }
  }

  lemma LeftAloneEnd(y: System, ops: seq<Op>, page: nat, i: nat)
    requires LeftAlone(y, ops, page, i)
    ensures InExtent(Run(y, ops).extents, page)
  {
    hide InExtent;
  }

  lemma ExtentInMemory(y: System, t: Tables, page: nat)
    requires Valid(y, t) && InExtent(y.extents, page)
    ensures InMem(y.s.mem, page)
  {
    hide InExtent;
  }

  ghost function TablesAfter(y: System, t: Tables, ops: seq<Op>): Tables {
    if ops == [] then t else StepTables(Run(y, ops[..|ops| - 1]), TablesAfter(y, t, ops[..|ops| - 1]), ops[|ops| - 1])
  }

  lemma {:induction false} RunOnValid(y: System, t: Tables, ops: seq<Op>)
    requires Valid(y, t) && CanRun(y, ops)
    ensures Valid(Run(y, ops), TablesAfter(y, t, ops))
  {
    hide Valid, CanStep, Step, StepTables;
    if ops != [] {
      var init := ops[..|ops| - 1];
      RunOnValid(y, t, init);
      StepValid(Run(y, init), TablesAfter(y, t, init), ops[|ops| - 1]);
    }
  }

  // After any run the processor's walk of any address gives the leaf of the last mapping of its
  // page with the rights of that leaf alone, and faults when the page was never mapped.
  lemma RunRefinesFlatMap(y: System, ops: seq<Op>)
    requires Booted(y) && CanRun(y, ops)
    ensures forall virt :: Translate(Run(y, ops).s.mem, y.root, virt) == FlatTranslate(FlatRun(ops), virt)
  {
    hide *;
    forall virt
      ensures Translate(Run(y, ops).s.mem, y.root, virt) == FlatTranslate(FlatRun(ops), virt)
    {
      FlatView(y, ops, virt);
    }
  }

  // Three free frames are enough for mapping a page-aligned address.
  lemma ThreeFramesSuffice(y: System, virt: nat, phys: Word, flags: Word)
    requires |y.s.free| >= 3 && phys % 4096 == 0
    ensures CanStep(y, MapPage(virt, phys, flags))
  {
    MissingBound(y.s.mem, y.root, Indices(virt));
    PageBits(phys / 4096);
    assert phys == phys / 4096 * 4096;
  }
}
