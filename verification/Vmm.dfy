/** vmm_map_page (kernel/src/mm/vmm.c) over the page allocator, as a function on the allocator's
    free set and on physical memory. */
module Vmm {
  import opened Bits
  import opened Pmm
  import opened Paging
  import opened Wrappers

  // The free set of the allocator, its page count, and physical memory.
  datatype State = State(free: set<nat>, total: nat, mem: Memory)

  // The frame pmm_alloc_page returns; its failure value is the address of frame 0.
  ghost function AllocFrame(s: State): nat {
    match LowestRun(s.free, s.total, 1)
    case Some(f) => f
    case None => 0
  }

  // One level of vmm_map_page: the table below entry `idx` of `table`, allocated when missing,
  // with the user flag added to an existing entry when the page is a user page.
  ghost function Descend(s: State, table: nat, idx: nat, user: bool): State
    requires idx < 512
  {
    if !InMem(s.mem, table) then s
    else
      var e := Entry(s.mem, table, idx);
      if !Present(e) then
        var f := AllocFrame(s);
        if !InMem(s.mem, f) then s
        else
          TableEntry(f, user);
          State(s.free - {f}, s.total, SetEntry(ZeroFrame(s.mem, f), table, idx, Or(f * 4096, TableFlags(user))))
      else if user then
        AddUser(e);
        s.(mem := SetEntry(s.mem, table, idx, Or(e, PTE_USER)))
      else s
  }

  // The table that entry `idx` of `table` points to.
  function Below(m: Memory, table: nat, idx: nat): nat
    requires idx < 512
  {
    if InMem(m, table) then FrameOf(Entry(m, table, idx)) else table
  }

  ghost function WriteLeaf(s: State, table: nat, idx: nat, leaf: Word): State
    requires idx < 512
  {
    if InMem(s.mem, table) then s.(mem := SetEntry(s.mem, table, idx, leaf)) else s
  }

  // The levels above the page table, one Descend each; `path` holds the indices still to go.
  ghost function MapFrom(s: State, table: nat, path: Path, user: bool, leaf: Word): State
    requires |path| >= 1 && IsPath(path)
    decreases |path|
  {
    if |path| == 1 then WriteLeaf(s, table, path[0], leaf)
    else
      var s' := Descend(s, table, path[0], user);
      MapFrom(s', Below(s'.mem, table, path[0]), path[1..], user, leaf)
  }

  ghost function Map(s: State, root: nat, virt: nat, phys: Word, flags: Word): State {
    MapFrom(s, root, Indices(virt), User(flags), LeafWord(phys, flags))
  }

  // The result of a walk: the leaf entry and the rights granted at every level.
  datatype Translation = Fault | Mapped(leaf: nat, user: bool, writable: bool)

  // The processor's walk: every level must be present, and each right must be granted by every level.
  function WalkFrom(m: Memory, table: nat, path: Path, user: bool, writable: bool): Translation
    requires |path| >= 1 && IsPath(path)
    decreases |path|
  {
    if !InMem(m, table) then Fault
    else
      var e := Entry(m, table, path[0]);
      if !Present(e) then Fault
      else if |path| == 1 then Mapped(e, user && User(e), writable && Writable(e))
      else WalkFrom(m, FrameOf(e), path[1..], user && User(e), writable && Writable(e))
  }

  function Translate(m: Memory, root: nat, virt: nat): Translation {
    WalkFrom(m, root, Indices(virt), true, true)
  }

  // The table frames by the indices that lead to them.
  type Tables = map<Path, nat>

  ghost predicate Shape(t: Tables) {
    && [] in t
    && (forall p :: p in t ==> |p| <= 3 && IsPath(p))
    && (forall p :: p in t && |p| > 0 ==> p[..|p| - 1] in t)
  }

  // No frame serves as two tables.
  ghost predicate Distinct(t: Tables) {
    forall p, q :: p in t && q in t && t[p] == t[q] ==> p == q
  }

  // Tables lie in memory and are not free; free frames lie in memory and are not frame 0.
  ghost predicate Owned(s: State, t: Tables) {
    && (forall p :: p in t ==> InMem(s.mem, t[p]) && t[p] !in s.free)
    && (forall f :: f in s.free ==> 0 < f < s.total && InMem(s.mem, f))
  }

  // Entries above the page tables: present exactly for the tables below, and writable.
  ghost predicate Linked(m: Memory, t: Tables)
    requires forall p :: p in t ==> InMem(m, t[p])
  {
    forall p, i: nat {:trigger Entry(m, t[p], i)} :: p in t && |p| < 3 && i < 512 ==>
      && (Present(Entry(m, t[p], i)) <==> p + [i] in t)
      && (p + [i] in t ==> FrameOf(Entry(m, t[p], i)) == t[p + [i]] && Writable(Entry(m, t[p], i)))
  }

  ghost predicate Tree(s: State, t: Tables) {
    Shape(t) && Distinct(t) && Owned(s, t) && Linked(s.mem, t)
  }

  // A table that holds a user entry is itself reached through a user entry.
  ghost predicate UserUp(m: Memory, t: Tables)
    requires forall p :: p in t ==> InMem(m, t[p])
    requires Shape(t)
  {
    forall p, i: nat {:trigger Entry(m, t[p], i)} :: p in t && |p| > 0 && i < 512
      && Present(Entry(m, t[p], i)) && User(Entry(m, t[p], i))
      ==> User(Entry(m, t[p[..|p| - 1]], p[|p| - 1]))
  }

  // The leaf entry a path of four indices leads to, 0 when its page table does not exist.
  ghost function View(m: Memory, t: Tables, path: Path): nat
    requires forall p :: p in t ==> InMem(m, t[p])
    requires |path| == 4 && IsPath(path)
  {
    if path[..3] in t then Entry(m, t[path[..3]], path[3]) else 0
  }

  // The tables after one Descend from table p.
  ghost function Grow(s: State, t: Tables, p: Path, i: nat): Tables {
    if p + [i] in t then t else t[p + [i] := AllocFrame(s)]
  }

  lemma AllocFromFree(s: State, t: Tables)
    requires Owned(s, t) && s.free != {}
    ensures AllocFrame(s) in s.free
  {
    var f :| f in s.free;
    assert IsRun(s.free, f, 1);
    LowestRunIsLowest(s.free, s.total, 1);
  }

  // Appending an index to a path is injective and never gives the empty path.
  lemma Append(p: Path, i: nat, q: Path, j: nat)
    ensures p + [i] == q + [j] ==> p == q && i == j
    ensures (p + [i])[..|p|] == p && (p + [i])[|p|] == i && |p + [i]| == |p| + 1
  {
    if p + [i] == q + [j] {
      assert |p| == |q|;
      assert p == (p + [i])[..|p|] == (q + [j])[..|q|] == q;
      assert (p + [i])[|p|] == i && (q + [j])[|q|] == j;
    }
  }

  lemma GrowShape(s: State, t: Tables, p: Path, i: nat)
    requires Shape(t) && p in t && |p| < 3 && i < 512
    ensures Shape(Grow(s, t, p, i)) && p + [i] in Grow(s, t, p, i)
  {
    Append(p, i, p, i);
  }

  lemma GrowOwned(s: State, t: Tables, p: Path, i: nat, user: bool)
    requires Tree(s, t) && p in t && |p| < 3 && i < 512
    requires p + [i] !in t ==> s.free != {}
    ensures var s' := Descend(s, t[p], i, user);
            Distinct(Grow(s, t, p, i)) && Owned(s', Grow(s, t, p, i))
            && s'.free == (if p + [i] in t then s.free else s.free - {AllocFrame(s)})
            && (p + [i] !in t ==> AllocFrame(s) in s.free)
            && s'.total == s.total && |s'.mem| == |s.mem|
  {
    if p + [i] !in t {
      AllocFromFree(s, t);
    }
  }

  // After one Descend the table below exists, and no walk to another page table has changed.
  lemma GrowLinked(s: State, t: Tables, p: Path, i: nat, user: bool)
    requires Tree(s, t) && p in t && |p| < 3 && i < 512
    requires p + [i] !in t ==> s.free != {}
    ensures var s', t' := Descend(s, t[p], i, user), Grow(s, t, p, i);
            && (forall q :: q in t' ==> InMem(s'.mem, t'[q]))
            && Linked(s'.mem, t')
            && Below(s'.mem, t[p], i) == t'[p + [i]]
  {
    var s', t' := Descend(s, t[p], i, user), Grow(s, t, p, i);
    GrowShape(s, t, p, i);
    GrowOwned(s, t, p, i, user);
    GrowEntry(s, t, p, i, user);
    forall q, j: nat | q in t' && |q| < 3 && j < 512
      ensures && (Present(Entry(s'.mem, t'[q], j)) <==> q + [j] in t')
              && (q + [j] in t' ==>
                    FrameOf(Entry(s'.mem, t'[q], j)) == t'[q + [j]] && Writable(Entry(s'.mem, t'[q], j)))
    {
      Append(p, i, q, j);
      if q == p + [i] && q !in t {
        assert (q + [j])[..|q|] !in t;
      } else if q == p && j == i {
      } else {
        assert Entry(s'.mem, t'[q], j) == Entry(s.mem, t[q], j);
        assert q + [j] in t' <==> q + [j] in t;
      }
    }
  }

  // The entries after one Descend.
  lemma GrowEntry(s: State, t: Tables, p: Path, i: nat, user: bool)
    requires Tree(s, t) && p in t && |p| < 3 && i < 512
    requires p + [i] !in t ==> s.free != {}
    ensures var s', t' := Descend(s, t[p], i, user), Grow(s, t, p, i);
            && |s'.mem| == |s.mem|
            && (forall q, j: nat :: q in t && j < 512 && !(q == p && j == i)
                  ==> InMem(s.mem, t[q]) && Entry(s'.mem, t[q], j) == Entry(s.mem, t[q], j))
            && (p + [i] !in t ==> InMem(s.mem, t'[p + [i]]))
            && (p + [i] !in t ==> forall j: nat :: j < 512 ==> Entry(s'.mem, t'[p + [i]], j) == 0)
            && var e := Entry(s'.mem, t[p], i);
               Present(e) && Writable(e) && FrameOf(e) == t'[p + [i]]
               && (User(e) <==> user || (p + [i] in t && User(Entry(s.mem, t[p], i))))
  {
    if p + [i] !in t {
      AllocFromFree(s, t);
      TableEntry(AllocFrame(s), user);
    } else {
      AddUser(Entry(s.mem, t[p], i));
    }
  }

  lemma GrowUserUp(s: State, t: Tables, p: Path, i: nat, user: bool)
    requires Tree(s, t) && p in t && |p| < 3 && i < 512
    requires p + [i] !in t ==> s.free != {}
    requires UserUp(s.mem, t)
    requires user && |p| > 0 ==> User(Entry(s.mem, t[p[..|p| - 1]], p[|p| - 1]))
    ensures var s', t' := Descend(s, t[p], i, user), Grow(s, t, p, i);
            && Shape(t') && (forall q :: q in t' ==> InMem(s'.mem, t'[q]))
            && UserUp(s'.mem, t')
            && (user ==> User(Entry(s'.mem, t[p], i)))
  {
    var s', t' := Descend(s, t[p], i, user), Grow(s, t, p, i);
    GrowShape(s, t, p, i);
    GrowOwned(s, t, p, i, user);
    GrowEntry(s, t, p, i, user);
    forall q, j: nat | q in t' && |q| > 0 && j < 512
                       && Present(Entry(s'.mem, t'[q], j)) && User(Entry(s'.mem, t'[q], j))
      ensures User(Entry(s'.mem, t'[q[..|q| - 1]], q[|q| - 1]))
    {
      GrowUserUpAt(s, t, p, i, user, q, j);
    }
  }

  // A user entry keeps its user flag.
  lemma UserKept(s: State, t: Tables, p: Path, i: nat, user: bool, q: Path, j: nat)
    requires Tree(s, t) && p in t && |p| < 3 && i < 512
    requires p + [i] !in t ==> s.free != {}
    requires q in t && |q| < 3 && j < 512 && q + [j] in t && User(Entry(s.mem, t[q], j))
    ensures var s' := Descend(s, t[p], i, user); InMem(s'.mem, t[q]) && User(Entry(s'.mem, t[q], j))
  {
    GrowEntry(s, t, p, i, user);
    hide Descend, Owned, Distinct, Linked, Present, User, Writable;
  }

  lemma GrowUserUpAt(s: State, t: Tables, p: Path, i: nat, user: bool, q: Path, j: nat)
    requires Tree(s, t) && p in t && |p| < 3 && i < 512
    requires p + [i] !in t ==> s.free != {}
    requires UserUp(s.mem, t)
    requires user && |p| > 0 ==> User(Entry(s.mem, t[p[..|p| - 1]], p[|p| - 1]))
    requires var s', t' := Descend(s, t[p], i, user), Grow(s, t, p, i);
             && |s'.mem| == |s.mem|
             && q in t' && |q| > 0 && j < 512 && InMem(s'.mem, t'[q])
             && Present(Entry(s'.mem, t'[q], j)) && User(Entry(s'.mem, t'[q], j))
    ensures var s', t' := Descend(s, t[p], i, user), Grow(s, t, p, i);
            && q[..|q| - 1] in t' && InMem(s'.mem, t'[q[..|q| - 1]])
            && q[|q| - 1] < 512
            && User(Entry(s'.mem, t'[q[..|q| - 1]], q[|q| - 1]))
  {
    GrowEntry(s, t, p, i, user);
    FlagBits(user);
    hide Descend, Distinct, Linked, Present, User, Writable;
    assert q in t;
    var up, k := q[..|q| - 1], q[|q| - 1];
    assert up in t && q == up + [k];
    assert q == p && j == i && !user ==> p + [i] in t && User(Entry(s.mem, t[p], i));
    assert User(Entry(s.mem, t[up], k));
    UserKept(s, t, p, i, user, up, k);
  }

  lemma GrowView(s: State, t: Tables, p: Path, i: nat, user: bool, path: Path)
    requires Tree(s, t) && p in t && |p| < 3 && i < 512
    requires p + [i] !in t ==> s.free != {}
    requires |path| == 4 && IsPath(path)
    ensures var s', t' := Descend(s, t[p], i, user), Grow(s, t, p, i);
            && (forall q :: q in t' ==> InMem(s'.mem, t'[q]))
            && View(s'.mem, t', path) == View(s.mem, t, path)
  {
    GrowOwned(s, t, p, i, user);
    GrowEntry(s, t, p, i, user);
  }

  // The tables after mapping along `path` below table p.
  ghost function MapTables(s: State, t: Tables, p: Path, path: Path, user: bool): Tables
    requires |path| >= 1 && IsPath(path)
    decreases |path|
  {
    if |path| == 1 || p !in t then t
    else MapTables(Descend(s, t[p], path[0], user), Grow(s, t, p, path[0]), p + [path[0]], path[1..], user)
  }

  // The levels along `path` below table p that have no table yet.
  ghost function Missing(t: Tables, p: Path, path: Path): nat
    requires |path| >= 1
    decreases |path|
  {
    if |path| == 1 then 0
    else (if p + [path[0]] in t then 0 else 1) + Missing(t, p + [path[0]], path[1..])
  }

  // A table below every path still to be looked at does not matter.
  lemma {:induction false} MissingGrow(t: Tables, q: Path, f: nat, p: Path, path: Path)
    requires |path| >= 1 && |q| <= |p|
    ensures Missing(t[q := f], p, path) == Missing(t, p, path)
    decreases |path|
  {
    if |path| > 1 {
      MissingGrow(t, q, f, p + [path[0]], path[1..]);
    }
  }

  ghost predicate CanDescend(s: State, t: Tables, p: Path, path: Path) {
    && Tree(s, t) && p in t && |p| + |path| == 4 && |path| >= 1 && IsPath(path)
    && |s.free| >= Missing(t, p, path)
  }

  lemma DescendStep(s: State, t: Tables, p: Path, path: Path, user: bool)
    requires CanDescend(s, t, p, path) && |path| > 1
    ensures p + [path[0]] !in t ==> s.free != {}
    ensures var s', t' := Descend(s, t[p], path[0], user), Grow(s, t, p, path[0]);
            && CanDescend(s', t', p + [path[0]], path[1..])
            && Below(s'.mem, t[p], path[0]) == t'[p + [path[0]]]
            && s'.free <= s.free && s'.total == s.total && |s'.mem| == |s.mem|
            && |s.free| - |s'.free| == Missing(t, p, path) - Missing(t', p + [path[0]], path[1..])
  {
    hide Descend, Tree, Grow, Below, Missing;
    var i := path[0];
    StepMissing(s, t, p, path);
    assert p + [i] !in t ==> s.free != {};
    StepTree(s, t, p, i, user);
  }

  lemma StepTree(s: State, t: Tables, p: Path, i: nat, user: bool)
    requires Tree(s, t) && p in t && |p| < 3 && i < 512
    requires p + [i] !in t ==> s.free != {}
    ensures var s', t' := Descend(s, t[p], i, user), Grow(s, t, p, i);
            && Tree(s', t') && p + [i] in t'
            && Below(s'.mem, t[p], i) == t'[p + [i]]
            && s'.free <= s.free && s'.total == s.total && |s'.mem| == |s.mem|
            && |s'.free| == |s.free| - (if p + [i] in t then 0 else 1)
  {
    GrowShape(s, t, p, i);
    GrowOwned(s, t, p, i, user);
    GrowLinked(s, t, p, i, user);
    hide Descend, Shape, Distinct, Owned, Linked, Below;
  }

  lemma StepMissing(s: State, t: Tables, p: Path, path: Path)
    requires |path| > 1
    ensures Missing(t, p, path) == (if p + [path[0]] in t then 0 else 1)
                                   + Missing(Grow(s, t, p, path[0]), p + [path[0]], path[1..])
  {
    MissingGrow(t, p + [path[0]], AllocFrame(s), p + [path[0]], path[1..]);
  }

  // The result of mapping is that of mapping the rest of the path one level down.
  lemma MapUnfolds(s: State, t: Tables, p: Path, path: Path, user: bool, leaf: Word)
    requires CanDescend(s, t, p, path) && |path| > 1
    ensures var s', t' := Descend(s, t[p], path[0], user), Grow(s, t, p, path[0]);
            && CanDescend(s', t', p + [path[0]], path[1..])
            && MapFrom(s, t[p], path, user, leaf) == MapFrom(s', t'[p + [path[0]]], path[1..], user, leaf)
            && MapTables(s, t, p, path, user) == MapTables(s', t', p + [path[0]], path[1..], user)
  {
    DescendStep(s, t, p, path, user);
    hide Descend, Tree, Grow, Below, Missing;
  }

  // Mapping keeps the tree, changes the view at exactly one path, and takes one frame for each
  // missing level.
  lemma {:induction false} MapFromKeeps(s: State, t: Tables, p: Path, path: Path, user: bool, leaf: Word)
    requires CanDescend(s, t, p, path)
    ensures var s', t' := MapFrom(s, t[p], path, user, leaf), MapTables(s, t, p, path, user);
            && Tree(s', t')
            && (forall q :: q in t ==> q in t' && t'[q] == t[q])
            && s'.free <= s.free && s'.total == s.total && |s'.mem| == |s.mem|
            && |s.free| - |s'.free| == Missing(t, p, path)
    decreases |path|
  {
    if |path| == 1 {
      LeafKeepsTree(s, t, p, path[0], leaf);
    } else {
      DescendStep(s, t, p, path, user);
      GrowKeeps(s, t, p, path[0]);
      hide Descend, Tree, Missing, Grow, Below, CanDescend, IsPath;
      MapFromKeeps(Descend(s, t[p], path[0], user), Grow(s, t, p, path[0]), p + [path[0]], path[1..], user, leaf);
    }
  }

  lemma GrowKeeps(s: State, t: Tables, p: Path, i: nat)
    ensures forall q :: q in t ==> q in Grow(s, t, p, i) && Grow(s, t, p, i)[q] == t[q]
  {
  }

  lemma LeafKeepsTree(s: State, t: Tables, p: Path, i: nat, leaf: Word)
    requires Tree(s, t) && p in t && |p| == 3 && i < 512
    ensures Tree(WriteLeaf(s, t[p], i, leaf), t)
  {
  }

  lemma {:induction false} MapFromView(s: State, t: Tables, p: Path, path: Path, user: bool, leaf: Word, other: Path)
    requires CanDescend(s, t, p, path) && p in t && |path| >= 1
    requires |other| == 4 && IsPath(other)
    ensures var s', t' := MapFrom(s, t[p], path, user, leaf), MapTables(s, t, p, path, user);
            && (forall q :: q in t' ==> InMem(s'.mem, t'[q]))
            && View(s'.mem, t', other) == if other == p + path then leaf else View(s.mem, t, other)
    decreases |path|
  {
    hide *;
    if |path| == 1 {
      LeafView(s, t, p, path, user, leaf, other);
    } else {
      var p', path' := p + [path[0]], path[1..];
      assert p' + path' == p + path && |path'| == |path| - 1;
      StepView(s, t, p, path, user, leaf, other);
      MapFromView(Descend(s, t[p], path[0], user), Grow(s, t, p, path[0]), p', path', user, leaf, other);
    }
  }

  lemma StepView(s: State, t: Tables, p: Path, path: Path, user: bool, leaf: Word, other: Path)
    requires CanDescend(s, t, p, path) && |path| > 1
    requires |other| == 4 && IsPath(other)
    ensures path[0] < 512
    ensures var s', t' := Descend(s, t[p], path[0], user), Grow(s, t, p, path[0]);
            && CanDescend(s', t', p + [path[0]], path[1..]) && p + [path[0]] in t'
            && (forall q :: q in t' ==> InMem(s'.mem, t'[q]))
            && MapFrom(s, t[p], path, user, leaf) == MapFrom(s', t'[p + [path[0]]], path[1..], user, leaf)
            && MapTables(s, t, p, path, user) == MapTables(s', t', p + [path[0]], path[1..], user)
            && View(s'.mem, t', other) == View(s.mem, t, other)
  {
    MapUnfolds(s, t, p, path, user, leaf);
    DescendStep(s, t, p, path, user);
    GrowView(s, t, p, path[0], user, other);
    hide Descend, Missing, Grow, MapFrom, MapTables, View;
  }

  lemma LeafView(s: State, t: Tables, p: Path, path: Path, user: bool, leaf: Word, other: Path)
    requires CanDescend(s, t, p, path) && |path| == 1
    requires |other| == 4 && IsPath(other)
    ensures var s', t' := MapFrom(s, t[p], path, user, leaf), MapTables(s, t, p, path, user);
            && (forall q :: q in t' ==> InMem(s'.mem, t'[q]))
            && View(s'.mem, t', other) == if other == p + path then leaf else View(s.mem, t, other)
  {
    assert other == other[..3] + [other[3]];
    assert path == [path[0]];
    Append(p, path[0], other[..3], other[3]);
  }

  // Frames only move from the free set to the tables.
  lemma {:induction false} MapFromFrames(s: State, t: Tables, p: Path, path: Path, user: bool, leaf: Word, f: nat)
    requires CanDescend(s, t, p, path) && p in t && |path| >= 1
    ensures var s', t' := MapFrom(s, t[p], path, user, leaf), MapTables(s, t, p, path, user);
            (f in s'.free || f in t'.Values) <==> (f in s.free || f in t.Values)
    decreases |path|
  {
    if |path| == 1 {
      assert MapFrom(s, t[p], path, user, leaf).free == s.free;
    } else {
      MapUnfolds(s, t, p, path, user, leaf);
      DescendStep(s, t, p, path, user);
      GrowFrames(s, t, p, path[0], user, f);
      hide Descend, Grow, MapFrom, MapTables, CanDescend, Below, Missing;
      MapFromFrames(Descend(s, t[p], path[0], user), Grow(s, t, p, path[0]), p + [path[0]], path[1..], user, leaf, f);
    }
  }

  lemma GrowFrames(s: State, t: Tables, p: Path, i: nat, user: bool, f: nat)
    requires Tree(s, t) && p in t && |p| < 3 && i < 512
    requires p + [i] !in t ==> s.free != {}
    ensures var s', t' := Descend(s, t[p], i, user), Grow(s, t, p, i);
            (f in s'.free || f in t'.Values) <==> (f in s.free || f in t.Values)
  {
    GrowOwned(s, t, p, i, user);
    var t' := Grow(s, t, p, i);
    GrowKeeps(s, t, p, i);
    if p + [i] !in t {
      assert t'[p + [i]] in t'.Values;
      if f in t.Values {
        var q :| q in t && t[q] == f;
        assert t'[q] == f;
      }
    }
  }

  // Mapping writes to tables and to frames that were free, and to no other frame.
  lemma {:induction false} MapFromLeaves(s: State, t: Tables, p: Path, path: Path, user: bool, leaf: Word,
                                         f: nat, k: nat)
    requires CanDescend(s, t, p, path)
    requires InMem(s.mem, f) && k < 512 && f !in s.free && f !in t.Values
    ensures var s' := MapFrom(s, t[p], path, user, leaf);
            InMem(s'.mem, f) && Entry(s'.mem, f, k) == Entry(s.mem, f, k)
    decreases |path|
  {
    if |path| == 1 {
      assert t[p] in t.Values;
    } else {
      MapUnfolds(s, t, p, path, user, leaf);
      DescendStep(s, t, p, path, user);
      GrowFrames(s, t, p, path[0], user, f);
      DescendLeaves(s, t, p, path[0], user, f, k);
      hide Descend, Grow, MapFrom, MapTables, CanDescend, Below, Missing;
      MapFromLeaves(Descend(s, t[p], path[0], user), Grow(s, t, p, path[0]), p + [path[0]], path[1..], user, leaf,
                    f, k);
    }
  }

  lemma DescendLeaves(s: State, t: Tables, p: Path, i: nat, user: bool, f: nat, k: nat)
    requires Tree(s, t) && p in t && |p| < 3 && i < 512
    requires p + [i] !in t ==> s.free != {}
    requires InMem(s.mem, f) && k < 512 && f !in s.free && f !in t.Values
    ensures var s' := Descend(s, t[p], i, user);
            InMem(s'.mem, f) && Entry(s'.mem, f, k) == Entry(s.mem, f, k)
  {
    assert t[p] in t.Values;
    if p + [i] !in t {
      AllocFromFree(s, t);
    }
  }

  // Every table has the same entries in both memories.
  ghost predicate SameTables(m: Memory, m': Memory, t: Tables) {
    forall p, i: nat :: p in t && i < 512 ==> SameEntry(m, m', t[p], i)
  }

  predicate SameEntry(m: Memory, m': Memory, f: nat, i: nat)
    requires i < 512
  {
    InMem(m, f) && InMem(m', f) && Entry(m', f, i) == Entry(m, f, i)
  }

  // The tables' entries decide the tree and every view.
  lemma SameTree(s: State, s': State, t: Tables)
    requires Tree(s, t) && UserUp(s.mem, t)
    requires s'.free == s.free && s'.total == s.total && |s'.mem| == |s.mem| && SameTables(s.mem, s'.mem, t)
    ensures Tree(s', t) && UserUp(s'.mem, t)
  {
    forall p, i: nat | p in t && i < 512
      ensures InMem(s'.mem, t[p]) && Entry(s'.mem, t[p], i) == Entry(s.mem, t[p], i)
    {
      assert SameEntry(s.mem, s'.mem, t[p], i);
    }
    hide SameEntry, SameTables;
  }

  lemma ViewSame(m: Memory, m': Memory, t: Tables, path: Path)
    requires forall p :: p in t ==> InMem(m, t[p]) && InMem(m', t[p])
    requires SameTables(m, m', t)
    requires |path| == 4 && IsPath(path)
    ensures View(m', t, path) == View(m, t, path)
  {
    if path[..3] in t {
      assert SameEntry(m, m', t[path[..3]], path[3]);
    }
  }

  lemma {:induction false} MapFromUserUp(s: State, t: Tables, p: Path, path: Path, user: bool, leaf: Word)
    requires CanDescend(s, t, p, path)
    requires UserUp(s.mem, t)
    requires user && |p| > 0 ==> User(Entry(s.mem, t[p[..|p| - 1]], p[|p| - 1]))
    requires User(leaf) ==> user
    ensures var s', t' := MapFrom(s, t[p], path, user, leaf), MapTables(s, t, p, path, user);
            && Shape(t') && (forall q :: q in t' ==> InMem(s'.mem, t'[q]))
            && UserUp(s'.mem, t')
    decreases |path|
  {
    if |path| == 1 {
      LeafUserUp(s, t, p, path[0], leaf);
    } else {
      var p', path' := p + [path[0]], path[1..];
      DescendStep(s, t, p, path, user);
      GrowUserUp(s, t, p, path[0], user);
      Append(p, path[0], p, path[0]);
      var s', t' := Descend(s, t[p], path[0], user), Grow(s, t, p, path[0]);
      assert p in t' && t'[p] == t[p];
      MapUnfolds(s, t, p, path, user, leaf);
      hide Descend, Tree, UserUp, Shape, Missing, Grow, CanDescend, MapFrom, MapTables;
      MapFromUserUp(s', t', p', path', user, leaf);
    }
  }

  lemma LeafUserUp(s: State, t: Tables, p: Path, i: nat, leaf: Word)
    requires Tree(s, t) && p in t && |p| == 3 && i < 512
    requires UserUp(s.mem, t)
    requires User(leaf) ==> User(Entry(s.mem, t[p[..2]], p[2]))
    ensures var s' := WriteLeaf(s, t[p], i, leaf); |s'.mem| == |s.mem| && UserUp(s'.mem, t)
  {
    var s' := WriteLeaf(s, t[p], i, leaf);
    forall q, j: nat | q in t && |q| > 0 && j < 512 && Present(Entry(s'.mem, t[q], j)) && User(Entry(s'.mem, t[q], j))
      ensures User(Entry(s'.mem, t[q[..|q| - 1]], q[|q| - 1]))
    {
      var up := q[..|q| - 1];
      assert up in t && |up| < 3;
      assert t[up] != t[p];
    }
  }

  // The processor's walk below table p reads the view, with the rights of the levels above.
  lemma {:induction false} WalkReadsView(s: State, t: Tables, p: Path, path: Path, user: bool, writable: bool)
    requires Tree(s, t) && UserUp(s.mem, t)
    requires p in t && |p| + |path| == 4 && |path| >= 1 && IsPath(path)
    ensures IsPath(p + path)
    ensures var leaf := View(s.mem, t, p + path);
            WalkFrom(s.mem, t[p], path, user, writable)
              == if Present(leaf) then Mapped(leaf, user && User(leaf), writable && Writable(leaf)) else Fault
    decreases |path|
  {
    assert IsPath(p);
    var e := Entry(s.mem, t[p], path[0]);
    if |path| == 1 {
      assert (p + path)[..3] == p;
    } else {
      var p', path' := p + [path[0]], path[1..];
      assert p' + path' == p + path;
      if Present(e) {
        WalkReadsView(s, t, p', path', user && User(e), writable && Writable(e));
        if Present(View(s.mem, t, p + path)) && User(View(s.mem, t, p + path)) {
          LeafUser(s, t, p, path);
        }
      } else {
        NoTable(t, p', path');
        FlagBits(false);
      }
    }
  }

  // Without the table for p there is none for any longer path.
  lemma {:induction false} NoTable(t: Tables, p: Path, path: Path)
    requires Shape(t) && p !in t && |p| <= 3 && |p| + |path| == 4
    ensures (p + path)[..3] !in t
    decreases |path|
  {
    if |p| == 3 {
      assert (p + path)[..3] == p;
    } else {
      var p' := p + [path[0]];
      assert p'[..|p'| - 1] == p;
      assert p' + path[1..] == p + path;
      NoTable(t, p', path[1..]);
    }
  }

  // A present user leaf has a user entry on every level of its path.
  lemma {:induction false} LeafUser(s: State, t: Tables, p: Path, path: Path)
    requires Tree(s, t) && UserUp(s.mem, t)
    requires p in t && |p| + |path| == 4 && |path| >= 1 && IsPath(path) && IsPath(p + path)
    requires Present(View(s.mem, t, p + path)) && User(View(s.mem, t, p + path))
    ensures Present(Entry(s.mem, t[p], path[0])) && User(Entry(s.mem, t[p], path[0]))
    decreases |path|
  {
    if |path| == 1 {
      assert (p + path)[..3] == p;
    } else {
      var p', path' := p + [path[0]], path[1..];
      assert p' + path' == p + path;
      if p' !in t {
        NoTable(t, p', path');
        FlagBits(false);
      } else {
        LeafUser(s, t, p', path');
        Append(p, path[0], p, path[0]);
      }
    }
  }
}
