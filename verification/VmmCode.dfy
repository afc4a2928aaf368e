/** vmm_map_page as it runs: table entries written in place in physical memory, frames taken from
    the bitmap allocator. The direct map offset is left out: an address is a physical address. */
module VmmCode {
  import opened Bits
  import opened Bitmap
  import opened Pmm
  import opened Paging
  import opened Vmm

  ghost function StateOf(pmm: PageAllocator, mem: array<Word>): State
    reads pmm, pmm.bitmap, mem
    requires pmm.Shaped() && mem.Length <= 512 * TWO_52
  {
    State(pmm.Free(), pmm.totalPages, mem[..])
  }

  ghost predicate Ready(pmm: PageAllocator, mem: array<Word>)
    reads pmm, pmm.bitmap, mem
  {
    pmm.Valid() && mem.Length <= 512 * TWO_52 && mem as object != pmm.bitmap
  }

  // memset(frame, 0, PAGE_SIZE)
  method Zero(mem: array<Word>, f: nat)
    requires mem.Length <= 512 * TWO_52 && InMem(mem[..], f)
    modifies mem
    ensures mem[..] == ZeroFrame(old(mem[..]), f)
  {
    var k := 512 * f;
    while k < 512 * f + 512
      invariant 512 * f <= k <= 512 * f + 512
      invariant forall j :: 0 <= j < mem.Length ==> mem[j] == if 512 * f <= j < k then 0 else old(mem[j])
    {
      mem[k] := 0;
      k := k + 1;
    }
  }

  // The block that vmm_map_page repeats for each of the three upper levels.
  method NextTable(pmm: PageAllocator, mem: array<Word>, table: nat, idx: nat, user: bool) returns (next: nat)
    requires Ready(pmm, mem) && InMem(mem[..], table) && idx < 512
    requires InMem(mem[..], AllocFrame(StateOf(pmm, mem)))
    modifies pmm`freePages, pmm.bitmap, mem
    ensures Ready(pmm, mem)
    ensures StateOf(pmm, mem) == Descend(old(StateOf(pmm, mem)), table, idx, user)
    ensures next == Below(mem[..], table, idx)
  {
    hide LowestRun, Or, TableFlags;
    if !Bit(mem[512 * table + idx], 0) {
      var addr := TakeFrame(pmm, mem);
      Zero(mem, addr / 4096);
      TableEntry(addr / 4096, user);
      mem[512 * table + idx] := Or(addr, TableFlags(user));
    } else if user {
      AddUser(mem[512 * table + idx]);
      mem[512 * table + idx] := Or(mem[512 * table + idx], PTE_USER);
    }
    next := mem[512 * table + idx] / 4096;
  }

  // pmm_alloc_page as the page tables see it.
  method TakeFrame(pmm: PageAllocator, mem: array<Word>) returns (addr: nat)
    requires Ready(pmm, mem)
    modifies pmm`freePages, pmm.bitmap
    ensures Ready(pmm, mem) && pmm.totalPages == old(pmm.totalPages)
    ensures addr == AllocFrame(old(StateOf(pmm, mem))) * 4096
    ensures pmm.Free() == old(pmm.Free()) - {AllocFrame(old(StateOf(pmm, mem)))}
  {
    addr := pmm.AllocPage();
  }

  method MapPage(pmm: PageAllocator, mem: array<Word>, pml4: nat, virt: nat, phys: Word, flags: Word, ghost t: Tables)
    requires Ready(pmm, mem)
    requires Tree(StateOf(pmm, mem), t) && [] in t && t[[]] == pml4
    requires |pmm.Free()| >= Missing(t, [], Indices(virt))
    modifies pmm`freePages, pmm.bitmap, mem
    ensures Ready(pmm, mem)
    ensures StateOf(pmm, mem) == Map(old(StateOf(pmm, mem)), pml4, virt, phys, flags)
  {
    hide Tree, Map, MapFrom, CanDescend, LeafWord, PageAllocator.Free, FreeIn, Missing, IsPath;
    var user := Bit(flags, 2);
    var path := Indices(virt);
    var leaf := LeafWord(phys, flags);
    assert path[1..][1..] == path[2..] && path[2..][1..] == path[3..];
    MapStarts(StateOf(pmm, mem), t, virt, phys, flags);
    hide Indices;
    ghost var p, ts := [], t;
    var pdpt, pd, pt;
    pdpt, p, ts := Level(pmm, mem, pml4, path, user, p, ts, leaf);
    pd, p, ts := Level(pmm, mem, pdpt, path[1..], user, p, ts, leaf);
    pt, p, ts := Level(pmm, mem, pd, path[2..], user, p, ts, leaf);
    MapUnfoldsLeaf(StateOf(pmm, mem), ts, p, path[3..], user, leaf);
    mem[512 * pt + path[3]] := leaf;
  }

  // One level of the walk, with the invariant of vmm_map_page: mapping the rest of the path from
  // here is mapping the whole path from the start.
  method Level(pmm: PageAllocator, mem: array<Word>, table: nat, path: Path, user: bool,
               ghost p: Path, ghost t: Tables, ghost leaf: Word)
    returns (next: nat, ghost p': Path, ghost t': Tables)
    requires Ready(pmm, mem)
    requires CanDescend(StateOf(pmm, mem), t, p, path) && |path| > 1 && p in t && table == t[p]
    modifies pmm`freePages, pmm.bitmap, mem
    ensures Ready(pmm, mem)
    ensures CanDescend(StateOf(pmm, mem), t', p', path[1..]) && p' in t' && next == t'[p']
    ensures |path[1..]| >= 1 && IsPath(path) && IsPath(path[1..])
    ensures MapFrom(StateOf(pmm, mem), next, path[1..], user, leaf)
         == MapFrom(old(StateOf(pmm, mem)), table, path, user, leaf)
  {
    hide Tree, Descend, MapFrom, Below, AllocFrame, Missing;
    p', t' := LevelReady(StateOf(pmm, mem), t, p, path, user, leaf);
    next := NextTable(pmm, mem, table, path[0], user);
  }

  lemma MapStarts(s: State, t: Tables, virt: nat, phys: Word, flags: Word)
    requires Tree(s, t) && |s.free| >= Missing(t, [], Indices(virt))
    ensures CanDescend(s, t, [], Indices(virt))
    ensures Map(s, t[[]], virt, phys, flags) == MapFrom(s, t[[]], Indices(virt), User(flags), LeafWord(phys, flags))
  {
  }

  // What a call of NextTable needs, and what the rest of the walk starts from.
  lemma LevelReady(s: State, t: Tables, p: Path, path: Path, user: bool, leaf: Word) returns (p': Path, t': Tables)
    requires CanDescend(s, t, p, path) && |path| > 1
    ensures p in t && InMem(s.mem, t[p]) && path[0] < 512
    ensures InMem(s.mem, AllocFrame(s))
    ensures var s' := Descend(s, t[p], path[0], user);
            && CanDescend(s', t', p', path[1..]) && p' in t'
            && Below(s'.mem, t[p], path[0]) == t'[p']
            && MapFrom(s, t[p], path, user, leaf) == MapFrom(s', t'[p'], path[1..], user, leaf)
  {
    p', t' := p + [path[0]], Grow(s, t, p, path[0]);
    DescendStep(s, t, p, path, user);
    MapUnfolds(s, t, p, path, user, leaf);
    hide Descend, MapFrom, Grow, Missing, Below;
    if s.free != {} {
      AllocFromFree(s, t);
    } else {
      NoFrame(s);
    }
  }

  lemma NoFrame(s: State)
    requires s.free == {}
    ensures AllocFrame(s) == 0
  {
    LowestRunIsLowest(s.free, s.total, 1);
    forall f: nat
      ensures !IsRun(s.free, f, 1)
    {
      assert f !in s.free;
    }
  }

  lemma MapUnfoldsLeaf(s: State, t: Tables, p: Path, path: Path, user: bool, leaf: Word)
    requires CanDescend(s, t, p, path) && |path| == 1
    ensures p in t && InMem(s.mem, t[p]) && path[0] < 512
    ensures MapFrom(s, t[p], path, user, leaf) == s.(mem := SetEntry(s.mem, t[p], path[0], leaf))
  {
  }
}
