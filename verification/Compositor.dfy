/** The window system as it runs: window and surface objects in the kernel heap, linked through
    `next`, changed in place by kernel/src/compositor/{window,surface,layout,compositor}.c. */
module Compositor {
  import opened Bits
  import opened Wrappers
  import opened BlockList
  import opened LiveBlocks
  import opened Layout
  import opened HeapMemory
  import opened KernelHeaps
  import Desks
  import DeskRuns

  // surface_t; surface_create fills it in and nothing here assigns to it again.
  class Surface {
    const at: nat     // its address
    const id: int
    const width: Word32
    const height: Word32
    const pixels: nat // address of the pixel buffer, 0 when there is none
    ghost const value: Desks.Surf

    constructor (at: nat, id: int, width: Word32, height: Word32, pixels: nat, ghost value: Desks.Surf)
      ensures this.at == at && this.id == id && this.width == width && this.height == height
      ensures this.pixels == pixels && this.value == value
    {
      this.at, this.id, this.width, this.height, this.pixels, this.value := at, id, width, height, pixels, value;
    }

    ghost predicate Ok(base: nat) {
      && value.id == id && value.width == width && value.height == height
      && at == base + value.block.off + 24
      && pixels == if value.pixels.Some? then base + value.pixels.value.off + 24 else 0
    }
  }

  // window_t
  class Window {
    const at: nat
    const id: int
    var surface: Surface?
    var x: int
    var y: int
    var width: Word32
    var height: Word32
    var workspace: int
    var minimized: bool
    var next: Window?
    ghost const block: Block

    constructor (at: nat, id: int, x: int, y: int, width: Word32, height: Word32, ghost block: Block)
      ensures this.at == at && this.block == block && next == null && surface == null
      ensures Value() == Desks.Win(id, block, x, y, width, height, 1, false, None)
    {
      this.at, this.id, this.block := at, id, block;
      this.x, this.y, this.width, this.height := x, y, width, height;
      workspace, minimized, surface, next := 1, false, null, null;
    }

    ghost predicate Ok(base: nat)
      reads this`surface
    {
      at == base + block.off + 24 && (surface != null ==> surface.Ok(base))
    }

    ghost function Value(): Desks.Win
      reads this
    {
      Desks.Win(id, block, x, y, width, height, workspace, minimized, SurfOf(surface))
    }
  }

  ghost function SurfOf(s: Surface?): Option<Desks.Surf> {
    if s == null then None else Some(s.value)
  }

  ghost function Values(l: seq<Window>): (r: seq<Desks.Win>)
    reads l
    ensures |r| == |l|
  {
    seq(|l|, i requires 0 <= i < |l| reads l => l[i].Value())
  }

  lemma AllValues(l: seq<Window>)
    ensures forall i :: 0 <= i < |l| ==> Values(l)[i] == l[i].Value()
  {
  }

  lemma OneChanged(l: seq<Window>, i: nat, values: seq<Desks.Win>)
    requires i < |l| == |values|
    requires forall j :: 0 <= j < |l| && j != i ==> values[j] == l[j].Value()
    ensures Values(l) == values[i := l[i].Value()]
  {
  }

  ghost function First(l: seq<Window>): Window? {
    if l == [] then null else l[0]
  }

  // The windows of l are distinct and follow each other by `next`.
  ghost predicate Chain(l: seq<Window>)
    reads l`next
  {
    && (forall i :: 0 <= i < |l| ==> l[i].next == After(l, i))
    && (forall i, j :: 0 <= i < j < |l| ==> l[i] != l[j])
  }

  lemma ChainFirst(win: Window, l: seq<Window>)
    requires Chain(l) && win !in l && win.next == First(l)
    ensures Chain([win] + l)
  {
    var r := [win] + l;
    forall i | 0 <= i < |r|
      ensures r[i].next == After(r, i)
    {
      if i > 0 {
        assert r[i] == l[i - 1];
      }
    }
  }

  // The window that follows window i.
  ghost function After(l: seq<Window>, i: nat): Window? {
    if i + 1 < |l| then l[i + 1] else null
  }

  // The statics of the compositor's files.
  class WindowSystem {
    const heap: KernelHeap
    var windowList: Window?
    var mode: Mode
    var nextWindow: int
    var nextSurface: int
    ghost var list: seq<Window>          // the windows reached from windowList
    ghost var others: multiset<Block>    // the heap blocks of the rest of the kernel
    ghost var calls: nat
    ghost var missed: nat

    ghost function StoreNow(): Desks.Store
      reads this`calls, this`missed, heap`blocks
    {
      Desks.Store(heap.blocks, calls, missed)
    }

    ghost function State(): Desks.Desk
      reads this, heap, list
    {
      Desks.Desk(StoreNow(), Values(list), mode, nextWindow, nextSurface, others)
    }

    ghost predicate Linked()
      reads this`windowList, this`list, list`next
    {
      windowList == First(list) && Chain(list)
    }

    ghost predicate AllOk()
      reads this`list, list`surface
    {
      forall i :: 0 <= i < |list| ==> list[i].Ok(heap.base)
    }

    ghost predicate Valid()
      reads this, heap, heap.mem, list
    {
      && heap.Valid()
      && Linked()
      && AllOk()
      && Desks.Good(State(), heap.mem.Length)
    }

    // layout_init and compositor_init, over a heap that the rest of the kernel already uses.
    constructor (heap: KernelHeap)
      requires heap.Valid()
      ensures this.heap == heap
      ensures Valid()
      ensures State() == DeskRuns.Start(heap.blocks, LiveOf(heap.blocks))
      ensures windowList == null && list == [] && mode == MasterStack && nextWindow == 1 && nextSurface == 1
    {
      this.heap := heap;
      windowList, mode, nextWindow, nextSurface := null, MasterStack, 1, 1;
      list, others, calls, missed := [], LiveOf(heap.blocks), 0, 0;
      new;
      HeapInv(heap.mem[..], heap.base, heap.blocks);
    }

    // kzalloc
    method Kzalloc(bytes: nat) returns (p: nat, ghost b: Option<Block>)
      requires heap.Valid() && bytes <= TWO_64 - 8
      modifies this`calls, this`missed, heap`blocks, heap.mem
      ensures heap.Valid()
      ensures Desks.Got(StoreNow(), b) == Desks.Kzalloc(old(StoreNow()), bytes)
      ensures p == if b.Some? then heap.base + b.value.off + 24 else 0
      ensures b.Some? ==> p != 0
    {
      hide HeapAt, Malloc, MallocMem, Round8, Taken;
      TakenIs(heap.blocks, Round8(bytes));
      b := Taken(heap.blocks, Round8(bytes));
      calls, missed := calls + 1, missed + if b.None? then 1 else 0;
      p := heap.Kzalloc(bytes);
    }

    // kfree
    method Kfree(p: nat, ghost b: Block)
      requires heap.Valid() && b in LiveOf(heap.blocks) && p == heap.base + b.off + 24
      modifies this`calls, heap`blocks, heap.mem
      ensures heap.Valid()
      ensures StoreNow() == Desks.Kfree(old(StoreNow()), b)
    {
      LiveIff(heap.blocks, b);
      hide HeapAt, Free, FreeMem, LiveOf;
      heap.Kfree(p);
      calls := calls + 1;
    }

    // surface_create
    method SurfaceCreate(width: Word32, height: Word32) returns (s: Surface?)
      requires heap.Valid()
      modifies this`calls, this`missed, this`nextSurface, heap`blocks, heap.mem
      ensures heap.Valid()
      ensures Desks.Made(StoreNow(), nextSurface, SurfOf(s)) ==
              Desks.SurfaceCreate(old(StoreNow()), old(nextSurface), width, height)
      ensures s != null ==> s.Ok(heap.base)
      ensures s != null ==> s.id == old(nextSurface) && s.width == width && s.height == height
      ensures nextSurface == if s == null then old(nextSurface) else W(old(nextSurface) + 1)
    {
      hide HeapAt, Desks.Kzalloc;
      var p, px;
      ghost var b, pb;
      p, b := Kzalloc(112);
      if p == 0 {
        return null;
      }
      var id := nextSurface;
      nextSurface := W(nextSurface + 1);
      px, pb := Kzalloc(W(width * height) * 4);
      s := new Surface(p, id, width, height, px, Desks.Surf(id, b.value, width, height, pb));
    }

    // surface_destroy
    method SurfaceDestroy(s: Surface)
      requires heap.Valid() && s.Ok(heap.base)
      requires Desks.OfSurf(Some(s.value)) <= LiveOf(heap.blocks)
      modifies this`calls, heap`blocks, heap.mem
      ensures heap.Valid()
      ensures StoreNow() == Desks.SurfaceDestroy(old(StoreNow()), s.value)
    {
      hide HeapAt, Desks.Kfree, LiveOf, Inv;
      HeapInv(heap.mem[..], heap.base, heap.blocks);
      assert s.value.block in Desks.OfSurf(Some(s.value));
      if s.pixels != 0 {
        assert s.value.pixels.value in Desks.OfSurf(Some(s.value));
        Desks.KfreeLive(StoreNow(), s.value.pixels.value, heap.mem.Length);
        Kfree(s.pixels, s.value.pixels.value);
      } else {
        NoAddressZero(heap, s);
      }
      Kfree(s.at, s.value.block);
    }

    // surface_clear: the pixels take the colour, and no byte outside the pixel buffer changes.
    method SurfaceClear(s: Surface, color: nat)
      requires heap.Valid() && s.Ok(heap.base) && color < 0x1_0000_0000
      requires s.value.pixels.Some? ==>
                 && s.value.pixels.value in heap.blocks && !s.value.pixels.value.free
                 && s.value.pixels.value.size >= Desks.PixelBytes(s.width, s.height)
      modifies heap.mem
      ensures heap.Valid()
      ensures if s.value.pixels.None? then heap.mem[..] == old(heap.mem[..])
              else
                var start := s.value.pixels.value.off + 24;
                && start + Desks.PixelBytes(s.width, s.height) <= heap.mem.Length
                && Cleared(old(heap.mem[..]), heap.mem[..], start, W(s.width * s.height), color)
      ensures s.value.pixels.Some? ==>
                var start, count := s.value.pixels.value.off + 24, W(s.width * s.height);
                && start + 4 * count <= heap.mem.Length
                && (forall k: nat :: k < count ==> PixelAt(heap.mem[..], start + 4 * k) == color)
                && forall a :: 0 <= a < heap.mem.Length && !(start <= a < start + 4 * count) ==>
                     heap.mem[a] == old(heap.mem[a])
    {
      if s.pixels == 0 {
        return;
      }
      hide HeapAt, W, Cleared;
      ghost var b, m := s.value.pixels.value, heap.mem[..];
      InsideHeap(m, heap.base, heap.blocks);
      var start, count := s.pixels - heap.base, W(s.width * s.height);
      var i := 0;
      ClearedNone(m, start, color);
      while i < count
        invariant i <= count && Cleared(m, heap.mem[..], start, i, color)
      {
        ghost var mid := heap.mem[..];
        PutPixel(start + 4 * i, color);
        ClearedNext(m, mid, heap.mem[..], start, i, color);
        i := i + 1;
      }
      ClearedOutside(m, heap.mem[..], start, count, color, b);
      ClearedReads(m, heap.mem[..], start, count, color);
      PayloadWrite(m, heap.mem[..], heap.base, heap.blocks, b);
    }

    method PutPixel(at: nat, color: nat)
      requires at + 4 <= heap.mem.Length && color < 0x1_0000_0000
      modifies heap.mem
      ensures PixelPut(old(heap.mem[..]), heap.mem[..], at, color)
    {
      heap.mem[at] := ColorByte(color, 0);
      heap.mem[at + 1] := ColorByte(color, 1);
      heap.mem[at + 2] := ColorByte(color, 2);
      heap.mem[at + 3] := ColorByte(color, 3);
    }

    // window_resize_surface; the paint callback draws into the surface and changes nothing here.
    method ResizeSurface(win: Window, width: Word32, height: Word32)
      requires heap.Valid() && win.Ok(heap.base)
      requires Desks.OfSurf(win.Value().surf) <= LiveOf(heap.blocks)
      modifies win`width, win`height, win`surface
      modifies this`calls, this`missed, this`nextSurface, heap`blocks, heap.mem
      ensures heap.Valid() && win.Ok(heap.base)
      ensures Desks.Resized(StoreNow(), nextSurface, win.Value()) ==
              Desks.Resize(old(StoreNow()), old(nextSurface), old(win.Value()), width, height)
      ensures win.width == width && win.height == height
      ensures win.surface != null ==>
                win.surface.width == W((width as int) - 2) && win.surface.height == W((height as int) - 29)
      ensures old(win.surface != null && win.surface.width == W((width as int) - 2)
                  && win.surface.height == W((height as int) - 29)) ==>
                && win.surface == old(win.surface) && calls == old(calls) && heap.mem[..] == old(heap.mem[..])
    {
      hide HeapAt, LiveOf, Desks.SurfaceCreate, Desks.SurfaceDestroy, Desks.OfSurf;
      win.width := width;
      win.height := height;
      var surfW, surfH := W(width - 2), W(height - 28 - 1);
      if win.surface == null || win.surface.width != surfW || win.surface.height != surfH {
        if win.surface != null {
          SurfaceDestroy(win.surface);
        }
        var s := SurfaceCreate(surfW, surfH);
        win.surface := s;
      }
    }

    // window_create
    method WindowCreate(x: int, y: int, width: Word32, height: Word32) returns (win: Window?)
      requires Valid()
      modifies this`calls, this`missed, this`nextSurface, this`nextWindow, heap`blocks, heap.mem
      ensures heap.Valid() && Linked() && AllOk()
      ensures win == null ==> State() == Desks.Open(old(State()), x, y, width, height)
      ensures win != null ==> fresh(win) && win.Ok(heap.base)
      ensures win != null ==> && win.id == old(nextWindow) && nextWindow == W(old(nextWindow) + 1)
                              && win.x == x && win.y == y && win.width == width && win.height == height
                              && win.workspace == 1 && !win.minimized
                              && (win.surface != null ==> win.surface.width == W((width as int) - 2)
                                                          && win.surface.height == W((height as int) - 29))
      ensures list == old(list) && windowList == old(windowList)
      ensures win != null ==>
                State().(wins := [win.Value()] + Values(list)) == Desks.Open(old(State()), x, y, width, height)
    {
      hide HeapAt, LiveOf, Desks.Kzalloc, Desks.SurfaceCreate, Desks.Good, Linked, AllOk, Values, W, Inv, Desks.Open;
      ghost var d := State();
      var p;
      ghost var b;
      p, b := Kzalloc(120);
      if p == 0 {
        OpenFails(d, x, y, width, height);
        return null;
      }
      ghost var got := Desks.Got(StoreNow(), b);
      win := new Window(p, nextWindow, x, y, width, height, b.value);
      nextWindow := W(nextWindow + 1);
      var s := SurfaceCreate(W(width - 2), W(height - 28 - 1));
      win.surface := s;
      OpenIs(d, x, y, width, height, got, Desks.Made(StoreNow(), nextSurface, SurfOf(s)));
    }

    // compositor_register_window
    method Register(win: Window?)
      requires heap.Valid() && Linked() && AllOk()
      requires win == null ==> Desks.Good(State(), heap.mem.Length)
      requires win != null ==> win !in list && win.Ok(heap.base)
      requires win != null ==> Desks.Good(State().(wins := [win.Value()] + Values(list)), heap.mem.Length)
      modifies this`windowList, this`list
      modifies if win == null then {} else {win}`next
      ensures Valid()
      ensures State() == old(if win == null then State() else State().(wins := [win.Value()] + Values(list)))
      ensures win == null ==> windowList == old(windowList) && list == old(list)
      ensures win != null ==> windowList == win && win.next == old(windowList) && list == [win] + old(list)
    {
      hide HeapAt, Desks.Good, Chain;
      if win == null {
        return;
      }
      ghost var values, rest := [win.Value()] + Values(list), list;
      win.next := windowList;
      ChainFirst(win, rest);
      windowList := win;
      list := [win] + rest;
      assert Values(list) == values;
    }

    // How the kernel opens a window.
    method OpenWindow(x: int, y: int, width: Word32, height: Word32)
      requires Valid()
      modifies this`calls, this`missed, this`nextSurface, this`nextWindow, heap`blocks, heap.mem
      modifies this`windowList, this`list
      ensures Valid()
      ensures State() == Desks.Open(old(State()), x, y, width, height)
    {
      hide HeapAt, Desks.Good, Desks.Open, Linked, AllOk, Values, Desks.Complete;
      DeskRuns.OpenGood(State(), x, y, width, height, heap.mem.Length);
      var win := WindowCreate(x, y, width, height);
      Register(win);
    }

    // layout_cycle_mode
    method CycleMode()
      requires Valid()
      modifies this`mode
      ensures Valid()
      ensures Ordinal(mode) == (Ordinal(old(mode)) + 1) % 4
      ensures State() == old(State()).(mode := NextMode(old(mode)))
    {
      hide HeapAt, Linked, AllOk, Desks.Good, Values;
      AnyMode(State(), heap.mem.Length, NextMode(mode));
      NextModeIs(mode, NextMode(mode));
      mode := match mode
        case MasterStack => Grid
        case Grid => Monocle
        case Monocle => Floating
        case Floating => MasterStack;
    }

    // A window takes its frame, and a surface to go with it.
    method Place(win: Window, ghost i: nat, x: Word32, y: Word32, width: Word32, height: Word32)
      requires Valid() && i < |list| && list[i] == win
      modifies win`x, win`y, win`width, win`height, win`surface
      modifies this`calls, this`missed, this`nextSurface, heap`blocks, heap.mem
      ensures Valid()
      ensures State() == Desks.Lay(old(State()), i, Rect(x, y, width, height))
    {
      hide HeapAt, LiveOf, Desks.Good, Desks.Resize, Desks.OfSurf, Linked, Values, Inv, Desks.Complete, Desks.Matches,
        Desks.Signed, Surface.Ok, Chain, Desks.Lay, W;
      ghost var d, r := State(), Rect(x, y, width, height);
      OwnedLive(d, i, heap.mem.Length);
      DeskRuns.LayGood(d, i, r, heap.mem.Length);
      Distinct(i);
      AllValues(list);
      win.x := Desks.Signed(x);
      win.y := Desks.Signed(y);
      win.width := width;
      win.height := height;
      ResizeSurface(win, width, height);
      LayIs(d, i, r, StoreNow(), nextSurface, win.Value());
      OneChanged(list, i, d.wins);
    }

    // The first loop of layout_apply: at most sixteen visible windows.
    method Collect(workspace: int, visible: array<Window?>) returns (count: nat, ghost vis: seq<nat>)
      requires Linked() && visible.Length == 16
      modifies visible
      ensures vis == Desks.Visible(Values(list), workspace, |list|)
      ensures count == |vis| && Collected(visible, vis)
    {
      hide Values, Chain;
      AllValues(list);
      ghost var wins := Values(list);
      var w := windowList;
      ghost var k := 0;
      count, vis := 0, [];
      while w != null && count < 16
        invariant k <= |list| && w == First(list[k..])
        invariant vis == Desks.Visible(wins, workspace, k)
        invariant count == |vis| && Collected(visible, vis)
        decreases |list| - k
      {
        NextOf(k);
        if w.workspace == workspace && !w.minimized {
          visible[count] := w;
          count := count + 1;
          vis := vis + [k];
        }
        w := w.next;
        k := k + 1;
      }
      FullStays(wins, workspace, k, |list|);
    }

    ghost predicate Collected(visible: array<Window?>, vis: seq<nat>)
      reads this`list, visible
    {
      && |vis| <= visible.Length
      && forall j :: 0 <= j < |vis| ==> vis[j] < |list| && visible[j] == list[vis[j]]
    }

    lemma NextOf(k: nat)
      requires Linked() && k < |list|
      ensures list[k].next == First(list[k + 1..])
    {
    }

    // layout_apply. Windows that are not visible keep every field; without visible windows, or with
    // any number but one in floating mode, nothing changes at all.
    method LayoutApply(workspace: int, screenW: int, screenH: int) returns (ghost vis: seq<nat>)
      requires Valid()
      modifies list, this`calls, this`missed, this`nextSurface, heap`blocks, heap.mem
      ensures Valid()
      ensures State() == Desks.Apply(old(State()), workspace, screenW, screenH)
      ensures vis == Desks.Visible(old(State()).wins, workspace, |old(list)|)
      ensures forall i :: 0 <= i < |old(list)| && i !in vis ==> unchanged(old(list)[i])
      ensures vis == [] || (mode == Floating && |vis| != 1) ==> unchanged(old(list)) && HeapKept()
    {
      hide HeapAt, Desks.Good, Linked, AllOk, Values, Desks.Apply, Desks.Visible;
      var visible := new Window?[16];
      var count;
      count, vis := Collect(workspace, visible);
      NotChosen(vis);
      LayVisible(visible, count, vis, workspace, screenW, screenH);
    }

    // No kzalloc, no kfree, no byte written.
    twostate predicate HeapKept()
      reads this, heap, heap.mem
    {
      && heap.mem[..] == old(heap.mem[..]) && heap.blocks == old(heap.blocks)
      && calls == old(calls) && missed == old(missed) && nextSurface == old(nextSurface)
    }

    // The rest of layout_apply, on the windows collected.
    method LayVisible(visible: array<Window?>, count: nat, ghost vis: seq<nat>, ghost workspace: int,
                      screenW: int, screenH: int)
      requires Valid() && Collected(visible, vis) && count == |vis|
      requires vis == Desks.Visible(State().wins, workspace, |list|)
      modifies Chosen(vis), this`calls, this`missed, this`nextSurface, heap`blocks, heap.mem
      ensures Valid()
      ensures State() == Desks.Apply(old(State()), workspace, screenW, screenH)
      ensures count == 0 || (mode == Floating && count != 1) ==> unchanged(list) && HeapKept()
    {
      hide HeapAt, Desks.Good, Linked, AllOk, Values, Desks.LayFrom, Desks.Visible, Frame;
      if count == 0 {
        return;
      }
      if mode == Monocle || count == 1 {
        LayFull(visible, count, vis, screenW, screenH);
      } else if mode == MasterStack {
        LayMasterStack(visible, count, vis, screenW, screenH);
      } else if mode == Grid {
        LayGrid(visible, count, vis, screenW, screenH);
      }
    }

    lemma NotChosen(vis: seq<nat>)
      requires Linked()
      ensures forall i :: 0 <= i < |list| && i !in vis ==> list[i] !in Chosen(vis)
    {
    }

    // The windows a layout moves.
    ghost function Chosen(vis: seq<nat>): set<Window>
      reads this`list
    {
      set j | 0 <= j < |vis| && vis[j] < |list| :: list[vis[j]]
    }

    method LayFull(visible: array<Window?>, count: nat, ghost vis: seq<nat>, screenW: int, screenH: int)
      requires Valid() && Collected(visible, vis) && count == |vis| && count >= 1
      requires mode == Monocle || count == 1
      modifies Chosen(vis), this`calls, this`missed, this`nextSurface, heap`blocks, heap.mem
      ensures Valid()
      ensures State() == Desks.LayFrom(old(State()), vis, 0, screenW, screenH)
    {
      hide HeapAt, Desks.Good, Linked, AllOk, Values, Desks.LayFrom, Desks.Lay, W, Frame;
      var availW: int, availH: int := W(screenW - 84 - 16), W(screenH - 60 - 16);
      var i := 0;
      while i < count
        invariant i <= count && Valid()
        invariant Desks.LayFrom(State(), vis, i, screenW, screenH)
               == Desks.LayFrom(old(State()), vis, 0, screenW, screenH)
      {
        LayNext(State(), vis, i, screenW, screenH);
        FullFrame(mode, count, i, screenW, screenH);
        Place(visible[i], vis[i], 84, 60, availW, availH);
        i := i + 1;
      }
      LayDone(State(), vis, screenW, screenH);
    }

    method LayMasterStack(visible: array<Window?>, count: nat, ghost vis: seq<nat>, screenW: int, screenH: int)
      requires Valid() && Collected(visible, vis) && count == |vis| && count >= 2
      requires mode == MasterStack
      modifies Chosen(vis), this`calls, this`missed, this`nextSurface, heap`blocks, heap.mem
      ensures Valid()
      ensures State() == Desks.LayFrom(old(State()), vis, 0, screenW, screenH)
    {
      hide HeapAt, Desks.Good, Linked, AllOk, Values, Desks.LayFrom, Desks.Lay, Frame, W;
      var availW: int, availH: int := W(screenW - 84 - 16), W(screenH - 60 - 16);
      var masterW: int := W(W(availW * 62) / 100 - 6);
      var stackW: int := W(availW - masterW - 12);
      LayNext(State(), vis, 0, screenW, screenH);
      MasterFrame(count, screenW, screenH);
      Place(visible[0], vis[0], 84, 60, masterW, availH);
      LayStack(visible, count, vis, masterW, stackW, availH, screenW, screenH);
    }

    // The loop over the stack windows.
    method LayStack(visible: array<Window?>, count: nat, ghost vis: seq<nat>,
                    masterW: Word32, stackW: Word32, availH: Word32, ghost screenW: int, ghost screenH: int)
      requires Valid() && Collected(visible, vis) && count == |vis| && count >= 2
      requires mode == MasterStack
      requires masterW == MasterW(AvailW(screenW)) && stackW == StackW(AvailW(screenW)) && availH == AvailH(screenH)
      modifies Chosen(vis), this`calls, this`missed, this`nextSurface, heap`blocks, heap.mem
      ensures Valid()
      ensures State() == Desks.LayFrom(old(State()), vis, 1, screenW, screenH)
    {
      hide HeapAt, Desks.Good, Linked, AllOk, Values, Desks.LayFrom, Desks.Lay, W, Frame, StackY, StackH,
        MasterW, StackW, AvailW, AvailH;
      var stackCount := count - 1;
      StackHIs(availH, stackCount);
      var stackH := W((availH as int) - W(12 * (stackCount - 1))) / stackCount;
      StackYSteps(stackH, 0);
      var currY: int := 60;
      var i := 1;
      while i < count
        invariant 1 <= i <= count && Valid()
        invariant currY == StackY(stackH, i - 1)
        invariant Desks.LayFrom(State(), vis, i, screenW, screenH)
               == Desks.LayFrom(old(State()), vis, 1, screenW, screenH)
      {
        LayNext(State(), vis, i, screenW, screenH);
        StackFrame(count, i, screenW, screenH);
        Place(visible[i], vis[i], W(84 + (masterW as int) + 12), currY, stackW,
              if i == count - 1 then W(60 + (availH as int) - currY) else stackH);
        StackYSteps(stackH, i - 1);
        currY := W(currY + stackH + 12);
        i := i + 1;
      }
      LayDone(State(), vis, screenW, screenH);
    }

    method LayGrid(visible: array<Window?>, count: nat, ghost vis: seq<nat>, screenW: int, screenH: int)
      requires Valid() && Collected(visible, vis) && count == |vis| && count >= 2
      requires mode == Grid
      modifies Chosen(vis), this`calls, this`missed, this`nextSurface, heap`blocks, heap.mem
      ensures Valid()
      ensures State() == Desks.LayFrom(old(State()), vis, 0, screenW, screenH)
    {
      hide HeapAt, Desks.Good, Linked, AllOk, Values, Desks.LayFrom, Desks.Lay, W, Frame;
      var availW: int, availH: int := W(screenW - 84 - 16), W(screenH - 60 - 16);
      var cols := if count > 2 then 2 else count;
      var rows := (count + cols - 1) / cols;
      var cellW := W(availW - W(12 * (cols - 1))) / cols;
      var cellH := W(availH - W(12 * (rows - 1))) / rows;
      var i := 0;
      while i < count
        invariant i <= count && Valid()
        invariant Desks.LayFrom(State(), vis, i, screenW, screenH)
               == Desks.LayFrom(old(State()), vis, 0, screenW, screenH)
      {
        LayNext(State(), vis, i, screenW, screenH);
        GridFrameIs(count, i, screenW, screenH);
        var c, r := i % cols, i / cols;
        Place(visible[i], vis[i], W(84 + W(c * W(cellW + 12))), W(60 + W(r * W(cellH + 12))), cellW, cellH);
        i := i + 1;
      }
      LayDone(State(), vis, screenW, screenH);
    }

    lemma Distinct(i: nat)
      requires Linked() && i < |list|
      ensures forall j :: 0 <= j < |list| && j != i ==> list[j] != list[i]
    {
    }
  }

  // Once sixteen are found the rest of the list does not matter.
  lemma {:induction false} FullStays(wins: seq<Desks.Win>, workspace: int, k: nat, n: nat)
    requires k <= n <= |wins|
    requires k == n || |Desks.Visible(wins, workspace, k)| == 16
    ensures Desks.Visible(wins, workspace, n) == Desks.Visible(wins, workspace, k)
  {
    if k < n {
      FullStays(wins, workspace, k, n - 1);
    }
  }

  lemma LayNext(d: Desks.Desk, vis: seq<nat>, k: nat, screenW: int, screenH: int)
    requires k < |vis| && Desks.Placing(d, vis)
    ensures Desks.LayFrom(d, vis, k, screenW, screenH) ==
            Desks.LayFrom(Desks.Lay(d, vis[k], Frame(d.mode, |vis|, k, screenW, screenH)), vis, k + 1, screenW, screenH)
  {
    hide Desks.Lay, Frame;
  }

  lemma LayDone(d: Desks.Desk, vis: seq<nat>, screenW: int, screenH: int)
    requires Desks.Placing(d, vis)
    ensures Desks.LayFrom(d, vis, |vis|, screenW, screenH) == d
  {
  }

  lemma FullFrame(mode: Mode, count: int, i: nat, screenW: int, screenH: int)
    requires i < count && (mode == Monocle || count == 1)
    ensures Frame(mode, count, i, screenW, screenH) == Rect(84, 60, W(screenW - 84 - 16), W(screenH - 60 - 16))
  {
    hide W;
  }

  lemma MasterFrame(count: int, screenW: int, screenH: int)
    requires 2 <= count
    ensures var aw, ah := W(screenW - 84 - 16), W(screenH - 60 - 16);
            Frame(MasterStack, count, 0, screenW, screenH) == Rect(84, 60, W(W(aw * 62) / 100 - 6), ah)
  {
    hide W;
  }

  lemma StackFrame(count: int, i: nat, screenW: int, screenH: int)
    requires 1 <= i < count
    ensures var mw, sh := MasterW(AvailW(screenW)), StackH(AvailH(screenH), count - 1);
            var y := StackY(sh, i - 1);
            Frame(MasterStack, count, i, screenW, screenH) ==
            Rect(W(84 + (mw as int) + 12), y, StackW(AvailW(screenW)),
                 if i == count - 1 then W(60 + (AvailH(screenH) as int) - y) else sh)
  {
    hide W, StackY, StackH, AvailW, AvailH, MasterW, StackW;
  }

  lemma StackHIs(availH: Word32, stack: int)
    requires stack > 0
    ensures StackH(availH, stack) == W((availH as int) - W(12 * (stack - 1))) / stack
  {
    hide W;
  }

  lemma GridFrameIs(count: int, i: nat, screenW: int, screenH: int)
    requires 2 <= count && i < count
    ensures var cols := if count > 2 then 2 else count;
            var rows := (count + cols - 1) / cols;
            var cw := W(W(screenW - 84 - 16) - W(12 * (cols - 1))) / cols;
            var ch := W(W(screenH - 60 - 16) - W(12 * (rows - 1))) / rows;
            rows > 0 && Frame(Grid, count, i, screenW, screenH) ==
            Rect(W(84 + W(i % cols * W(cw + 12))), W(60 + W(i / cols * W(ch + 12))), cw, ch)
  {
    hide W, Cell, CellAt, Cols, Rows;
    TwoColumns(count, i);
    CellDef(W(screenW - 84 - 16), 2, 84, i % 2);
    CellDef(W(screenH - 60 - 16), (count + 1) / 2, 60, i / 2);
  }

  lemma StackYSteps(stackH: int, j: nat)
    ensures StackY(stackH, 0) == 60
    ensures StackY(stackH, j + 1) == W(StackY(stackH, j) + stackH + 12)
  {
    hide W;
  }

  lemma CellDef(avail: int, parts: int, start: int, k: int)
    requires parts > 0
    ensures Cell(avail, parts) == W(avail - W(12 * (parts - 1))) / parts
    ensures CellAt(start, k, Cell(avail, parts)) == W(start + W(k * W(Cell(avail, parts) + 12)))
  {
    hide W;
  }

  lemma AnyMode(d: Desks.Desk, end: nat, mode: Mode)
    requires Desks.Good(d, end)
    ensures Desks.Good(d.(mode := mode), end)
  {
    hide LiveOf, Inv, Desks.Owned, Desks.Sized;
  }

  // layout_apply sets the size and window_resize_surface sets it again.
  lemma LayIs(d: Desks.Desk, i: nat, r: Rect, store: Desks.Store, next: int, win: Desks.Win)
    requires i < |d.wins| && Words(r)
    requires Desks.Resized(store, next, win) ==
             Desks.Resize(d.store, d.nextSurf,
                          d.wins[i].(x := Desks.Signed(r.x), y := Desks.Signed(r.y), w := r.w, h := r.h), r.w, r.h)
    ensures Desks.Lay(d, i, r) == d.(store := store, wins := d.wins[i := win], nextSurf := next)
  {
    hide Desks.SurfaceCreate, Desks.SurfaceDestroy, Desks.Signed;
  }

  lemma OpenFails(d: Desks.Desk, x: int, y: int, w: Word32, h: Word32)
    ensures var got := Desks.Kzalloc(d.store, 120);
            got.block.None? ==> Desks.Open(d, x, y, w, h) == d.(store := got.store)
  {
    hide Desks.Kzalloc;
  }

  lemma OpenIs(d: Desks.Desk, x: int, y: int, w: Word32, h: Word32, got: Desks.Got, made: Desks.Made)
    requires got == Desks.Kzalloc(d.store, 120) && got.block.Some?
    requires made == Desks.SurfaceCreate(got.store, d.nextSurf, SurfaceW(w), SurfaceH(h))
    ensures Desks.Open(d, x, y, w, h) ==
            d.(store := made.store, nextWin := W(d.nextWin + 1), nextSurf := made.next,
               wins := [Desks.Win(d.nextWin, got.block.value, x, y, w, h, 1, false, made.surf)] + d.wins)
  {
    hide Desks.SurfaceCreate, Desks.Kzalloc, SurfaceW, SurfaceH, W;
  }

  lemma OwnedLive(d: Desks.Desk, i: nat, end: nat)
    requires Desks.Good(d, end) && i < |d.wins|
    ensures Desks.OfSurf(d.wins[i].surf) <= LiveOf(d.store.bs)
  {
    hide LiveOf, Desks.Owned, Desks.OfSurf;
    DeskRuns.OwnedHas(d.wins, i);
  }

  lemma HeapInv(m: Bytes, base: nat, bs: Blocks)
    requires HeapAt(m, base, bs)
    ensures Inv(bs, |m|)
  {
  }

  // Byte k of a 32-bit colour, lowest first.
  function ColorByte(color: nat, k: int): Byte {
    if k == 0 then color % 256
    else if k == 1 then color / 0x100 % 256
    else if k == 2 then color / 0x1_0000 % 256
    else color / 0x100_0000 % 256
  }

  // The first n pixels from `start` on have the colour, and nothing else differs.
  ghost predicate Cleared(before: Bytes, after: Bytes, start: nat, n: nat, color: nat) {
    && |after| == |before|
    && forall a :: 0 <= a < |after| ==>
         after[a] == if start <= a < start + 4 * n then ColorByte(color, (a - start) % 4) else before[a]
  }

  ghost predicate PixelPut(before: Bytes, after: Bytes, at: nat, color: nat) {
    && |after| == |before|
    && forall a :: 0 <= a < |after| ==>
         after[a] == if at <= a < at + 4 then ColorByte(color, a - at) else before[a]
  }

  // The 32-bit word in memory at a.
  function PixelAt(m: Bytes, a: nat): nat
    requires a + 4 <= |m|
  {
    (m[a] as int) + 0x100 * (m[a + 1] as int) + 0x1_0000 * (m[a + 2] as int) + 0x100_0000 * (m[a + 3] as int)
  }

  // Every cleared pixel reads back as the colour; every other byte is as it was.
  lemma ClearedReads(m: Bytes, after: Bytes, start: nat, n: nat, color: nat)
    requires Cleared(m, after, start, n, color) && start + 4 * n <= |m| && color < 0x1_0000_0000
    ensures |after| == |m|
    ensures forall k: nat :: k < n ==> PixelAt(after, start + 4 * k) == color
    ensures forall a :: 0 <= a < |m| && !(start <= a < start + 4 * n) ==> after[a] == m[a]
  {
    forall k: nat | k < n
      ensures PixelAt(after, start + 4 * k) == color
    {
      ColorBytes(color);
      hide ColorByte;
      var a := start + 4 * k;
      assert after[a] == ColorByte(color, 0) && after[a + 1] == ColorByte(color, 1);
      assert after[a + 2] == ColorByte(color, 2) && after[a + 3] == ColorByte(color, 3);
    }
  }

  lemma ColorBytes(color: nat)
    requires color < 0x1_0000_0000
    ensures (ColorByte(color, 0) as int) + 0x100 * (ColorByte(color, 1) as int)
            + 0x1_0000 * (ColorByte(color, 2) as int) + 0x100_0000 * (ColorByte(color, 3) as int) == color
  {
  }

  lemma ClearedNone(m: Bytes, start: nat, color: nat)
    ensures Cleared(m, m, start, 0, color)
  {
  }

  lemma ClearedNext(m: Bytes, mid: Bytes, after: Bytes, start: nat, i: nat, color: nat)
    requires Cleared(m, mid, start, i, color) && PixelPut(mid, after, start + 4 * i, color)
    ensures Cleared(m, after, start, i + 1, color)
  {
    hide ColorByte;
    forall a | 0 <= a < |after|
      ensures after[a] == if start <= a < start + 4 * (i + 1) then ColorByte(color, (a - start) % 4) else m[a]
    {
      assert start + 4 * i <= a < start + 4 * i + 4 ==> (a - start) % 4 == a - (start + 4 * i);
      assert mid[a] == if start <= a < start + 4 * i then ColorByte(color, (a - start) % 4) else m[a];
    }
  }

  lemma ClearedOutside(m: Bytes, after: Bytes, start: nat, n: nat, color: nat, b: Block)
    requires Cleared(m, after, start, n, color) && start == b.off + 24 && b.size >= 4 * n
    ensures |after| == |m|
    ensures forall a: nat :: a < |m| && !InPayload(b, a) ==> after[a] == m[a]
  {
  }

  lemma NoAddressZero(heap: KernelHeap, s: Surface)
    requires s.Ok(heap.base) && s.pixels == 0
    ensures s.value.pixels.None?
  {
  }
}
