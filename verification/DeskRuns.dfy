/** Runs of the window system: opening windows, cycling the mode, laying out, and anything the rest
    of the kernel does with its own heap blocks in between. */
module DeskRuns {
  import opened Bits
  import opened Wrappers
  import opened BlockList
  import opened LiveBlocks
  import opened Layout
  import opened Desks

  // ----- blocks owned -----

  lemma Cancel(a: multiset<Block>, b: multiset<Block>, c: multiset<Block>)
    requires a + c == b + c
    ensures a == b
  {
    forall e: Block
      ensures a[e] == b[e]
    {
      assert (a + c)[e] == (b + c)[e];
    }
  }

  lemma AddFirst(a: multiset<Block>, x: multiset<Block>, b: multiset<Block>, y: multiset<Block>, c: multiset<Block>)
    requires x + b == y + c
    ensures (a + x) + b == (a + y) + c
  {
    assert (a + x) + b == a + (x + b);
  }

  lemma {:induction false} OwnedUpdate(wins: seq<Win>, i: nat, win: Win)
    requires i < |wins|
    ensures Owned(wins[i := win]) + OfWin(wins[i]) == Owned(wins) + OfWin(win)
    decreases i
  {
    hide OfWin;
    var r := wins[i := win];
    if i == 0 {
      assert r[1..] == wins[1..];
    } else {
      assert r[1..] == wins[1..][i - 1 := win];
      OwnedUpdate(wins[1..], i - 1, win);
      AddFirst(OfWin(wins[0]), Owned(r[1..]), OfWin(wins[i]), Owned(wins[1..]), OfWin(win));
    }
  }

  lemma {:induction false} OwnedHas(wins: seq<Win>, i: nat)
    requires i < |wins|
    ensures OfWin(wins[i]) <= Owned(wins)
    decreases i
  {
    hide OfWin;
    if i > 0 {
      OwnedHas(wins[1..], i - 1);
    }
  }

  // Moving a window keeps the heap and the ownership of its blocks in order; it costs no heap call
  // exactly when the window already has a surface of the right size.
  lemma LayGood(d: Desk, i: nat, r: Rect, end: nat)
    requires Good(d, end) && i < |d.wins| && Words(r)
    ensures var e := Lay(d, i, r);
            && Good(e, end)
            && e.wins[i] == d.wins[i].(x := Signed(r.x), y := Signed(r.y), w := r.w, h := r.h, surf := e.wins[i].surf)
            && d.store.calls <= e.store.calls && d.store.missed <= e.store.missed
            && (Matches(d.wins[i], r.w, r.h) <==> e.store.calls == d.store.calls)
            && (e.store.missed == d.store.missed && Complete(d.wins[i]) ==> Complete(e.wins[i]))
  {
    hide Inv, LiveOf, Owned, Resize, Sized, Housed, Complete, OfSurf, Matches, Signed;
    var moved := d.wins[i].(x := Signed(r.x), y := Signed(r.y));
    MovedSame(d.wins[i], Signed(r.x), Signed(r.y), r);
    OwnedHas(d.wins, i);
    ResizeLive(d.store, d.nextSurf, moved, r.w, r.h, end);
    var e := Lay(d, i, r);
    OwnedUpdate(d.wins, i, e.wins[i]);
    Exchange(LiveOf(d.store.bs), LiveOf(e.store.bs), Owned(d.wins), Owned(e.wins), d.others,
             d.wins[i], e.wins[i]);
  }

  // If the heap gave up one surface for another, and so did the windows, they still agree.
  lemma Exchange(live: multiset<Block>, live': multiset<Block>, owned: multiset<Block>, owned': multiset<Block>,
                 others: multiset<Block>, win: Win, win': Win)
    requires live == owned + others && win.block == win'.block
    requires live' + OfSurf(win.surf) == live + OfSurf(win'.surf)
    requires owned' + OfWin(win) == owned + OfWin(win')
    ensures live' == owned' + others
  {
    hide OfSurf;
    forall b: Block
      ensures live'[b] == (owned' + others)[b]
    {
      assert (live' + OfSurf(win.surf))[b] == (live + OfSurf(win'.surf))[b];
      assert (owned' + OfWin(win))[b] == (owned + OfWin(win'))[b];
    }
  }

  lemma MovedSame(win: Win, x: int, y: int, r: Rect)
    requires Words(r)
    ensures var moved := win.(x := x, y := y);
            && (Sized(moved) <==> Sized(win)) && (Housed(moved) <==> Housed(win))
            && (Complete(moved) <==> Complete(win))
            && (Matches(moved, r.w, r.h) <==> Matches(win, r.w, r.h))
            && moved.surf == win.surf
  {
  }

  // ----- a whole layout -----

  predicate Increasing(vis: seq<nat>) {
    forall a, b :: 0 <= a < b < |vis| ==> vis[a] < vis[b]
  }

  // The visible windows: in list order, and all of them when they are fewer than sixteen.
  lemma {:induction false} VisibleIs(wins: seq<Win>, workspace: int, k: nat)
    requires k <= |wins|
    ensures var vis := Visible(wins, workspace, k);
            && Increasing(vis)
            && (forall j :: 0 <= j < |vis| ==> wins[vis[j]].workspace == workspace && !wins[vis[j]].minimized)
            && (forall i: nat :: i < k && wins[i].workspace == workspace && !wins[i].minimized ==>
                  i in vis || (|vis| == 16 && forall j :: 0 <= j < 16 ==> vis[j] < i))
  {
    if k > 0 {
      VisibleIs(wins, workspace, k - 1);
    }
  }

  lemma {:induction false} VisibleSame(a: seq<Win>, b: seq<Win>, workspace: int, k: nat)
    requires k <= |a| == |b|
    requires forall i :: 0 <= i < k ==> (Shown(a[i], workspace) <==> Shown(b[i], workspace))
    ensures Visible(a, workspace, k) == Visible(b, workspace, k)
  {
    if k > 0 {
      VisibleSame(a, b, workspace, k - 1);
    }
  }

  // What a window keeps through every layout.
  predicate SameWindow(a: Win, b: Win) {
    a.id == b.id && a.block == b.block && a.workspace == b.workspace && a.minimized == b.minimized
  }

  ghost predicate SameDesk(d: Desk, e: Desk) {
    && |e.wins| == |d.wins| && e.mode == d.mode && e.nextWin == d.nextWin && e.others == d.others
    && forall i :: 0 <= i < |d.wins| ==> SameWindow(d.wins[i], e.wins[i])
  }

  lemma {:induction false} LayFromGood(d: Desk, vis: seq<nat>, k: nat, screenW: int, screenH: int, end: nat)
    requires Good(d, end) && k <= |vis| && Placing(d, vis)
    ensures var e := LayFrom(d, vis, k, screenW, screenH);
            && Good(e, end) && SameDesk(d, e)
            && d.store.calls <= e.store.calls && d.store.missed <= e.store.missed
    decreases |vis| - k
  {
    hide Good, Lay, Frame;
    if k < |vis| {
      var r := Frame(d.mode, |vis|, k, screenW, screenH);
      var c := Lay(d, vis[k], r);
      LayGood(d, vis[k], r, end);
      LaySame(d, vis[k], r);
      LayFromGood(c, vis, k + 1, screenW, screenH, end);
    }
  }

  lemma LaySame(d: Desk, i: nat, r: Rect)
    requires i < |d.wins| && Words(r)
    ensures SameDesk(d, Lay(d, i, r))
    ensures forall j :: 0 <= j < |d.wins| && j != i ==> Lay(d, i, r).wins[j] == d.wins[j]
  {
  }

  lemma {:induction false} LayFromLeaves(d: Desk, vis: seq<nat>, k: nat, screenW: int, screenH: int, i: nat)
    requires k <= |vis| && Placing(d, vis) && i < |d.wins|
    requires forall j :: k <= j < |vis| ==> vis[j] != i
    ensures var e := LayFrom(d, vis, k, screenW, screenH);
            |e.wins| == |d.wins| && e.wins[i] == d.wins[i]
    decreases |vis| - k
  {
    hide Lay, Frame;
    if k < |vis| {
      var r := Frame(d.mode, |vis|, k, screenW, screenH);
      LaySame(d, vis[k], r);
      LayFromLeaves(Lay(d, vis[k], r), vis, k + 1, screenW, screenH, i);
    }
  }

  predicate At(win: Win, r: Rect) {
    win.x == Signed(r.x) && win.y == Signed(r.y) && win.w == r.w && win.h == r.h
  }

  // Visible window j ends at frame j.
  lemma {:induction false} LayFromPlaces(d: Desk, vis: seq<nat>, k: nat, screenW: int, screenH: int, end: nat, j: nat)
    requires Good(d, end) && Placing(d, vis) && Increasing(vis) && k <= j < |vis|
    ensures var e := LayFrom(d, vis, k, screenW, screenH);
            && |e.wins| == |d.wins|
            && At(e.wins[vis[j]], Frame(d.mode, |vis|, j, screenW, screenH))
    decreases |vis| - k
  {
    hide Good, Lay, Frame, Signed;
    var r := Frame(d.mode, |vis|, k, screenW, screenH);
    var c := Lay(d, vis[k], r);
    LayGood(d, vis[k], r, end);
    LaySame(d, vis[k], r);
    if j == k {
      LayFromLeaves(c, vis, k + 1, screenW, screenH, vis[k]);
    } else {
      LayFromPlaces(c, vis, k + 1, screenW, screenH, end, j);
    }
  }

  lemma ApplyGood(d: Desk, workspace: int, screenW: int, screenH: int, end: nat)
    requires Good(d, end)
    ensures var e := Apply(d, workspace, screenW, screenH);
            && Good(e, end) && SameDesk(d, e)
            && d.store.missed <= e.store.missed
            && Visible(e.wins, workspace, |e.wins|) == Visible(d.wins, workspace, |d.wins|)
  {
    hide Good;
    var vis := Visible(d.wins, workspace, |d.wins|);
    if Places(d.mode, |vis|) {
      LayFromGood(d, vis, 0, screenW, screenH, end);
    }
    VisibleSame(d.wins, Apply(d, workspace, screenW, screenH).wins, workspace, |d.wins|);
  }

  lemma GoodSized(d: Desk, end: nat, i: nat)
    requires Good(d, end) && i < |d.wins|
    ensures Sized(d.wins[i]) && Housed(d.wins[i])
  {
  }

  // A window that is not among the visible ones keeps everything, whatever the mode.
  lemma ApplyLeaves(d: Desk, workspace: int, screenW: int, screenH: int, i: nat)
    requires i < |d.wins| && i !in Visible(d.wins, workspace, |d.wins|)
    ensures var e := Apply(d, workspace, screenW, screenH); |e.wins| == |d.wins| && e.wins[i] == d.wins[i]
  {
    hide LayFrom;
    var vis := Visible(d.wins, workspace, |d.wins|);
    if Places(d.mode, |vis|) {
      LayFromLeaves(d, vis, 0, screenW, screenH, i);
    }
  }

  // Without visible windows, or with any number but one in floating mode, every window keeps its
  // position, size and surface, and the heap is not called.
  lemma FloatingLeaves(d: Desk, workspace: int, screenW: int, screenH: int)
    requires var count := |Visible(d.wins, workspace, |d.wins|)|; count == 0 || (d.mode == Floating && count != 1)
    ensures var e := Apply(d, workspace, screenW, screenH);
            && e.wins == d.wins && e.store == d.store
            && e.mode == d.mode && e.nextWin == d.nextWin && e.nextSurf == d.nextSurf && e.others == d.others
  {
  }

  // The position stored is the signed number that is the word modulo 2^32.
  lemma SignedIs(r: Word32)
    ensures -0x8000_0000 <= Signed(r) < 0x8000_0000 && (r - Signed(r)) % 0x1_0000_0000 == 0
  {
  }

  // ----- laying out twice -----

  predicate Settled(d: Desk, vis: seq<nat>, k: nat, screenW: int, screenH: int)
    requires k <= |vis| && Placing(d, vis)
  {
    forall j: nat :: k <= j < |vis| ==>
      var r := Frame(d.mode, |vis|, j, screenW, screenH);
      At(d.wins[vis[j]], r) && Matches(d.wins[vis[j]], r.w, r.h)
  }

  lemma {:induction false} SettledStays(d: Desk, vis: seq<nat>, k: nat, screenW: int, screenH: int)
    requires k <= |vis| && Placing(d, vis) && Settled(d, vis, k, screenW, screenH)
    ensures LayFrom(d, vis, k, screenW, screenH) == d
    decreases |vis| - k
  {
    hide Frame;
    if k < |vis| {
      LaySettled(d, vis[k], Frame(d.mode, |vis|, k, screenW, screenH));
      SettledStays(d, vis, k + 1, screenW, screenH);
    }
  }

  lemma LaySettled(d: Desk, i: nat, r: Rect)
    requires i < |d.wins| && Words(r) && At(d.wins[i], r) && Matches(d.wins[i], r.w, r.h)
    ensures Lay(d, i, r) == d
  {
    assert d.wins[i := d.wins[i]] == d.wins;
  }

  // A layout without a heap call finds a surface on every window it places.
  lemma {:induction false} QuietHasSurfaces(d: Desk, vis: seq<nat>, k: nat, screenW: int, screenH: int, end: nat,
                                            j: nat)
    requires Good(d, end) && Placing(d, vis) && Increasing(vis) && k <= j < |vis|
    requires LayFrom(d, vis, k, screenW, screenH).store.calls == d.store.calls
    ensures d.wins[vis[j]].surf.Some?
    decreases |vis| - k
  {
    hide Good, Lay, Frame;
    var r := Frame(d.mode, |vis|, k, screenW, screenH);
    var c := Lay(d, vis[k], r);
    LayGood(d, vis[k], r, end);
    LaySame(d, vis[k], r);
    LayFromGood(c, vis, k + 1, screenW, screenH, end);
    if k < j {
      QuietHasSurfaces(c, vis, k + 1, screenW, screenH, end, j);
    }
  }

  predicate AllHaveSurfaces(d: Desk, vis: seq<nat>)
    requires Placing(d, vis)
  {
    forall j :: 0 <= j < |vis| ==> d.wins[vis[j]].surf.Some?
  }

  // Laying out again changes nothing and calls the heap no more, exactly when the first layout
  // left no placed window without a surface.
  lemma ApplyTwice(d: Desk, workspace: int, screenW: int, screenH: int, end: nat)
    requires Good(d, end)
    ensures var e := Apply(d, workspace, screenW, screenH);
            var vis := Visible(e.wins, workspace, |e.wins|);
            Apply(e, workspace, screenW, screenH) == e <==>
            (Places(e.mode, |vis|) ==> AllHaveSurfaces(e, vis))
  {
    hide Good, LayFrom, Settled;
    ApplyGood(d, workspace, screenW, screenH, end);
    VisibleIs(d.wins, workspace, |d.wins|);
    var e := Apply(d, workspace, screenW, screenH);
    var vis := Visible(e.wins, workspace, |e.wins|);
    if Places(e.mode, |vis|) {
      if AllHaveSurfaces(e, vis) {
        PlacedSettled(d, vis, screenW, screenH, end);
        SettledStays(e, vis, 0, screenW, screenH);
      }
      if LayFrom(e, vis, 0, screenW, screenH) == e {
        forall j: nat | j < |vis|
          ensures e.wins[vis[j]].surf.Some?
        {
          QuietHasSurfaces(e, vis, 0, screenW, screenH, end, j);
        }
      }
    }
  }

  lemma PlacedSettled(d: Desk, vis: seq<nat>, screenW: int, screenH: int, end: nat)
    requires Good(d, end) && Placing(d, vis) && Increasing(vis)
    ensures var e := LayFrom(d, vis, 0, screenW, screenH);
            Placing(e, vis) && (AllHaveSurfaces(e, vis) ==> Settled(e, vis, 0, screenW, screenH))
  {
    hide Good, LayFrom, Frame, Signed, SurfaceW, SurfaceH;
    LayFromGood(d, vis, 0, screenW, screenH, end);
    var e := LayFrom(d, vis, 0, screenW, screenH);
    if AllHaveSurfaces(e, vis) {
      forall j: nat | j < |vis|
        ensures var r := Frame(d.mode, |vis|, j, screenW, screenH);
                At(e.wins[vis[j]], r) && Matches(e.wins[vis[j]], r.w, r.h)
      {
        LayFromPlaces(d, vis, 0, screenW, screenH, end, j);
        GoodSized(e, end, vis[j]);
      }
    }
  }

  // ----- runs -----

  datatype Op =
    | OpenWindow(x: int, y: int, w: Word32, h: Word32)
    | CycleMode
    | LayOut(workspace: int, screenW: int, screenH: int)
    | Mark(i: nat, workspace: int, minimized: bool)
    | OthersTake(bytes: nat)
    | OthersGive(b: Block)

  function Step(d: Desk, op: Op): Desk {
    match op
    case OpenWindow(x, y, w, h) => Open(d, x, y, w, h)
    case CycleMode => d.(mode := NextMode(d.mode))
    case LayOut(workspace, screenW, screenH) => Apply(d, workspace, screenW, screenH)
    case Mark(i, workspace, minimized) =>
      if i < |d.wins| then d.(wins := d.wins[i := d.wins[i].(workspace := workspace, minimized := minimized)]) else d
    case OthersTake(bytes) =>
      var got := Kzalloc(d.store, bytes);
      d.(store := d.store.(bs := got.store.bs),
         others := d.others + if got.block.Some? then multiset{got.block.value} else multiset{})
    case OthersGive(b) => d.(store := d.store.(bs := Free(d.store.bs, b.off)), others := d.others - multiset{b})
  }

  // The rest of the kernel frees only what is its own.
  predicate MayStep(d: Desk, op: Op) {
    op.OthersGive? ==> op.b in d.others
  }

  function Run(d: Desk, ops: seq<Op>): Desk {
    if ops == [] then d else Step(Run(d, ops[..|ops| - 1]), ops[|ops| - 1])
  }

  predicate MayRun(d: Desk, ops: seq<Op>) {
    ops == [] || (MayRun(d, ops[..|ops| - 1]) && MayStep(Run(d, ops[..|ops| - 1]), ops[|ops| - 1]))
  }

  // The desktop before the first window.
  function Start(bs: Blocks, others: multiset<Block>): Desk {
    Desk(Store(bs, 0, 0), [], MasterStack, 1, 1, others)
  }

  lemma OpenGood(d: Desk, x: int, y: int, w: Word32, h: Word32, end: nat)
    requires Good(d, end)
    ensures var e := Open(d, x, y, w, h);
            && Good(e, end) && d.store.missed <= e.store.missed
            && (e.store.missed == d.store.missed && (forall i :: 0 <= i < |d.wins| ==> Complete(d.wins[i])) ==>
                  |e.wins| == |d.wins| + 1 && forall i :: 0 <= i < |e.wins| ==> Complete(e.wins[i]))
  {
    hide Inv, LiveOf, Kzalloc, SurfaceCreate, OfSurf, SurfaceW, SurfaceH, PixelBytes, HousedSurf;
    KzallocLive(d.store, 120, end);
    var got := Kzalloc(d.store, 120);
    if got.block.Some? {
      SurfaceCreateLive(got.store, d.nextSurf, SurfaceW(w), SurfaceH(h), end);
      var e := Open(d, x, y, w, h);
      assert e.wins[1..] == d.wins;
    }
  }

  // A window opened stands at the head of the list, on workspace 1, visible, with the geometry asked
  // for and the next id; the others are as they were. Without memory for it nothing is added.
  lemma OpenIs(d: Desk, x: int, y: int, w: Word32, h: Word32)
    ensures var e := Open(d, x, y, w, h);
            if Kzalloc(d.store, 120).block.None? then e.wins == d.wins && e.nextWin == d.nextWin
            else
              && |e.wins| == |d.wins| + 1 && e.wins[1..] == d.wins
              && e.nextWin == W(d.nextWin + 1)
              && var win := e.wins[0];
                 && win.id == d.nextWin && win.x == x && win.y == y && win.w == w && win.h == h
                 && win.workspace == 1 && !win.minimized
  {
    hide Kzalloc, SurfaceCreate, W, SurfaceW, SurfaceH;
  }

  lemma OthersTakeGood(d: Desk, bytes: nat, end: nat)
    requires Good(d, end)
    ensures Good(Step(d, OthersTake(bytes)), end)
  {
    hide Inv, LiveOf, Owned, Sized, Kzalloc;
    KzallocLive(d.store, bytes, end);
  }

  lemma OthersGiveGood(d: Desk, b: Block, end: nat)
    requires Good(d, end) && b in d.others
    ensures Good(Step(d, OthersGive(b)), end)
  {
    hide Inv, LiveOf, Owned, Sized, Free;
    KfreeLive(d.store, b, end);
    var e := Step(d, OthersGive(b));
    assert d.others == e.others + multiset{b};
    Cancel(LiveOf(e.store.bs), Owned(d.wins) + e.others, multiset{b});
  }

  lemma MarkGood(d: Desk, i: nat, workspace: int, minimized: bool, end: nat)
    requires Good(d, end)
    ensures Good(Step(d, Mark(i, workspace, minimized)), end)
  {
    hide Inv, LiveOf, Owned;
    if i < |d.wins| {
      var win := d.wins[i].(workspace := workspace, minimized := minimized);
      OwnedUpdate(d.wins, i, win);
      Cancel(Owned(d.wins[i := win]), Owned(d.wins), OfWin(win));
    }
  }

  lemma StepGood(d: Desk, op: Op, end: nat)
    requires Good(d, end) && MayStep(d, op)
    ensures Good(Step(d, op), end)
  {
    match op
    case OpenWindow(x, y, w, h) => OpenGood(d, x, y, w, h, end); hide *;
    case CycleMode => hide Inv, LiveOf, Owned, Sized;
    case LayOut(workspace, screenW, screenH) => ApplyGood(d, workspace, screenW, screenH, end); hide *;
    case Mark(i, workspace, minimized) => MarkGood(d, i, workspace, minimized, end); hide *;
    case OthersTake(bytes) => OthersTakeGood(d, bytes, end); hide *;
    case OthersGive(b) => OthersGiveGood(d, b, end); hide *;
  }

  // In every reachable state, failed allocations included, the live blocks of the heap are exactly
  // those the windows hold and those of the rest of the kernel, and every surface has the size the
  // code computes, modulo 2^32, for the inside of its window.
  lemma {:induction false} RunGood(bs: Blocks, others: multiset<Block>, ops: seq<Op>, end: nat)
    requires Inv(bs, end) && LiveOf(bs) == others && MayRun(Start(bs, others), ops)
    ensures Good(Run(Start(bs, others), ops), end)
  {
    hide Inv, LiveOf, Step, MayStep, Sized;
    if ops == [] {
    } else {
      var init := ops[..|ops| - 1];
      RunGood(bs, others, init, end);
      hide Good;
      StepGood(Run(Start(bs, others), init), ops[|ops| - 1], end);
    }
  }

  // ----- three blocks a window -----

  ghost predicate AllComplete(wins: seq<Win>) {
    forall i :: 0 <= i < |wins| ==> Complete(wins[i])
  }

  lemma LayComplete(d: Desk, i: nat, r: Rect, end: nat)
    requires Good(d, end) && i < |d.wins| && Words(r) && AllComplete(d.wins)
    requires Lay(d, i, r).store.missed == d.store.missed
    ensures AllComplete(Lay(d, i, r).wins)
  {
    hide Good, Lay, Complete;
    LayGood(d, i, r, end);
    LaySame(d, i, r);
  }

  lemma {:induction false} LayFromComplete(d: Desk, vis: seq<nat>, k: nat, screenW: int, screenH: int, end: nat)
    requires Good(d, end) && k <= |vis| && Placing(d, vis) && AllComplete(d.wins)
    requires LayFrom(d, vis, k, screenW, screenH).store.missed == d.store.missed
    ensures AllComplete(LayFrom(d, vis, k, screenW, screenH).wins)
    decreases |vis| - k
  {
    hide Good, Lay, Frame, AllComplete;
    if k < |vis| {
      var r := Frame(d.mode, |vis|, k, screenW, screenH);
      var c := Lay(d, vis[k], r);
      LayGood(d, vis[k], r, end);
      LaySame(d, vis[k], r);
      LayFromGood(c, vis, k + 1, screenW, screenH, end);
      LayComplete(d, vis[k], r, end);
      LayFromComplete(c, vis, k + 1, screenW, screenH, end);
    }
  }

  function Opened(op: Op): nat {
    if op.OpenWindow? then 1 else 0
  }

  lemma StepMissed(d: Desk, op: Op, end: nat)
    requires Good(d, end) && MayStep(d, op)
    ensures d.store.missed <= Step(d, op).store.missed
  {
    hide Good;
    match op
    case OpenWindow(x, y, w, h) => OpenGood(d, x, y, w, h, end);
    case LayOut(workspace, screenW, screenH) => ApplyGood(d, workspace, screenW, screenH, end);
    case _ =>
  }

  // A step without a failed allocation leaves every window complete.
  lemma StepComplete(d: Desk, op: Op, end: nat)
    requires Good(d, end) && MayStep(d, op) && AllComplete(d.wins)
    requires Step(d, op).store.missed == d.store.missed
    ensures AllComplete(Step(d, op).wins)
    ensures |Step(d, op).wins| == |d.wins| + Opened(op)
  {
    hide Good;
    match op
    case OpenWindow(x, y, w, h) => OpenGood(d, x, y, w, h, end);
    case LayOut(workspace, screenW, screenH) =>
      ApplyGood(d, workspace, screenW, screenH, end);
      var vis := Visible(d.wins, workspace, |d.wins|);
      hide AllComplete;
      if Places(d.mode, |vis|) {
        LayFromComplete(d, vis, 0, screenW, screenH, end);
      }
    case _ =>
  }

  function Opens(ops: seq<Op>): nat {
    if ops == [] then 0 else Opens(ops[..|ops| - 1]) + Opened(ops[|ops| - 1])
  }

  lemma {:induction false} RunComplete(bs: Blocks, others: multiset<Block>, ops: seq<Op>, end: nat)
    requires Inv(bs, end) && LiveOf(bs) == others && MayRun(Start(bs, others), ops)
    requires Run(Start(bs, others), ops).store.missed == 0
    ensures AllComplete(Run(Start(bs, others), ops).wins)
    ensures |Run(Start(bs, others), ops).wins| == Opens(ops)
  {
    hide Inv, LiveOf, Step, MayStep, AllComplete, Good;
    if ops == [] {
      NoWindows(bs, others);
    } else {
      var init, op := ops[..|ops| - 1], ops[|ops| - 1];
      RunGood(bs, others, init, end);
      StepMissed(Run(Start(bs, others), init), op, end);
      RunComplete(bs, others, init, end);
      StepComplete(Run(Start(bs, others), init), op, end);
    }
  }

  lemma NoWindows(bs: Blocks, others: multiset<Block>)
    ensures AllComplete(Start(bs, others).wins)
  {
  }

  // A window holds at most three blocks, and exactly three when it is complete.
  lemma {:induction false} OwnedThree(wins: seq<Win>)
    ensures |Owned(wins)| <= 3 * |wins|
    ensures |Owned(wins)| == 3 * |wins| <==> AllComplete(wins)
  {
    if wins != [] {
      OwnedThree(wins[1..]);
      CompleteSplit(wins);
      BlocksOf(wins[0]);
      hide AllComplete, OfWin, Complete;
    }
  }

  lemma BlocksOf(win: Win)
    ensures |OfWin(win)| <= 3
    ensures |OfWin(win)| == 3 <==> Complete(win)
  {
  }

  lemma CompleteSplit(wins: seq<Win>)
    requires wins != []
    ensures AllComplete(wins) <==> Complete(wins[0]) && AllComplete(wins[1..])
  {
    hide Complete;
    assert wins == [wins[0]] + wins[1..];
    assert forall i :: 0 <= i < |wins| - 1 ==> wins[1..][i] == wins[i + 1];
    if Complete(wins[0]) && AllComplete(wins[1..]) {
      forall i | 0 <= i < |wins|
        ensures Complete(wins[i])
      {
        assert i > 0 ==> wins[i] == wins[1..][i - 1];
      }
    }
  }

  // As long as no allocation failed there is a window for every call of window_create, and the
  // windows hold exactly three live heap blocks each, no two of them the same block.
  lemma ThreeBlocksEach(bs: Blocks, others: multiset<Block>, ops: seq<Op>, end: nat)
    requires Inv(bs, end) && LiveOf(bs) == others && MayRun(Start(bs, others), ops)
    requires Run(Start(bs, others), ops).store.missed == 0
    ensures var d := Run(Start(bs, others), ops);
            && |d.wins| == Opens(ops)
            && |Owned(d.wins)| == 3 * |d.wins|
            && LiveOf(d.store.bs) == Owned(d.wins) + d.others
            && (forall b: Block :: Owned(d.wins)[b] + d.others[b] <= 1)
  {
    RunGood(bs, others, ops, end);
    RunComplete(bs, others, ops, end);
    var d := Run(Start(bs, others), ops);
    OwnedThree(d.wins);
    hide LiveOf, Owned, Run, AllComplete, Sized;
    forall b: Block
      ensures Owned(d.wins)[b] + d.others[b] <= 1
    {
      LiveOnce(d.store.bs, 0, end, b);
      assert LiveOf(d.store.bs)[b] == Owned(d.wins)[b] + d.others[b];
    }
  }

  // ----- ids -----

  // The oldest window has id 1, each newer one the next id, modulo 2^32.
  ghost predicate Numbered(d: Desk) {
    && d.nextWin == W(|d.wins| + 1)
    && forall i :: 0 <= i < |d.wins| ==> d.wins[i].id == W(|d.wins| - i)
  }

  lemma NextWord(n: int)
    ensures W(W(n) + 1) == W(n + 1)
  {
  }

  lemma OpenNumbered(d: Desk, x: int, y: int, w: Word32, h: Word32)
    requires Numbered(d)
    ensures Numbered(Open(d, x, y, w, h))
  {
    OpenIs(d, x, y, w, h);
    NextWord(|d.wins| + 1);
    hide Open, W, Kzalloc;
    var e := Open(d, x, y, w, h);
    forall i | 0 <= i < |e.wins|
      ensures e.wins[i].id == W(|e.wins| - i)
    {
      assert i > 0 ==> e.wins[i] == e.wins[1..][i - 1];
    }
  }

  lemma StepNumbered(d: Desk, op: Op, end: nat)
    requires Good(d, end) && MayStep(d, op) && Numbered(d)
    ensures Numbered(Step(d, op))
  {
    hide Good, W;
    match op
    case OpenWindow(x, y, w, h) => OpenNumbered(d, x, y, w, h);
    case LayOut(workspace, screenW, screenH) => ApplyGood(d, workspace, screenW, screenH, end);
    case _ =>
  }

  // In every reachable state with fewer than 2^32 windows no two windows have the same id.
  lemma {:induction false} RunNumbered(bs: Blocks, others: multiset<Block>, ops: seq<Op>, end: nat)
    requires Inv(bs, end) && LiveOf(bs) == others && MayRun(Start(bs, others), ops)
    ensures Numbered(Run(Start(bs, others), ops))
    ensures var d := Run(Start(bs, others), ops);
            |d.wins| < 0x1_0000_0000 ==>
              && (forall i :: 0 <= i < |d.wins| ==> d.wins[i].id == |d.wins| - i)
              && (forall i, j :: 0 <= i < j < |d.wins| ==> d.wins[i].id != d.wins[j].id)
  {
    hide Inv, LiveOf, Step, MayStep, Good, Numbered;
    if ops == [] {
      FirstNumbered(bs, others);
    } else {
      var init := ops[..|ops| - 1];
      RunGood(bs, others, init, end);
      RunNumbered(bs, others, init, end);
      StepNumbered(Run(Start(bs, others), init), ops[|ops| - 1], end);
    }
    NumberedIds(Run(Start(bs, others), ops));
  }

  lemma FirstNumbered(bs: Blocks, others: multiset<Block>)
    ensures Numbered(Start(bs, others))
  {
  }

  lemma NumberedIds(d: Desk)
    requires Numbered(d)
    ensures |d.wins| < 0x1_0000_0000 ==> forall i :: 0 <= i < |d.wins| ==> d.wins[i].id == |d.wins| - i
  {
  }
}
