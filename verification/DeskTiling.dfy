/** What a layout leaves on the screen, and how the surfaces fit their windows. */
module DeskTiling {
  import opened Wrappers
  import opened BlockList
  import opened LiveBlocks
  import opened Layout
  import opened LayoutBounds
  import opened Desks
  import opened DeskRuns

  function RectOf(win: Win): Rect {
    Rect(win.x, win.y, win.w, win.h)
  }

  // The windows `vis` lie inside the usable area, pairwise at least one gap apart.
  ghost predicate DeskTiled(d: Desk, vis: seq<nat>, screenW: Word32, screenH: Word32) {
    && (forall a :: 0 <= a < |vis| ==> vis[a] < |d.wins| && Inside(RectOf(d.wins[vis[a]]), screenW, screenH))
    && (forall a, b :: 0 <= a < |vis| && 0 <= b < |vis| && a != b ==>
          vis[a] < |d.wins| && vis[b] < |d.wins| && Separated(RectOf(d.wins[vis[a]]), RectOf(d.wins[vis[b]])))
  }

  // Every position fits the signed fields of a window.
  ghost predicate PositionsFit(mode: Mode, count: int, screenW: Word32, screenH: Word32)
    requires Places(mode, count)
  {
    forall i: nat :: i < count ==> FitsSigned(Frame(mode, count, i, screenW, screenH))
  }

  predicate FitsSigned(r: Rect) {
    r.x < 0x8000_0000 && r.y < 0x8000_0000
  }

  lemma PlacedRect(win: Win, r: Rect, screenW: Word32, screenH: Word32)
    requires At(win, r) && Words(r)
    ensures FitsSigned(r) ==> RectOf(win) == r
    ensures Inside(RectOf(win), screenW, screenH) ==> FitsSigned(r)
  {
  }

  // After layout_apply the visible windows tile the screen if and only if the screen is usable and
  // the positions fit 32 signed bits.
  lemma ApplyTiles(d: Desk, workspace: int, screenW: Word32, screenH: Word32, end: nat)
    requires Good(d, end) && (d.mode == MasterStack || d.mode == Grid)
    requires |Visible(d.wins, workspace, |d.wins|)| >= 2
    ensures var vis := Visible(d.wins, workspace, |d.wins|);
            DeskTiled(Apply(d, workspace, screenW, screenH), vis, screenW, screenH)
            <==> Usable(d.mode, |vis|, screenW, screenH) && PositionsFit(d.mode, |vis|, screenW, screenH)
  {
    hide Good, Frame, Usable, LayFrom, Inside, Separated, FitsSigned, Tiled, DeskTiled, PositionsFit;
    var vis := Visible(d.wins, workspace, |d.wins|);
    ApplyAt(d, workspace, screenW, screenH, end);
    TiledIffUsable(d.mode, |vis|, screenW, screenH);
    SameTiling(Apply(d, workspace, screenW, screenH), vis, d.mode, screenW, screenH);
  }

  lemma ApplyAt(d: Desk, workspace: int, screenW: Word32, screenH: Word32, end: nat)
    requires Good(d, end) && Places(d.mode, |Visible(d.wins, workspace, |d.wins|)|)
    ensures var e, vis := Apply(d, workspace, screenW, screenH), Visible(d.wins, workspace, |d.wins|);
            && |e.wins| == |d.wins|
            && AllAt(e, vis, d.mode, screenW, screenH)
  {
    hide Good, Frame, LayFrom, At;
    var vis := Visible(d.wins, workspace, |d.wins|);
    VisibleIs(d.wins, workspace, |d.wins|);
    ApplyGood(d, workspace, screenW, screenH, end);
    forall a: nat | a < |vis|
      ensures At(Apply(d, workspace, screenW, screenH).wins[vis[a]], Frame(d.mode, |vis|, a, screenW, screenH))
    {
      LayFromPlaces(d, vis, 0, screenW, screenH, end, a);
    }
  }

  // Every window of `vis` stands at its frame.
  ghost predicate AllAt(e: Desk, vis: seq<nat>, mode: Mode, screenW: Word32, screenH: Word32)
    requires Places(mode, |vis|)
  {
    forall a: nat :: a < |vis| ==>
      vis[a] < |e.wins| && At(e.wins[vis[a]], Frame(mode, |vis|, a, screenW, screenH))
  }

  lemma SameTiling(e: Desk, vis: seq<nat>, mode: Mode, screenW: Word32, screenH: Word32)
    requires Places(mode, |vis|) && AllAt(e, vis, mode, screenW, screenH)
    ensures DeskTiled(e, vis, screenW, screenH)
            <==> Tiled(mode, |vis|, screenW, screenH) && PositionsFit(mode, |vis|, screenW, screenH)
  {
    hide Frame, At, Inside, Separated, FitsSigned;
    forall a: nat | a < |vis|
      ensures var r, win := Frame(mode, |vis|, a, screenW, screenH), e.wins[vis[a]];
              && (FitsSigned(r) ==> RectOf(win) == r)
              && (Inside(RectOf(win), screenW, screenH) ==> FitsSigned(r))
    {
      PlacedRect(e.wins[vis[a]], Frame(mode, |vis|, a, screenW, screenH), screenW, screenH);
    }
    hide RectOf;
  }

  // Screens of up to 2^31 pixels a side have no other positions.
  lemma SmallPositions(mode: Mode, count: int, screenW: Word32, screenH: Word32)
    requires Places(mode, count) && Usable(mode, count, screenW, screenH)
    requires screenW <= 0x8000_0000 && screenH <= 0x8000_0000
    ensures PositionsFit(mode, count, screenW, screenH)
  {
    UsableFrames(mode, count, screenW, screenH);
    hide Frame, Usable;
  }

  // ----- surfaces -----

  // What a surface of a window in order is worth: 2 narrower and 29 lower than the window exactly
  // when the window is that large, with pixels for its whole area when their number fits 32 bits.
  lemma SurfaceFits(d: Desk, end: nat, i: nat)
    requires Good(d, end) && i < |d.wins| && d.wins[i].surf.Some?
    ensures var win, f := d.wins[i], d.wins[i].surf.value;
            && (f.width == win.w - 2 && f.height == win.h - 29 <==> win.w >= 2 && win.h >= 29)
            && (f.pixels.Some? && f.width * f.height < 0x1_0000_0000 ==>
                  f.pixels.value.size >= 4 * (f.width * f.height))
  {
    GoodSized(d, end, i);
    var win := d.wins[i];
    SurfaceSizeIff(win.w, win.h);
    PixelBytesIff(SurfaceW(win.w), SurfaceH(win.h));
    hide Good, SurfaceW, SurfaceH, PixelBytes;
  }

  // So it is in every reachable state.
  lemma RunSurfaces(bs: Blocks, others: multiset<Block>, ops: seq<Op>, end: nat, i: nat)
    requires Inv(bs, end) && LiveOf(bs) == others && MayRun(Start(bs, others), ops)
    requires var d := Run(Start(bs, others), ops); i < |d.wins| && d.wins[i].surf.Some?
    ensures var d := Run(Start(bs, others), ops);
            var win, f := d.wins[i], d.wins[i].surf.value;
            && (f.width == win.w - 2 && f.height == win.h - 29 <==> win.w >= 2 && win.h >= 29)
            && (f.pixels.Some? && f.width * f.height < 0x1_0000_0000 ==>
                  f.pixels.value.size >= 4 * (f.width * f.height))
  {
    hide Inv, LiveOf, Run, MayRun, Good;
    RunGood(bs, others, ops, end);
    SurfaceFits(Run(Start(bs, others), ops), end, i);
  }

  // After a layout on a usable screen every placed surface fills the inside of its window, and has
  // all its pixels when their number fits 32 bits.
  lemma ApplySurfaces(d: Desk, workspace: int, screenW: Word32, screenH: Word32, end: nat, a: nat)
    requires Good(d, end)
    requires var vis := Visible(d.wins, workspace, |d.wins|);
             a < |vis| && Places(d.mode, |vis|) && Usable(d.mode, |vis|, screenW, screenH)
    ensures var e, vis := Apply(d, workspace, screenW, screenH), Visible(d.wins, workspace, |d.wins|);
            && |e.wins| == |d.wins|
            && var win := e.wins[vis[a]];
               win.surf.Some? ==>
                 var f := win.surf.value;
                 && f.width == win.w - 2 && f.height == win.h - 29
                 && (f.pixels.Some? && (win.w - 2) * (win.h - 29) < 0x1_0000_0000 ==>
                       f.pixels.value.size >= 4 * ((win.w - 2) * (win.h - 29)))
  {
    hide Good, Frame, Usable, Apply;
    var vis := Visible(d.wins, workspace, |d.wins|);
    ApplyAt(d, workspace, screenW, screenH, end);
    ApplyGood(d, workspace, screenW, screenH, end);
    UsableFrames(d.mode, |vis|, screenW, screenH);
    var e := Apply(d, workspace, screenW, screenH);
    var win := e.wins[vis[a]];
    assert At(win, Frame(d.mode, |vis|, a, screenW, screenH));
    if win.surf.Some? {
      SurfaceFits(e, end, vis[a]);
    }
  }
}
