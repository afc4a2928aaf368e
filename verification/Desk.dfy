/** Windows, surfaces and the layout of kernel/src/compositor/{window,surface,layout}.c, with every
    heap block they own. */
module Desks {
  import opened Bits
  import opened Wrappers
  import opened BlockList
  import opened LiveBlocks
  import opened Layout

  // ----- kzalloc and kfree, counted -----

  // The heap's blocks, how often kzalloc and kfree were called, and how often kzalloc gave NULL.
  datatype Store = Store(bs: Blocks, calls: nat, missed: nat)

  datatype Got = Got(store: Store, block: Option<Block>)

  function Kzalloc(s: Store, bytes: nat): Got {
    var t := Taken(s.bs, Round8(bytes));
    Got(Store(Malloc(s.bs, Round8(bytes)).bs, s.calls + 1, s.missed + if t.None? then 1 else 0), t)
  }

  function Kfree(s: Store, b: Block): Store {
    Store(Free(s.bs, b.off), s.calls + 1, s.missed)
  }

  // ----- surfaces -----

  datatype Surf = Surf(id: int, block: Block, width: Word32, height: Word32, pixels: Option<Block>)

  datatype Made = Made(store: Store, next: int, surf: Option<Surf>)

  // width * height wraps at 32 bits before it is scaled to bytes.
  function PixelBytes(width: Word32, height: Word32): nat {
    W(width * height) * 4
  }

  // surface_create: 112 bytes for the structure, then the pixels.
  function SurfaceCreate(s: Store, next: int, width: Word32, height: Word32): Made {
    var got := Kzalloc(s, 112);
    if got.block.None? then Made(got.store, next, None)
    else
      var px := Kzalloc(got.store, PixelBytes(width, height));
      Made(px.store, W(next + 1), Some(Surf(next, got.block.value, width, height, px.block)))
  }

  function SurfaceDestroy(s: Store, f: Surf): Store {
    Kfree(if f.pixels.Some? then Kfree(s, f.pixels.value) else s, f.block)
  }

  // ----- windows -----

  datatype Win = Win(id: int, block: Block, x: int, y: int, w: Word32, h: Word32, workspace: int, minimized: bool,
                     surf: Option<Surf>)

  datatype Resized = Resized(store: Store, next: int, win: Win)

  predicate Matches(win: Win, w: Word32, h: Word32) {
    win.surf.Some? && win.surf.value.width == SurfaceW(w) && win.surf.value.height == SurfaceH(h)
  }

  // window_resize_surface: a surface of another size is replaced.
  function Resize(s: Store, next: int, win: Win, w: Word32, h: Word32): Resized {
    if Matches(win, w, h) then Resized(s, next, win.(w := w, h := h))
    else
      var freed := if win.surf.Some? then SurfaceDestroy(s, win.surf.value) else s;
      var made := SurfaceCreate(freed, next, SurfaceW(w), SurfaceH(h));
      Resized(made.store, made.next, win.(w := w, h := h, surf := made.surf))
  }

  // The desktop: `others` are the heap blocks that belong to the rest of the kernel.
  datatype Desk = Desk(store: Store, wins: seq<Win>, mode: Mode, nextWin: int, nextSurf: int, others: multiset<Block>)

  // window_create and compositor_register_window: the new window goes to the head of the list.
  function Open(d: Desk, x: int, y: int, w: Word32, h: Word32): Desk {
    var got := Kzalloc(d.store, 120);
    if got.block.None? then d.(store := got.store)
    else
      var made := SurfaceCreate(got.store, d.nextSurf, SurfaceW(w), SurfaceH(h));
      var win := Win(d.nextWin, got.block.value, x, y, w, h, 1, false, made.surf);
      d.(store := made.store, wins := [win] + d.wins, nextWin := W(d.nextWin + 1), nextSurf := made.next)
  }

  // ----- layout_apply -----

  predicate Shown(win: Win, workspace: int) {
    win.workspace == workspace && !win.minimized
  }

  // The first sixteen visible windows among the first k.
  function Visible(wins: seq<Win>, workspace: int, k: nat): (v: seq<nat>)
    requires k <= |wins|
    ensures |v| <= 16
    ensures forall j :: 0 <= j < |v| ==> v[j] < k
  {
    if k == 0 then [] else
      var v := Visible(wins, workspace, k - 1);
      if |v| < 16 && Shown(wins[k - 1], workspace) then v + [k - 1] else v
  }

  // The 32-bit word r as an int32_t.
  function Signed(r: int): int {
    if r < 0x8000_0000 then r else r - 0x1_0000_0000
  }

  // Window i moves to frame r.
  function Lay(d: Desk, i: nat, r: Rect): Desk
    requires i < |d.wins| && Words(r)
  {
    var z := Resize(d.store, d.nextSurf, d.wins[i].(x := Signed(r.x), y := Signed(r.y)), r.w, r.h);
    d.(store := z.store, wins := d.wins[i := z.win], nextSurf := z.next)
  }

  predicate Placing(d: Desk, vis: seq<nat>) {
    Places(d.mode, |vis|) && forall j :: 0 <= j < |vis| ==> vis[j] < |d.wins|
  }

  // Visible windows k, k + 1, ... move to their frames.
  function LayFrom(d: Desk, vis: seq<nat>, k: nat, screenW: int, screenH: int): Desk
    requires k <= |vis| && Placing(d, vis)
    decreases |vis| - k
  {
    if k == |vis| then d
    else LayFrom(Lay(d, vis[k], Frame(d.mode, |vis|, k, screenW, screenH)), vis, k + 1, screenW, screenH)
  }

  function Apply(d: Desk, workspace: int, screenW: int, screenH: int): Desk {
    var vis := Visible(d.wins, workspace, |d.wins|);
    if Places(d.mode, |vis|) then LayFrom(d, vis, 0, screenW, screenH) else d
  }

  // ----- ownership -----

  ghost function Maybe(b: Option<Block>): multiset<Block> {
    if b.Some? then multiset{b.value} else multiset{}
  }

  ghost function OfSurf(f: Option<Surf>): multiset<Block> {
    if f.Some? then multiset{f.value.block} + Maybe(f.value.pixels) else multiset{}
  }

  ghost function OfWin(win: Win): multiset<Block> {
    multiset{win.block} + OfSurf(win.surf)
  }

  ghost function Owned(wins: seq<Win>): multiset<Block> {
    if wins == [] then multiset{} else OfWin(wins[0]) + Owned(wins[1..])
  }

  // A window's surface has the size the code computes for the inside of its frame, and its pixels
  // the bytes the code computes for that size, each modulo 2^32.
  predicate Sized(win: Win) {
    win.surf.Some? ==>
      && Matches(win, win.w, win.h)
      && (win.surf.value.pixels.Some? ==>
            win.surf.value.pixels.value.size >= PixelBytes(SurfaceW(win.w), SurfaceH(win.h)))
  }

  // The blocks have room for the structures, 120 bytes of a window and 112 of a surface, and no block
  // is more than rounding and an unsplit rest larger than what it was asked for.
  predicate Housed(win: Win) {
    && 120 <= win.block.size < 120 + 64
    && (win.surf.Some? ==> HousedSurf(win.surf.value))
  }

  predicate HousedSurf(f: Surf) {
    && 112 <= f.block.size < 112 + 64
    && (f.pixels.Some? ==> f.pixels.value.size < PixelBytes(f.width, f.height) + 64)
  }

  // The heap is in order, and its live blocks are those of the windows and those of others, each once.
  ghost predicate Good(d: Desk, end: nat) {
    && Inv(d.store.bs, end)
    && LiveOf(d.store.bs) == Owned(d.wins) + d.others
    && forall i :: 0 <= i < |d.wins| ==> Sized(d.wins[i]) && Housed(d.wins[i])
  }

  // Window, surface and pixels are all there.
  predicate Complete(win: Win) {
    win.surf.Some? && win.surf.value.pixels.Some?
  }

  // ----- what the wrapped sizes are worth -----

  // The bytes asked for are those of all pixels if and only if their number fits 32 bits.
  lemma PixelBytesIff(w: Word32, h: Word32)
    ensures PixelBytes(w, h) == 4 * (w * h) <==> w * h < 0x1_0000_0000
  {
    MulNatural(w, h);
    var pixels := w * h;
    WordIff(pixels);
  }

  lemma MulNatural(a: int, b: int)
    requires a >= 0 && b >= 0
    ensures a * b >= 0
  {
  }

  lemma WordIff(v: int)
    requires v >= 0
    ensures W(v) == v <==> v < 0x1_0000_0000
  {
  }

  // A surface is 2 narrower and 29 lower than its window if and only if the window is that large.
  lemma SurfaceSizeIff(w: Word32, h: Word32)
    ensures SurfaceW(w) == w - 2 && SurfaceH(h) == h - 29 <==> w >= 2 && h >= 29
  {
  }

  // A window of 65538 by 65565 asks for no pixel bytes at all.
  lemma HugeWindow(b: Block)
    ensures SurfaceW(65538) == 65536 && SurfaceH(65565) == 65536 && PixelBytes(65536, 65536) == 0
    ensures var none := Block(0, 0, false);
            Sized(Win(1, b, 0, 0, 65538, 65565, 1, false, Some(Surf(1, b, 65536, 65536, Some(none)))))
  {
  }

  // A window of 1 by 1 gets a surface of almost 2^32 by almost 2^32 with 28 pixels.
  lemma TinyWindow()
    ensures SurfaceW(1) == 0xFFFF_FFFF && SurfaceH(1) == 0xFFFF_FFE4
    ensures PixelBytes(SurfaceW(1), SurfaceH(1)) == 112
  {
  }

  // ----- the heap under the windows -----

  lemma KzallocLive(s: Store, bytes: nat, end: nat)
    requires Inv(s.bs, end)
    ensures var got := Kzalloc(s, bytes);
            && Inv(got.store.bs, end)
            && LiveOf(got.store.bs) == LiveOf(s.bs) + Maybe(got.block)
            && (got.block.Some? && bytes <= TWO_64 - 8 ==> bytes <= got.block.value.size < bytes + 64)
            && (got.store.missed == s.missed <==> got.block.Some?)
            && s.missed <= got.store.missed
            && got.store.calls == s.calls + 1
  {
    hide Inv, Malloc, Round8, Taken, LiveOf;
    RoundAligned(bytes);
    MallocKeeps(s.bs, Round8(bytes), end);
    MallocLive(s.bs, Round8(bytes));
    TakenIs(s.bs, Round8(bytes));
  }

  lemma KfreeLive(s: Store, b: Block, end: nat)
    requires Inv(s.bs, end) && b in LiveOf(s.bs)
    ensures Inv(Kfree(s, b).bs, end)
    ensures LiveOf(Kfree(s, b).bs) + multiset{b} == LiveOf(s.bs)
  {
    LiveIff(s.bs, b);
    hide LiveOf, Free, Aligned, Coalesced, Tiles;
    FreeKeeps(s.bs, b, end);
    FreeLive(s.bs, b, end);
  }

  lemma SurfaceCreateLive(s: Store, next: int, w: Word32, h: Word32, end: nat)
    requires Inv(s.bs, end)
    ensures var made := SurfaceCreate(s, next, w, h);
            && Inv(made.store.bs, end)
            && LiveOf(made.store.bs) == LiveOf(s.bs) + OfSurf(made.surf)
            && s.calls < made.store.calls
            && s.missed <= made.store.missed
            && (made.surf.Some? ==>
                  var f := made.surf.value;
                  && f.id == next && f.width == w && f.height == h && HousedSurf(f)
                  && (f.pixels.Some? ==> f.pixels.value.size >= PixelBytes(w, h))
                  && (f.pixels.Some? && w * h < 0x1_0000_0000 ==> f.pixels.value.size >= 4 * (w * h)))
            && made.next == (if made.surf.Some? then W(next + 1) else next)
            && (made.store.missed == s.missed ==> made.surf.Some? && made.surf.value.pixels.Some?)
  {
    hide Inv, Kzalloc, LiveOf;
    KzallocLive(s, 112, end);
    var got := Kzalloc(s, 112);
    if got.block.Some? {
      KzallocLive(got.store, PixelBytes(w, h), end);
      PixelBytesIff(w, h);
      hide PixelBytes;
    }
  }

  lemma SurfaceDestroyLive(s: Store, f: Surf, end: nat)
    requires Inv(s.bs, end) && OfSurf(Some(f)) <= LiveOf(s.bs)
    ensures var t := SurfaceDestroy(s, f);
            && Inv(t.bs, end)
            && LiveOf(t.bs) + OfSurf(Some(f)) == LiveOf(s.bs)
            && t.calls > s.calls && t.missed == s.missed
  {
    hide Inv, LiveOf, Free;
    if f.pixels.Some? {
      var p := f.pixels.value;
      assert p in OfSurf(Some(f));
      KfreeLive(s, p, end);
      var t := Kfree(s, p);
      assert f.block in LiveOf(t.bs);
      KfreeLive(t, f.block, end);
    } else {
      assert f.block in OfSurf(Some(f));
      KfreeLive(s, f.block, end);
    }
  }

  lemma ResizeLive(s: Store, next: int, win: Win, w: Word32, h: Word32, end: nat)
    requires Inv(s.bs, end) && OfSurf(win.surf) <= LiveOf(s.bs) && Sized(win) && Housed(win)
    ensures var z := Resize(s, next, win, w, h);
            && Inv(z.store.bs, end)
            && LiveOf(z.store.bs) + OfSurf(win.surf) == LiveOf(s.bs) + OfSurf(z.win.surf)
            && Sized(z.win) && Housed(z.win)
            && z.win == win.(w := w, h := h, surf := z.win.surf)
            && s.calls <= z.store.calls && s.missed <= z.store.missed
            && (Matches(win, w, h) <==> z.store.calls == s.calls)
            && (z.store.missed == s.missed && Complete(win) ==> Complete(z.win))
  {
    hide Inv, LiveOf, SurfaceCreate, SurfaceDestroy, SurfaceW, SurfaceH, PixelBytes, OfSurf, HousedSurf;
    if !Matches(win, w, h) {
      if win.surf.Some? {
        SurfaceDestroyLive(s, win.surf.value, end);
      } else {
        NoSurf();
      }
      var freed := if win.surf.Some? then SurfaceDestroy(s, win.surf.value) else s;
      SurfaceCreateLive(freed, next, SurfaceW(w), SurfaceH(h), end);
    }
  }

  lemma NoSurf()
    ensures OfSurf(None) == multiset{}
  {
  }
}
