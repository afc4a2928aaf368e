/** The tiling geometry of kernel/src/compositor/layout.c. */
module Layout {

  datatype Mode = MasterStack | Grid | Monocle | Floating

  // layout_cycle_mode
  function NextMode(m: Mode): Mode {
    match m
    case MasterStack => Grid
    case Grid => Monocle
    case Monocle => Floating
    case Floating => MasterStack
  }

  // The value of the C enumeration.
  function Ordinal(m: Mode): nat {
    match m
    case MasterStack => 0
    case Grid => 1
    case Monocle => 2
    case Floating => 3
  }

  // The next mode is (mode + 1) % 4, and that leaves no choice.
  lemma NextModeIs(m: Mode, n: Mode)
    ensures n == NextMode(m) <==> Ordinal(n) == (Ordinal(m) + 1) % 4
  {
  }

  datatype Rect = Rect(x: int, y: int, w: int, h: int)

  // ----- as the code computes it, on 32-bit words -----

  type Word32 = v: int | 0 <= v < 0x1_0000_0000

  function W(v: int): Word32 {
    v % 0x1_0000_0000
  }

  // The available width and height: 84 pixels left, 60 on top, 16 right and below.
  function AvailW(screenW: int): Word32 {
    W(screenW - 84 - 16)
  }

  function AvailH(screenH: int): Word32 {
    W(screenH - 60 - 16)
  }

  // The master's share of the width; the product is a 32-bit word.
  function Share(availW: int): Word32 {
    W(availW * 62) / 100
  }

  function MasterW(availW: int): Word32 {
    W(Share(availW) - 6)
  }

  function StackW(availW: int): Word32 {
    W(availW - MasterW(availW) - 12)
  }

  function StackH(availH: int, stack: int): Word32
    requires stack > 0
  {
    QuotientFits(W(availH - W(12 * (stack - 1))), stack);
    W(availH - W(12 * (stack - 1))) / stack
  }

  // curr_y for stack window j = 0, 1, ...
  function StackY(stackH: int, j: nat): Word32 {
    if j == 0 then 60 else W(StackY(stackH, j - 1) + stackH + 12)
  }

  function Cols(count: int): int {
    if count > 2 then 2 else count
  }

  function Rows(count: int): int
    requires count > 0
  {
    (count + Cols(count) - 1) / Cols(count)
  }

  // A cell of `parts` equal cells in `avail` pixels with gaps of 12 between them.
  function Cell(avail: int, parts: int): Word32
    requires parts > 0
  {
    QuotientFits(W(avail - W(12 * (parts - 1))), parts);
    W(avail - W(12 * (parts - 1))) / parts
  }

  predicate Words(r: Rect) {
    && 0 <= r.x < 0x1_0000_0000 && 0 <= r.y < 0x1_0000_0000
    && 0 <= r.w < 0x1_0000_0000 && 0 <= r.h < 0x1_0000_0000
  }

  // The frame of visible window i of `count`, when the mode places windows at all.
  function Frame(mode: Mode, count: int, i: nat, screenW: int, screenH: int): (r: Rect)
    requires 0 <= i < count && Places(mode, count)
    ensures Words(r)
  {
    var aw, ah := AvailW(screenW), AvailH(screenH);
    if mode == Monocle || count == 1 then Rect(84, 60, aw, ah)
    else if mode == MasterStack then
      if i == 0 then Rect(84, 60, MasterW(aw), ah)
      else
        var sh := StackH(ah, count - 1);
        var y := StackY(sh, i - 1);
        Rect(W(84 + MasterW(aw) + 12), y, StackW(aw), if i == count - 1 then W(60 + ah - y) else sh)
    else
      var cw, ch := Cell(aw, Cols(count)), Cell(ah, Rows(count));
      Rect(CellAt(84, i % Cols(count), cw), CellAt(60, i / Cols(count), ch), cw, ch)
  }

  // Where cell k starts.
  function CellAt(start: int, k: int, size: int): Word32 {
    W(start + W(k * W(size + 12)))
  }

  // Floating mode leaves windows where they are, except a single one.
  predicate Places(mode: Mode, count: int) {
    count >= 1 && (mode != Floating || count == 1)
  }

  lemma QuotientFits(a: Word32, d: int)
    requires d > 0
    ensures 0 <= a / d <= a
  {
    QuotientAtLeast(a, d, 0);
    QuotientAtMost(a, d);
  }

  // The size of a window's surface, inside border and title bar.
  function SurfaceW(w: Word32): Word32 {
    W(w - 2)
  }

  function SurfaceH(h: Word32): Word32 {
    W(h - 28 - 1)
  }

  // ----- which screens are large enough -----

  // Bounds on the screen, for the gaps, borders and title bars of `count` windows.
  predicate LargeEnough(mode: Mode, count: int, screenW: int, screenH: int)
    requires Places(mode, count)
  {
    if mode == Monocle || count == 1 then screenW >= 102 && screenH >= 105
    else if mode == MasterStack then screenW >= 119 && screenH >= 76 + 41 * (count - 1) - 12
    else screenW >= 116 && screenH >= 76 + 41 * Rows(count) - 12
  }

  // A 32-bit screen within these bounds whose master share, as the code computes it, leaves the
  // master window at least 2 pixels wide.
  predicate Usable(mode: Mode, count: int, screenW: int, screenH: int)
    requires Places(mode, count)
  {
    && LargeEnough(mode, count, screenW, screenH) && screenW < 0x1_0000_0000 && screenH < 0x1_0000_0000
    && (mode == MasterStack && count > 1 ==> Share(screenW - 100) >= 8)
  }

  lemma QuotientAtLeast(a: int, d: int, q: int)
    requires d > 0
    ensures a / d >= q <==> a >= q * d
  {
    var k, r := a / d, a % d;
    assert a == d * k + r;
    if k >= q {
      assert d * k >= d * q by { MulMono(d, q, k); }
    } else {
      assert d * (k + 1) <= d * q by { MulMono(d, k + 1, q); }
    }
  }

  lemma MulMono(d: int, a: int, b: int)
    requires d >= 0 && a <= b
    ensures d * a <= d * b
  {
  }

  // ----- the frames on a large enough screen -----

  function RowY(h: int, j: nat): int {
    if j == 0 then 60 else RowY(h, j - 1) + h + 12
  }

  // The frames on unbounded integers, but for the master's share.
  function Ideal(mode: Mode, count: int, i: nat, screenW: int, screenH: int): Rect
    requires 0 <= i < count && Places(mode, count)
  {
    var aw, ah := screenW - 100, screenH - 76;
    if mode == Monocle || count == 1 then Rect(84, 60, aw, ah)
    else if mode == MasterStack then
      var mw := Share(aw) - 6;
      if i == 0 then Rect(84, 60, mw, ah)
      else
        var h := (ah - 12 * (count - 2)) / (count - 1);
        var y := RowY(h, i - 1);
        Rect(84 + mw + 12, y, aw - mw - 12, if i == count - 1 then 60 + ah - y else h)
    else
      var rows := (count + 1) / 2;
      var w, h := (aw - 12) / 2, (ah - 12 * (rows - 1)) / rows;
      Rect(84 + (if i % 2 == 0 then 0 else w + 12), RowY(h, i / 2), w, h)
  }

  lemma {:induction false} RowYIs(h: int, j: nat)
    ensures RowY(h, j) == 60 + j * (h + 12)
  {
    if j > 0 {
      RowYIs(h, j - 1);
      assert j * (h + 12) == (j - 1) * (h + 12) + (h + 12);
    }
  }

  lemma {:induction false} RowYMono(h: int, j: nat, k: nat)
    requires h >= 0 && j <= k
    ensures 60 <= RowY(h, j) <= RowY(h, k)
  {
    if j < k {
      RowYMono(h, j, k - 1);
    } else if j > 0 {
      RowYMono(h, 0, j - 1);
    }
  }

  // n rows of height h with gaps between them end inside `avail`.
  lemma RowsFit(avail: int, n: nat, j: nat)
    requires n > 0 && j < n && avail >= 12 * (n - 1)
    ensures var h := (avail - 12 * (n - 1)) / n;
            && 0 <= h <= avail
            && 60 <= RowY(h, j) && RowY(h, j) + h <= 60 + avail
  {
    var h := (avail - 12 * (n - 1)) / n;
    QuotientAtLeast(avail - 12 * (n - 1), n, 0);
    QuotientAtMost(avail - 12 * (n - 1), n);
    RowYMono(h, j + 1, n);
    RowYMono(h, j, j);
    LastRow(avail, n, h);
  }

  lemma LastRow(avail: int, n: nat, h: int)
    requires n > 0 && h == (avail - 12 * (n - 1)) / n
    ensures RowY(h, n) <= 60 + avail + 12
  {
    RowYIs(h, n);
    assert n * h <= avail - 12 * (n - 1);
    assert n * (h + 12) == n * h + 12 * n;
  }

  lemma {:induction false} StackYIs(h: int, avail: int, n: nat, j: nat)
    requires n > 0 && j < n && avail >= 12 * (n - 1) && avail < 0x1_0000_0000 - 76
    requires h == (avail - 12 * (n - 1)) / n
    ensures StackY(h, j) == RowY(h, j)
  {
    hide W;
    RowsFit(avail, n, j);
    if j > 0 {
      StackYIs(h, avail, n, j - 1);
      Small(RowY(h, j));
    }
  }

  // On a usable screen the code computes the ideal frames.
  lemma FrameIsIdeal(mode: Mode, count: int, i: nat, screenW: int, screenH: int)
    requires 0 <= i < count && Places(mode, count) && Usable(mode, count, screenW, screenH)
    ensures Frame(mode, count, i, screenW, screenH) == Ideal(mode, count, i, screenW, screenH)
  {
    if mode == Monocle || count == 1 {
    } else if mode == MasterStack {
      MasterStackFrame(count, i, screenW, screenH);
    } else {
      GridFrame(count, i, screenW, screenH);
    }
    hide *;
  }

  lemma AvailIs(screenW: int, screenH: int)
    requires 100 <= screenW < 0x1_0000_0000 && 76 <= screenH < 0x1_0000_0000
    ensures AvailW(screenW) == screenW - 100 && AvailH(screenH) == screenH - 76
  {
  }

  lemma MasterStackFrame(count: int, i: nat, screenW: int, screenH: int)
    requires 0 <= i < count && 2 <= count && Usable(MasterStack, count, screenW, screenH)
    ensures Frame(MasterStack, count, i, screenW, screenH) == Ideal(MasterStack, count, i, screenW, screenH)
  {
    var aw, ah := screenW - 100, screenH - 76;
    hide StackY, RowY, StackH, MasterW, StackW, AvailW, AvailH, Share;
    AvailIs(screenW, screenH);
    MasterIsIdeal(aw);
    if i > 0 {
      StackIsIdeal(ah, count, i - 1);
    }
  }

  lemma GridFrame(count: int, i: nat, screenW: int, screenH: int)
    requires 0 <= i < count && 2 <= count && Usable(Grid, count, screenW, screenH)
    ensures Frame(Grid, count, i, screenW, screenH) == Ideal(Grid, count, i, screenW, screenH)
  {
    TwoColumns(count, i);
    hide Cols, Rows, RowY, AvailW, AvailH, Cell, CellAt, W;
    AvailIs(screenW, screenH);
    GridIsIdeal(screenW - 100, screenH - 76, (count + 1) / 2, i);
  }

  lemma MasterIsIdeal(aw: int)
    requires 19 <= aw < 0x1_0000_0000 - 100 && Share(aw) >= 8
    ensures var mw := Share(aw) - 6;
            MasterW(aw) == mw && StackW(aw) == aw - mw - 12 && 2 <= mw && 2 <= aw - mw - 12
  {
    ShareBound(aw);
    hide W, Share;
    Small(Share(aw) - 6);
    Small(aw - (Share(aw) - 6) - 12);
  }

  lemma ShareBound(aw: int)
    requires 0 <= aw
    ensures 0 <= Share(aw) <= aw * 62 / 100
    ensures 19 <= aw ==> Share(aw) + 8 <= aw
    ensures aw < 19 ==> Share(aw) + 8 > aw
    ensures Share(aw) == aw * 62 / 100 <==> aw * 62 < 0x1_0000_0000
  {
    WrappedShare(aw * 62);
    SharePart(aw);
    hide W;
  }

  lemma WrappedShare(p: int)
    requires 0 <= p
    ensures 0 <= W(p) / 100 <= p / 100
    ensures W(p) / 100 == p / 100 <==> p < 0x1_0000_0000
  {
    if p >= 0x1_0000_0000 {
      WrapsDown(p);
      hide W;
    }
  }

  lemma WrapsDown(p: int)
    requires 0x1_0000_0000 <= p
    ensures W(p) + 0x1_0000_0000 <= p
  {
  }

  lemma SharePart(aw: int)
    ensures 19 <= aw ==> aw * 62 / 100 + 8 <= aw
    ensures 0 <= aw < 19 ==> aw * 62 / 100 + 8 > aw
  {
  }

  // The master window gets its 62 percent exactly when the product does not overflow.
  lemma MasterWidthIff(count: int, screenW: int, screenH: int)
    requires 2 <= count && LargeEnough(MasterStack, count, screenW, screenH)
    requires screenW < 0x1_0000_0000 && screenH < 0x1_0000_0000
    ensures Frame(MasterStack, count, 0, screenW, screenH) == Rect(84, 60, (screenW - 100) * 62 / 100 - 6, screenH - 76)
            <==> (screenW - 100) * 62 < 0x1_0000_0000
  {
    var aw := screenW - 100;
    AvailIs(screenW, screenH);
    ShareBound(aw);
    hide Share, AvailW, AvailH;
  }

  lemma Small(v: int)
    ensures 0 <= v < 0x1_0000_0000 ==> W(v) == v
  {
  }

  lemma StackIsIdeal(ah: int, count: int, j: nat)
    requires 2 <= count && j < count - 1 && 12 * (count - 2) <= ah < 0x1_0000_0000 - 76
    ensures var h := (ah - 12 * (count - 2)) / (count - 1);
            && StackH(ah, count - 1) == h && StackY(h, j) == RowY(h, j)
            && 60 <= RowY(h, j) && RowY(h, j) + h <= 60 + ah && h >= 0
  {
    hide W, StackY, RowY;
    var h := (ah - 12 * (count - 2)) / (count - 1);
    Small(12 * (count - 2));
    Small(ah - 12 * (count - 2));
    StackYIs(h, ah, count - 1, j);
    RowsFit(ah, count - 1, j);
  }

  // Two or more windows are laid out in two columns.
  lemma TwoColumns(count: int, i: nat)
    requires 2 <= count
    ensures Cols(count) == 2 && Rows(count) == (count + 1) / 2
    ensures i % Cols(count) == i % 2 && i / Cols(count) == i / 2
  {
  }

  lemma GridIsIdeal(aw: int, ah: int, rows: nat, i: nat)
    requires 1 <= rows && i / 2 < rows
    requires 12 <= aw < 0x1_0000_0000 - 76 && 12 * (rows - 1) <= ah < 0x1_0000_0000 - 76
    ensures var w, h := (aw - 12) / 2, (ah - 12 * (rows - 1)) / rows;
            && Cell(aw, 2) == w && Cell(ah, rows) == h
            && CellAt(84, i % 2, w) == 84 + (if i % 2 == 0 then 0 else w + 12)
            && CellAt(60, i / 2, h) == RowY(h, i / 2)
  {
    CellIs(aw, 2);
    CellIs(ah, rows);
    ColumnOffset(i % 2, (aw - 12) / 2);
    RowOffset(ah, rows, i / 2, Cell(ah, rows));
  }

  lemma ColumnOffset(c: int, w: int)
    requires 0 <= c <= 1 && 0 <= w < 0x8000_0000
    ensures CellAt(84, c, w) == 84 + (if c == 0 then 0 else w + 12)
  {
    if c == 0 {
      assert c * W(w + 12) == 0;
    } else {
      assert c * W(w + 12) == W(w + 12);
    }
  }

  lemma RowOffset(ah: int, rows: int, r: nat, h: int)
    requires rows > 0 && r < rows && 12 * (rows - 1) <= ah < 0x1_0000_0000 - 76
    requires h == (ah - 12 * (rows - 1)) / rows
    ensures CellAt(60, r, h) == RowY(h, r)
  {
    hide W, RowY;
    RowsFit(ah, rows, r);
    RowYIs(h, r);
    Small(h + 12);
    Small(r * (h + 12));
    Small(60 + r * (h + 12));
  }

  lemma CellIs(avail: int, parts: int)
    requires parts > 0 && 12 * (parts - 1) <= avail < 0x1_0000_0000 - 76
    ensures Cell(avail, parts) == (avail - 12 * (parts - 1)) / parts
    ensures 0 <= Cell(avail, parts) <= avail
  {
    hide W;
    var rest := avail - 12 * (parts - 1);
    Small(12 * (parts - 1));
    Small(rest);
    QuotientAtMost(rest, parts);
    QuotientAtLeast(rest, parts, 0);
  }

  lemma QuotientAtMost(a: int, d: int)
    requires d > 0 && a >= 0
    ensures a / d <= a
  {
    var k := a / d;
    if k > a {
      MulMono(k, 1, d);
    }
  }

  // ----- tiling -----

  // Inside the usable area, with room for border and title bar.
  predicate Inside(r: Rect, screenW: int, screenH: int) {
    && 84 <= r.x && r.x + r.w <= screenW - 16 && r.w >= 2
    && 60 <= r.y && r.y + r.h <= screenH - 16 && r.h >= 29
  }

  // At least 12 pixels apart, side by side or one above the other.
  predicate Separated(a: Rect, b: Rect) {
    || a.x + a.w + 12 <= b.x || b.x + b.w + 12 <= a.x
    || a.y + a.h + 12 <= b.y || b.y + b.h + 12 <= a.y
  }

  lemma {:induction false} RowsApart(h: int, j: nat, k: nat)
    requires h >= 0 && j < k
    ensures RowY(h, j) + h + 12 <= RowY(h, k)
  {
    RowYMono(h, j + 1, k);
  }

  lemma IdealInside(mode: Mode, count: int, i: nat, screenW: int, screenH: int)
    requires 0 <= i < count && Places(mode, count) && Usable(mode, count, screenW, screenH)
    ensures Inside(Ideal(mode, count, i, screenW, screenH), screenW, screenH)
  {
    var aw, ah := screenW - 100, screenH - 76;
    if mode == Monocle || count == 1 {
    } else if mode == MasterStack {
      MasterIsIdeal(aw);
      QuotientAtLeast(ah - 12 * (count - 2), count - 1, 29);
      hide RowY, MasterW, StackW;
      if i > 0 {
        RowsFit(ah, count - 1, i - 1);
      }
    } else {
      TwoColumns(count, i);
      var rows := (count + 1) / 2;
      QuotientAtLeast(ah - 12 * (rows - 1), rows, 29);
      hide RowY, Cols, Rows;
      RowsFit(ah, rows, i / 2);
    }
  }

  lemma IdealSeparated(mode: Mode, count: int, i: nat, j: nat, screenW: int, screenH: int)
    requires mode == MasterStack || mode == Grid
    requires 2 <= count && 0 <= i < j < count && Usable(mode, count, screenW, screenH)
    ensures Separated(Ideal(mode, count, i, screenW, screenH), Ideal(mode, count, j, screenW, screenH))
  {
    var ah := screenH - 76;
    if mode == MasterStack {
      var h := (ah - 12 * (count - 2)) / (count - 1);
      QuotientAtLeast(ah - 12 * (count - 2), count - 1, 0);
      hide RowY;
      if i > 0 {
        RowsApart(h, i - 1, j - 1);
      }
    } else {
      TwoColumns(count, i);
      var rows := (count + 1) / 2;
      var h := (ah - 12 * (rows - 1)) / rows;
      QuotientAtLeast(ah - 12 * (rows - 1), rows, 0);
      hide RowY, Cols, Rows;
      if i / 2 < j / 2 {
        RowsApart(h, i / 2, j / 2);
      } else {
        assert i % 2 == 0 && j % 2 == 1;
      }
    }
  }

  // On every usable screen two or more windows in master-stack or grid mode lie inside the usable
  // area, pairwise disjoint and at least one gap apart.
  lemma TilesScreen(mode: Mode, count: int, i: nat, j: nat, screenW: int, screenH: int)
    requires mode == MasterStack || mode == Grid
    requires 2 <= count && 0 <= i < count && 0 <= j < count && Usable(mode, count, screenW, screenH)
    ensures Inside(Frame(mode, count, i, screenW, screenH), screenW, screenH)
    ensures i != j ==> Separated(Frame(mode, count, i, screenW, screenH), Frame(mode, count, j, screenW, screenH))
  {
    FrameIsIdeal(mode, count, i, screenW, screenH);
    FrameIsIdeal(mode, count, j, screenW, screenH);
    IdealInside(mode, count, i, screenW, screenH);
    hide Frame, Ideal;
    if i < j {
      IdealSeparated(mode, count, i, j, screenW, screenH);
    } else if j < i {
      IdealSeparated(mode, count, j, i, screenW, screenH);
    }
  }

  // The heights of stack windows 1 to k.
  function StackHeights(count: int, k: nat, screenW: int, screenH: int): int
    requires 0 <= k < count && 2 <= count
  {
    if k == 0 then 0
    else StackHeights(count, k - 1, screenW, screenH) + Frame(MasterStack, count, k, screenW, screenH).h
  }

  // In master-stack mode the widths of master and stack and the gap between them add up to the
  // available width, and the stack heights with their gaps to the available height.
  lemma MasterStackFills(count: int, i: nat, screenW: int, screenH: int)
    requires 2 <= count && 1 <= i < count && Usable(MasterStack, count, screenW, screenH)
    ensures var master, other :=
              Frame(MasterStack, count, 0, screenW, screenH), Frame(MasterStack, count, i, screenW, screenH);
            && master.w + 12 + other.w == screenW - 100
            && master.h == screenH - 76
            && other.x == master.x + master.w + 12
    ensures StackHeights(count, count - 1, screenW, screenH) + 12 * (count - 2) == screenH - 76
  {
    FrameIsIdeal(MasterStack, count, 0, screenW, screenH);
    FrameIsIdeal(MasterStack, count, i, screenW, screenH);
    HeightsAre(count, count - 2, screenW, screenH);
    FrameIsIdeal(MasterStack, count, count - 1, screenW, screenH);
  }

  lemma {:induction false} HeightsAre(count: int, k: nat, screenW: int, screenH: int)
    requires 2 <= count && k < count - 1 && Usable(MasterStack, count, screenW, screenH)
    ensures var h := (screenH - 76 - 12 * (count - 2)) / (count - 1);
            60 + StackHeights(count, k, screenW, screenH) + 12 * k == RowY(h, k)
  {
    if k > 0 {
      HeightsAre(count, k - 1, screenW, screenH);
      FrameIsIdeal(MasterStack, count, k, screenW, screenH);
      hide Frame;
    }
  }
}
