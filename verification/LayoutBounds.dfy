/** On which screens the unsigned arithmetic of kernel/src/compositor/layout.c goes right: the exact
    conditions under which no subtraction wraps and under which the windows tile the screen. */
module LayoutBounds {
  import opened Layout

  // The subtractions for the master window and the stack's width, on the words the code computes.
  predicate NoWrapMaster(availW: int) {
    Share(availW) >= 6 && availW >= MasterW(availW) && W(availW - MasterW(availW)) >= 12
  }

  // Those for the stack's heights; the last window takes what is left below curr_y.
  predicate NoWrapStack(availH: int, stack: int)
    requires stack > 0
  {
    availH >= W(12 * (stack - 1)) && W(60 + availH) >= StackY(StackH(availH, stack), stack - 1)
  }

  predicate NoWrapGrid(availW: int, availH: int, count: int)
    requires count > 0
  {
    availW >= W(12 * (Cols(count) - 1)) && availH >= W(12 * (Rows(count) - 1))
  }

  // No unsigned subtraction wraps on the way to the frames and surfaces of `count` windows.
  ghost predicate NoWrap(mode: Mode, count: int, screenW: int, screenH: int)
    requires Places(mode, count)
  {
    && screenW >= 84 + 16 && screenH >= 60 + 16
    && (mode == MasterStack && count > 1 ==> NoWrapMaster(AvailW(screenW)) && NoWrapStack(AvailH(screenH), count - 1))
    && (mode == Grid && count > 1 ==> NoWrapGrid(AvailW(screenW), AvailH(screenH), count))
    && forall i: nat :: i < count ==>
         var r := Frame(mode, count, i, screenW, screenH);
         r.w >= 2 && r.h >= 28 + 1
  }

  // The frames lie inside the usable area, pairwise at least one gap apart.
  ghost predicate Tiled(mode: Mode, count: int, screenW: int, screenH: int)
    requires Places(mode, count)
  {
    && (forall i: nat :: i < count ==> Inside(Frame(mode, count, i, screenW, screenH), screenW, screenH))
    && (forall i: nat, j: nat :: i < count && j < count && i != j ==>
          Separated(Frame(mode, count, i, screenW, screenH), Frame(mode, count, j, screenW, screenH)))
  }

  // ----- usable screens -----

  lemma UsableFrames(mode: Mode, count: int, screenW: int, screenH: int)
    requires Places(mode, count) && Usable(mode, count, screenW, screenH)
    ensures forall i: nat :: i < count ==> Inside(Frame(mode, count, i, screenW, screenH), screenW, screenH)
  {
    hide Frame, Ideal, Inside, Usable;
    forall i: nat | i < count
      ensures Inside(Frame(mode, count, i, screenW, screenH), screenW, screenH)
    {
      FrameIsIdeal(mode, count, i, screenW, screenH);
      IdealInside(mode, count, i, screenW, screenH);
    }
  }

  lemma UsableNoWrap(mode: Mode, count: int, screenW: int, screenH: int)
    requires Places(mode, count) && count <= 16 && Usable(mode, count, screenW, screenH)
    ensures NoWrap(mode, count, screenW, screenH)
  {
    hide Frame, Share, MasterW, StackW, StackY, StackH, W, AvailW, AvailH, Cols, Rows, NoWrapMaster,
      NoWrapStack, NoWrapGrid;
    UsableFrames(mode, count, screenW, screenH);
    UsableAvail(mode, count, screenW, screenH);
    if mode == MasterStack && count > 1 {
      UsableMaster(screenW - 100);
      UsableStack(screenH - 76, count - 1);
    } else if mode == Grid && count > 1 {
      UsableGrid(screenW - 100, screenH - 76, count);
    }
  }

  lemma UsableMaster(aw: int)
    requires 19 <= aw < 0x1_0000_0000 - 100 && Share(aw) >= 8
    ensures NoWrapMaster(aw)
  {
    hide Share, MasterW, StackW, W;
    MasterIsIdeal(aw);
    Small(aw - MasterW(aw));
  }

  lemma UsableGrid(aw: int, ah: int, count: int)
    requires 2 <= count <= 16 && 16 <= aw && 41 * Rows(count) - 12 <= ah
    ensures NoWrapGrid(aw, ah, count)
  {
    TwoColumns(count, 0);
    hide Cols, Rows, W;
    Small(12);
    Small(12 * (Rows(count) - 1));
  }

  lemma UsableAvail(mode: Mode, count: int, screenW: int, screenH: int)
    requires Places(mode, count) && Usable(mode, count, screenW, screenH)
    ensures 100 <= screenW && 76 <= screenH
    ensures AvailW(screenW) == screenW - 100 && AvailH(screenH) == screenH - 76
  {
  }

  lemma UsableStack(ah: int, stack: int)
    requires 1 <= stack <= 15 && 41 * stack - 12 <= ah < 0x1_0000_0000 - 76
    ensures NoWrapStack(ah, stack)
  {
    hide StackY, StackH, W;
    Small(12 * (stack - 1));
    Small(60 + ah);
    StackIsIdeal(ah, stack + 1, stack - 1);
  }

  // ----- and no others -----

  lemma NoWrapUsable(mode: Mode, count: int, screenW: Word32, screenH: Word32)
    requires Places(mode, count) && count <= 16
    requires NoWrap(mode, count, screenW, screenH)
    ensures Usable(mode, count, screenW, screenH)
  {
    var first := Frame(mode, count, 0, screenW, screenH);
    assert first.w >= 2 && first.h >= 29;
    AvailIs(screenW, screenH);
    if mode == Monocle || count == 1 {
    } else if mode == MasterStack {
      assert Frame(mode, count, 1, screenW, screenH).w >= 2 && Frame(mode, count, 1, screenW, screenH).h >= 29;
      hide Share, StackY, AvailW, AvailH;
      MasterRoom(screenW - 100);
      StackRoom(screenH - 76, count - 1);
    } else {
      TwoColumns(count, 0);
      hide Cols, Rows, AvailW, AvailH;
      CellRoom(screenW - 100, 2, 2);
      CellRoom(screenH - 76, (count + 1) / 2, 29);
    }
  }

  lemma MasterRoom(aw: int)
    requires 0 <= aw < 0x1_0000_0000 - 100
    ensures NoWrapMaster(aw) && MasterW(aw) >= 2 && StackW(aw) >= 2 ==> aw >= 19 && Share(aw) >= 8
  {
    ShareBound(aw);
    hide Share, W;
    var mw := Share(aw) - 6;
    Small(mw);
    Small(aw - mw);
    Small(aw - mw - 12);
  }

  lemma StackRoom(ah: int, stack: int)
    requires 1 <= stack <= 15 && 29 <= ah < 0x1_0000_0000 - 76
    ensures ah >= W(12 * (stack - 1)) && (stack > 1 ==> StackH(ah, stack) >= 29) ==> ah >= 41 * stack - 12
  {
    hide W;
    Small(12 * (stack - 1));
    Small(ah - 12 * (stack - 1));
    QuotientAtLeast(ah - 12 * (stack - 1), stack, 29);
  }

  lemma CellRoom(avail: int, parts: int, least: int)
    requires 1 <= parts <= 15 && 0 <= avail < 0x1_0000_0000 - 76
    ensures avail >= W(12 * (parts - 1)) && Cell(avail, parts) >= least ==> avail >= least * parts + 12 * (parts - 1)
  {
    hide W;
    Small(12 * (parts - 1));
    Small(avail - 12 * (parts - 1));
    QuotientAtLeast(avail - 12 * (parts - 1), parts, least);
  }

  // For up to sixteen windows no unsigned subtraction wraps if and only if the screen is usable.
  lemma NoWrapIffUsable(mode: Mode, count: int, screenW: Word32, screenH: Word32)
    requires Places(mode, count) && count <= 16
    ensures NoWrap(mode, count, screenW, screenH) <==> Usable(mode, count, screenW, screenH)
  {
    hide NoWrap, Usable;
    if NoWrap(mode, count, screenW, screenH) {
      NoWrapUsable(mode, count, screenW, screenH);
    }
    if Usable(mode, count, screenW, screenH) {
      UsableNoWrap(mode, count, screenW, screenH);
    }
  }

  lemma TiledUsable(mode: Mode, count: int, screenW: Word32, screenH: Word32)
    requires mode == MasterStack || mode == Grid
    requires 2 <= count <= 16
    requires Tiled(mode, count, screenW, screenH)
    ensures Usable(mode, count, screenW, screenH)
  {
    hide Frame, Inside, Usable;
    if mode == MasterStack {
      MasterFits(count, screenW, screenH);
    } else {
      GridFits(count, screenW, screenH);
    }
  }

  lemma MasterFits(count: int, screenW: Word32, screenH: Word32)
    requires 2 <= count <= 16
    requires Inside(Frame(MasterStack, count, 0, screenW, screenH), screenW, screenH)
    requires Inside(Frame(MasterStack, count, 1, screenW, screenH), screenW, screenH)
    ensures Usable(MasterStack, count, screenW, screenH)
  {
    var first, second := Frame(MasterStack, count, 0, screenW, screenH), Frame(MasterStack, count, 1, screenW, screenH);
    StackFrames(count, screenW, screenH);
    hide Frame, MasterW, StackW, AvailW, AvailH, StackH, Share, W;
    HeightIs(screenH);
    WidthIs(screenW, first.w);
    MasterShare(screenW - 100);
    RoomFits(screenH - 76, count - 1, 29);
  }

  // The parts of the first two frames in master-stack mode that the bounds come from.
  lemma StackFrames(count: int, screenW: int, screenH: int)
    requires 2 <= count
    ensures var first, second :=
              Frame(MasterStack, count, 0, screenW, screenH), Frame(MasterStack, count, 1, screenW, screenH);
            && first == Rect(84, 60, MasterW(AvailW(screenW)), AvailH(screenH))
            && second.x == W(84 + MasterW(AvailW(screenW)) + 12) && second.y == 60
            && second.w == StackW(AvailW(screenW))
            && (count > 2 ==> second.h == StackH(AvailH(screenH), count - 1))
  {
    hide W, MasterW, StackW, AvailW, AvailH, StackH;
  }

  lemma HeightIs(screenH: Word32)
    ensures 60 + AvailH(screenH) <= screenH - 16 ==> screenH >= 76 && AvailH(screenH) == screenH - 76
  {
  }

  lemma WidthIs(screenW: Word32, w: int)
    ensures w >= 2 && 84 + w <= screenW - 16 ==> screenW >= 102 && AvailW(screenW) == screenW - 100
  {
  }

  // If master and stack fit beside each other, so does the share.
  lemma MasterShare(aw: int)
    requires 2 <= aw < 0x1_0000_0000 - 100
    requires 2 <= MasterW(aw) <= aw
    requires 2 <= StackW(aw) && W(84 + MasterW(aw) + 12) + StackW(aw) <= 84 + aw
    ensures aw >= 19 && Share(aw) >= 8
  {
    ShareBound(aw);
    hide Share;
  }

  // Rows for which there is no room would be far taller than the screen.
  lemma RoomFits(avail: int, parts: int, least: int)
    requires 1 <= parts <= 15 && 0 <= avail < 0x1_0000_0000 - 76
    ensures least <= Cell(avail, parts) <= avail ==> avail >= least * parts + 12 * (parts - 1)
    ensures StackH(avail, parts) == Cell(avail, parts)
  {
    hide W;
    var gaps := 12 * (parts - 1);
    Small(gaps);
    if avail >= gaps {
      CellRoom(avail, parts, least);
    } else {
      Wrapped(avail - gaps);
      QuotientAtLeast(W(avail - gaps), parts, 169);
    }
  }

  lemma Wrapped(v: int)
    ensures -0x1_0000_0000 <= v < 0 ==> W(v) == v + 0x1_0000_0000
  {
  }

  lemma GridFits(count: int, screenW: Word32, screenH: Word32)
    requires 2 <= count <= 16
    requires Inside(Frame(Grid, count, 0, screenW, screenH), screenW, screenH)
    ensures Usable(Grid, count, screenW, screenH)
  {
    GridFrames(count, screenW, screenH);
    hide Frame, AvailW, AvailH, Cell, Cols, Rows;
    TwoColumns(count, 0);
    var first := Frame(Grid, count, 0, screenW, screenH);
    WidthIs(screenW, first.w);
    GridHeight(screenH, first.h);
    RoomFits(screenW - 100, 2, 2);
    RoomFits(screenH - 76, (count + 1) / 2, 29);
  }

  lemma GridFrames(count: int, screenW: int, screenH: int)
    requires 2 <= count
    ensures var first := Frame(Grid, count, 0, screenW, screenH);
            && first.x == 84 && first.y == 60
            && first.w == Cell(AvailW(screenW), Cols(count)) && first.h == Cell(AvailH(screenH), Rows(count))
  {
    hide AvailW, AvailH, Cell, CellAt, Cols, Rows;
    TwoColumns(count, 0);
    FirstCell(84, Cell(AvailW(screenW), Cols(count)));
    FirstCell(60, Cell(AvailH(screenH), Rows(count)));
  }

  lemma FirstCell(start: Word32, size: int)
    ensures CellAt(start, 0, size) == start
  {
  }

  lemma GridHeight(screenH: Word32, h: int)
    ensures h >= 29 && 60 + h <= screenH - 16 ==> screenH >= 105 && AvailH(screenH) == screenH - 76
  {
  }

  // Two to sixteen windows in master-stack or grid mode lie inside the usable area, pairwise
  // disjoint and at least one gap apart, if and only if the screen is usable.
  lemma TiledIffUsable(mode: Mode, count: int, screenW: Word32, screenH: Word32)
    requires mode == MasterStack || mode == Grid
    requires 2 <= count <= 16
    ensures Tiled(mode, count, screenW, screenH) <==> Usable(mode, count, screenW, screenH)
  {
    hide Frame, Inside, Separated, Usable;
    if Tiled(mode, count, screenW, screenH) {
      TiledUsable(mode, count, screenW, screenH);
    }
    if Usable(mode, count, screenW, screenH) {
      forall i: nat, j: nat | i < count && j < count
        ensures Inside(Frame(mode, count, i, screenW, screenH), screenW, screenH)
        ensures i != j ==>
                  Separated(Frame(mode, count, i, screenW, screenH), Frame(mode, count, j, screenW, screenH))
      {
        TilesScreen(mode, count, i, j, screenW, screenH);
      }
    }
  }

  // A screen within the bounds on gaps and title bars on which the master share overflows: the
  // product wraps to 58, the subtraction of half a gap wraps, and the frame does not fit.
  lemma WideScreenWraps()
    ensures var w, h := 69273767, 768;
            && LargeEnough(MasterStack, 2, w, h) && !Usable(MasterStack, 2, w, h)
            && Frame(MasterStack, 2, 0, w, h).w == 4294967290
            && !NoWrap(MasterStack, 2, w, h) && !Tiled(MasterStack, 2, w, h)
  {
    var w, h := 69273767, 768;
    assert AvailW(w) == 69273667 && W(69273667 * 62) == 58;
    assert Frame(MasterStack, 2, 0, w, h).w == 4294967290;
    hide Frame;
    NoWrapIffUsable(MasterStack, 2, w, h);
    TiledIffUsable(MasterStack, 2, w, h);
  }

  // A wider screen on which the product overflows and the windows tile all the same.
  lemma WiderScreenTiles()
    ensures var w, h := 100000000, 768;
            && Tiled(MasterStack, 2, w, h) && (w - 100) * 62 >= 0x1_0000_0000
  {
    var w, h := 100000000, 768;
    assert W(99999900 * 62) == 1905026504;
    TiledIffUsable(MasterStack, 2, w, h);
  }

  // ----- the frames in closed form -----

  // Where every window goes on a usable screen.
  lemma FrameMeans(mode: Mode, count: int, i: nat, screenW: int, screenH: int)
    requires i < count && Places(mode, count) && Usable(mode, count, screenW, screenH)
    ensures mode == Monocle || count == 1 ==>
              Frame(mode, count, i, screenW, screenH) == Rect(84, 60, screenW - 100, screenH - 76)
    ensures mode == MasterStack && count > 1 ==>
              var mw, h := W((screenW - 100) * 62) / 100 - 6, (screenH - 76 - 12 * (count - 2)) / (count - 1);
              var r := Frame(mode, count, i, screenW, screenH);
              if i == 0 then r == Rect(84, 60, mw, screenH - 76)
              else && r.x == 84 + mw + 12 && r.y == 60 + (i - 1) * (h + 12) && r.w == screenW - 100 - mw - 12
                   && if i < count - 1 then r.h == h else r.y + r.h == screenH - 16
    ensures mode == Grid && count > 1 ==>
              var rows := (count + 1) / 2;
              var w, h := (screenW - 100 - 12) / 2, (screenH - 76 - 12 * (rows - 1)) / rows;
              Frame(mode, count, i, screenW, screenH)
              == Rect(84 + i % 2 * (w + 12), 60 + i / 2 * (h + 12), w, h)
  {
    FrameIsIdeal(mode, count, i, screenW, screenH);
    hide Frame, RowY, W, LargeEnough;
    if mode == MasterStack && count > 1 {
      if i > 0 {
        RowYIs((screenH - 76 - 12 * (count - 2)) / (count - 1), i - 1);
      }
    } else if mode == Grid && count > 1 {
      RowYIs((screenH - 76 - 12 * ((count + 1) / 2 - 1)) / ((count + 1) / 2), i / 2);
      ColumnIs(i % 2, (screenW - 100 - 12) / 2);
    }
  }

  lemma ColumnIs(c: int, w: int)
    requires 0 <= c < 2
    ensures c * (w + 12) == if c == 0 then 0 else w + 12
  {
  }
}
