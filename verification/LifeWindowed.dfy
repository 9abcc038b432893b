/** The frame loop bodies of life.c and life2.c. Both are proved against the same specification,
    so the optimised one refines the plain one for every board and every active map. */
module LifeWindowed {
  import opened Bits
  import opened LifeWord
  import opened LifeBoard
  import opened LifeTiles
  import opened LifeRegion

  /** A screen and the window of it that the game occupies, tiled by the given maps. */
  ghost predicate Fits(tiles: TileMaps, a: array2<u16>, y0: nat, x0: nat) {
    && tiles.Valid()
    && tiles.active.Length1 % 2 == 0
    && y0 + 8 * tiles.active.Length0 <= a.Length0
    && x0 + tiles.active.Length1 / 2 <= a.Length1
  }

  ghost predicate InWindow(tiles: TileMaps, y0: nat, x0: nat, y: nat, x: nat) {
    y0 <= y < y0 + 8 * tiles.active.Length0 && x0 <= x < x0 + tiles.active.Length1 / 2
  }

  ghost function Board8(tiles: TileMaps, a: array2<u16>, y0: nat, x0: nat): (b: Board)
    requires Fits(tiles, a, y0, x0)
    reads a
    ensures IsTiled(b, 8, tiles.active.Length0, tiles.active.Length1)
  {
    Window(a, y0, x0, 8 * tiles.active.Length0, tiles.active.Length1 / 2)
  }

  method ClearRegion(tiles: TileMaps, dst: array2<u16>, y0: nat, x0: nat)
    requires Fits(tiles, dst, y0, x0)
    modifies dst
    ensures forall y: nat, x: nat | y < dst.Length0 && x < dst.Length1 ::
              dst[y, x] == if InWindow(tiles, y0, x0, y, x) then 0 else old(dst[y, x])
  {
    var h, w := 8 * tiles.active.Length0, tiles.active.Length1 / 2;
    for r := 0 to h
      invariant forall y: nat, x: nat | y < dst.Length0 && x < dst.Length1 ::
                  dst[y, x] == if InWindow(tiles, y0, x0, y, x) && y < y0 + r then 0 else old(dst[y, x])
    {
      for c := 0 to w
        invariant forall y: nat, x: nat | y < dst.Length0 && x < dst.Length1 ::
                    dst[y, x] == if InWindow(tiles, y0, x0, y, x) && (y < y0 + r || (y == y0 + r && x < x0 + c))
                                 then 0 else old(dst[y, x])
      {
        dst[y0 + r, x0 + c] := 0;
      }
    }
  }

  /** Sets the flags of the two tiles of word `wx` whose byte of `v` is not zero. */
  method MarkWord(flags: array2<u8>, ty: nat, wx: nat, v: u16)
    requires ty < flags.Length0 && 2 * wx + 1 < flags.Length1
    modifies flags
    ensures forall i: nat, j: nat | i < flags.Length0 && j < flags.Length1 ::
              flags[i, j] == if i == ty && j / 2 == wx && And16(v, TileMask(8, j)) != 0 then 1 else old(flags[i, j])
  {
    hide And16;
    var tileX := 2 * wx;
    if And16(v, 0xFF00) != 0 {
      flags[ty, tileX] := 1;
    }
    if And16(v, 0x00FF) != 0 {
      flags[ty, tileX + 1] := 1;
    }
  }

  /** One frame: the destination screen and the source window before it, and what must come out. */
  datatype Frame = Frame(before: Board, window: Board, result: Board, changes: Board)

  ghost predicate Shaped(tiles: TileMaps, dst: array2<u16>, y0: nat, x0: nat, f: Frame) {
    && Fits(tiles, dst, y0, x0)
    && IsBoard(f.before, dst.Length0, dst.Length1)
    && IsTiled(f.window, 8, tiles.active.Length0, tiles.active.Length1)
    && IsTiled(f.result, 8, tiles.active.Length0, tiles.active.Length1)
    && IsTiled(f.changes, 8, tiles.active.Length0, tiles.active.Length1)
  }

  ghost function Plan(tiles: TileMaps, src: array2<u16>, dst: array2<u16>, y0: nat, x0: nat): (f: Frame)
    requires Fits(tiles, src, y0, x0) && Fits(tiles, dst, y0, x0)
    reads src, dst, tiles.active
    ensures Shaped(tiles, dst, y0, x0, f)
  {
    var b := Board8(tiles, src, y0, x0);
    Frame(Cells(dst), b, Stepped(b, tiles.active), Changes(b, tiles.active))
  }

  /** The frame is in progress: source and active map still give the planned window and results. */
  ghost predicate Running(tiles: TileMaps, src: array2<u16>, dst: array2<u16>, y0: nat, x0: nat, f: Frame)
    reads src, tiles.active
  {
    && Shaped(tiles, dst, y0, x0, f) && Fits(tiles, src, y0, x0) && src != dst
    && f.window == Board8(tiles, src, y0, x0)
    && f.result == Stepped(f.window, tiles.active)
    && f.changes == Changes(f.window, tiles.active)
  }

  /** The loops have reached word `wx` of row `y`: all earlier words are written and marked, later
      ones are still clear. */
  ghost predicate Reached(tiles: TileMaps, dst: array2<u16>, y0: nat, x0: nat, f: Frame, y: nat, wx: nat)
    requires Shaped(tiles, dst, y0, x0, f)
    reads dst, tiles.live, tiles.dirty
  {
    var th, tw := tiles.active.Length0, tiles.active.Length1;
    && (forall r: nat, c: nat | r < dst.Length0 && c < dst.Length1 ::
          dst[r, c] == if !InWindow(tiles, y0, x0, r, c) then f.before[r][c]
                       else if r < y0 + y || (r == y0 + y && c < x0 + wx) then f.result[r - y0][c - x0] else 0)
    && (forall i: nat, j: nat | i < th && j < tw ::
          && tiles.live[i, j] == Flag(FoundUpTo(f.result, th, tw, i, j, y, wx))
          && tiles.dirty[i, j] == Flag(FoundUpTo(f.changes, th, tw, i, j, y, wx)))
  }

  method ClearFrame(tiles: TileMaps, dst: array2<u16>, y0: nat, x0: nat, ghost f: Frame)
    requires Shaped(tiles, dst, y0, x0, f) && f.before == Cells(dst)
    modifies dst, tiles.live, tiles.dirty
    ensures Reached(tiles, dst, y0, x0, f, 0, 0)
  {
    hide And16, TileMask;
    ClearRegion(tiles, dst, y0, x0);
    tiles.ClearLiveDirty();
  }

  lemma {:induction false} AndZero16(m: u16)
    ensures And16(0, m) == 0
  {
  }

  /** Writes one computed word and marks its tiles. */
  method EmitWord(tiles: TileMaps, dst: array2<u16>, y0: nat, x0: nat, y: nat, wx: nat, out: u16, mC: u16,
                  ghost f: Frame)
    requires Shaped(tiles, dst, y0, x0, f)
    requires y < 8 * tiles.active.Length0 && wx < tiles.active.Length1 / 2
    requires Reached(tiles, dst, y0, x0, f, y, wx)
    requires f.result[y][wx] == out && f.changes[y][wx] == Xor16(out, mC)
    modifies dst, tiles.live, tiles.dirty
    ensures Reached(tiles, dst, y0, x0, f, y, wx + 1)
  {
    hide And16, TileMask, FoundUpTo, Xor16;
    var ty := y / 8;
    dst[y0 + y, x0 + wx] := out;
    MarkWord(tiles.dirty, ty, wx, Xor16(out, mC));
    MarkWord(tiles.live, ty, wx, out);
    ghost var th, tw := tiles.active.Length0, tiles.active.Length1;
    forall i: nat, j: nat | i < th && j < tw
      ensures tiles.live[i, j] == Flag(FoundUpTo(f.result, th, tw, i, j, y, wx + 1))
      ensures tiles.dirty[i, j] == Flag(FoundUpTo(f.changes, th, tw, i, j, y, wx + 1))
    {
      FoundStep(f.result, th, tw, i, j, y, wx);
      FoundStep(f.changes, th, tw, i, j, y, wx);
    }
  }

  /** Skipping an inactive word is the same as emitting 0 for it. */
  lemma {:induction false} SkipWord(tiles: TileMaps, src: array2<u16>, dst: array2<u16>, y0: nat, x0: nat,
                                    y: nat, wx: nat, f: Frame)
    requires Running(tiles, src, dst, y0, x0, f)
    requires y < 8 * tiles.active.Length0 && wx < tiles.active.Length1 / 2
    requires !WordActive(tiles.active, y / 8, wx)
    requires Reached(tiles, dst, y0, x0, f, y, wx)
    ensures Reached(tiles, dst, y0, x0, f, y, wx + 1)
  {
    hide And16, TileMask, FoundUpTo, Stepped, Changes, WordAt, Xor16;
    assert f.result[y][wx] == 0 && f.changes[y][wx] == 0;
    var th, tw := tiles.active.Length0, tiles.active.Length1;
    forall i: nat, j: nat | i < th && j < tw
      ensures tiles.live[i, j] == Flag(FoundUpTo(f.result, th, tw, i, j, y, wx + 1))
      ensures tiles.dirty[i, j] == Flag(FoundUpTo(f.changes, th, tw, i, j, y, wx + 1))
    {
      AndZero16(TileMask(8, j));
      FoundStep(f.result, th, tw, i, j, y, wx);
      FoundStep(f.changes, th, tw, i, j, y, wx);
    }
  }

  lemma {:induction false} NextRow(tiles: TileMaps, dst: array2<u16>, y0: nat, x0: nat, y: nat, f: Frame)
    requires Shaped(tiles, dst, y0, x0, f)
    requires y < 8 * tiles.active.Length0
    requires Reached(tiles, dst, y0, x0, f, y, tiles.active.Length1 / 2)
    ensures Reached(tiles, dst, y0, x0, f, y + 1, 0)
  {
    hide And16, TileMask, FoundUpTo;
    var th, tw := tiles.active.Length0, tiles.active.Length1;
    forall i: nat, j: nat | i < th && j < tw
      ensures tiles.live[i, j] == Flag(FoundUpTo(f.result, th, tw, i, j, y + 1, 0))
      ensures tiles.dirty[i, j] == Flag(FoundUpTo(f.changes, th, tw, i, j, y + 1, 0))
    {
      FoundRowEnd(f.result, th, tw, i, j, y);
      FoundRowEnd(f.changes, th, tw, i, j, y);
    }
  }

  /** Every word has been visited: the window holds the result and the maps flag its tiles. */
  lemma {:induction false} FrameEnd(tiles: TileMaps, dst: array2<u16>, y0: nat, x0: nat, f: Frame)
    requires Shaped(tiles, dst, y0, x0, f)
    requires Reached(tiles, dst, y0, x0, f, 8 * tiles.active.Length0, 0)
    ensures Board8(tiles, dst, y0, x0) == f.result
    ensures IsLiveMap(tiles.live, f.result, 8) && IsLiveMap(tiles.dirty, f.changes, 8)
    ensures forall r: nat, c: nat | r < dst.Length0 && c < dst.Length1 && !InWindow(tiles, y0, x0, r, c) ::
              dst[r, c] == f.before[r][c]
  {
    hide And16, TileMask, FoundUpTo, TileLive;
    var th, tw := tiles.active.Length0, tiles.active.Length1;
    forall i: nat, j: nat | i < th && j < tw
      ensures tiles.live[i, j] == Flag(TileLive(f.result, 8, th, tw, i, j))
      ensures tiles.dirty[i, j] == Flag(TileLive(f.changes, 8, th, tw, i, j))
    {
      FoundAll(f.result, th, tw, i, j);
      FoundAll(f.changes, th, tw, i, j);
    }
    var b := Board8(tiles, dst, y0, x0);
    forall y | 0 <= y < |b|
      ensures b[y] == f.result[y]
    {
      forall x | 0 <= x < |b[y]|
        ensures b[y][x] == f.result[y][x]
      {
        assert dst[y0 + y, x0 + x] == f.result[y][x];
      }
    }
  }

  /** What one call of `step_board` must leave behind, given the frame it started from. */
  ghost predicate Framed(tiles: TileMaps, dst: array2<u16>, y0: nat, x0: nat, f: Frame)
    requires Shaped(tiles, dst, y0, x0, f)
    reads dst, tiles.active, tiles.live, tiles.dirty
  {
    && Board8(tiles, dst, y0, x0) == f.result
    && (forall r: nat, c: nat | r < dst.Length0 && c < dst.Length1 && !InWindow(tiles, y0, x0, r, c) ::
          dst[r, c] == f.before[r][c])
    && IsLiveMap(tiles.live, f.result, 8)
    && IsLiveMap(tiles.dirty, f.changes, 8)
    && IsDilation(tiles.active, f.result, 8)
  }

  /** The tail of both `step_board`s. */
  method FinishFrame(tiles: TileMaps, dst: array2<u16>, y0: nat, x0: nat, ghost f: Frame)
    requires Shaped(tiles, dst, y0, x0, f)
    requires Reached(tiles, dst, y0, x0, f, 8 * tiles.active.Length0, 0)
    modifies tiles.active
    ensures Framed(tiles, dst, y0, x0, f)
  {
    hide Reached, TileLive, Around, Dilated;
    FrameEnd(tiles, dst, y0, x0, f);
    tiles.BuildActiveFromLive();
    DilationOfLive(tiles, f.result, 8);
  }

  /** The word of `src` in row r and column c of the window. */
  function Load(src: array2<u16>, y0: nat, x0: nat, r: nat, c: nat): u16
    requires y0 + r < src.Length0 && x0 + c < src.Length1
    reads src
  {
    src[y0 + r, x0 + c]
  }

  lemma {:induction false} RunningFits(tiles: TileMaps, src: array2<u16>, dst: array2<u16>, y0: nat, x0: nat, f: Frame)
    requires Running(tiles, src, dst, y0, x0, f)
    ensures Shaped(tiles, dst, y0, x0, f) && Fits(tiles, src, y0, x0) && src != dst
  {
  }

  lemma {:induction false} LoadIsWindow(tiles: TileMaps, src: array2<u16>, dst: array2<u16>, y0: nat,
                                        x0: nat, f: Frame, r: nat, c: nat)
    requires Running(tiles, src, dst, y0, x0, f)
    requires r < 8 * tiles.active.Length0 && c < tiles.active.Length1 / 2
    ensures Load(src, y0, x0, r, c) == f.window[r][c]
  {
    hide Stepped, Changes;
  }

  /** The loads, by row and column. */
  lemma {:induction false} LoadsMatch(tiles: TileMaps, src: array2<u16>, dst: array2<u16>, y0: nat, x0: nat,
                                      y: nat, wx: nat, f: Frame)
    requires Running(tiles, src, dst, y0, x0, f)
    requires y < 8 * tiles.active.Length0 && wx < tiles.active.Length1 / 2
    ensures var h, w := 8 * tiles.active.Length0, tiles.active.Length1 / 2;
            var u, d, l, r := Prev(y, h), Next(y, h), Prev(wx, w), Next(wx, w);
            RowsAt(f.window, h, w, y, wx) ==
            Surround(Load(src, y0, x0, u, l), Load(src, y0, x0, u, wx), Load(src, y0, x0, u, r),
                     Load(src, y0, x0, y, l), Load(src, y0, x0, y, wx), Load(src, y0, x0, y, r),
                     Load(src, y0, x0, d, l), Load(src, y0, x0, d, wx), Load(src, y0, x0, d, r))
  {
    hide Running, Load, Surround;
    var h, w := 8 * tiles.active.Length0, tiles.active.Length1 / 2;
    var u, d, l, r := Prev(y, h), Next(y, h), Prev(wx, w), Next(wx, w);
    LoadIsWindow(tiles, src, dst, y0, x0, f, u, l);
    LoadIsWindow(tiles, src, dst, y0, x0, f, u, wx);
    LoadIsWindow(tiles, src, dst, y0, x0, f, u, r);
    LoadIsWindow(tiles, src, dst, y0, x0, f, y, l);
    LoadIsWindow(tiles, src, dst, y0, x0, f, y, wx);
    LoadIsWindow(tiles, src, dst, y0, x0, f, y, r);
    LoadIsWindow(tiles, src, dst, y0, x0, f, d, l);
    LoadIsWindow(tiles, src, dst, y0, x0, f, d, wx);
    LoadIsWindow(tiles, src, dst, y0, x0, f, d, r);
  }

  lemma {:induction false} PlannedWord(tiles: TileMaps, src: array2<u16>, dst: array2<u16>, y0: nat, x0: nat,
                                       y: nat, wx: nat, f: Frame)
    requires Running(tiles, src, dst, y0, x0, f)
    requires y < 8 * tiles.active.Length0 && wx < tiles.active.Length1 / 2
    requires WordActive(tiles.active, y / 8, wx)
    ensures f.result[y][wx] == NextWord(RowsAt(f.window, 8 * tiles.active.Length0, tiles.active.Length1 / 2, y, wx))
    ensures f.changes[y][wx] == Xor16(f.result[y][wx], f.window[y][wx])
  {
    hide Xor16, NextWord, RowsAt;
  }

  /** The body of the inner loop of life.c: nine loads for every word with an active tile. */
  method StepWord(tiles: TileMaps, src: array2<u16>, dst: array2<u16>, y0: nat, x0: nat, y: nat, wx: nat,
                  ghost f: Frame)
    requires Running(tiles, src, dst, y0, x0, f)
    requires y < 8 * tiles.active.Length0 && wx < tiles.active.Length1 / 2
    requires Reached(tiles, dst, y0, x0, f, y, wx)
    modifies dst, tiles.live, tiles.dirty
    ensures Reached(tiles, dst, y0, x0, f, y, wx + 1)
  {
    hide Reached, NextWord, NextWordN2N3, Surround, Xor16, Stepped, Changes, Window, RowsAt, Load;
    var h, w := 8 * tiles.active.Length0, tiles.active.Length1 / 2;
    var yPrev := if y == 0 then h - 1 else y - 1;
    var yNext := if y + 1 == h then 0 else y + 1;
    var ty := y / 8;
    var tileX := 2 * wx;
    if tiles.active[ty, tileX] == 0 && tiles.active[ty, tileX + 1] == 0 {
      SkipWord(tiles, src, dst, y0, x0, y, wx, f);
    } else {
      var wxLeft := if wx == 0 then w - 1 else wx - 1;
      var wxRight := if wx + 1 == w then 0 else wx + 1;
      var uL, uC, uR :=
        Load(src, y0, x0, yPrev, wxLeft), Load(src, y0, x0, yPrev, wx), Load(src, y0, x0, yPrev, wxRight);
      var mL, mC, mR := Load(src, y0, x0, y, wxLeft), Load(src, y0, x0, y, wx), Load(src, y0, x0, y, wxRight);
      var dL, dC, dR :=
        Load(src, y0, x0, yNext, wxLeft), Load(src, y0, x0, yNext, wx), Load(src, y0, x0, yNext, wxRight);
      var rows := Surround(uL, uC, uR, mL, mC, mR, dL, dC, dR);
      SimplifiedRule(rows);
      LoadsMatch(tiles, src, dst, y0, x0, y, wx, f);
      LoadIsWindow(tiles, src, dst, y0, x0, f, y, wx);
      PlannedWord(tiles, src, dst, y0, x0, y, wx, f);
      EmitWord(tiles, dst, y0, x0, y, wx, NextWordN2N3(rows), mC, f);
    }
  }

  /** `step_board` of life.c. */
  method StepBoard(tiles: TileMaps, src: array2<u16>, dst: array2<u16>, y0: nat, x0: nat)
    requires Fits(tiles, src, y0, x0) && Fits(tiles, dst, y0, x0) && src != dst
    modifies dst, tiles.active, tiles.live, tiles.dirty
    ensures Framed(tiles, dst, y0, x0, old(Plan(tiles, src, dst, y0, x0)))
  {
    hide Reached, Framed, Stepped, Changes, Window;
    ghost var f := Plan(tiles, src, dst, y0, x0);
    ClearFrame(tiles, dst, y0, x0, f);
    for y := 0 to 8 * tiles.active.Length0
      invariant Running(tiles, src, dst, y0, x0, f)
      invariant Reached(tiles, dst, y0, x0, f, y, 0)
    {
      for wx := 0 to tiles.active.Length1 / 2
        invariant Running(tiles, src, dst, y0, x0, f)
        invariant Reached(tiles, dst, y0, x0, f, y, wx)
      {
        StepWord(tiles, src, dst, y0, x0, y, wx, f);
      }
      NextRow(tiles, dst, y0, x0, y, f);
    }
    FinishFrame(tiles, dst, y0, x0, f);
  }

  /** One row of life2.c: a single 16-bit load decides whether to skip a word, and the centre and
      right columns slide along the row, reloaded only after a gap. */
  method SlideRow(tiles: TileMaps, src: array2<u16>, dst: array2<u16>, y0: nat, x0: nat, y: nat, ghost f: Frame)
    requires Running(tiles, src, dst, y0, x0, f)
    requires y < 8 * tiles.active.Length0
    requires Reached(tiles, dst, y0, x0, f, y, 0)
    modifies dst, tiles.live, tiles.dirty
    ensures Reached(tiles, dst, y0, x0, f, y + 1, 0)
  {
    hide Running, Reached, NextWord, Surround, Xor16, RowsAt, Load;
    RunningFits(tiles, src, dst, y0, x0, f);
    var h, w := 8 * tiles.active.Length0, tiles.active.Length1 / 2;
    var yPrev := if y == 0 then h - 1 else y - 1;
    var yNext := if y + 1 == h then 0 else y + 1;
    var ty := y / 8;
    var swUC, swUR, swMC, swMR, swDC, swDR := 0, 0, 0, 0, 0, 0;
    var needReload := true;
    for wx := 0 to w
      invariant Running(tiles, src, dst, y0, x0, f)
      invariant Reached(tiles, dst, y0, x0, f, y, wx)
      invariant !needReload && wx < w ==>
                  && wx > 0
                  && swUC == Load(src, y0, x0, yPrev, wx - 1) && swUR == Load(src, y0, x0, yPrev, wx)
                  && swMC == Load(src, y0, x0, y, wx - 1) && swMR == Load(src, y0, x0, y, wx)
                  && swDC == Load(src, y0, x0, yNext, wx - 1) && swDR == Load(src, y0, x0, yNext, wx)
    {
      var tileX := 2 * wx;
      if Pair(tiles.active[ty, tileX], tiles.active[ty, tileX + 1]) == 0 {
        needReload := true;
        SkipWord(tiles, src, dst, y0, x0, y, wx, f);
      } else {
        var uL, uC, mL, mC, dL, dC;
        if needReload {
          var wxLeft := if wx == 0 then w - 1 else wx - 1;
          uL, uC := Load(src, y0, x0, yPrev, wxLeft), Load(src, y0, x0, yPrev, wx);
          mL, mC := Load(src, y0, x0, y, wxLeft), Load(src, y0, x0, y, wx);
          dL, dC := Load(src, y0, x0, yNext, wxLeft), Load(src, y0, x0, yNext, wx);
          needReload := false;
        } else {
          uL, uC := swUC, swUR;
          mL, mC := swMC, swMR;
          dL, dC := swDC, swDR;
        }
        var wxRight := if wx + 1 == w then 0 else wx + 1;
        var uR, mR, dR :=
          Load(src, y0, x0, yPrev, wxRight), Load(src, y0, x0, y, wxRight), Load(src, y0, x0, yNext, wxRight);
        swUC, swUR := uC, uR;
        swMC, swMR := mC, mR;
        swDC, swDR := dC, dR;
        var rows := Surround(uL, uC, uR, mL, mC, mR, dL, dC, dR);
        LoadsMatch(tiles, src, dst, y0, x0, y, wx, f);
        LoadIsWindow(tiles, src, dst, y0, x0, f, y, wx);
        PlannedWord(tiles, src, dst, y0, x0, y, wx, f);
        EmitWord(tiles, dst, y0, x0, y, wx, NextWord(rows), mC, f);
      }
    }
    NextRow(tiles, dst, y0, x0, y, f);
  }

  /** `step_board` of life2.c. */
  method StepBoardSliding(tiles: TileMaps, src: array2<u16>, dst: array2<u16>, y0: nat, x0: nat)
    requires Fits(tiles, src, y0, x0) && Fits(tiles, dst, y0, x0) && src != dst
    modifies dst, tiles.active, tiles.live, tiles.dirty
    ensures Framed(tiles, dst, y0, x0, old(Plan(tiles, src, dst, y0, x0)))
  {
    hide Reached, Framed, Stepped, Changes, Window;
    ghost var f := Plan(tiles, src, dst, y0, x0);
    ClearFrame(tiles, dst, y0, x0, f);
    for y := 0 to 8 * tiles.active.Length0
      invariant Running(tiles, src, dst, y0, x0, f)
      invariant Reached(tiles, dst, y0, x0, f, y, 0)
    {
      SlideRow(tiles, src, dst, y0, x0, y, f);
    }
    FinishFrame(tiles, dst, y0, x0, f);
  }

  /** With an active map that is the dilation of the live tiles, a step is a step of naive Life on the torus
      of the window; the dirty map flags exactly the tiles that change, and the live and active maps are
      right for the next step. */
  method StepLife(tiles: TileMaps, src: array2<u16>, dst: array2<u16>, y0: nat, x0: nat)
    requires Fits(tiles, src, y0, x0) && Fits(tiles, dst, y0, x0) && src != dst
    requires IsDilation(tiles.active, Board8(tiles, src, y0, x0), 8)
    modifies dst, tiles.active, tiles.live, tiles.dirty
    ensures var before, after := old(Board8(tiles, src, y0, x0)), Board8(tiles, dst, y0, x0);
            var th, tw := tiles.active.Length0, tiles.active.Length1;
            && IsSuccessor(before, after, 8 * th, tw / 2)
            && IsLiveMap(tiles.live, after, 8) && IsDilation(tiles.active, after, 8)
            && forall i: nat, j: nat | i < th && j < tw ::
                 tiles.dirty[i, j] == Flag(TileChanged(before, after, th, tw, i, j))
  {
    hide Stepped, Changes, TileChanged, TileLive, Dilated, IsSuccessor, IsDilation;
    ghost var f := Plan(tiles, src, dst, y0, x0);
    ghost var th, tw := tiles.active.Length0, tiles.active.Length1;
    SkippingIsSound(f.window, tiles.active);
    forall i: nat, j: nat | i < th && j < tw
      ensures TileLive(f.changes, 8, th, tw, i, j) == TileChanged(f.window, f.result, th, tw, i, j)
    {
      DirtyIsChange(f.window, tiles.active, i, j);
    }
    StepBoardSliding(tiles, src, dst, y0, x0);
  }

  /** life2.c refines life.c: run side by side on equal boards and equal active maps (whatever the
      maps hold), they leave equal windows and equal tile maps. */
  method SideBySide(one: TileMaps, two: TileMaps, src1: array2<u16>, dst1: array2<u16>,
                    src2: array2<u16>, dst2: array2<u16>, y0: nat, x0: nat)
    requires Fits(one, src1, y0, x0) && Fits(one, dst1, y0, x0) && src1 != dst1
    requires Fits(two, src2, y0, x0) && Fits(two, dst2, y0, x0) && src2 != dst2
    requires dst1 != src2 && dst1 != dst2
    requires {one.active, one.live, one.dirty} !! {two.active, two.live, two.dirty}
    requires one.active.Length0 == two.active.Length0 && one.active.Length1 == two.active.Length1
    requires Board8(one, src1, y0, x0) == Board8(two, src2, y0, x0)
    requires forall i: nat, j: nat | i < one.active.Length0 && j < one.active.Length1 ::
               one.active[i, j] == two.active[i, j]
    modifies dst1, dst2, one.active, one.live, one.dirty, two.active, two.live, two.dirty
    ensures Board8(one, dst1, y0, x0) == Board8(two, dst2, y0, x0)
    ensures forall i: nat, j: nat | i < one.active.Length0 && j < one.active.Length1 ::
              && one.live[i, j] == two.live[i, j]
              && one.dirty[i, j] == two.dirty[i, j]
              && one.active[i, j] == two.active[i, j]
  {
    hide TileLive, Dilated;
    ghost var b := Board8(one, src1, y0, x0);
    SameStep(b, one.active, two.active);
    StepBoard(one, src1, dst1, y0, x0);
    StepBoardSliding(two, src2, dst2, y0, x0);
  }

  lemma {:induction false} SameStep(b: Board, a1: array2<u8>, a2: array2<u8>)
    requires a1.Length0 == a2.Length0 && a1.Length1 == a2.Length1 && a1.Length1 % 2 == 0
    requires IsTiled(b, 8, a1.Length0, a1.Length1)
    requires forall i: nat, j: nat | i < a1.Length0 && j < a1.Length1 :: a1[i, j] == a2[i, j]
    ensures Stepped(b, a1) == Stepped(b, a2) && Changes(b, a1) == Changes(b, a2)
  {
    hide WordAt, Xor16;
    var s1, s2 := Stepped(b, a1), Stepped(b, a2);
    var c1, c2 := Changes(b, a1), Changes(b, a2);
    forall y | 0 <= y < |b|
      ensures s1[y] == s2[y] && c1[y] == c2[y]
    {
      forall wx | 0 <= wx < |b[y]|
        ensures s1[y][wx] == s2[y][wx] && c1[y][wx] == c2[y][wx]
      {
        assert WordActive(a1, y / 8, wx) == WordActive(a2, y / 8, wx);
      }
    }
  }
}
