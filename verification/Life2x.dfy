/** The 2x demo of life2_2x.c: two boards that swap roles, the tile maps, and the video memory of
    the display. The frame loop keeps the picture equal to the board in every run. */
module Life2x {
  import opened Bits
  import opened LifeWord
  import opened LifeBoard
  import opened LifeTiles
  import opened LifeScaled
  import opened Options

  const VRAM_SIZE := 0x4000

  /** Boards that fit the tile maps; the code's inner loops need at least two words a row. */
  ghost predicate Fits(tiles: TileMaps, a: array2<u16>) {
    && tiles.Valid()
    && a.Length1 >= 2
    && a.Length0 == 4 * tiles.active.Length0
    && 4 * a.Length1 == tiles.active.Length1
  }

  ghost function BoardOf(tiles: TileMaps, a: array2<u16>): (b: Board)
    requires Fits(tiles, a)
    reads a
    ensures IsTiled(b, 4, tiles.active.Length0, tiles.active.Length1)
  {
    Cells(a)
  }

  method ClearBoard(b: array2<u16>)
    modifies b
    ensures forall y: nat, x: nat | y < b.Length0 && x < b.Length1 :: b[y, x] == 0
  {
    for y := 0 to b.Length0
      invariant forall i: nat, j: nat | i < y && j < b.Length1 :: b[i, j] == 0
    {
      for x := 0 to b.Length1
        invariant forall i: nat, j: nat | i < y && j < b.Length1 :: b[i, j] == 0
        invariant forall j: nat | j < x :: b[y, j] == 0
      {
        b[y, x] := 0;
      }
    }
  }

  /** Is any flag set in row `ty`? Two bytes are tested at a time. */
  method AnyInRow(m: array2<u8>, ty: nat) returns (any: bool)
    requires ty < m.Length0 && m.Length1 % 2 == 0
    ensures any == exists j: nat :: j < m.Length1 && m[ty, j] != 0
  {
    hide Or16;
    var acc: u16 := 0;
    var i := 0;
    while i < m.Length1
      invariant i <= m.Length1 && i % 2 == 0
      invariant (acc != 0) == exists j: nat :: j < i && m[ty, j] != 0
    {
      var p := Pair(m[ty, i], m[ty, i + 1]);
      OrNonZero(acc, p);
      acc := Or16(acc, p);
      i := i + 2;
    }
    any := acc != 0;
  }

  lemma {:induction false} OrNonZero(a: u16, b: u16)
    ensures (Or16(a, b) != 0) == (a != 0 || b != 0)
  {
  }

  /** One row of the successor: the left column of word 0 and the right column of the last word
      wrap, and in between the three columns slide. */
  method StepRow(tiles: TileMaps, src: array2<u16>, dst: array2<u16>, y: nat)
    requires Fits(tiles, src) && Fits(tiles, dst) && src != dst
    requires y < src.Length0
    modifies dst
    ensures forall i: nat, j: nat | i < dst.Length0 && j < dst.Length1 && i != y :: dst[i, j] == old(dst[i, j])
    ensures forall j: nat | j < dst.Length1 :: dst[y, j] == WordAt(BoardOf(tiles, src), src.Length0, src.Length1, y, j)
  {
    hide NextWord, Surround;
    ghost var b := BoardOf(tiles, src);
    var h, w := src.Length0, src.Length1;
    var yPrev := if y == 0 then h - 1 else y - 1;
    var yNext := if y + 1 == h then 0 else y + 1;
    var uC, mC, dC := src[yPrev, 0], src[y, 0], src[yNext, 0];
    var uR, mR, dR := src[yPrev, 1], src[y, 1], src[yNext, 1];
    dst[y, 0] := NextWord(Surround(src[yPrev, w - 1], uC, uR, src[y, w - 1], mC, mR, src[yNext, w - 1], dC, dR));
    for wx := 1 to w - 1
      invariant uC == src[yPrev, wx - 1] && mC == src[y, wx - 1] && dC == src[yNext, wx - 1]
      invariant uR == src[yPrev, wx] && mR == src[y, wx] && dR == src[yNext, wx]
      invariant forall i: nat, j: nat | i < h && j < w && i != y :: dst[i, j] == old(dst[i, j])
      invariant forall j: nat | j < wx :: dst[y, j] == WordAt(b, h, w, y, j)
    {
      var uL, mL, dL := uC, mC, dC;
      uC, mC, dC := uR, mR, dR;
      uR, mR, dR := src[yPrev, wx + 1], src[y, wx + 1], src[yNext, wx + 1];
      dst[y, wx] := NextWord(Surround(uL, uC, uR, mL, mC, mR, dL, dC, dR));
    }
    var uL, mL, dL := uC, mC, dC;
    uC, mC, dC := uR, mR, dR;
    uR, mR, dR := src[yPrev, 0], src[y, 0], src[yNext, 0];
    dst[y, w - 1] := NextWord(Surround(uL, uC, uR, mL, mC, mR, dL, dC, dR));
  }

  /** A tile row without an active tile has an empty successor, so it need not be computed. */
  lemma {:induction false} QuietRow(tiles: TileMaps, src: array2<u16>, ty: nat)
    requires Fits(tiles, src) && ty < tiles.active.Length0
    requires IsDilation(tiles.active, BoardOf(tiles, src), 4)
    requires forall j: nat | j < tiles.active.Length1 :: tiles.active[ty, j] == 0
    ensures forall y: nat, wx: nat | y / 4 == ty && wx < src.Length1 ::
              WordAt(BoardOf(tiles, src), src.Length0, src.Length1, y, wx) == 0
  {
    hide WordAt, Dilated;
    var b := BoardOf(tiles, src);
    var th, tw := tiles.active.Length0, tiles.active.Length1;
    forall y: nat, wx: nat | y / 4 == ty && wx < src.Length1
      ensures WordAt(b, src.Length0, src.Length1, y, wx) == 0
    {
      forall tx: nat | Start(4, tx) / 16 == wx && tx < tw
        ensures !Dilated(b, 4, th, tw, TileOf(4, y), tx)
      {
        assert tiles.active[ty, tx] == Flag(Dilated(b, 4, th, tw, ty, tx));
      }
      QuietWord(b, 4, th, tw, y, wx);
    }
  }

  /** The first pass of `step_board`: the successor board, tile row by tile row. */
  method ComputeSuccessor(tiles: TileMaps, src: array2<u16>, dst: array2<u16>)
    requires Fits(tiles, src) && Fits(tiles, dst) && src != dst
    requires IsDilation(tiles.active, BoardOf(tiles, src), 4)
    requires forall i: nat, j: nat | i < dst.Length0 && j < dst.Length1 :: dst[i, j] == 0
    modifies dst
    ensures BoardOf(tiles, dst) == Successor(BoardOf(tiles, src), src.Length0, src.Length1)
  {
    hide WordAt, IsDilation;
    ghost var b := BoardOf(tiles, src);
    var th := tiles.active.Length0;
    ghost var h, w := src.Length0, src.Length1;
    for ty := 0 to th
      invariant forall i: nat, j: nat | i < h && j < w :: dst[i, j] == if i < 4 * ty then WordAt(b, h, w, i, j) else 0
    {
      var rowActive := AnyInRow(tiles.active, ty);
      if !rowActive {
        QuietRow(tiles, src, ty);
      } else {
        for dy := 0 to 4
          invariant forall i: nat, j: nat | i < h && j < w ::
                      dst[i, j] == if i < 4 * ty + dy then WordAt(b, h, w, i, j) else 0
        {
          StepRow(tiles, src, dst, 4 * ty + dy);
        }
      }
    }
    SameBoard(BoardOf(tiles, dst), Successor(b, h, w), h, w);
  }

  lemma {:induction false} SameBoard(a: Board, b: Board, h: nat, w: nat)
    requires IsBoard(a, h, w) && IsBoard(b, h, w)
    requires forall y: nat, x: nat | y < h && x < w :: a[y][x] == b[y][x]
    ensures a == b
  {
    forall y | 0 <= y < h
      ensures a[y] == b[y]
    {
    }
  }

  /** Sets the flags of the four tiles of word `wx` whose nibble of `v` is not zero. */
  method MarkQuad(flags: array2<u8>, ty: nat, wx: nat, v: u16)
    requires ty < flags.Length0 && 4 * wx + 3 < flags.Length1
    modifies flags
    ensures forall i: nat, j: nat | i < flags.Length0 && j < flags.Length1 ::
              flags[i, j] == if i == ty && j / 4 == wx && And16(v, TileMask(4, j)) != 0 then 1 else old(flags[i, j])
  {
    hide And16;
    var tileX := 4 * wx;
    if And16(v, 0xF000) != 0 {
      flags[ty, tileX] := 1;
    }
    if And16(v, 0x0F00) != 0 {
      flags[ty, tileX + 1] := 1;
    }
    if And16(v, 0x00F0) != 0 {
      flags[ty, tileX + 2] := 1;
    }
    if And16(v, 0x000F) != 0 {
      flags[ty, tileX + 3] := 1;
    }
  }

  /** The flags of `m` are right for the tiles of `b` before word `wx` of tile row `ty`, and clear after. */
  ghost predicate FlaggedUpTo(m: array2<u8>, b: Board, ty: nat, wx: nat)
    requires IsTiled(b, 4, m.Length0, m.Length1)
    reads m
  {
    forall i: nat, j: nat | i < m.Length0 && j < m.Length1 ::
      m[i, j] == Flag((i < ty || (i == ty && j / 4 < wx)) && TileLive(b, 4, m.Length0, m.Length1, i, j))
  }

  /** The second pass: four rows are accumulated per tile row, then each nibble is tested. */
  method BuildLiveDirty(tiles: TileMaps, src: array2<u16>, dst: array2<u16>)
    requires Fits(tiles, src) && Fits(tiles, dst) && src != dst
    requires FlaggedUpTo(tiles.live, BoardOf(tiles, dst), 0, 0)
    requires FlaggedUpTo(tiles.dirty, Difference(BoardOf(tiles, dst), BoardOf(tiles, src), dst.Length0, dst.Length1),
                         0, 0)
    modifies tiles.live, tiles.dirty
    ensures IsLiveMap(tiles.live, BoardOf(tiles, dst), 4)
    ensures IsLiveMap(tiles.dirty, Difference(BoardOf(tiles, dst), BoardOf(tiles, src), dst.Length0, dst.Length1), 4)
  {
    hide And16, Or16, Xor16, TileMask, TileLive;
    ghost var after := BoardOf(tiles, dst);
    ghost var diff := Difference(after, BoardOf(tiles, src), dst.Length0, dst.Length1);
    for ty := 0 to tiles.active.Length0
      invariant FlaggedUpTo(tiles.live, after, ty, 0) && FlaggedUpTo(tiles.dirty, diff, ty, 0)
    {
      for wx := 0 to dst.Length1
        invariant FlaggedUpTo(tiles.live, after, ty, wx) && FlaggedUpTo(tiles.dirty, diff, ty, wx)
      {
        var liveAcc, dirtyAcc := AccumulateWord(src, dst, ty, wx);
        FlagWord(tiles.live, after, ty, wx, liveAcc);
        FlagWord(tiles.dirty, diff, ty, wx, dirtyAcc);
      }
    }
  }

  method FlagWord(flags: array2<u8>, ghost b: Board, ty: nat, wx: nat, acc: u16)
    requires IsTiled(b, 4, flags.Length0, flags.Length1) && ty < flags.Length0 && wx < flags.Length1 / 4
    requires FlaggedUpTo(flags, b, ty, wx)
    requires acc == Acc(b[4 * ty][wx], b[4 * ty + 1][wx], b[4 * ty + 2][wx], b[4 * ty + 3][wx])
    modifies flags
    ensures FlaggedUpTo(flags, b, ty, wx + 1)
  {
    hide And16, Acc, TileMask, TileLive;
    MarkQuad(flags, ty, wx, acc);
    forall j: nat | j < flags.Length1 && j / 4 == wx
      ensures (And16(acc, TileMask(4, j)) != 0) == TileLive(b, 4, flags.Length0, flags.Length1, ty, j)
    {
      AccTile(b, flags.Length0, flags.Length1, ty, j);
    }
  }

  method AccumulateWord(src: array2<u16>, dst: array2<u16>, ty: nat, wx: nat) returns (liveAcc: u16, dirtyAcc: u16)
    requires 4 * ty + 3 < dst.Length0 && wx < dst.Length1
    requires src.Length0 == dst.Length0 && src.Length1 == dst.Length1
    ensures liveAcc == Acc(dst[4 * ty, wx], dst[4 * ty + 1, wx], dst[4 * ty + 2, wx], dst[4 * ty + 3, wx])
    ensures dirtyAcc == Acc(Xor16(dst[4 * ty, wx], src[4 * ty, wx]), Xor16(dst[4 * ty + 1, wx], src[4 * ty + 1, wx]),
                            Xor16(dst[4 * ty + 2, wx], src[4 * ty + 2, wx]),
                            Xor16(dst[4 * ty + 3, wx], src[4 * ty + 3, wx]))
  {
    hide Or16, Xor16;
    liveAcc, dirtyAcc := 0, 0;
    ghost var lives, dirts := [liveAcc], [dirtyAcc];
    for row := 0 to 4
      invariant |lives| == |dirts| == row + 1 && lives[0] == 0 && dirts[0] == 0
      invariant lives[row] == liveAcc && dirts[row] == dirtyAcc
      invariant forall r | 0 <= r < row :: lives[r + 1] == Or16(lives[r], dst[4 * ty + r, wx])
      invariant forall r | 0 <= r < row ::
                  dirts[r + 1] == Or16(dirts[r], Xor16(dst[4 * ty + r, wx], src[4 * ty + r, wx]))
    {
      liveAcc := Or16(liveAcc, dst[4 * ty + row, wx]);
      dirtyAcc := Or16(dirtyAcc, Xor16(dst[4 * ty + row, wx], src[4 * ty + row, wx]));
      lives, dirts := lives + [liveAcc], dirts + [dirtyAcc];
    }
    assert lives[0 + 1] == Or16(0, dst[4 * ty, wx]) && lives[1 + 1] == Or16(lives[1], dst[4 * ty + 1, wx]);
    assert lives[2 + 1] == Or16(lives[2], dst[4 * ty + 2, wx]) && lives[3 + 1] == Or16(lives[3], dst[4 * ty + 3, wx]);
    assert dirts[0 + 1] == Or16(0, Xor16(dst[4 * ty, wx], src[4 * ty, wx]));
    assert dirts[1 + 1] == Or16(dirts[1], Xor16(dst[4 * ty + 1, wx], src[4 * ty + 1, wx]));
    assert dirts[2 + 1] == Or16(dirts[2], Xor16(dst[4 * ty + 2, wx], src[4 * ty + 2, wx]));
    assert dirts[3 + 1] == Or16(dirts[3], Xor16(dst[4 * ty + 3, wx], src[4 * ty + 3, wx]));
  }

  /** `step_board`: with the active map a dilation of the live tiles, the destination becomes the
      naive Life successor, and all three maps are exact for it. */
  method StepBoard(tiles: TileMaps, src: array2<u16>, dst: array2<u16>)
    requires Fits(tiles, src) && Fits(tiles, dst) && src != dst
    requires IsDilation(tiles.active, BoardOf(tiles, src), 4)
    modifies dst, tiles.active, tiles.live, tiles.dirty
    ensures IsSuccessor(BoardOf(tiles, src), BoardOf(tiles, dst), src.Length0, src.Length1)
    ensures IsLiveMap(tiles.live, BoardOf(tiles, dst), 4)
    ensures IsLiveMap(tiles.dirty, Difference(BoardOf(tiles, dst), BoardOf(tiles, src), dst.Length0, dst.Length1), 4)
    ensures IsDilation(tiles.active, BoardOf(tiles, dst), 4)
  {
    hide TileLive, Around, Dilated, IsSuccessor, Successor, Difference;
    ClearBoard(dst);
    tiles.ClearLiveDirty();
    ComputeSuccessor(tiles, src, dst);
    SuccessorIsLife(BoardOf(tiles, src), BoardOf(tiles, dst), src.Length0, src.Length1);
    BuildLiveDirty(tiles, src, dst);
    tiles.BuildActiveFromLive();
    DilationOfLive(tiles, BoardOf(tiles, dst), 4);
  }

  /** `build_active_tiles`: scans the board itself, nibble by nibble. */
  method BuildActiveTiles(tiles: TileMaps, src: array2<u16>)
    requires Fits(tiles, src)
    modifies tiles.active
    ensures IsDilation(tiles.active, BoardOf(tiles, src), 4)
  {
    hide TileLive, Near, Around, Dilated;
    ghost var b, th, tw := BoardOf(tiles, src), tiles.active.Length0, tiles.active.Length1;
    ghost var all := set ty: nat, tx: nat | ty < th && tx < tw && TileLive(b, 4, th, tw, ty, tx) :: (ty, tx);
    ghost var s: TileSet := {};
    tiles.ClearActive();
    NothingAround(th, tw);
    for ty := 0 to tiles.active.Length0
      invariant IsDilationOf(tiles.active, s) && ScannedUpTo(s, all, ty, 0)
    {
      for tx := 0 to tiles.active.Length1
        invariant IsDilationOf(tiles.active, s) && ScannedUpTo(s, all, ty, tx)
      {
        var any := AnyNibble(tiles, src, ty, tx);
        if any != 0 {
          tiles.MarkAround(ty, tx, s);
          s := s + {(ty, tx)};
        }
      }
    }
    assert s == all;
    forall i: nat, j: nat | i < th && j < tw
      ensures tiles.active[i, j] == Flag(Dilated(b, 4, th, tw, i, j))
    {
      AroundIsDilated(all, b, 4, th, tw, i, j);
    }
  }

  lemma {:induction false} NothingAround(th: nat, tw: nat)
    ensures forall i: nat, j: nat | i < th && j < tw :: !Around({}, th, tw, i, j)
  {
  }

  /** The "or" of the nibbles of one tile, one byte load per row. */
  method AnyNibble(tiles: TileMaps, src: array2<u16>, ty: nat, tx: nat) returns (any: u8)
    requires Fits(tiles, src) && ty < tiles.active.Length0 && tx < tiles.active.Length1
    ensures (any != 0) == TileLive(BoardOf(tiles, src), 4, tiles.active.Length0, tiles.active.Length1, ty, tx)
  {
    hide TileLive, AnyLane, Offset;
    ghost var b, th, tw := BoardOf(tiles, src), tiles.active.Length0, tiles.active.Length1;
    any := 0;
    for row := 0 to 4
      invariant any < 16
      invariant (any != 0) == exists r: nat :: r < row && TileRow(b, th, tw, ty, tx, r)
    {
      var w := src[4 * ty + row, tx / 4];
      var v := ByteOf(w, tx / 2);
      var nibble := if tx % 2 == 1 then v % 16 else v / 16;
      NibbleTest(w, tx);
      assert (nibble != 0) == TileRow(b, th, tw, ty, tx, row);
      assert Pow2(4) == 16;
      OrBound(any, nibble, 4);
      any := Or(any, nibble);
    }
    TileByRows(b, th, tw, ty, tx);
  }

  /** Is the history legal input: boards of the demo's size? */
  ghost predicate AreSeeds(inputs: seq<Option<Board>>, h: nat, w: nat) {
    forall i | 0 <= i < |inputs| && inputs[i].Some? :: IsBoard(inputs[i].value, h, w)
  }

  /** The boards of a run, by the naive rule: a frame steps, or is reseeded. */
  ghost predicate IsHistory(boards: seq<Board>, seed: Board, inputs: seq<Option<Board>>, h: nat, w: nat) {
    && |boards| == |inputs| + 1 && boards[0] == seed
    && (forall i | 0 <= i < |boards| :: IsBoard(boards[i], h, w))
    && forall i | 0 <= i < |inputs| :: Follows(boards, inputs, h, w, i)
  }

  ghost predicate Follows(boards: seq<Board>, inputs: seq<Option<Board>>, h: nat, w: nat, i: nat)
    requires i < |inputs| && i + 1 < |boards| && IsBoard(boards[i], h, w)
  {
    if inputs[i].Some? then boards[i + 1] == inputs[i].value else IsSuccessor(boards[i], boards[i + 1], h, w)
  }

  /** The naive rule leaves no choice. */
  lemma {:induction false} HistoryUnique(a: seq<Board>, b: seq<Board>, seed: Board, inputs: seq<Option<Board>>,
                                         h: nat, w: nat, k: nat)
    requires IsHistory(a, seed, inputs, h, w) && IsHistory(b, seed, inputs, h, w) && k < |a|
    ensures a[k] == b[k]
    decreases k
  {
    hide IsSuccessor;
    if k > 0 {
      HistoryUnique(a, b, seed, inputs, h, w, k - 1);
      assert Follows(a, inputs, h, w, k - 1) && Follows(b, inputs, h, w, k - 1);
      if inputs[k - 1].None? {
        SuccessorIsLife(a[k - 1], a[k], h, w);
        SuccessorIsLife(a[k - 1], b[k], h, w);
      }
    }
  }

  lemma {:induction false} HistoryGrows(boards: seq<Board>, seed: Board, inputs: seq<Option<Board>>, next: Board,
                                        h: nat, w: nat, i: nat)
    requires i < |inputs| && IsHistory(boards, seed, inputs[..i], h, w) && IsBoard(next, h, w)
    requires if inputs[i].Some? then next == inputs[i].value else IsSuccessor(boards[i], next, h, w)
    ensures IsHistory(boards + [next], seed, inputs[..i + 1], h, w)
  {
    hide IsSuccessor;
    var boards', inputs' := boards + [next], inputs[..i + 1];
    forall k | 0 <= k < |inputs'|
      ensures Follows(boards', inputs', h, w, k)
    {
      assert k < i ==> Follows(boards, inputs[..i], h, w, k);
    }
  }

  class Demo {
    const tiles: TileMaps
    var cur: array2<u16>
    var next: array2<u16>
    const vram: array<u8>
    var vaddr: nat

    /** The screen has 24 rows of 32 characters. */
    ghost predicate Sized()
      reads this
    {
      && Fits(tiles, cur) && Fits(tiles, next) && cur != next
      && tiles.active.Length0 <= 24 && tiles.active.Length1 <= 32
      && vram.Length == VRAM_SIZE
    }

    ghost function Board(): (b: Board)
      requires Sized()
      reads this, cur
      ensures IsTiled(b, 4, tiles.active.Length0, tiles.active.Length1)
    {
      BoardOf(tiles, cur)
    }

    /** What holds between frames: the active map is right and the screen shows the board. */
    ghost predicate Valid()
      reads this, cur, tiles.active, vram
    {
      && Sized()
      && IsDilation(tiles.active, Board(), 4)
      && Shows(Board())
    }

    ghost predicate Shows(b: Board)
      requires Sized() && IsTiled(b, 4, tiles.active.Length0, tiles.active.Length1)
      reads this, vram
    {
      forall ty: nat | ty < tiles.active.Length0 ::
        RowShown(vram[..], b, tiles.active.Length0, tiles.active.Length1, ty)
    }

    /** Allocation only; the video memory starts cleared. */
    constructor (th: nat, w: nat)
      requires 0 < th <= 24 && 2 <= w <= 8
      ensures Sized() && cur.Length0 == 4 * th && cur.Length1 == w
      ensures fresh(cur) && fresh(next) && fresh(vram) && fresh(tiles)
      ensures fresh(tiles.active) && fresh(tiles.live) && fresh(tiles.dirty)
    {
      tiles := new TileMaps(th, 4 * w);
      cur := new u16[4 * th, w]((i, j) => 0);
      next := new u16[4 * th, w]((i, j) => 0);
      vram := new u8[VRAM_SIZE](i => 0);
      vaddr := 0;
    }

    /** No tile of row `ty` is marked dirty. */
    ghost predicate CleanRow(ty: nat)
      requires Sized() && ty < tiles.active.Length0
      reads this, tiles.dirty
    {
      forall tx: nat | tx < tiles.active.Length1 :: tiles.dirty[ty, tx] == 0
    }

    /** The tile rows that a redraw would skip show `b` already. */
    ghost predicate CleanRowsShow(b: Board)
      requires Sized() && IsTiled(b, 4, tiles.active.Length0, tiles.active.Length1)
      reads this, tiles.dirty, vram
    {
      forall ty: nat | ty < tiles.active.Length0 && CleanRow(ty) ::
        RowShown(vram[..], b, tiles.active.Length0, tiles.active.Length1, ty)
    }

    method VdpSetWriteAddr(addr: nat)
      requires addr < 0x4000
      modifies this`vaddr
      ensures vaddr == addr
    {
      vaddr := addr;
    }

    /** A data write stores a byte and advances the address. */
    method VdpData(v: u8)
      requires vram.Length == VRAM_SIZE && vaddr < VRAM_SIZE
      modifies this`vaddr, vram
      ensures vram[..] == old(vram[..])[old(vaddr) := v]
      ensures vaddr == (old(vaddr) + 1) % VRAM_SIZE
    {
      vram[vaddr] := v;
      vaddr := (vaddr + 1) % VRAM_SIZE;
    }

    method StreamTwice(e: u8)
      requires vram.Length == VRAM_SIZE && vaddr + 2 < VRAM_SIZE
      modifies this`vaddr, vram
      ensures vaddr == old(vaddr) + 2
      ensures forall k: nat | k < VRAM_SIZE :: vram[k] == if old(vaddr) <= k < old(vaddr) + 2 then e else old(vram[k])
    {
      VdpData(e);
      VdpData(e);
    }

    /** Streams one tile: each of four nibbles, expanded, twice. */
    method StreamTile(n: seq<nat>)
      requires |n| == 4 && forall i | 0 <= i < 4 :: n[i] < 16
      requires vram.Length == VRAM_SIZE && vaddr + 8 < VRAM_SIZE
      modifies this`vaddr, vram
      ensures vaddr == old(vaddr) + 8
      ensures forall k: nat | k < VRAM_SIZE ::
                vram[k] == if old(vaddr) <= k < old(vaddr) + 8 then Expand4(n[(k - old(vaddr)) / 2]) else old(vram[k])
    {
      hide Expand4;
      StreamTwice(Expand4(n[0]));
      StreamTwice(Expand4(n[1]));
      StreamTwice(Expand4(n[2]));
      StreamTwice(Expand4(n[3]));
    }

    /** The pattern of tile (ty, tx), streamed at its place. */
    method StreamTileAt(b: array2<u16>, ty: nat, tx: nat, n: seq<nat>)
      requires Sized() && Fits(tiles, b)
      requires ty < tiles.active.Length0 && tx < tiles.active.Length1 && vaddr == 256 * ty + 8 * tx
      requires |n| == 4 && forall i: nat | i < 4 :: n[i] == Nibble(b[4 * ty + i, tx / 4], tx)
      modifies this`vaddr, vram
      ensures vaddr == old(vaddr) + 8
      ensures TileShown(vram[..], BoardOf(tiles, b), tiles.active.Length0, tiles.active.Length1, ty, tx)
      ensures forall k: nat | k < VRAM_SIZE && !(256 * ty + 8 * tx <= k < 256 * ty + 8 * tx + 8) ::
                vram[k] == old(vram[k])
    {
      hide Expand4, Nibble;
      ghost var board, th, tw := BoardOf(tiles, b), tiles.active.Length0, tiles.active.Length1;
      StreamTile(n);
      forall r: nat | r < 8
        ensures vram[256 * ty + 8 * tx + r] == TileByte(board, th, tw, ty, tx, r)
      {
        assert n[r / 2] == Nibble(b[4 * ty + r / 2, tx / 4], tx);
      }
    }

    /** The two nibbles of byte `i` of a row belong to tile columns 2i and 2i + 1. */
    static lemma {:induction false} NibblesOfByte(w: u16, i: nat)
      ensures 2 * i / 4 == i / 2 && (2 * i + 1) / 4 == i / 2
      ensures Nibble(w, 2 * i) == ByteOf(w, i) / 16 && Nibble(w, 2 * i + 1) == ByteOf(w, i) % 16
    {
      hide ByteOf;
    }

    /** The two tiles of byte `i` in the four cell rows of tile row `ty`. */
    method StreamBytes(b: array2<u16>, ty: nat, i: nat)
      requires Sized() && Fits(tiles, b)
      requires ty < tiles.active.Length0 && i < 2 * b.Length1 && vaddr == 256 * ty + 16 * i
      requires forall tx: nat | tx < 2 * i ::
                 TileShown(vram[..], BoardOf(tiles, b), tiles.active.Length0, tiles.active.Length1, ty, tx)
      modifies this`vaddr, vram
      ensures vaddr == old(vaddr) + 16
      ensures forall tx: nat | tx < 2 * (i + 1) ::
                TileShown(vram[..], BoardOf(tiles, b), tiles.active.Length0, tiles.active.Length1, ty, tx)
      ensures forall k: nat | k < VRAM_SIZE && !(256 * ty <= k < 256 * ty + 256) :: vram[k] == old(vram[k])
    {
      hide TileShown, ByteOf, Nibble;
      ghost var board, th, tw := BoardOf(tiles, b), tiles.active.Length0, tiles.active.Length1;
      var cellY := 4 * ty;
      var v0 := ByteOf(b[cellY, i / 2], i);
      var v1 := ByteOf(b[cellY + 1, i / 2], i);
      var v2 := ByteOf(b[cellY + 2, i / 2], i);
      var v3 := ByteOf(b[cellY + 3, i / 2], i);
      NibblesOfByte(b[cellY, i / 2], i);
      NibblesOfByte(b[cellY + 1, i / 2], i);
      NibblesOfByte(b[cellY + 2, i / 2], i);
      NibblesOfByte(b[cellY + 3, i / 2], i);
      StreamTileAt(b, ty, 2 * i, [v0 / 16, v1 / 16, v2 / 16, v3 / 16]);
      ghost var mid := vram[..];
      StreamTileAt(b, ty, 2 * i + 1, [v0 % 16, v1 % 16, v2 % 16, v3 % 16]);
      TileFrame(mid, vram[..], board, th, tw, ty, 2 * i);
      forall tx: nat | tx < 2 * i
        ensures TileShown(vram[..], board, th, tw, ty, tx)
      {
        TileFrame(old(vram[..]), vram[..], board, th, tw, ty, tx);
      }
    }

    /** Streams one character row: for each byte of the four cell rows, the tiles of its two nibbles. */
    method StreamRow(b: array2<u16>, ty: nat)
      requires Sized() && Fits(tiles, b)
      requires ty < tiles.active.Length0 && vaddr == 256 * ty
      modifies this`vaddr, vram
      ensures RowShown(vram[..], BoardOf(tiles, b), tiles.active.Length0, tiles.active.Length1, ty)
      ensures forall i: nat | i < VRAM_SIZE && !(256 * ty <= i < 256 * ty + 256) :: vram[i] == old(vram[i])
    {
      hide TileShown;
      for i := 0 to 2 * b.Length1
        invariant vaddr == 256 * ty + 16 * i
        invariant forall tx: nat | tx < 2 * i ::
                    TileShown(vram[..], BoardOf(tiles, b), tiles.active.Length0, tiles.active.Length1, ty, tx)
        invariant forall k: nat | k < VRAM_SIZE && !(256 * ty <= k < 256 * ty + 256) :: vram[k] == old(vram[k])
      {
        StreamBytes(b, ty, i);
      }
    }

    /** `vdp_write_tile_scaled`: one tile, at its character of the region that starts at the given character. */
    method WriteTileScaled(ty: nat, tx: nat, rowStart: nat, colStart: nat, b: array2<u16>)
      requires Sized() && Fits(tiles, b) && ty < tiles.active.Length0 && tx < tiles.active.Length1
      requires rowStart + ty < 24 && colStart + tx < 32
      modifies this`vaddr, vram
      ensures TileWritten(old(vram[..]), vram[..], PatternAddr(rowStart + ty, colStart + tx), BoardOf(tiles, b),
                          tiles.active.Length0, tiles.active.Length1, ty, tx)
    {
      hide Expand4, PatternAddr, Nibble, TileByte, ByteOf;
      ghost var board, th, tw := BoardOf(tiles, b), tiles.active.Length0, tiles.active.Length1;
      PatternAddrLinear(rowStart + ty, colStart + tx);
      ghost var at := PatternAddr(rowStart + ty, colStart + tx);
      VdpSetWriteAddr(PatternAddr(rowStart + ty, colStart + tx));
      for row := 0 to 4
        invariant vaddr == at + 2 * row
        invariant forall k: nat | k < VRAM_SIZE ::
                    vram[k] == if at <= k < at + 2 * row then TileByte(board, th, tw, ty, tx, k - at) else old(vram[k])
      {
        var v := ByteOf(b[4 * ty + row, tx / 4], tx / 2);
        NibbleOfByte(b[4 * ty + row, tx / 4], tx);
        var nibble := if tx % 2 == 1 then v % 16 else v / 16;
        PatternRow(board, th, tw, ty, tx, row);
        StreamTwice(Expand4(nibble));
      }
    }

    /** Two bytes of a pattern show one row of its tile. */
    static lemma {:induction false} PatternRow(b: LifeBoard.Board, th: nat, tw: nat, ty: nat, tx: nat, row: nat)
      requires IsTiled(b, 4, th, tw) && ty < th && tx < tw && row < 4
      ensures var e := Expand4(Nibble(b[4 * ty + row][tx / 4], tx));
              TileByte(b, th, tw, ty, tx, 2 * row) == e && TileByte(b, th, tw, ty, tx, 2 * row + 1) == e
    {
      hide Expand4, Nibble;
    }

    /** The eight bytes at `at` become the pattern of tile (ty, tx); the others stay. */
    static ghost predicate TileWritten(v: seq<u8>, w: seq<u8>, at: nat, b: LifeBoard.Board, th: nat, tw: nat,
                                       ty: nat, tx: nat)
      requires IsTiled(b, 4, th, tw) && ty < th && tx < tw
    {
      && |v| == |w|
      && forall k: nat | k < |w| :: w[k] == if at <= k < at + 8 then TileByte(b, th, tw, ty, tx, k - at) else v[k]
    }

    /** Writing a tile where it is shown already changes nothing. */
    static lemma {:induction false} TileAlready(v: seq<u8>, w: seq<u8>, b: LifeBoard.Board, th: nat, tw: nat,
                                                ty: nat, tx: nat)
      requires IsTiled(b, 4, th, tw) && ty < th && tx < tw && TileShown(v, b, th, tw, ty, tx)
      requires TileWritten(v, w, 256 * ty + 8 * tx, b, th, tw, ty, tx)
      ensures v == w
    {
      hide TileByte;
      forall k: nat | k < |v|
        ensures v[k] == w[k]
      {
        if 256 * ty + 8 * tx <= k < 256 * ty + 8 * tx + 8 {
          assert v[256 * ty + 8 * tx + (k - 256 * ty - 8 * tx)] == TileByte(b, th, tw, ty, tx, k - 256 * ty - 8 * tx);
        }
      }
    }

    static lemma {:induction false} NibbleOfByte(w: u16, tx: nat)
      ensures Nibble(w, tx) == if tx % 2 == 1 then ByteOf(w, tx / 2) % 16 else ByteOf(w, tx / 2) / 16
    {
      hide ByteOf;
    }

    static lemma {:induction false} RegionAtOrigin(th: nat)
      requires 23 <= th <= 24
      ensures RegionRow(th) == 0 && RegionColumn(8) == 0
    {
    }

    /** At full width and with 23 or 24 tile rows the two writers agree: writing the tiles of a streamed row one
        by one, each at its place of the centred region, changes no byte. */
    method RewriteRow(b: array2<u16>, ty: nat)
      requires Sized() && Fits(tiles, b) && b.Length1 == 8 && tiles.active.Length0 >= 23
      requires ty < tiles.active.Length0 && vaddr == 256 * ty
      modifies this`vaddr, vram
      ensures RowShown(vram[..], BoardOf(tiles, b), tiles.active.Length0, tiles.active.Length1, ty)
      ensures forall k: nat | k < VRAM_SIZE && !(256 * ty <= k < 256 * ty + 256) :: vram[k] == old(vram[k])
    {
      hide TileByte, PatternAddr, TileShown, TileWritten;
      ghost var board, th, tw := BoardOf(tiles, b), tiles.active.Length0, tiles.active.Length1;
      StreamRow(b, ty);
      ghost var streamed := vram[..];
      RegionAtOrigin(th);
      for tx := 0 to tiles.active.Length1
        invariant vram[..] == streamed
      {
        PatternAddrLinear(RegionRow(th) + ty, RegionColumn(8) + tx);
        assert TileShown(streamed, board, th, tw, ty, tx);
        WriteTileScaled(ty, tx, RegionRow(tiles.active.Length0), RegionColumn(8), b);
        TileAlready(streamed, vram[..], board, th, tw, ty, tx);
      }
    }

    /** Does byte `k` of the video memory lie outside the pictures of the tile rows with a dirty tile? */
    ghost predicate Untouched(k: nat)
      requires Sized()
      reads this, tiles.dirty
    {
      k / 256 < tiles.active.Length0 ==> CleanRow(k / 256)
    }

    /** `vdp_write_dirty_patterns`: rewrites the tile rows that hold a dirty tile, and only those. */
    method WriteDirtyPatterns(b: array2<u16>)
      requires Sized() && Fits(tiles, b)
      requires CleanRowsShow(BoardOf(tiles, b))
      modifies this`vaddr, vram
      ensures Shows(BoardOf(tiles, b))
      ensures forall k: nat | k < VRAM_SIZE && Untouched(k) :: vram[k] == old(vram[k])
    {
      hide RowShown;
      ghost var board, th, tw := BoardOf(tiles, b), tiles.active.Length0, tiles.active.Length1;
      var vdpAddr := 0;
      for ty := 0 to tiles.active.Length0
        invariant vdpAddr == 256 * ty
        invariant forall i: nat | i < ty :: RowShown(vram[..], board, th, tw, i)
        invariant forall i: nat | 256 * ty <= i < VRAM_SIZE :: vram[i] == old(vram[i])
        invariant forall k: nat | k < VRAM_SIZE && Untouched(k) :: vram[k] == old(vram[k])
      {
        var rowDirty := AnyInRow(tiles.dirty, ty);
        label before:
        if rowDirty {
          VdpSetWriteAddr(vdpAddr);
          StreamRow(b, ty);
        } else {
          RowFrame(old(vram[..]), vram[..], board, th, tw, ty);
        }
        forall i: nat | i < ty
          ensures RowShown(vram[..], board, th, tw, i)
        {
          RowFrame(old@before(vram[..]), vram[..], board, th, tw, i);
        }
        vdpAddr := vdpAddr + 256;
      }
    }

    /** A row's picture depends only on its own 256 bytes. */
    lemma {:induction false} RowFrame(v: seq<u8>, w: seq<u8>, b: Board, th: nat, tw: nat, ty: nat)
      requires IsTiled(b, 4, th, tw) && ty < th && 256 * th <= |v| == |w| && tw <= 32
      requires RowShown(v, b, th, tw, ty)
      requires forall i: nat | 256 * ty <= i < 256 * ty + 256 :: v[i] == w[i]
      ensures RowShown(w, b, th, tw, ty)
    {
      hide TileShown;
      forall tx: nat | tx < tw
        ensures TileShown(w, b, th, tw, ty, tx)
      {
        TileFrame(v, w, b, th, tw, ty, tx);
      }
    }

    /** Writes arbitrary cells into the current board, then rebuilds what depends on them. */
    method Reseed(seed: Board)
      requires Sized() && IsBoard(seed, cur.Length0, cur.Length1)
      modifies cur, tiles.active, tiles.dirty
      ensures Board() == seed
      ensures IsDilation(tiles.active, seed, 4)
      ensures forall ty: nat | ty < tiles.active.Length0 :: !CleanRow(ty)
    {
      for y := 0 to cur.Length0
        invariant forall i: nat, j: nat | i < y && j < cur.Length1 :: cur[i, j] == seed[i][j]
      {
        for x := 0 to cur.Length1
          invariant forall i: nat, j: nat | i < y && j < cur.Length1 :: cur[i, j] == seed[i][j]
          invariant forall j: nat | j < x :: cur[y, j] == seed[y][j]
        {
          cur[y, x] := seed[y][x];
        }
      }
      SameBoard(Board(), seed, cur.Length0, cur.Length1);
      BuildActiveTiles(tiles, cur);
      tiles.MarkAllDirty();
      forall ty: nat | ty < tiles.active.Length0
        ensures !CleanRow(ty)
      {
        assert tiles.dirty[ty, 0] == 1;
      }
    }

    /** After a step, a tile row without a dirty flag still shows the new board. */
    lemma {:induction false} CleanRows(before: Board, after: Board)
      requires Sized() && IsTiled(before, 4, tiles.active.Length0, tiles.active.Length1) && Shows(before)
      requires IsTiled(after, 4, tiles.active.Length0, tiles.active.Length1)
      requires IsLiveMap(tiles.dirty, Difference(after, before, cur.Length0, cur.Length1), 4)
      ensures CleanRowsShow(after)
    {
      hide RowShown, TileLive, Difference;
      var th, tw := tiles.active.Length0, tiles.active.Length1;
      forall ty: nat | ty < th && CleanRow(ty)
        ensures RowShown(vram[..], after, th, tw, ty)
      {
        forall tx: nat | tx < tw
          ensures !TileLive(Difference(after, before, 4 * th, tw / 4), 4, th, tw, ty, tx)
        {
          assert tiles.dirty[ty, tx] == Flag(TileLive(Difference(after, before, 4 * th, tw / 4), 4, th, tw, ty, tx));
        }
        CleanRowShown(vram[..], before, after, th, tw, ty);
      }
    }

    /** One pass of the frame loop: swap, step, perhaps reseed, redraw what is dirty. */
    method Frame(input: Option<Board>)
      requires Valid()
      requires input.Some? ==> IsBoard(input.value, cur.Length0, cur.Length1)
      modifies this`cur, this`next, this`vaddr, cur, next, tiles.active, tiles.live, tiles.dirty, vram
      ensures Valid() && {cur, next} == old({cur, next})
      ensures cur.Length0 == old(cur.Length0) && cur.Length1 == old(cur.Length1)
      ensures Board() == if input.Some? then input.value else old(Successor(Board(), cur.Length0, cur.Length1))
    {
      hide RowShown, IsDilation, TileLive, IsLiveMap, IsSuccessor, Successor, Difference;
      ghost var before := Board();
      var tmp := cur;
      cur := next;
      next := tmp;
      StepBoard(tiles, next, cur);
      SuccessorIsLife(before, Board(), cur.Length0, cur.Length1);
      if input.Some? {
        Reseed(input.value);
      } else {
        CleanRows(before, Board());
      }
      WriteDirtyPatterns(cur);
    }

    /** `main` up to the loop: the first board, everything marked dirty, the first picture. */
    method Start(seed: Board)
      requires Sized() && IsBoard(seed, cur.Length0, cur.Length1)
      modifies this`vaddr, cur, tiles.active, tiles.dirty, vram
      ensures Valid() && Board() == seed
    {
      hide RowShown, IsDilation;
      Reseed(seed);
      WriteDirtyPatterns(cur);
    }
  }

  /** Every run: after any number of frames, with any reseeds, the board is what the naive rule gives
      and every pixel of the screen is the cell at half its coordinates. */
  method Run(th: nat, w: nat, seed: Board, inputs: seq<Option<Board>>) returns (demo: Demo, ghost boards: seq<Board>)
    requires 0 < th <= 24 && 2 <= w <= 8
    requires IsBoard(seed, 4 * th, w) && AreSeeds(inputs, 4 * th, w)
    ensures IsHistory(boards, seed, inputs, 4 * th, w)
    ensures demo.Valid() && demo.Board() == boards[|inputs|]
    ensures demo.tiles.active.Length0 == th && demo.tiles.active.Length1 == 4 * w
    ensures Displays(demo.vram[..], boards[|inputs|], th, 4 * w)
  {
    hide Displays, RowShown, IsDilation, Successor, IsSuccessor, Follows;
    demo := new Demo(th, w);
    demo.Start(seed);
    boards := [seed];
    assert inputs[..0] == [];
    for i := 0 to |inputs|
      invariant demo.Valid() && demo.tiles.active.Length0 == th && demo.cur.Length1 == w
      invariant fresh({demo, demo.cur, demo.next, demo.vram})
      invariant fresh({demo.tiles.active, demo.tiles.live, demo.tiles.dirty})
      invariant IsHistory(boards, seed, inputs[..i], 4 * th, w) && demo.Board() == boards[i]
    {
      demo.Frame(inputs[i]);
      SuccessorIsLife(boards[i], demo.Board(), 4 * th, w);
      HistoryGrows(boards, seed, inputs, demo.Board(), 4 * th, w, i);
      boards := boards + [demo.Board()];
    }
    assert inputs[..|inputs|] == inputs;
    ShownIsDisplayed(demo.vram[..], demo.Board(), th, 4 * w);
  }
}
