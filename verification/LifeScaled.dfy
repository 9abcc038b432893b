/** The specification side of life2_2x.c: the successor board, changed cells, and the pattern table
    that shows each cell as a block of two by two pixels. Tiles are 4x4 cells, four to a word. */
module LifeScaled {
  import opened Bits
  import opened LifeWord
  import opened LifeBoard

  // ---- boards ----

  /** The Life successor as a board. */
  ghost function Successor(b: Board, h: nat, w: nat): (r: Board)
    requires IsBoard(b, h, w)
    ensures IsBoard(r, h, w)
    ensures forall y: nat, wx: nat | y < h && wx < w :: r[y][wx] == WordAt(b, h, w, y, wx)
  {
    seq(h, y requires 0 <= y < h => seq(w, wx requires 0 <= wx < w => WordAt(b, h, w, y, wx)))
  }

  /** It is the naive successor, and no other board is. */
  lemma {:induction false} SuccessorIsLife(b: Board, r: Board, h: nat, w: nat)
    requires IsBoard(b, h, w) && IsBoard(r, h, w)
    ensures (r == Successor(b, h, w)) == IsSuccessor(b, r, h, w)
  {
    hide WordAt, Life, Lane;
    var s := Successor(b, h, w);
    WordsGiveSuccessor(b, s, h, w);
    if IsSuccessor(b, r, h, w) {
      BoardExt(r, s, h, w);
    }
  }

  /** The cells in which two boards differ. */
  ghost function Difference(a: Board, b: Board, h: nat, w: nat): (r: Board)
    requires IsBoard(a, h, w) && IsBoard(b, h, w)
    ensures IsBoard(r, h, w)
    ensures forall y: nat, wx: nat | y < h && wx < w :: r[y][wx] == Xor16(a[y][wx], b[y][wx])
    ensures forall y: nat, x: nat | y < h && x < 16 * w :: Cell(r, y, x) == (Cell(a, y, x) != Cell(b, y, x))
  {
    seq(h, y requires 0 <= y < h => seq(w, wx requires 0 <= wx < w => Xor16(a[y][wx], b[y][wx])))
  }

  /** A tile without a changed cell holds the same lanes in both boards. */
  lemma {:induction false} CleanTile(a: Board, b: Board, th: nat, tw: nat, ty: nat, tx: nat, y: nat, k: nat)
    requires IsTiled(a, 4, th, tw) && IsTiled(b, 4, th, tw) && ty < th && tx < tw
    requires !TileLive(Difference(b, a, 4 * th, tw / 4), 4, th, tw, ty, tx)
    requires y < 4 * th && y / 4 == ty && k < 4
    ensures Lane(a[y][tx / 4], 4 * (tx % 4) + k) == Lane(b[y][tx / 4], 4 * (tx % 4) + k)
  {
    hide Lane;
    var d := Difference(b, a, 4 * th, tw / 4);
    var x := 4 * tx + k;
    assert x / 4 == tx && x / 16 == tx / 4 && x % 16 == 4 * (tx % 4) + k;
    assert !Cell(d, y, x);
  }

  // ---- tiles from four accumulated words ----

  /** The "or" of the four words of tile row `ty` in word column `wx`, accumulated from 0. */
  function Acc(w0: u16, w1: u16, w2: u16, w3: u16): u16 {
    Or16(Or16(Or16(Or16(0, w0), w1), w2), w3)
  }

  lemma {:induction false} AccLane(w0: u16, w1: u16, w2: u16, w3: u16, k: nat)
    requires k < 16
    ensures Lane(Acc(w0, w1, w2, w3), k) == (Lane(w0, k) || Lane(w1, k) || Lane(w2, k) || Lane(w3, k))
  {
    LaneZero(k);
  }

  /** Does row `r` of tile (ty, tx) hold a live cell? */
  ghost predicate TileRow(b: Board, th: nat, tw: nat, ty: nat, tx: nat, r: nat)
    requires IsTiled(b, 4, th, tw) && ty < th && tx < tw && r < 4
  {
    AnyLane(b[4 * ty + r][tx / 4], Offset(4, tx), 4)
  }

  lemma {:induction false} TileByRows(b: Board, th: nat, tw: nat, ty: nat, tx: nat)
    requires IsTiled(b, 4, th, tw) && ty < th && tx < tw
    ensures TileLive(b, 4, th, tw, ty, tx) == exists r: nat :: r < 4 && TileRow(b, th, tw, ty, tx, r)
  {
    hide Lane, AnyLane, TileRow;
    if r: nat :| r < 4 && TileRow(b, th, tw, ty, tx, r) {
      RowGivesTile(b, th, tw, ty, tx, r);
    }
    if TileLive(b, 4, th, tw, ty, tx) {
      var y: nat, x: nat :| y < 4 * th && x < 4 * tw && y / 4 == ty && x / 4 == tx && Cell(b, y, x);
      CellGivesRow(b, th, tw, y, x);
    }
  }

  lemma {:induction false} RowGivesTile(b: Board, th: nat, tw: nat, ty: nat, tx: nat, r: nat)
    requires IsTiled(b, 4, th, tw) && ty < th && tx < tw && r < 4
    requires TileRow(b, th, tw, ty, tx, r)
    ensures TileLive(b, 4, th, tw, ty, tx)
  {
    hide Lane;
    var k: nat :| Offset(4, tx) <= k < Offset(4, tx) + 4 && Lane(b[4 * ty + r][tx / 4], k);
    LaneInTile(tx, k);
    assert Cell(b, 4 * ty + r, 16 * (tx / 4) + k);
    assert TileOf(4, 4 * ty + r) == ty;
  }

  lemma {:induction false} CellGivesRow(b: Board, th: nat, tw: nat, y: nat, x: nat)
    requires IsTiled(b, 4, th, tw) && y < 4 * th && x < 4 * tw && Cell(b, y, x)
    ensures TileRow(b, th, tw, y / 4, x / 4, y % 4)
  {
    hide Lane;
    var tx, k := x / 4, x % 16;
    assert x / 16 == tx / 4 && Offset(4, tx) <= k < Offset(4, tx) + 4;
    assert y == 4 * (y / 4) + y % 4;
  }

  lemma {:induction false} AccAny(w0: u16, w1: u16, w2: u16, w3: u16, lo: nat, n: nat)
    requires lo + n <= 16
    ensures AnyLane(Acc(w0, w1, w2, w3), lo, n) ==
            (AnyLane(w0, lo, n) || AnyLane(w1, lo, n) || AnyLane(w2, lo, n) || AnyLane(w3, lo, n))
  {
    hide Lane, Acc;
    forall k: nat | k < 16
      ensures Lane(Acc(w0, w1, w2, w3), k) == (Lane(w0, k) || Lane(w1, k) || Lane(w2, k) || Lane(w3, k))
    {
      AccLane(w0, w1, w2, w3, k);
    }
  }

  /** Testing one nibble of the accumulated word tells whether its tile is alive. */
  lemma {:induction false} AccTile(b: Board, th: nat, tw: nat, ty: nat, tx: nat)
    requires IsTiled(b, 4, th, tw) && ty < th && tx < tw
    ensures var wx := tx / 4;
            var acc := Acc(b[4 * ty][wx], b[4 * ty + 1][wx], b[4 * ty + 2][wx], b[4 * ty + 3][wx]);
            (And16(acc, TileMask(4, tx)) != 0) ==
            TileLive(b, 4, th, tw, ty, tx)
  {
    hide And16, TileMask, Lane, AnyLane, Acc, TileLive, Offset;
    var wx := tx / 4;
    MaskTest(Acc(b[4 * ty][wx], b[4 * ty + 1][wx], b[4 * ty + 2][wx], b[4 * ty + 3][wx]), 4, tx);
    AccAny(b[4 * ty][wx], b[4 * ty + 1][wx], b[4 * ty + 2][wx], b[4 * ty + 3][wx], Offset(4, tx), 4);
    TileByRows(b, th, tw, ty, tx);
    var t0, t1 := TileRow(b, th, tw, ty, tx, 0), TileRow(b, th, tw, ty, tx, 1);
    var t2, t3 := TileRow(b, th, tw, ty, tx, 2), TileRow(b, th, tw, ty, tx, 3);
  }

  lemma {:induction false} LaneInTile(tx: nat, k: nat)
    requires Offset(4, tx) <= k < Offset(4, tx) + 4
    ensures var x := 16 * (tx / 4) + k; x / 16 == tx / 4 && x % 16 == k && TileOf(4, x) == tx
  {
  }

  // ---- the picture ----

  /** Each of four cells doubled into eight pixels. */
  function Expand4(n: nat): u8
    requires n < 16
  {
    [0x00, 0x03, 0x0C, 0x0F, 0x30, 0x33, 0x3C, 0x3F, 0xC0, 0xC3, 0xCC, 0xCF, 0xF0, 0xF3, 0xFC, 0xFF][n]
  }

  /** Byte `i` of a row of packed words. */
  function ByteOf(w: u16, i: nat): u8 {
    if i % 2 == 0 then w / 0x100 else w % 0x100
  }

  /** The four cells of tile column `tx` in a word. */
  function Nibble(w: u16, tx: nat): (n: nat)
    ensures n < 16
  {
    if tx % 2 == 0 then ByteOf(w, tx / 2) / 16 else ByteOf(w, tx / 2) % 16
  }

  /** Byte `r` of the pattern of tile (ty, tx). */
  ghost function TileByte(b: Board, th: nat, tw: nat, ty: nat, tx: nat, r: nat): u8
    requires IsTiled(b, 4, th, tw) && ty < th && tx < tw && r < 8
  {
    Expand4(Nibble(b[4 * ty + r / 2][tx / 4], tx))
  }

  lemma {:induction false} BitCons(d: nat, r: nat, i: nat)
    requires d < 2
    ensures Bit(d + 2 * r, i) == if i == 0 then d == 1 else Bit(r, i - 1)
  {
  }

  lemma {:induction false} BitConsTwice(d: nat, r: nat, i: nat)
    requires d < 2
    ensures Bit(d + 2 * (d + 2 * r), i) == if i < 2 then d == 1 else Bit(r, i - 2)
  {
    hide Bit;
    BitCons(d, d + 2 * r, i);
    if i > 0 {
      BitCons(d, r, i - 1);
    }
  }

  /** The table entry for binary digits b3 b2 b1 b0 is b3 b3 b2 b2 b1 b1 b0 b0. */
  lemma {:induction false} ExpandDigits(n: nat, b0: nat, b1: nat, b2: nat, b3: nat)
    requires b0 < 2 && b1 < 2 && b2 < 2 && b3 < 2 && n == b0 + 2 * (b1 + 2 * (b2 + 2 * (b3 + 2 * 0)))
    ensures Expand4(n) == b0 + 2 * (b0 + 2 * (b1 + 2 * (b1 + 2 * (b2 + 2 * (b2 + 2 * (b3 + 2 * (b3 + 2 * 0)))))))
  {
  }

  /** Doubling a nibble: pixel j shows cell j / 2. */
  lemma {:induction false} ExpandDoubles(n: nat, j: nat)
    requires n < 16 && j < 8
    ensures Bit(Expand4(n), 7 - j) == Bit(n, 3 - j / 2)
  {
    hide Bit, Expand4;
    var b0, b1, b2, b3 := n % 2, n / 2 % 2, n / 4 % 2, n / 8;
    ExpandDigits(n, b0, b1, b2, b3);
    var n2, n1 := b2 + 2 * (b3 + 2 * 0), b1 + 2 * (b2 + 2 * (b3 + 2 * 0));
    var p3 := b3 + 2 * (b3 + 2 * 0);
    var p2 := b2 + 2 * (b2 + 2 * p3);
    var p1 := b1 + 2 * (b1 + 2 * p2);
    var i, m := 7 - j, 3 - j / 2;
    BitConsTwice(b0, p1, i);
    BitCons(b0, n1, m);
    if i >= 2 {
      BitConsTwice(b1, p2, i - 2);
      BitCons(b1, n2, m - 1);
    }
    if i >= 4 {
      BitConsTwice(b2, p3, i - 4);
      BitCons(b2, b3 + 2 * 0, m - 2);
    }
    if i >= 6 {
      BitConsTwice(b3, 0, i - 6);
      BitCons(b3, 0, m - 3);
    }
  }

  /** A nibble of a word, by bytes or by shifting. */
  lemma {:induction false} NibbleDigits(w: u16)
    ensures w / 0x100 / 16 == w / 0x1000 && w / 0x1000 < 16
    ensures w % 0x100 / 16 == w / 16 % 16
    ensures w % 0x100 % 16 == w % 16
  {
    var hi, lo := w / 0x100, w % 0x100;
    var a, b, c, d := hi / 16, hi % 16, lo / 16, lo % 16;
    assert w == 0x1000 * a + 0x100 * b + 16 * c + d;
  }

  lemma {:induction false} NibbleIsShift(w: u16, tx: nat)
    ensures Nibble(w, tx) == Shr(w, 12 - 4 * (tx % 4)) % 16
  {
    hide Shr;
    var q := tx % 4;
    NibbleDigits(w);
    NibbleShifts(w);
    assert tx % 2 == q % 2 && tx / 2 % 2 == q / 2;
  }

  lemma {:induction false} NibbleShifts(w: u16)
    ensures Shr(w, 12) == w / 0x1000 && Shr(w, 8) == w / 0x100 && Shr(w, 4) == w / 16 && Shr(w, 0) == w
  {
    hide Shr, Pow2;
    NibbleWidths();
    ShrIsDiv(w, 12);
    ShrIsDiv(w, 8);
    ShrIsDiv(w, 4);
    ShrIsDiv(w, 0);
  }

  lemma {:induction false} NibbleWidths()
    ensures Pow2(0) == 1 && Pow2(4) == 16 && Pow2(8) == 0x100 && Pow2(12) == 0x1000
  {
  }

  lemma {:induction false} NibbleLane(w: u16, tx: nat, i: nat)
    requires i < 4
    ensures Bit(Nibble(w, tx), 3 - i) == Lane(w, 4 * (tx % 4) + i)
  {
    hide Bit, Shr, Nibble, Pow2;
    var s := 12 - 4 * (tx % 4);
    NibbleIsShift(w, tx);
    NibbleWidths();
    BitMod(Shr(w, s), 4, 3 - i);
    BitShr(w, s, 3 - i);
  }

  /** Byte r, bit j of a tile's pattern is the cell half as far down and across. */
  lemma {:induction false} TilePixel(b: Board, th: nat, tw: nat, ty: nat, tx: nat, r: nat, j: nat)
    requires IsTiled(b, 4, th, tw) && ty < th && tx < tw && r < 8 && j < 8
    ensures Bit(TileByte(b, th, tw, ty, tx, r), 7 - j) == Cell(b, 4 * ty + r / 2, 4 * tx + j / 2)
  {
    hide Expand4, Nibble, Bit;
    var w := b[4 * ty + r / 2][tx / 4];
    ExpandDoubles(Nibble(w, tx), j);
    NibbleLane(w, tx, j / 2);
    var x := 4 * tx + j / 2;
    assert x / 16 == tx / 4 && x % 16 == 4 * (tx % 4) + j / 2;
  }

  /** The screen pixel in column `px` of line `py`, read from the pattern table. */
  ghost predicate Pixel(vram: seq<u8>, py: nat, px: nat) {
    var addr := 256 * (py / 8) + 8 * (px / 8) + py % 8;
    addr < |vram| && Bit(vram[addr], 7 - px % 8)
  }

  /** The pattern bytes of tile (ty, tx) show the board. */
  ghost predicate TileShown(vram: seq<u8>, b: Board, th: nat, tw: nat, ty: nat, tx: nat)
    requires IsTiled(b, 4, th, tw) && ty < th && tx < tw
  {
    && 256 * th <= |vram| && tw <= 32
    && forall r: nat | r < 8 :: vram[256 * ty + 8 * tx + r] == TileByte(b, th, tw, ty, tx, r)
  }

  ghost predicate RowShown(vram: seq<u8>, b: Board, th: nat, tw: nat, ty: nat)
    requires IsTiled(b, 4, th, tw) && ty < th
  {
    forall tx: nat | tx < tw :: TileShown(vram, b, th, tw, ty, tx)
  }

  /** A tile's picture depends only on its own eight bytes. */
  lemma {:induction false} TileFrame(v: seq<u8>, w: seq<u8>, b: Board, th: nat, tw: nat, ty: nat, tx: nat)
    requires IsTiled(b, 4, th, tw) && ty < th && tx < tw && |v| == |w|
    requires TileShown(v, b, th, tw, ty, tx)
    requires forall i: nat | 256 * ty + 8 * tx <= i < 256 * ty + 8 * tx + 8 :: v[i] == w[i]
    ensures TileShown(w, b, th, tw, ty, tx)
  {
    hide TileByte;
    forall r: nat | r < 8
      ensures w[256 * ty + 8 * tx + r] == TileByte(b, th, tw, ty, tx, r)
    {
      assert v[256 * ty + 8 * tx + r] == TileByte(b, th, tw, ty, tx, r);
    }
  }

  /** The display: every screen pixel is the cell at half its coordinates. */
  ghost predicate Displays(vram: seq<u8>, b: Board, th: nat, tw: nat)
    requires IsTiled(b, 4, th, tw)
  {
    && 256 * th <= |vram| && tw <= 32
    && forall py: nat, px: nat | py < 8 * th && px < 8 * tw :: Pixel(vram, py, px) == Cell(b, py / 2, px / 2)
  }

  lemma {:induction false} ShownIsDisplayed(vram: seq<u8>, b: Board, th: nat, tw: nat)
    requires IsTiled(b, 4, th, tw)
    requires 256 * th <= |vram| && tw <= 32
    requires forall ty: nat | ty < th :: RowShown(vram, b, th, tw, ty)
    ensures Displays(vram, b, th, tw)
  {
    hide RowShown, Pixel, Cell;
    forall py: nat, px: nat | py < 8 * th && px < 8 * tw
      ensures Pixel(vram, py, px) == Cell(b, py / 2, px / 2)
    {
      PixelShown(vram, b, th, tw, py, px);
    }
  }

  lemma {:induction false} PixelShown(vram: seq<u8>, b: Board, th: nat, tw: nat, py: nat, px: nat)
    requires IsTiled(b, 4, th, tw) && py < 8 * th && px < 8 * tw
    requires 256 * th <= |vram| && tw <= 32
    requires RowShown(vram, b, th, tw, py / 8)
    ensures Pixel(vram, py, px) == Cell(b, py / 2, px / 2)
  {
    hide TileByte, Bit, Cell;
    var ty, tx, r, j := py / 8, px / 8, py % 8, px % 8;
    assert TileShown(vram, b, th, tw, ty, tx);
    TilePixel(b, th, tw, ty, tx, r, j);
    assert 4 * ty + r / 2 == py / 2 && 4 * tx + j / 2 == px / 2;
  }

  /** Skipping a tile row is sound: without a dirty tile its patterns are already right. */
  lemma {:induction false} CleanRowShown(vram: seq<u8>, a: Board, b: Board, th: nat, tw: nat, ty: nat)
    requires IsTiled(a, 4, th, tw) && IsTiled(b, 4, th, tw) && ty < th
    requires RowShown(vram, a, th, tw, ty)
    requires forall tx: nat | tx < tw :: !TileLive(Difference(b, a, 4 * th, tw / 4), 4, th, tw, ty, tx)
    ensures RowShown(vram, b, th, tw, ty)
  {
    hide TileLive, Difference;
    forall tx: nat | tx < tw
      ensures TileShown(vram, b, th, tw, ty, tx)
    {
      assert TileShown(vram, a, th, tw, ty, tx);
      CleanTileShown(vram, a, b, th, tw, ty, tx);
    }
  }

  lemma {:induction false} CleanTileShown(vram: seq<u8>, a: Board, b: Board, th: nat, tw: nat, ty: nat, tx: nat)
    requires IsTiled(a, 4, th, tw) && IsTiled(b, 4, th, tw) && ty < th && tx < tw
    requires TileShown(vram, a, th, tw, ty, tx)
    requires !TileLive(Difference(b, a, 4 * th, tw / 4), 4, th, tw, ty, tx)
    ensures TileShown(vram, b, th, tw, ty, tx)
  {
    hide TileLive, Nibble, Expand4, Lane;
    forall r: nat | r < 8
      ensures TileByte(a, th, tw, ty, tx, r) == TileByte(b, th, tw, ty, tx, r)
    {
      var y := 4 * ty + r / 2;
      forall k: nat | 4 * (tx % 4) <= k < 4 * (tx % 4) + 4
        ensures Lane(a[y][tx / 4], k) == Lane(b[y][tx / 4], k)
      {
        CleanTile(a, b, th, tw, ty, tx, y, k - 4 * (tx % 4));
      }
      NibbleExt(a[y][tx / 4], b[y][tx / 4], tx);
    }
  }

  /** A nibble is zero when its four cells are dead. */
  lemma {:induction false} NibbleTest(w: u16, tx: nat)
    ensures (Nibble(w, tx) != 0) == AnyLane(w, Offset(4, tx), 4)
  {
    hide Lane, Nibble;
    var o := Offset(4, tx);
    forall i: nat | i < 4
      ensures Bit(Nibble(w, tx), i) == Lane(w, o + 3 - i)
    {
      NibbleLane(w, tx, 3 - i);
    }
    if AnyLane(w, o, 4) {
      var k: nat :| o <= k < o + 4 && Lane(w, k);
      assert Bit(Nibble(w, tx), o + 3 - k);
      ZeroBit(o + 3 - k);
    } else {
      forall i: nat | i < 4
        ensures Bit(Nibble(w, tx), i) == Bit(0, i)
      {
        ZeroBit(i);
      }
      assert Pow2(4) == 16;
      BitExt(Nibble(w, tx), 0, 4);
    }
  }

  lemma {:induction false} NibbleExt(v: u16, w: u16, tx: nat)
    requires forall k: nat | 4 * (tx % 4) <= k < 4 * (tx % 4) + 4 :: Lane(v, k) == Lane(w, k)
    ensures Nibble(v, tx) == Nibble(w, tx)
  {
    hide Lane, Nibble;
    forall i: nat | i < 4
      ensures Bit(Nibble(v, tx), i) == Bit(Nibble(w, tx), i)
    {
      NibbleLane(v, tx, 3 - i);
      NibbleLane(w, tx, 3 - i);
      assert Lane(v, 4 * (tx % 4) + (3 - i)) == Lane(w, 4 * (tx % 4) + (3 - i));
    }
    assert Pow2(4) == 16;
    BitExt(Nibble(v, tx), Nibble(w, tx), 4);
  }

  // ---- where per-tile writing would put a pattern ----

  /** The address of the pattern of the character in row `row`, column `col` of the screen. */
  function PatternAddr(row: nat, col: nat): nat {
    var group := row / 8;
    var pattern := Or(row % 8 * 32, col);
    group * 0x0800 + pattern * 8
  }

  /** The three groups are contiguous, so a character row is a run of 256 bytes. */
  lemma {:induction false} PatternAddrLinear(row: nat, col: nat)
    requires col < 32
    ensures PatternAddr(row, col) == 256 * row + 8 * col
  {
    assert Pow2(5) == 32;
    OrIsAdd(row % 8, col, 5);
  }

  /** The first character column and row of a centred region of `w` words by `th` tile rows. */
  function RegionColumn(w: nat): nat
    requires w <= 8
  {
    (256 - 32 * w) / 2 / 16 * 16 / 8
  }

  function RegionRow(th: nat): nat
    requires th <= 24
  {
    (192 - 8 * th) / 2 / 8 * 8 / 8
  }

  /** The region is centred: in columns exactly, and in rows with an odd row left over below it. */
  lemma {:induction false} RegionCentred(w: nat, th: nat)
    requires w <= 8 && th <= 24
    ensures RegionColumn(w) == 32 - (RegionColumn(w) + 4 * w)
    ensures 0 <= (24 - (RegionRow(th) + th)) - RegionRow(th) <= 1
  {
  }

  /** Streaming puts tile (ty, tx) at 256 * ty + 8 * tx; per-tile writing puts it into the region. */
  predicate SamePlace(w: nat, th: nat, ty: nat, tx: nat)
    requires w <= 8 && th <= 24
  {
    PatternAddr(RegionRow(th) + ty, RegionColumn(w) + tx) == 256 * ty + 8 * tx
  }

  /** The streaming writer always starts at character (0, 0): it agrees with per-tile writing into
      the centred region exactly for the full width and 23 or 24 tile rows. */
  lemma {:induction false} StreamingPlacement(w: nat, th: nat)
    requires 0 < w <= 8 && 0 < th <= 24
    ensures (forall ty: nat, tx: nat | ty < th && tx < 4 * w :: SamePlace(w, th, ty, tx)) <==> w == 8 && th >= 23
  {
    hide PatternAddr;
    assert RegionColumn(w) == 16 - 2 * w;
    forall ty: nat, tx: nat | ty < th && tx < 4 * w
      ensures SamePlace(w, th, ty, tx) == (256 * RegionRow(th) + 8 * RegionColumn(w) == 0)
    {
      PatternAddrLinear(RegionRow(th) + ty, RegionColumn(w) + tx);
    }
    assert SamePlace(w, th, 0, 0) == (RegionRow(th) == 0 && RegionColumn(w) == 0);
  }

  /** A region four words wide and 24 tile rows high starts in column 8: streaming puts its first tile at 0,
      per-tile writing at 64. */
  lemma {:induction false} NarrowRegionDiffers()
    ensures !SamePlace(4, 24, 0, 0) && PatternAddr(RegionRow(24), RegionColumn(4)) == 64
  {
    hide PatternAddr;
    assert RegionRow(24) == 0 && RegionColumn(4) == 8;
    PatternAddrLinear(0, 8);
  }
}
