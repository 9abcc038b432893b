/** Boards of packed words on a torus, the naive Game of Life on their cells, and tiles:
    square blocks of `t` by `t` cells (t is 4 in life2_2x.c, 8 in life.c and life2.c). */
module LifeBoard {
  import opened Bits
  import opened LifeWord

  type Board = seq<seq<u16>>

  /** `h` rows of `w` words. */
  ghost predicate IsBoard(b: Board, h: nat, w: nat) {
    && |b| == h
    && forall y | 0 <= y < h :: |b[y]| == w
  }

  /** The whole of a packed board. */
  ghost function Cells(a: array2<u16>): (b: Board)
    reads a
    ensures IsBoard(b, a.Length0, a.Length1)
    ensures forall y: nat, x: nat | y < a.Length0 && x < a.Length1 :: b[y][x] == a[y, x]
  {
    seq(a.Length0, y requires 0 <= y < a.Length0 reads a =>
      seq(a.Length1, x requires 0 <= x < a.Length1 reads a => a[y, x]))
  }

  /** The previous and the next index on a ring of `n`. */
  function Prev(i: nat, n: nat): (j: nat)
    requires i < n
    ensures j < n
  {
    if i == 0 then n - 1 else i - 1
  }

  function Next(i: nat, n: nat): (j: nat)
    requires i < n
    ensures j < n
  {
    if i + 1 == n then 0 else i + 1
  }

  /** Is the cell in column `x` of row `y` alive? */
  ghost predicate Cell(b: Board, y: nat, x: nat)
    requires y < |b| && x < 16 * |b[y]|
  {
    Lane(b[y][x / 16], x % 16)
  }

  /** The number of live cells among the eight neighbours on the torus. */
  ghost function Neighbours(b: Board, h: nat, w: nat, y: nat, x: nat): nat
    requires IsBoard(b, h, w) && y < h && x < 16 * w
  {
    var u, d, l, r := Prev(y, h), Next(y, h), Prev(x, 16 * w), Next(x, 16 * w);
    Digit(Cell(b, u, l)) + Digit(Cell(b, u, x)) + Digit(Cell(b, u, r)) + Digit(Cell(b, y, l)) +
    Digit(Cell(b, y, r)) + Digit(Cell(b, d, l)) + Digit(Cell(b, d, x)) + Digit(Cell(b, d, r))
  }

  /** Conway's Game of Life on the torus, cell by cell. */
  ghost predicate Life(b: Board, h: nat, w: nat, y: nat, x: nat)
    requires IsBoard(b, h, w) && y < h && x < 16 * w
  {
    Rule(Cell(b, y, x), Neighbours(b, h, w, y, x))
  }

  /** `after` is the Life successor of `before`. */
  ghost predicate IsSuccessor(before: Board, after: Board, h: nat, w: nat)
    requires IsBoard(before, h, w)
  {
    && IsBoard(after, h, w)
    && forall y: nat, x: nat | y < h && x < 16 * w :: Cell(after, y, x) == Life(before, h, w, y, x)
  }

  /** A board is determined by its cells, so the successor is unique. */
  lemma {:induction false} BoardExt(a: Board, b: Board, h: nat, w: nat)
    requires IsBoard(a, h, w) && IsBoard(b, h, w)
    requires forall y: nat, x: nat | y < h && x < 16 * w :: Cell(a, y, x) == Cell(b, y, x)
    ensures a == b
  {
    forall y: nat, wx: nat | y < h && wx < w
      ensures a[y][wx] == b[y][wx]
    {
      forall k: nat | k < 16
        ensures Lane(a[y][wx], k) == Lane(b[y][wx], k)
      {
        var x := 16 * wx + k;
        assert x / 16 == wx && x % 16 == k;
        assert Cell(a, y, x) == Cell(b, y, x);
      }
      WordExt(a[y][wx], b[y][wx]);
    }
    forall y | 0 <= y < h
      ensures a[y] == b[y]
    {
    }
  }

  // ---- the successor word by word ----

  /** What the nine loads and six shifts of the inner loops deliver for word `wx` of row `y`. */
  ghost function RowsAt(b: Board, h: nat, w: nat, y: nat, wx: nat): Rows
    requires IsBoard(b, h, w) && y < h && wx < w
  {
    var u, m, d := b[Prev(y, h)], b[y], b[Next(y, h)];
    Surround(u[Prev(wx, w)], u[wx], u[Next(wx, w)], m[Prev(wx, w)], m[wx], m[Next(wx, w)],
             d[Prev(wx, w)], d[wx], d[Next(wx, w)])
  }

  function Surround(uL: u16, uC: u16, uR: u16, mL: u16, mC: u16, mR: u16, dL: u16, dC: u16, dR: u16): Rows {
    Rows(FromLeft(uC, uL), uC, FromRight(uC, uR), FromLeft(mC, mL), mC, FromRight(mC, mR),
         FromLeft(dC, dL), dC, FromRight(dC, dR))
  }

  ghost function WordAt(b: Board, h: nat, w: nat, y: nat, wx: nat): u16
    requires IsBoard(b, h, w) && y < h && wx < w
  {
    NextWord(RowsAt(b, h, w, y, wx))
  }

  /** The word the code computes is the naive successor of its sixteen cells, across the wrap. */
  lemma {:induction false} WordAtIsLife(b: Board, h: nat, w: nat, y: nat, wx: nat, k: nat)
    requires IsBoard(b, h, w) && y < h && wx < w && k < 16
    ensures Lane(WordAt(b, h, w, y, wx), k) == Life(b, h, w, y, 16 * wx + k)
  {
    hide NextWord, FromLeft, FromRight;
    var r := RowsAt(b, h, w, y, wx);
    NextWordLane(r, k);
    RowLanes(b[Prev(y, h)], w, wx, k);
    RowLanes(b[y], w, wx, k);
    RowLanes(b[Next(y, h)], w, wx, k);
  }

  /** In one row, the shifted words hold the left and right neighbours. */
  lemma {:induction false} RowLanes(row: seq<u16>, w: nat, wx: nat, k: nat)
    requires |row| == w && wx < w && k < 16
    ensures var x := 16 * wx + k;
            var l, r := Prev(x, 16 * w), Next(x, 16 * w);
            && Lane(row[wx], k) == Lane(row[x / 16], x % 16)
            && Lane(FromLeft(row[wx], row[Prev(wx, w)]), k) == Lane(row[l / 16], l % 16)
            && Lane(FromRight(row[wx], row[Next(wx, w)]), k) == Lane(row[r / 16], r % 16)
  {
    hide Lane, FromLeft, FromRight;
    var x := 16 * wx + k;
    var l, r := Prev(x, 16 * w), Next(x, 16 * w);
    assert x / 16 == wx && x % 16 == k;
    if k == 0 {
      assert l / 16 == Prev(wx, w) && l % 16 == 15;
    } else {
      assert l / 16 == wx && l % 16 == k - 1;
    }
    if k == 15 {
      assert r / 16 == Next(wx, w) && r % 16 == 0;
    } else {
      assert r / 16 == wx && r % 16 == k + 1;
    }
  }

  /** A board that holds the computed word everywhere is the Life successor. */
  lemma {:induction false} WordsGiveSuccessor(before: Board, after: Board, h: nat, w: nat)
    requires IsBoard(before, h, w) && IsBoard(after, h, w)
    requires forall y: nat, wx: nat | y < h && wx < w :: after[y][wx] == WordAt(before, h, w, y, wx)
    ensures IsSuccessor(before, after, h, w)
  {
    hide WordAt, Life;
    forall y: nat, x: nat | y < h && x < 16 * w
      ensures Cell(after, y, x) == Life(before, h, w, y, x)
    {
      WordAtIsLife(before, h, w, y, x / 16, x % 16);
    }
  }

  // ---- tiles ----

  predicate TileSize(t: nat) {
    t == 4 || t == 8
  }

  /** The tile that holds row or column `i`. */
  function TileOf(t: nat, i: nat): nat
    requires TileSize(t)
  {
    if t == 4 then i / 4 else i / 8
  }

  /** The first row or column after `n` tiles. */
  function Start(t: nat, n: nat): nat
    requires TileSize(t)
  {
    if t == 4 then 4 * n else 8 * n
  }

  /** A board of `th` rows of tiles, each `tw` tiles wide. */
  ghost predicate IsTiled(b: Board, t: nat, th: nat, tw: nat) {
    && TileSize(t)
    && tw % (16 / t) == 0
    && IsBoard(b, Start(t, th), Words(t, tw))
  }

  function Words(t: nat, tw: nat): nat
    requires TileSize(t)
  {
    if t == 4 then tw / 4 else tw / 2
  }

  /** Does tile (ty, tx) hold a live cell? */
  ghost predicate TileLive(b: Board, t: nat, th: nat, tw: nat, ty: nat, tx: nat)
    requires IsTiled(b, t, th, tw)
  {
    exists y: nat, x: nat ::
      y < Start(t, th) && x < Start(t, tw) && TileOf(t, y) == ty && TileOf(t, x) == tx && Cell(b, y, x)
  }

  /** `i` is `j` or next to it on a ring of `n`. */
  predicate Near(i: nat, j: nat, n: nat)
    requires j < n
  {
    i == j || i == Prev(j, n) || i == Next(j, n)
  }

  /** The 3x3 toroidal dilation of the live tiles. */
  ghost predicate Dilated(b: Board, t: nat, th: nat, tw: nat, ty: nat, tx: nat)
    requires IsTiled(b, t, th, tw) && ty < th && tx < tw
  {
    exists i: nat, j: nat :: Near(i, ty, th) && Near(j, tx, tw) && TileLive(b, t, th, tw, i, j)
  }

  lemma {:induction false} NeighbourTile(t: nat, i: nat, n: nat)
    requires TileSize(t) && i < Start(t, n)
    ensures TileOf(t, i) < n
    ensures Near(TileOf(t, Prev(i, Start(t, n))), TileOf(t, i), n)
    ensures Near(TileOf(t, Next(i, Start(t, n))), TileOf(t, i), n)
  {
  }

  lemma {:induction false} DeadNear(b: Board, t: nat, th: nat, tw: nat, ty: nat, tx: nat, y: nat, x: nat)
    requires IsTiled(b, t, th, tw) && ty < th && tx < tw && y < Start(t, th) && x < Start(t, tw)
    requires Near(TileOf(t, y), ty, th) && Near(TileOf(t, x), tx, tw)
    requires !Dilated(b, t, th, tw, ty, tx)
    ensures !Cell(b, y, x)
  {
    assert !TileLive(b, t, th, tw, TileOf(t, y), TileOf(t, x));
  }

  /** Outside the dilated live tiles nothing lives and nothing is born. */
  lemma {:induction false} QuietCell(b: Board, t: nat, th: nat, tw: nat, y: nat, x: nat)
    requires IsTiled(b, t, th, tw) && y < Start(t, th) && x < Start(t, tw)
    requires TileOf(t, y) < th && TileOf(t, x) < tw && !Dilated(b, t, th, tw, TileOf(t, y), TileOf(t, x))
    ensures !Life(b, Start(t, th), Words(t, tw), y, x)
  {
    hide Dilated, Near;
    var h, n := Start(t, th), Start(t, tw);
    assert n == 16 * Words(t, tw);
    var ty, tx := TileOf(t, y), TileOf(t, x);
    NeighbourTile(t, y, th);
    NeighbourTile(t, x, tw);
    NearSelf(ty, th);
    NearSelf(tx, tw);
    var u, d, l, r := Prev(y, h), Next(y, h), Prev(x, n), Next(x, n);
    DeadNear(b, t, th, tw, ty, tx, u, l);
    DeadNear(b, t, th, tw, ty, tx, u, x);
    DeadNear(b, t, th, tw, ty, tx, u, r);
    DeadNear(b, t, th, tw, ty, tx, y, l);
    DeadNear(b, t, th, tw, ty, tx, y, x);
    DeadNear(b, t, th, tw, ty, tx, y, r);
    DeadNear(b, t, th, tw, ty, tx, d, l);
    DeadNear(b, t, th, tw, ty, tx, d, x);
    DeadNear(b, t, th, tw, ty, tx, d, r);
  }

  lemma {:induction false} NearSelf(i: nat, n: nat)
    requires i < n
    ensures Near(i, i, n)
  {
  }

  lemma {:induction false} TileInWord(t: nat, tw: nat, wx: nat, k: nat)
    requires TileSize(t) && tw % (16 / t) == 0 && wx < Words(t, tw) && k < 16
    ensures 16 * wx + k < Start(t, tw)
    ensures TileOf(t, 16 * wx + k) < tw && Start(t, TileOf(t, 16 * wx + k)) / 16 == wx
  {
  }

  /** A word whose tiles all lie outside the dilation is computed as 0: skipping it is sound. */
  lemma {:induction false} QuietWord(b: Board, t: nat, th: nat, tw: nat, y: nat, wx: nat)
    requires IsTiled(b, t, th, tw) && y < Start(t, th) && wx < Words(t, tw) && TileOf(t, y) < th
    requires forall tx: nat | Start(t, tx) / 16 == wx && tx < tw :: !Dilated(b, t, th, tw, TileOf(t, y), tx)
    ensures WordAt(b, Start(t, th), Words(t, tw), y, wx) == 0
  {
    hide Dilated, Life, WordAt, Lane;
    var h, w := Start(t, th), Words(t, tw);
    forall k: nat | k < 16
      ensures Lane(WordAt(b, h, w, y, wx), k) == Lane(0, k)
    {
      var x := 16 * wx + k;
      var tx := TileOf(t, x);
      assert tx < tw && Start(t, tx) / 16 == wx by { TileInWord(t, tw, wx, k); }
      QuietCell(b, t, th, tw, y, x);
      WordAtIsLife(b, h, w, y, wx, k);
      LaneZero(k);
    }
    WordExt(WordAt(b, h, w, y, wx), 0);
  }

  // ---- reading tiles off packed words ----

  /** Do any of the lanes lo, lo + 1, ..., lo + n - 1 hold a live cell? */
  ghost predicate AnyLane(w: u16, lo: nat, n: nat)
    requires lo + n <= 16
  {
    exists k: nat :: lo <= k < lo + n && Lane(w, k)
  }

  /** The bits of a word that belong to one tile: a nibble or a byte. */
  function TileMask(t: nat, tx: nat): u16
    requires TileSize(t)
  {
    if t == 4 then
      if tx % 4 == 0 then 0xF000 else if tx % 4 == 1 then 0x0F00 else if tx % 4 == 2 then 0x00F0 else 0x000F
    else
      if tx % 2 == 0 then 0xFF00 else 0x00FF
  }

  /** The first lane of tile column `tx` within its word. */
  function Offset(t: nat, tx: nat): (o: nat)
    requires TileSize(t)
    ensures o + t <= 16
  {
    if t == 4 then 4 * (tx % 4) else 8 * (tx % 2)
  }

  lemma {:induction false} MaskLanes(t: nat, tx: nat, k: nat)
    requires TileSize(t) && k < 16
    ensures Lane(TileMask(t, tx), k) == (Offset(t, tx) <= k < Offset(t, tx) + t)
  {
    hide Shl, Pow2, Bit;
    var o := Offset(t, tx);
    MaskValues();
    RunOfOnes(t, 16 - t - o, 15 - k);
    if t == 4 {
      assert o == 0 || o == 4 || o == 8 || o == 12;
    } else {
      assert o == 0 || o == 8;
    }
  }

  lemma {:induction false} MaskValues()
    ensures Shl(Pow2(4) - 1, 12) == 0xF000 && Shl(Pow2(4) - 1, 8) == 0x0F00
    ensures Shl(Pow2(4) - 1, 4) == 0x00F0 && Shl(Pow2(4) - 1, 0) == 0x000F
    ensures Shl(Pow2(8) - 1, 8) == 0xFF00 && Shl(Pow2(8) - 1, 0) == 0x00FF
  {
    assert Pow2(4) == 16 && Pow2(8) == 0x100;
  }

  /** Masking a word tests the lanes of one tile. */
  lemma {:induction false} MaskTest(w: u16, t: nat, tx: nat)
    requires TileSize(t)
    ensures (And16(w, TileMask(t, tx)) != 0) == AnyLane(w, Offset(t, tx), t)
  {
    hide And16, TileMask, AnyLane, Lane, Offset;
    forall k: nat | k < 16
      ensures Lane(TileMask(t, tx), k) == (Offset(t, tx) <= k < Offset(t, tx) + t)
    {
      MaskLanes(t, tx, k);
    }
    RunTest(w, TileMask(t, tx), Offset(t, tx), t);
  }

  lemma {:induction false} RunTest(w: u16, m: u16, lo: nat, n: nat)
    requires lo + n <= 16
    requires forall k: nat | k < 16 :: Lane(m, k) == (lo <= k < lo + n)
    ensures (And16(w, m) != 0) == AnyLane(w, lo, n)
  {
    hide And16, Lane;
    if AnyLane(w, lo, n) {
      var k: nat :| lo <= k < lo + n && Lane(w, k);
      LaneZero(k);
    } else {
      forall k: nat | k < 16
        ensures Lane(And16(w, m), k) == Lane(0, k)
      {
        LaneZero(k);
      }
      WordExt(And16(w, m), 0);
    }
  }
}
