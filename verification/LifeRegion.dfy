/** What one frame of the windowed demos (life.c, life2.c) computes, as functions of the board in
    the window and of the active map: tiles are 8x8, so a word spans two tiles, and a word whose
    two tiles are inactive is skipped. */
module LifeRegion {
  import opened Bits
  import opened LifeWord
  import opened LifeBoard
  import opened LifeTiles

  /** The window of h rows and w words at (y0, x0) of a larger packed screen. */
  ghost function Window(a: array2<u16>, y0: nat, x0: nat, h: nat, w: nat): (b: Board)
    requires y0 + h <= a.Length0 && x0 + w <= a.Length1
    reads a
    ensures IsBoard(b, h, w)
    ensures forall y: nat, x: nat | y < h && x < w :: b[y][x] == a[y0 + y, x0 + x]
  {
    seq(h, y requires 0 <= y < h reads a =>
      seq(w, x requires 0 <= x < w reads a => a[y0 + y, x0 + x]))
  }

  ghost predicate WordActive(active: array2<u8>, ty: nat, wx: nat)
    requires ty < active.Length0 && 2 * wx + 1 < active.Length1
    reads active
  {
    active[ty, 2 * wx] != 0 || active[ty, 2 * wx + 1] != 0
  }

  /** The successor board when inactive words are skipped. */
  ghost function Stepped(b: Board, active: array2<u8>): (r: Board)
    requires active.Length1 % 2 == 0 && IsTiled(b, 8, active.Length0, active.Length1)
    reads active
    ensures IsTiled(r, 8, active.Length0, active.Length1)
    ensures forall y: nat, wx: nat | y < |b| && wx < |b[y]| ::
              r[y][wx] == if WordActive(active, y / 8, wx) then WordAt(b, |b|, |b[y]|, y, wx) else 0
  {
    var h, w := 8 * active.Length0, active.Length1 / 2;
    seq(h, y requires 0 <= y < h reads active =>
      seq(w, wx requires 0 <= wx < w reads active =>
        if WordActive(active, y / 8, wx) then WordAt(b, h, w, y, wx) else 0))
  }

  /** The cells that changed, as the code sees them: skipped words report no change. */
  ghost function Changes(b: Board, active: array2<u8>): (r: Board)
    requires active.Length1 % 2 == 0 && IsTiled(b, 8, active.Length0, active.Length1)
    reads active
    ensures IsTiled(r, 8, active.Length0, active.Length1)
    ensures forall y: nat, wx: nat | y < |b| && wx < |b[y]| ::
              r[y][wx] == if WordActive(active, y / 8, wx) then Xor16(WordAt(b, |b|, |b[y]|, y, wx), b[y][wx]) else 0
  {
    var h, w := 8 * active.Length0, active.Length1 / 2;
    seq(h, y requires 0 <= y < h reads active =>
      seq(w, wx requires 0 <= wx < w reads active =>
        if WordActive(active, y / 8, wx) then Xor16(WordAt(b, h, w, y, wx), b[y][wx]) else 0))
  }

  // ---- marking tiles word by word ----

  /** Has a row-by-row scan of the words of `m` found a bit of tile (ty, tx) before it reaches
      word wx of row y? */
  ghost predicate FoundUpTo(m: Board, th: nat, tw: nat, ty: nat, tx: nat, y: nat, wx: nat)
    requires IsTiled(m, 8, th, tw) && ty < th && tx < tw
  {
    exists r: nat ::
      && r < 8 * th && r / 8 == ty && (r < y || (r == y && tx / 2 < wx))
      && And16(m[r][tx / 2], TileMask(8, tx)) != 0
  }

  /** One word changes the verdict for its own two tiles only. */
  lemma {:induction false} FoundStep(m: Board, th: nat, tw: nat, ty: nat, tx: nat, y: nat, wx: nat)
    requires IsTiled(m, 8, th, tw) && ty < th && tx < tw && y < 8 * th && wx < tw / 2
    ensures FoundUpTo(m, th, tw, ty, tx, y, wx + 1) ==
            (FoundUpTo(m, th, tw, ty, tx, y, wx) ||
             (y / 8 == ty && tx / 2 == wx && And16(m[y][wx], TileMask(8, tx)) != 0))
  {
    hide And16, TileMask;
  }

  lemma {:induction false} FoundRowEnd(m: Board, th: nat, tw: nat, ty: nat, tx: nat, y: nat)
    requires IsTiled(m, 8, th, tw) && ty < th && tx < tw && y < 8 * th
    ensures FoundUpTo(m, th, tw, ty, tx, y, tw / 2) == FoundUpTo(m, th, tw, ty, tx, y + 1, 0)
  {
    hide And16, TileMask;
  }

  /** A complete scan finds exactly the tiles with a live cell. */
  lemma {:induction false} FoundAll(m: Board, th: nat, tw: nat, ty: nat, tx: nat)
    requires IsTiled(m, 8, th, tw) && ty < th && tx < tw
    ensures FoundUpTo(m, th, tw, ty, tx, 8 * th, 0) == TileLive(m, 8, th, tw, ty, tx)
  {
    hide And16, TileMask, Lane;
    forall r: nat | r < 8 * th && r / 8 == ty
      ensures (And16(m[r][tx / 2], TileMask(8, tx)) != 0) ==
              exists x: nat :: x < 8 * tw && x / 8 == tx && Cell(m, r, x)
    {
      MaskTest(m[r][tx / 2], 8, tx);
      WordCells(m, th, tw, tx, r);
    }
  }

  lemma {:induction false} WordCells(m: Board, th: nat, tw: nat, tx: nat, r: nat)
    requires IsTiled(m, 8, th, tw) && tx < tw && r < 8 * th
    ensures AnyLane(m[r][tx / 2], Offset(8, tx), 8) == exists x: nat :: x < 8 * tw && x / 8 == tx && Cell(m, r, x)
  {
    hide Lane;
    if AnyLane(m[r][tx / 2], Offset(8, tx), 8) {
      var k: nat :| Offset(8, tx) <= k < Offset(8, tx) + 8 && Lane(m[r][tx / 2], k);
      var x := 16 * (tx / 2) + k;
      assert x / 16 == tx / 2 && x % 16 == k && x / 8 == tx;
      assert Cell(m, r, x);
    }
    if x: nat :| x < 8 * tw && x / 8 == tx && Cell(m, r, x) {
      assert Lane(m[r][tx / 2], x % 16);
    }
  }

  // ---- with an active map that is the dilation, skipping loses nothing ----

  lemma {:induction false} SkippingIsSound(b: Board, active: array2<u8>)
    requires active.Length1 % 2 == 0 && IsTiled(b, 8, active.Length0, active.Length1)
    requires IsDilation(active, b, 8)
    ensures IsSuccessor(b, Stepped(b, active), |b|, active.Length1 / 2)
  {
    hide WordAt, Dilated, Life;
    var th, tw := active.Length0, active.Length1;
    var h, w := 8 * th, tw / 2;
    var r := Stepped(b, active);
    forall y: nat, wx: nat | y < h && wx < w
      ensures r[y][wx] == WordAt(b, h, w, y, wx)
    {
      if !WordActive(active, y / 8, wx) {
        forall tx: nat | Start(8, tx) / 16 == wx && tx < tw
          ensures !Dilated(b, 8, th, tw, TileOf(8, y), tx)
        {
          assert tx == 2 * wx || tx == 2 * wx + 1;
          assert active[y / 8, tx] == Flag(Dilated(b, 8, th, tw, y / 8, tx));
        }
        QuietWord(b, 8, th, tw, y, wx);
      }
    }
    WordsGiveSuccessor(b, r, h, w);
  }

  /** ... and the change marks are exactly the cells that differ. */
  lemma {:induction false} ChangesAreExact(b: Board, active: array2<u8>, y: nat, x: nat)
    requires active.Length1 % 2 == 0 && IsTiled(b, 8, active.Length0, active.Length1)
    requires IsDilation(active, b, 8) && y < |b| && x < 8 * active.Length1
    ensures Cell(Changes(b, active), y, x) == (Cell(b, y, x) != Cell(Stepped(b, active), y, x))
  {
    hide WordAt, Dilated, Xor16, Lane, TileLive;
    var th, tw := active.Length0, active.Length1;
    var ty, wx, tx, k := y / 8, x / 16, x / 8, x % 16;
    if !WordActive(active, ty, wx) {
      assert tx == 2 * wx || tx == 2 * wx + 1;
      assert active[ty, tx] == Flag(Dilated(b, 8, th, tw, ty, tx));
      NearSelf(ty, th);
      NearSelf(tx, tw);
      DeadNear(b, 8, th, tw, ty, tx, y, x);
      LaneZero(k);
    }
  }

  /** Does tile (ty, tx) hold a cell in which the boards differ? */
  ghost predicate TileChanged(a: Board, b: Board, th: nat, tw: nat, ty: nat, tx: nat)
    requires IsTiled(a, 8, th, tw) && IsTiled(b, 8, th, tw)
  {
    exists y: nat, x: nat ::
      y < 8 * th && x < 8 * tw && y / 8 == ty && x / 8 == tx && Cell(a, y, x) != Cell(b, y, x)
  }

  /** A tile is marked dirty exactly when one of its cells changes. */
  lemma {:induction false} DirtyIsChange(b: Board, active: array2<u8>, ty: nat, tx: nat)
    requires active.Length1 % 2 == 0 && IsTiled(b, 8, active.Length0, active.Length1)
    requires IsDilation(active, b, 8) && ty < active.Length0 && tx < active.Length1
    ensures TileLive(Changes(b, active), 8, active.Length0, active.Length1, ty, tx) ==
            TileChanged(b, Stepped(b, active), active.Length0, active.Length1, ty, tx)
  {
    hide Stepped, Changes, IsDilation, Lane;
    forall y: nat, x: nat | y < 8 * active.Length0 && x < 8 * active.Length1
      ensures Cell(Changes(b, active), y, x) == (Cell(b, y, x) != Cell(Stepped(b, active), y, x))
    {
      ChangesAreExact(b, active, y, x);
    }
  }
}
