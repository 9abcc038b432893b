/** The three tile maps that all the Life demos keep beside the board, one byte per tile. */
module LifeTiles {
  import opened Bits
  import opened LifeBoard

  /** A byte that is 1 for true. */
  function Flag(b: bool): u8 {
    if b then 1 else 0
  }

  /** The 16-bit load of two neighbouring tile bytes. */
  function Pair(hi: u8, lo: u8): u16 {
    hi * 0x100 + lo
  }

  type TileSet = set<(nat, nat)>

  /** Is one of the nine tiles around (i, j) in `s`? */
  ghost predicate Around(s: TileSet, th: nat, tw: nat, i: nat, j: nat)
    requires i < th && j < tw
  {
    exists p :: p in s && Near(p.0, i, th) && Near(p.1, j, tw)
  }

  /** The tiles that a map flags. */
  ghost function Flagged(m: array2<u8>): (s: TileSet)
    reads m
    ensures forall a: nat, b: nat | a < m.Length0 && b < m.Length1 :: ((a, b) in s) == (m[a, b] != 0)
    ensures forall p | p in s :: p.0 < m.Length0 && p.1 < m.Length1
  {
    set a: nat, b: nat | a < m.Length0 && b < m.Length1 && m[a, b] != 0 :: (a, b)
  }

  /** The active map is the set `s` dilated by one tile in every direction. */
  ghost predicate IsDilationOf(active: array2<u8>, s: TileSet)
    reads active
  {
    forall i: nat, j: nat | i < active.Length0 && j < active.Length1 ::
      active[i, j] == Flag(Around(s, active.Length0, active.Length1, i, j))
  }

  /** `s` holds the tiles of `all` that a row-by-row scan has passed when it reaches (ty, tx). */
  ghost predicate ScannedUpTo(s: TileSet, all: TileSet, ty: nat, tx: nat) {
    forall p :: p in s <==> p in all && (p.0 < ty || (p.0 == ty && p.1 < tx))
  }

  lemma {:induction false} NearSymmetric(i: nat, j: nat, n: nat)
    requires i < n && j < n
    ensures Near(i, j, n) == Near(j, i, n)
  {
  }

  lemma {:induction false} AroundMore(s: TileSet, th: nat, tw: nat, i: nat, j: nat, ty: nat, tx: nat)
    requires i < th && j < tw && ty < th && tx < tw
    ensures Around(s + {(ty, tx)}, th, tw, i, j) == (Around(s, th, tw, i, j) || (Near(i, ty, th) && Near(j, tx, tw)))
  {
    hide Near;
    NearSymmetric(i, ty, th);
    NearSymmetric(j, tx, tw);
    assert (ty, tx) in s + {(ty, tx)};
  }

  /** The dilation of the live tiles, as the board module defines it. */
  lemma {:induction false} AroundIsDilated(s: TileSet, b: Board, t: nat, th: nat, tw: nat, i: nat, j: nat)
    requires IsTiled(b, t, th, tw) && i < th && j < tw
    requires forall p | p in s :: p.0 < th && p.1 < tw
    requires forall a: nat, c: nat | a < th && c < tw :: ((a, c) in s) == TileLive(b, t, th, tw, a, c)
    ensures Around(s, th, tw, i, j) == Dilated(b, t, th, tw, i, j)
  {
    hide TileLive;
    if Dilated(b, t, th, tw, i, j) {
      var a: nat, c: nat :| Near(a, i, th) && Near(c, j, tw) && TileLive(b, t, th, tw, a, c);
      assert a < th && c < tw;
      assert (a, c) in s;
    }
    if Around(s, th, tw, i, j) {
      var p :| p in s && Near(p.0, i, th) && Near(p.1, j, tw);
      assert (p.0, p.1) == p;
    }
  }

  /** The active map is the dilation of the live tiles of `b`. */
  ghost predicate IsDilation(active: array2<u8>, b: Board, t: nat)
    requires IsTiled(b, t, active.Length0, active.Length1)
    reads active
  {
    forall i: nat, j: nat | i < active.Length0 && j < active.Length1 ::
      active[i, j] == Flag(Dilated(b, t, active.Length0, active.Length1, i, j))
  }

  /** The map `m` flags exactly the tiles of `b` that hold a live cell. */
  ghost predicate IsLiveMap(m: array2<u8>, b: Board, t: nat)
    requires IsTiled(b, t, m.Length0, m.Length1)
    reads m
  {
    forall i: nat, j: nat | i < m.Length0 && j < m.Length1 ::
      m[i, j] == Flag(TileLive(b, t, m.Length0, m.Length1, i, j))
  }

  lemma {:induction false} DilationOfLive(tiles: TileMaps, b: Board, t: nat)
    requires tiles.Valid() && IsTiled(b, t, tiles.active.Length0, tiles.active.Length1)
    requires IsLiveMap(tiles.live, b, t) && IsDilationOf(tiles.active, Flagged(tiles.live))
    ensures IsDilation(tiles.active, b, t)
  {
    hide TileLive, Around, Dilated, Near;
    var th, tw := tiles.active.Length0, tiles.active.Length1;
    forall i: nat, j: nat | i < th && j < tw
      ensures tiles.active[i, j] == Flag(Dilated(b, t, th, tw, i, j))
    {
      AroundIsDilated(Flagged(tiles.live), b, t, th, tw, i, j);
    }
  }

  class TileMaps {
    const active: array2<u8>
    const live: array2<u8>
    const dirty: array2<u8>

    ghost predicate Valid() {
      && active != live && active != dirty && live != dirty
      && active.Length0 == live.Length0 == dirty.Length0 > 0
      && active.Length1 == live.Length1 == dirty.Length1 > 0
    }

    constructor (th: nat, tw: nat)
      requires th > 0 && tw > 0
      ensures Valid() && active.Length0 == th && active.Length1 == tw
      ensures fresh(active) && fresh(live) && fresh(dirty)
    {
      active := new u8[th, tw]((i, j) => 0);
      live := new u8[th, tw]((i, j) => 0);
      dirty := new u8[th, tw]((i, j) => 0);
    }

    /** Activates the nine tiles around (ty, tx), wrapping at the edges. */
    method MarkNine(ty: nat, tx: nat)
      requires Valid() && ty < active.Length0 && tx < active.Length1
      modifies active
      ensures forall i: nat, j: nat | i < active.Length0 && j < active.Length1 ::
                active[i, j] == if Near(i, ty, active.Length0) && Near(j, tx, active.Length1) then 1
                                else old(active[i, j])
    {
      var th, tw := active.Length0, active.Length1;
      var tyPrev := if ty == 0 then th - 1 else ty - 1;
      var tyNext := if ty + 1 == th then 0 else ty + 1;
      var txPrev := if tx == 0 then tw - 1 else tx - 1;
      var txNext := if tx + 1 == tw then 0 else tx + 1;
      active[tyPrev, txPrev] := 1;
      active[tyPrev, tx] := 1;
      active[tyPrev, txNext] := 1;
      active[ty, txPrev] := 1;
      active[ty, tx] := 1;
      active[ty, txNext] := 1;
      active[tyNext, txPrev] := 1;
      active[tyNext, tx] := 1;
      active[tyNext, txNext] := 1;
    }

    /** Adds (ty, tx) to the set that the active map dilates. */
    method MarkAround(ty: nat, tx: nat, ghost s: TileSet)
      requires Valid() && ty < active.Length0 && tx < active.Length1
      requires IsDilationOf(active, s)
      modifies active
      ensures IsDilationOf(active, s + {(ty, tx)})
    {
      hide Near, Around;
      MarkNine(ty, tx);
      forall i: nat, j: nat | i < active.Length0 && j < active.Length1
        ensures active[i, j] == Flag(Around(s + {(ty, tx)}, active.Length0, active.Length1, i, j))
      {
        AroundMore(s, active.Length0, active.Length1, i, j, ty, tx);
      }
    }

    method ClearActive()
      requires Valid()
      modifies active
      ensures forall i: nat, j: nat | i < active.Length0 && j < active.Length1 :: active[i, j] == 0
    {
      for ty := 0 to active.Length0
        invariant forall i: nat, j: nat | i < ty && j < active.Length1 :: active[i, j] == 0
      {
        for tx := 0 to active.Length1
          invariant forall i: nat, j: nat | i < ty && j < active.Length1 :: active[i, j] == 0
          invariant forall j: nat | j < tx :: active[ty, j] == 0
        {
          active[ty, tx] := 0;
        }
      }
    }

    /** Resets the per-frame maps. */
    method ClearLiveDirty()
      requires Valid()
      modifies live, dirty
      ensures forall i: nat, j: nat | i < live.Length0 && j < live.Length1 :: live[i, j] == 0 && dirty[i, j] == 0
    {
      for ty := 0 to live.Length0
        invariant forall i: nat, j: nat | i < ty && j < live.Length1 :: live[i, j] == 0 && dirty[i, j] == 0
      {
        for tx := 0 to live.Length1
          invariant forall i: nat, j: nat | i < ty && j < live.Length1 :: live[i, j] == 0 && dirty[i, j] == 0
          invariant forall j: nat | j < tx :: live[ty, j] == 0 && dirty[ty, j] == 0
        {
          live[ty, tx] := 0;
          dirty[ty, tx] := 0;
        }
      }
    }

    /** The scatter loop leaves exactly the 3x3 toroidal dilation of the live map. */
    method BuildActiveFromLive()
      requires Valid()
      modifies active
      ensures IsDilationOf(active, Flagged(live))
    {
      hide Near;
      ghost var all, s: TileSet := Flagged(live), {};
      ClearActive();
      for ty := 0 to active.Length0
        invariant IsDilationOf(active, s) && ScannedUpTo(s, all, ty, 0)
      {
        for tx := 0 to active.Length1
          invariant IsDilationOf(active, s) && ScannedUpTo(s, all, ty, tx)
        {
          if live[ty, tx] != 0 {
            MarkAround(ty, tx, s);
            s := s + {(ty, tx)};
          }
        }
      }
      assert s == all;
    }

    method MarkAllDirty()
      requires Valid()
      modifies dirty
      ensures forall i: nat, j: nat | i < dirty.Length0 && j < dirty.Length1 :: dirty[i, j] == 1
    {
      for ty := 0 to dirty.Length0
        invariant forall i: nat, j: nat | i < ty && j < dirty.Length1 :: dirty[i, j] == 1
      {
        for tx := 0 to dirty.Length1
          invariant forall i: nat, j: nat | i < ty && j < dirty.Length1 :: dirty[i, j] == 1
          invariant forall j: nat | j < tx :: dirty[ty, j] == 1
        {
          dirty[ty, tx] := 1;
        }
      }
    }
  }
}
