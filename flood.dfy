/**
 * One flood-fill step, as tile_check and zero_check run it each frame:
 * collect the cells of the open zero tiles, then uncover every covered tile
 * next to one of them. The full flood is this step repeated until nothing
 * changes.
 */
module Flood {
  import opened Grid

  /** A tile tile_check pushes: uncovered, not a bomb, no mines around it. */
  predicate OpenZero(t: Tile) {
    !t.covered && !t.bomb && t.num == 0
  }

  /** The coordinates tile_check pushes onto the zeros list, in tile order. */
  function ZeroCoords(ts: seq<Tile>): (zs: seq<Coord>)
  {
    if ts == [] then []
    else
      var n := |ts| - 1;
      ZeroCoords(ts[..n]) + (if OpenZero(ts[n]) then [Pos(ts[n])] else [])
  }

  /** The pushed coordinates are exactly the cells of the open zero tiles. */
  lemma {:induction false} ZeroCoordsMembers(ts: seq<Tile>)
    ensures forall k :: 0 <= k < |ts| && OpenZero(ts[k]) ==> Pos(ts[k]) in ZeroCoords(ts)
    ensures forall z :: z in ZeroCoords(ts) ==>
      exists k :: 0 <= k < |ts| && OpenZero(ts[k]) && Pos(ts[k]) == z
  {
    if ts != [] {
      var n := |ts| - 1;
      ZeroCoordsMembers(ts[..n]);
      assert forall k :: 0 <= k < n ==> ts[..n][k] == ts[k];
    }
  }

  predicate NearAny(c: Coord, zs: seq<Coord>) {
    exists z :: z in zs && Adjacent(c, z)
  }

  /** zero_check on one tile: uncover it if it is covered and next to a pushed cell. */
  function UncoverNear(t: Tile, zs: seq<Coord>): Tile {
    if t.covered && NearAny(Pos(t), zs) then t.(covered := false) else t
  }

  function UncoverAll(ts: seq<Tile>, zs: seq<Coord>): (r: seq<Tile>)
    ensures |r| == |ts|
  {
    seq(|ts|, k requires 0 <= k < |ts| => UncoverNear(ts[k], zs))
  }

  /** A tile is uncovered by the step iff it was covered and lies next to an
      open zero tile. */
  predicate Exposed(ts: seq<Tile>, k: int)
    requires 0 <= k < |ts|
  {
    exists j :: 0 <= j < |ts| && OpenZero(ts[j]) && Adjacent(Pos(ts[k]), Pos(ts[j]))
  }

  /** One frame of tile_check followed by zero_check. It only turns covered
      tiles into uncovered ones, leaving position, bomb, count and flag alone;
      it uncovers exactly the covered tiles next to an open zero tile,
      flagged ones included. */
  function FloodStep(ts: seq<Tile>): (r: seq<Tile>)
    ensures |r| == |ts|
    ensures forall k :: 0 <= k < |ts| ==>
      r[k] == ts[k] || (ts[k].covered && r[k] == ts[k].(covered := false))
    ensures forall k :: 0 <= k < |ts| ==> (r[k].covered <==> ts[k].covered && !Exposed(ts, k))
  {
    ZeroCoordsMembers(ts);
    UncoverAll(ts, ZeroCoords(ts))
  }

  /** On a board consistent with its mines the step never uncovers a bomb, and
      the board stays consistent. */
  lemma FloodStepSafe(ts: seq<Tile>, ms: seq<Coord>)
    requires Laid(ts, ms)
    ensures Laid(FloodStep(ts), ms)
    ensures forall k :: 0 <= k < |ts| && ts[k].covered && !FloodStep(ts)[k].covered ==> !ts[k].bomb
  {
    var r := FloodStep(ts);
    forall k | 0 <= k < |ts| && ts[k].covered && !r[k].covered
      ensures !ts[k].bomb
    {
      var j :| 0 <= j < |ts| && OpenZero(ts[j]) && Adjacent(Pos(ts[k]), Pos(ts[j]));
      AdjacentMinesZero(ms, Pos(ts[j]));
      if Pos(ts[k]) != Pos(ts[j]) {
        assert IsNeighbour(Pos(ts[k]), Pos(ts[j]));
      }
    }
  }

  /** The flood has stopped exactly when no covered tile lies next to an open
      zero tile. */
  lemma FloodStepFixedPoint(ts: seq<Tile>)
    ensures FloodStep(ts) == ts <==>
      forall k :: 0 <= k < |ts| && ts[k].covered ==> !Exposed(ts, k)
  {
    var r := FloodStep(ts);
    if forall k :: 0 <= k < |ts| && ts[k].covered ==> !Exposed(ts, k) {
      assert forall k :: 0 <= k < |ts| ==> r[k] == ts[k];
    }
  }

  /** The number of covered tiles. */
  function CoveredCount(ts: seq<Tile>): nat {
    if ts == [] then 0
    else CoveredCount(ts[..|ts| - 1]) + (if ts[|ts| - 1].covered then 1 else 0)
  }

  /** Uncovering some tiles lowers the covered count, strictly if any changed. */
  lemma {:induction false} UncoveringLowersCount(a: seq<Tile>, b: seq<Tile>)
    requires |a| == |b|
    requires forall k :: 0 <= k < |a| ==>
      b[k] == a[k] || (a[k].covered && b[k] == a[k].(covered := false))
    ensures CoveredCount(b) <= CoveredCount(a)
    ensures b != a ==> CoveredCount(b) < CoveredCount(a)
  {
    if a != [] {
      var n := |a| - 1;
      UncoveringLowersCount(a[..n], b[..n]);
      assert a == a[..n] + [a[n]];
      assert b == b[..n] + [b[n]];
    }
  }

  /** The flood run frame after frame until a step changes nothing. */
  function Flood(ts: seq<Tile>): (r: seq<Tile>)
    ensures |r| == |ts|
    ensures FloodStep(r) == r
    decreases CoveredCount(ts)
  {
    var next := FloodStep(ts);
    if next == ts then ts
    else
      UncoveringLowersCount(ts, next);
      Flood(next)
  }

  /** The whole flood never uncovers a bomb and keeps the board consistent;
      it changes nothing but covered flags, and turns them only from true to false. */
  lemma {:induction false} FloodSafe(ts: seq<Tile>, ms: seq<Coord>)
    requires Laid(ts, ms)
    ensures Laid(Flood(ts), ms)
    ensures forall k :: 0 <= k < |ts| ==>
      Flood(ts)[k] == ts[k] || (ts[k].covered && Flood(ts)[k] == ts[k].(covered := false))
    ensures forall k :: 0 <= k < |ts| && ts[k].covered && !Flood(ts)[k].covered ==> !ts[k].bomb
    decreases CoveredCount(ts)
  {
    var next := FloodStep(ts);
    if next != ts {
      FloodStepSafe(ts, ms);
      UncoveringLowersCount(ts, next);
      FloodSafe(next, ms);
    }
  }
}
