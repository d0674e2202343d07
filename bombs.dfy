/**
 * Mine generation: the 3x3 safe zone around the first click, and the
 * rejection sampling of distinct bomb positions outside it. The random
 * number generator is replaced by the sequence of coordinates it would draw.
 */
module Bombs {
  import opened Options
  import opened Grid
  import opened Difficulty

  /** The safe zone in the order the source builds it: the clicked cell first,
      then its 8 neighbours. It holds exactly the cells adjacent to safe. */
  function SafeZone(safe: Coord): (zone: seq<Coord>)
    ensures |zone| == 9 && zone[0] == safe
    ensures forall c :: c in zone <==> Adjacent(c, safe)
  {
    [safe,
     (safe.0 - 1, safe.1 - 1), (safe.0, safe.1 - 1), (safe.0 + 1, safe.1 - 1),
     (safe.0 - 1, safe.1), (safe.0 + 1, safe.1),
     (safe.0 - 1, safe.1 + 1), (safe.0, safe.1 + 1), (safe.0 + 1, safe.1 + 1)]
  }

  /** The draws of d that the sampler accepts, in order: each draw outside the
      safe zone, the first time it occurs. */
  function FirstEligible(d: seq<Coord>, safe: Coord): (r: seq<Coord>)
    ensures |r| <= |d|
  {
    if d == [] then []
    else
      var n := |d| - 1;
      assert d == d[..n] + [d[n]];
      FirstEligible(d[..n], safe) + (if !Adjacent(d[n], safe) && d[n] !in d[..n] then [d[n]] else [])
  }

  /** A position is accepted iff it was drawn and lies outside the safe zone. */
  lemma {:induction false} FirstEligibleMembers(d: seq<Coord>, safe: Coord)
    ensures forall c :: c in FirstEligible(d, safe) <==> c in d && !Adjacent(c, safe)
  {
    if d != [] {
      var n := |d| - 1;
      FirstEligibleMembers(d[..n], safe);
      assert d == d[..n] + [d[n]];
    }
  }

  /** No position is accepted twice. */
  lemma {:induction false} FirstEligibleDistinct(d: seq<Coord>, safe: Coord)
    ensures Distinct(FirstEligible(d, safe))
  {
    if d != [] {
      var n := |d| - 1;
      FirstEligibleDistinct(d[..n], safe);
      FirstEligibleMembers(d[..n], safe);
    }
  }

  /** Drawing more can only add accepted positions at the end. */
  lemma {:induction false} FirstEligiblePrefix(d: seq<Coord>, m: nat, safe: Coord)
    requires m <= |d|
    ensures |FirstEligible(d[..m], safe)| <= |FirstEligible(d, safe)|
    ensures FirstEligible(d, safe)[..|FirstEligible(d[..m], safe)|] == FirstEligible(d[..m], safe)
    decreases |d| - m
  {
    if m < |d| {
      var n := |d| - 1;
      assert d[..n][..m] == d[..m];
      FirstEligiblePrefix(d[..n], m, safe);
      var front := FirstEligible(d[..n], safe);
      var tail := if !Adjacent(d[n], safe) && d[n] !in d[..n] then [d[n]] else [];
      assert FirstEligible(d, safe) == front + tail;
      var len := |FirstEligible(d[..m], safe)|;
      assert (front + tail)[..len] == front[..len];
    } else {
      assert d[..m] == d;
    }
  }

  /**
   * generate_bomb_positions: draw coordinates until bombCount of them are
   * new and outside the safe zone. The draws are the values gen_range would
   * return, so each lies in the grid. The result is None when the draws run
   * out before enough were accepted; the source would keep drawing.
   */
  method GenerateBombPositions(safe: Coord, rows: int, cols: int, bombCount: nat, draws: seq<Coord>)
    returns (r: Option<seq<Coord>>)
    requires forall i :: 0 <= i < |draws| ==> InGrid(draws[i], rows, cols)
    ensures r.Some? <==> bombCount <= |FirstEligible(draws, safe)|
    ensures r.Some? ==> r.value == FirstEligible(draws, safe)[..bombCount]
    ensures r.Some? ==> |r.value| == bombCount && Distinct(r.value)
    ensures r.Some? ==> forall p :: p in r.value ==> InGrid(p, rows, cols) && !Adjacent(p, safe)
  {
    var selected: seq<Coord> := [];
    var safeZone := SafeZone(safe);
    var i := bombCount;
    var n := 0;
    while i > 0
      invariant 0 <= n <= |draws|
      invariant selected == FirstEligible(draws[..n], safe)
      invariant |selected| + i == bombCount
      decreases |draws| - n
    {
      if n == |draws| {
        assert draws[..n] == draws;
        return None;
      }
      var cords := draws[n];
      FirstEligibleMembers(draws[..n], safe);
      assert draws[..n + 1][..n] == draws[..n];
      n := n + 1;
      if cords in selected || cords in safeZone {
        continue;
      }
      i := i - 1;
      selected := selected + [cords];
    }
    FirstEligiblePrefix(draws, n, safe);
    FirstEligibleMembers(draws, safe);
    FirstEligibleDistinct(draws, safe);
    assert forall p :: p in selected ==> p in FirstEligible(draws, safe);
    r := Some(selected);
  }

  // ---------------------------------------------------------------------------
  // When the sampling loop can finish

  /** The cells the sampler may pick: in the grid and outside the safe zone. */
  function Eligible(rows: nat, cols: nat, safe: Coord): set<Coord> {
    GridCells(rows, cols) - set c | c in SafeZone(safe)
  }

  /** Whatever is drawn, no more positions are accepted than there are eligible
      cells: with fewer eligible cells than bombs the loop never finishes. */
  lemma AcceptedAtMostEligible(rows: nat, cols: nat, safe: Coord, draws: seq<Coord>)
    requires forall i :: 0 <= i < |draws| ==> InGrid(draws[i], rows, cols)
    ensures |FirstEligible(draws, safe)| <= |Eligible(rows, cols, safe)|
  {
    var acc := FirstEligible(draws, safe);
    FirstEligibleMembers(draws, safe);
    FirstEligibleDistinct(draws, safe);
    forall i | 0 <= i < |acc| ensures acc[i] in Eligible(rows, cols, safe) {
      assert acc[i] in draws;
    }
    DistinctLength(acc, Eligible(rows, cols, safe));
  }

  /** A grid loses at most the 9 safe-zone cells. */
  lemma EligibleAtLeast(rows: nat, cols: nat, safe: Coord)
    ensures |Eligible(rows, cols, safe)| >= rows * cols - 9
  {
    var zone := set c | c in SafeZone(safe);
    var grid := GridCells(rows, cols);
    GridCellsCardinality(rows, cols);
    DistinctLength(SafeZone(safe), zone);
    assert zone <= (set i | 0 <= i < 9 :: SafeZone(safe)[i]);
    SetOfSeqSize(SafeZone(safe));
    SubsetCardinality(grid * zone, zone);
    assert grid == (grid - zone) + (grid * zone);
  }

  lemma {:induction false} SetOfSeqSize<T>(xs: seq<T>)
    ensures |set x | x in xs| <= |xs|
  {
    if xs != [] {
      SetOfSeqSize(xs[1..]);
      assert (set x | x in xs) == (set x | x in xs[1..]) + {xs[0]};
    }
  }

  /** Drawing each eligible cell once makes every draw accepted. */
  lemma {:induction false} FirstEligibleOfFreshDraws(d: seq<Coord>, safe: Coord)
    requires Distinct(d)
    requires forall i :: 0 <= i < |d| ==> !Adjacent(d[i], safe)
    ensures FirstEligible(d, safe) == d
  {
    if d != [] {
      var n := |d| - 1;
      FirstEligibleOfFreshDraws(d[..n], safe);
      assert d[n] !in d[..n] by {
        forall i | 0 <= i < n ensures d[..n][i] != d[n] { assert d[i] != d[n]; }
      }
      assert d == d[..n] + [d[n]];
    }
  }

  /** Some sequence of distinct draws enumerates a finite set. */
  lemma {:induction false} Enumerate(s: set<Coord>) returns (d: seq<Coord>)
    ensures Distinct(d) && |d| == |s|
    ensures forall i :: 0 <= i < |d| ==> d[i] in s
  {
    if s == {} {
      d := [];
    } else {
      var p :| p in s;
      var rest := Enumerate(s - {p});
      d := [p] + rest;
    }
  }

  /** With at least bombCount eligible cells some draws let the loop finish. */
  lemma SomeDrawsFinish(rows: nat, cols: nat, safe: Coord, bombCount: nat)
    requires bombCount <= |Eligible(rows, cols, safe)|
    ensures exists d: seq<Coord> ::
      (forall i :: 0 <= i < |d| ==> InGrid(d[i], rows, cols))
      && bombCount <= |FirstEligible(d, safe)|
  {
    var d := Enumerate(Eligible(rows, cols, safe));
    FirstEligibleOfFreshDraws(d, safe);
  }

  /** Every difficulty preset leaves enough eligible cells, wherever the first
      click lands, so for some draws the sampling loop finishes. */
  lemma PresetCanFinish(level: Level, safe: Coord)
    ensures Preset(level).bombCount <= |Eligible(Preset(level).rows, Preset(level).cols, safe)|
    ensures exists d: seq<Coord> ::
      (forall i :: 0 <= i < |d| ==> InGrid(d[i], Preset(level).rows, Preset(level).cols))
      && Preset(level).bombCount <= |FirstEligible(d, safe)|
  {
    var m := Preset(level);
    EligibleAtLeast(m.rows, m.cols, safe);
    SomeDrawsFinish(m.rows, m.cols, safe, m.bombCount);
  }

  /** On a 3x3 board a first click in the centre leaves no eligible cell:
      no draw is ever accepted, so one bomb can never be placed. */
  lemma CentreOfThreeByThree(draws: seq<Coord>)
    requires forall i :: 0 <= i < |draws| ==> InGrid(draws[i], 3, 3)
    ensures FirstEligible(draws, (2, 2)) == []
  {
    FirstEligibleMembers(draws, (2, 2));
    forall c | c in draws
      ensures Adjacent(c, (2, 2))
    {
      var i :| 0 <= i < |draws| && draws[i] == c;
    }
    if FirstEligible(draws, (2, 2)) != [] {
      assert false;
    }
  }
}
