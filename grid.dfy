/**
 * The tile grid of the minesweeper board: coordinates, the Tile record,
 * the row-major layout of the tiles, and the count of mines around a cell.
 * Coordinates are 1-based: x is the column (1..cols), y the row (1..rows).
 */
module Grid {

  /** A tile coordinate (x, y). */
  type Coord = (int, int)

  /** One tile of the board, as the Tile component holds it. */
  datatype Tile = Tile(x: int, y: int, num: nat, bomb: bool, covered: bool, flag: bool)

  function Pos(t: Tile): Coord { (t.x, t.y) }

  /** The tile every new grid starts with: covered, unflagged, no bomb, count 0. */
  function FreshTile(x: int, y: int): Tile {
    Tile(x, y, 0, false, true, false)
  }

  predicate InGrid(c: Coord, rows: int, cols: int) {
    1 <= c.0 <= cols && 1 <= c.1 <= rows
  }

  /** Chebyshev distance at most 1 (a cell is adjacent to itself). */
  predicate Adjacent(a: Coord, b: Coord) {
    -1 <= a.0 - b.0 <= 1 && -1 <= a.1 - b.1 <= 1
  }

  /** One of the 8 cells around b. */
  predicate IsNeighbour(a: Coord, b: Coord) {
    Adjacent(a, b) && a != b
  }

  /** The 8 cells around c. */
  function Ring(c: Coord): (r: set<Coord>)
    ensures |r| <= 8
    ensures forall p :: p in r <==> IsNeighbour(p, c)
  {
    {(c.0 - 1, c.1 - 1), (c.0, c.1 - 1), (c.0 + 1, c.1 - 1), (c.0 - 1, c.1),
     (c.0 + 1, c.1), (c.0 - 1, c.1 + 1), (c.0, c.1 + 1), (c.0 + 1, c.1 + 1)}
  }

  predicate Distinct<T(==)>(s: seq<T>) {
    forall i, j :: 0 <= i < j < |s| ==> s[i] != s[j]
  }

  // ---------------------------------------------------------------------------
  // Counting mines around a cell

  /** How many of the positions ps lie among the 8 cells around c. */
  function AdjacentMines(ps: seq<Coord>, c: Coord): nat
  {
    if ps == [] then 0
    else AdjacentMines(ps[..|ps| - 1], c) + (if IsNeighbour(ps[|ps| - 1], c) then 1 else 0)
  }

  /** The set of positions of ps around c. */
  function MinesAround(ps: seq<Coord>, c: Coord): set<Coord> {
    set p | p in ps && IsNeighbour(p, c)
  }

  /** For distinct positions the count is the number of mined cells around c. */
  lemma {:induction false} AdjacentMinesIsCardinality(ps: seq<Coord>, c: Coord)
    requires Distinct(ps)
    ensures AdjacentMines(ps, c) == |MinesAround(ps, c)|
  {
    if ps != [] {
      var n := |ps| - 1;
      var front, last := ps[..n], ps[n];
      assert ps == front + [last];
      assert last !in front by {
        forall i | 0 <= i < n ensures front[i] != last { assert ps[i] != ps[n]; }
      }
      AdjacentMinesIsCardinality(front, c);
      if IsNeighbour(last, c) {
        assert MinesAround(ps, c) == MinesAround(front, c) + {last};
      } else {
        assert MinesAround(ps, c) == MinesAround(front, c);
      }
    }
  }

  /** Distinct positions put at most 8 mines around any cell. */
  lemma AdjacentMinesAtMostEight(ps: seq<Coord>, c: Coord)
    requires Distinct(ps)
    ensures AdjacentMines(ps, c) <= 8
  {
    AdjacentMinesIsCardinality(ps, c);
    SubsetCardinality(MinesAround(ps, c), Ring(c));
  }

  /** The count is zero exactly when no position lies around c. */
  lemma {:induction false} AdjacentMinesZero(ps: seq<Coord>, c: Coord)
    ensures AdjacentMines(ps, c) == 0 <==> forall p :: p in ps ==> !IsNeighbour(p, c)
  {
    if ps != [] {
      var n := |ps| - 1;
      assert ps == ps[..n] + [ps[n]];
      AdjacentMinesZero(ps[..n], c);
    }
  }

  // ---------------------------------------------------------------------------
  // Cardinality helpers

  lemma SubsetCardinality<T>(a: set<T>, b: set<T>)
    requires a <= b
    ensures |a| <= |b|
  {
    assert b == a + (b - a);
  }

  /** A duplicate-free sequence drawn from s is no longer than s is large. */
  lemma {:induction false} DistinctLength<T>(xs: seq<T>, s: set<T>)
    requires Distinct(xs)
    requires forall i :: 0 <= i < |xs| ==> xs[i] in s
    ensures |xs| <= |s|
  {
    if xs != [] {
      var rest := xs[1..];
      forall i | 0 <= i < |rest| ensures rest[i] in s - {xs[0]} {
        assert xs[i + 1] != xs[0];
      }
      DistinctLength(rest, s - {xs[0]});
    }
  }

  // ---------------------------------------------------------------------------
  // The set of cells of a grid

  function RowCells(y: int, cols: nat): set<Coord> {
    set x | 1 <= x <= cols :: (x, y)
  }

  function GridCells(rows: nat, cols: nat): (r: set<Coord>)
    ensures forall c :: c in r <==> InGrid(c, rows, cols)
  {
    var r := set x, y | 1 <= x <= cols && 1 <= y <= rows :: (x, y);
    assert forall c | InGrid(c, rows, cols) :: c in r by {
      forall c | InGrid(c, rows, cols) ensures c in r { var (x, y) := c; }
    }
    r
  }

  lemma {:induction false} RowCellsCardinality(y: int, cols: nat)
    ensures |RowCells(y, cols)| == cols
  {
    if cols > 0 {
      RowCellsCardinality(y, cols - 1);
      assert RowCells(y, cols) == RowCells(y, cols - 1) + {(cols, y)};
    }
  }

  /** A rows-by-cols grid has rows * cols cells. */
  lemma {:induction false} GridCellsCardinality(rows: nat, cols: nat)
    ensures |GridCells(rows, cols)| == rows * cols
  {
    if rows > 0 {
      GridCellsCardinality(rows - 1, cols);
      RowCellsCardinality(rows, cols);
      var below, top := GridCells(rows - 1, cols), RowCells(rows, cols);
      assert GridCells(rows, cols) == below + top;
      assert below * top == {};
      assert (rows - 1) * cols + cols == rows * cols;
    }
  }

  // ---------------------------------------------------------------------------
  // Row-major layout of the tiles

  /** The position of cell c in the row-major tile list of a grid cols wide. */
  function Index(c: Coord, cols: int): int {
    (c.1 - 1) * cols + (c.0 - 1)
  }

  /** Tile k sits at the k-th cell, row by row; every cell has exactly one tile. */
  ghost predicate Layout(ts: seq<Tile>, rows: int, cols: int) {
    && 1 <= rows && 1 <= cols
    && |ts| == rows * cols
    && forall k :: 0 <= k < |ts| ==> InGrid(Pos(ts[k]), rows, cols) && Index(Pos(ts[k]), cols) == k
  }

  lemma IndexBounds(c: Coord, rows: int, cols: int)
    requires InGrid(c, rows, cols)
    ensures 0 <= Index(c, cols) < rows * cols
  {
    var i, j := c.1 - 1, c.0 - 1;
    assert 0 <= i * cols by { assert 0 <= i && 0 <= cols; }
    assert (i + 1) * cols <= rows * cols by { assert i + 1 <= rows && 0 <= cols; }
  }

  /** A cell in a lower row comes earlier in the row-major order. */
  lemma IndexRowOrder(a: Coord, b: Coord, rows: int, cols: int)
    requires InGrid(a, rows, cols) && InGrid(b, rows, cols) && a.1 < b.1
    ensures Index(a, cols) < Index(b, cols)
  {
    var ia, ib := a.1 - 1, b.1 - 1;
    MulMonotone(ia + 1, ib, cols);
    assert (ia + 1) * cols == ia * cols + cols;
  }

  lemma MulMonotone(p: int, q: int, c: int)
    requires p <= q && 0 <= c
    ensures p * c <= q * c
  {
    assert q * c - p * c == (q - p) * c;
  }

  lemma IndexInjective(a: Coord, b: Coord, rows: int, cols: int)
    requires InGrid(a, rows, cols) && InGrid(b, rows, cols)
    requires Index(a, cols) == Index(b, cols)
    ensures a == b
  {
    if a.1 < b.1 {
      IndexRowOrder(a, b, rows, cols);
    } else if b.1 < a.1 {
      IndexRowOrder(b, a, rows, cols);
    }
  }

  /** Under the layout, the tile of an in-grid cell c is the one at Index(c). */
  lemma TileAt(ts: seq<Tile>, rows: int, cols: int, c: Coord)
    requires Layout(ts, rows, cols) && InGrid(c, rows, cols)
    ensures 0 <= Index(c, cols) < |ts| && Pos(ts[Index(c, cols)]) == c
  {
    IndexBounds(c, rows, cols);
    var k := Index(c, cols);
    IndexInjective(Pos(ts[k]), c, rows, cols);
  }

  /** Under the layout, a tile sits at c exactly when c is a cell of the grid. */
  lemma HasTileIffInGrid(ts: seq<Tile>, rows: int, cols: int, c: Coord)
    requires Layout(ts, rows, cols)
    ensures (exists k :: 0 <= k < |ts| && Pos(ts[k]) == c) <==> InGrid(c, rows, cols)
  {
    if InGrid(c, rows, cols) { TileAt(ts, rows, cols, c); }
  }

  // ---------------------------------------------------------------------------
  // Tiles consistent with a mine layout

  /** A tile agrees with the mine positions ms: it is a bomb iff its cell is one
      of them, and a non-bomb tile's count is the number of them around it. */
  predicate Consistent(t: Tile, ms: seq<Coord>) {
    && t.bomb == (Pos(t) in ms)
    && (!t.bomb ==> t.num == AdjacentMines(ms, Pos(t)))
  }

  ghost predicate Laid(ts: seq<Tile>, ms: seq<Coord>) {
    forall k :: 0 <= k < |ts| ==> Consistent(ts[k], ms)
  }

  /** On a consistent board with distinct mines no count exceeds 8. */
  lemma CountAtMostEight(t: Tile, ms: seq<Coord>)
    requires Consistent(t, ms) && Distinct(ms)
    ensures !t.bomb ==> t.num <= 8
  {
    AdjacentMinesAtMostEight(ms, Pos(t));
  }

  /** Under the layout, the bomb tiles sit on exactly the mine cells, so a board
      with distinct in-grid mines ms has exactly |ms| bomb tiles. */
  lemma BombTilesAreMines(ts: seq<Tile>, rows: int, cols: int, ms: seq<Coord>)
    requires Layout(ts, rows, cols) && Laid(ts, ms) && Distinct(ms)
    requires forall m :: m in ms ==> InGrid(m, rows, cols)
    ensures (set k | 0 <= k < |ts| && ts[k].bomb :: Pos(ts[k])) == set m | m in ms
    ensures |set k | 0 <= k < |ts| && ts[k].bomb :: Pos(ts[k])| == |ms|
  {
    var bombs := set k | 0 <= k < |ts| && ts[k].bomb :: Pos(ts[k]);
    forall m | m in ms ensures m in bombs {
      TileAt(ts, rows, cols, m);
      assert ts[Index(m, cols)].bomb;
    }
    DistinctSetSize(ms);
  }

  lemma {:induction false} DistinctSetSize<T>(xs: seq<T>)
    requires Distinct(xs)
    ensures |set x | x in xs| == |xs|
  {
    if xs != [] {
      var rest := xs[1..];
      DistinctSetSize(rest);
      assert (set x | x in xs) == (set x | x in rest) + {xs[0]};
      assert xs[0] !in rest by {
        forall i | 0 <= i < |rest| ensures rest[i] != xs[0] { assert xs[i + 1] != xs[0]; }
      }
    }
  }
}
