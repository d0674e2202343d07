/**
 * The game engine: the board resources (map info, safe cell, zeros list,
 * tiles) and the systems that change them, one method per system, with the
 * phase machine SafeClick -> InGame -> GameOver and the difficulty buttons
 * that restart it.
 */
module Game {
  import opened Options
  import opened Grid
  import opened Difficulty
  import opened Bombs
  import opened Sprites
  import opened Flood

  /** GameState after asset loading. There is no winning phase. */
  datatype Phase = SafeClick | InGame | GameOver

  /** One frame's mouse input, resolved to what the cursor is over. */
  datatype Input = Idle | LeftClick(at: Coord) | RightClick(at: Coord) | Button(level: Level)

  /** A left click on cell c, seen from one tile: only a covered, unflagged
      tile at c is uncovered. */
  function RevealTile(t: Tile, c: Coord): Tile {
    if t.covered && !t.flag && Pos(t) == c then t.(covered := false) else t
  }

  /** A right click on cell c, seen from one tile: a covered tile at c has
      its flag flipped. */
  function ToggleFlagTile(t: Tile, c: Coord): Tile {
    if t.covered && Pos(t) == c then t.(flag := !t.flag) else t
  }

  function ClickTile(t: Tile, input: Input): Tile {
    match input
    case LeftClick(c) => RevealTile(t, c)
    case RightClick(c) => ToggleFlagTile(t, c)
    case _ => t
  }

  /** What click_switch does to the whole board. */
  function Clicked(ts: seq<Tile>, input: Input): (r: seq<Tile>)
    ensures |r| == |ts|
  {
    seq(|ts|, k requires 0 <= k < |ts| => ClickTile(ts[k], input))
  }

  /** A right click leaves an uncovered tile alone, changes nothing but the
      flag, and two right clicks on the same cell restore the tile. */
  lemma ToggleFlagTwice(t: Tile, c: Coord)
    ensures !t.covered ==> ToggleFlagTile(t, c) == t
    ensures ToggleFlagTile(t, c) == t.(flag := ToggleFlagTile(t, c).flag)
    ensures ToggleFlagTile(ToggleFlagTile(t, c), c) == t
  {
  }

  /** A left click leaves flagged and uncovered tiles alone, and a second left
      click on the same cell changes nothing more. */
  lemma RevealTileStable(t: Tile, c: Coord)
    ensures t.flag || !t.covered ==> RevealTile(t, c) == t
    ensures RevealTile(RevealTile(t, c), c) == RevealTile(t, c)
  {
  }

  /** Under the layout a click changes at most the tile of the clicked cell,
      and never the position, bomb or count of any tile. */
  lemma ClickedChangesOneTile(ts: seq<Tile>, rows: int, cols: int, input: Input, ms: seq<Coord>)
    requires Layout(ts, rows, cols) && Laid(ts, ms)
    requires input.LeftClick? || input.RightClick?
    ensures Laid(Clicked(ts, input), ms) && Layout(Clicked(ts, input), rows, cols)
    ensures forall k :: 0 <= k < |ts| && k != Index(input.at, cols) ==> Clicked(ts, input)[k] == ts[k]
  {
  }

  /** A tile uncovered on a cell that the mines keep clear of is an empty tile:
      not a bomb, and no mine around it. */
  lemma SafeCellIsEmpty(t: Tile, ms: seq<Coord>)
    requires Consistent(t, ms)
    requires forall m :: m in ms ==> !Adjacent(m, Pos(t))
    ensures !t.bomb && t.num == 0
  {
    AdjacentMinesZero(ms, Pos(t));
  }

  /** The inner loop of set_bombs' first pass: a tile on one of the positions
      becomes a bomb. */
  method MarkTile(tile: Tile, ps: seq<Coord>) returns (t: Tile)
    ensures t == tile.(bomb := tile.bomb || Pos(tile) in ps)
  {
    t := tile;
    var j := 0;
    while j < |ps|
      invariant 0 <= j <= |ps|
      invariant t == tile.(bomb := tile.bomb || Pos(tile) in ps[..j])
    {
      if (t.x, t.y) == ps[j] {
        t := t.(bomb := true);
      }
      assert ps[..j + 1] == ps[..j] + [ps[j]];
      j := j + 1;
    }
    assert ps[..j] == ps;
  }

  /** The eight comparisons set_bombs makes for one position: a non-bomb
      tile gains one when the position is one of its 8 neighbours. */
  method CountOne(tile: Tile, cords: Coord) returns (t: Tile)
    ensures t == tile.(num := tile.num + if !tile.bomb && IsNeighbour(cords, Pos(tile)) then 1 else 0)
  {
    t := tile;
    if !t.bomb {
      if (t.x + 1, t.y + 1) == cords { t := t.(num := t.num + 1); }
      if (t.x, t.y + 1) == cords { t := t.(num := t.num + 1); }
      if (t.x - 1, t.y + 1) == cords { t := t.(num := t.num + 1); }
      if (t.x + 1, t.y) == cords { t := t.(num := t.num + 1); }
      if (t.x - 1, t.y) == cords { t := t.(num := t.num + 1); }
      if (t.x + 1, t.y - 1) == cords { t := t.(num := t.num + 1); }
      if (t.x, t.y - 1) == cords { t := t.(num := t.num + 1); }
      if (t.x - 1, t.y - 1) == cords { t := t.(num := t.num + 1); }
    }
  }

  /** The inner loop of set_bombs' second pass: a non-bomb tile gains one for
      every position among its eight neighbours. */
  method CountTile(tile: Tile, ps: seq<Coord>) returns (t: Tile)
    ensures t == tile.(num := tile.num + if tile.bomb then 0 else AdjacentMines(ps, Pos(tile)))
  {
    t := tile;
    var j := 0;
    while j < |ps|
      invariant 0 <= j <= |ps|
      invariant t == tile.(num := tile.num + if tile.bomb then 0 else AdjacentMines(ps[..j], Pos(tile)))
    {
      t := CountOne(t, ps[j]);
      assert ps[..j + 1][..j] == ps[..j];
      j := j + 1;
    }
    assert ps[..j] == ps;
  }

  /** The tile-creating loops of spawn_tiles: rows x cols fresh tiles, row by
      row, x running over the columns and y over the rows. */
  method SpawnTiles(rows: nat, cols: nat) returns (a: array<Tile>)
    requires 1 <= rows && 1 <= cols
    ensures fresh(a)
    ensures Layout(a[..], rows, cols)
    ensures forall k :: 0 <= k < a.Length ==> a[k] == FreshTile(a[k].x, a[k].y)
  {
    a := new Tile[rows * cols];
    var i := 0;
    var n := 0;
    while i < rows
      invariant 0 <= i <= rows && n == i * cols && n <= a.Length
      invariant forall k :: 0 <= k < n ==> Spawned(a[k], k, rows, cols)
    {
      var j := 0;
      while j < cols
        invariant 0 <= j <= cols && n == i * cols + j && n <= a.Length
        invariant forall k :: 0 <= k < n ==> Spawned(a[k], k, rows, cols)
      {
        SpawnedCell(i, j, rows, cols);
        a[n] := FreshTile(j + 1, i + 1);
        n := n + 1;
        j := j + 1;
      }
      NextRow(i, cols);
      i := i + 1;
    }
  }

  /** Tile k of a grid as spawn_tiles leaves it. */
  ghost predicate Spawned(t: Tile, k: int, rows: int, cols: int) {
    InGrid(Pos(t), rows, cols) && Index(Pos(t), cols) == k && t == FreshTile(t.x, t.y)
  }

  /** The tile spawned for row i, column j goes to position i * cols + j. */
  lemma SpawnedCell(i: int, j: int, rows: int, cols: int)
    requires 0 <= i < rows && 0 <= j < cols
    ensures i * cols + j < rows * cols
    ensures Spawned(FreshTile(j + 1, i + 1), i * cols + j, rows, cols)
  {
    IndexBounds((j + 1, i + 1), rows, cols);
  }

  lemma NextRow(i: int, cols: int)
    ensures (i + 1) * cols == i * cols + cols
  {
  }

  class Minesweeper {
    var phase: Phase
    // MapInfo
    var rows: nat
    var cols: nat
    var bombCount: nat
    // Safe: the cell of the first click
    var safe: Coord
    // Empty: the zeros list tile_check fills and zero_check clears
    var zeros: seq<Coord>
    // the Tile entities, in spawn order
    var tiles: array<Tile>
    // the positions set_bombs placed bombs on; empty before the first click
    ghost var mines: seq<Coord>

    /** The board invariant: one tile per cell in row-major order, distinct
        in-grid mines, every tile's bomb and count agreeing with them, and
        before the first click no mines and every tile covered and unflagged. */
    ghost predicate Valid()
      reads this, tiles
    {
      && Layout(tiles[..], rows, cols)
      && Distinct(mines)
      && (forall m :: m in mines ==> InGrid(m, rows, cols))
      && Laid(tiles[..], mines)
      && (phase == SafeClick ==>
            mines == [] && forall k :: 0 <= k < tiles.Length ==> tiles[k].covered && !tiles[k].flag)
    }

    /** The bombs are placed: bombCount of them, none in the safe zone. */
    ghost predicate Armed()
      reads this
    {
      |mines| == bombCount && forall m :: m in mines ==> !Adjacent(m, safe)
    }

    /** Every tile is as spawn_tiles creates it. */
    ghost predicate FreshGrid()
      reads this, tiles
    {
      forall k :: 0 <= k < tiles.Length ==> tiles[k] == FreshTile(tiles[k].x, tiles[k].y)
    }

    /** The tile at cell c. */
    ghost function At(c: Coord): (t: Tile)
      reads this, tiles
      requires Valid() && InGrid(c, rows, cols)
      ensures Pos(t) == c
    {
      TileAt(tiles[..], rows, cols, c);
      tiles[Index(c, cols)]
    }

    /** The state once assets are loaded: the Easy map, no safe cell yet, an
        empty zeros list, and a fresh grid spawned on entering SafeClick. */
    constructor ()
      ensures Valid() && phase == SafeClick && zeros == [] && safe == (0, 0)
      ensures MapInfo(rows, cols, bombCount) == Preset(Easy)
      ensures FreshGrid()
    {
      var m := Preset(Easy);
      phase := SafeClick;
      rows, cols, bombCount := m.rows, m.cols, m.bombCount;
      safe := (0, 0);
      zeros := [];
      mines := [];
      var grid := SpawnTiles(m.rows, m.cols);
      tiles := grid;
    }

    /** A difficulty button (button_click_check), followed by entering
        SafeClick: the old tiles are despawned and a fresh grid of the new
        size is spawned. */
    method SelectLevel(level: Level)
      modifies this
      ensures Valid() && phase == SafeClick
      ensures MapInfo(rows, cols, bombCount) == Preset(level)
      ensures fresh(tiles) && FreshGrid() && tiles.Length == rows * cols
      ensures safe == old(safe) && zeros == old(zeros)
    {
      var m := Preset(level);
      rows, cols, bombCount := m.rows, m.cols, m.bombCount;
      phase := SafeClick;
      tiles := SpawnTiles(rows, cols);
      mines := [];
    }

    /** first_click: the tile under the cursor becomes the safe cell, is
        uncovered, and the game moves to InGame. A click off the grid hits no
        tile and changes nothing. */
    method FirstClick(c: Coord)
      requires Valid() && phase == SafeClick
      modifies this, tiles
      ensures Valid() && tiles == old(tiles) && mines == old(mines)
      ensures rows == old(rows) && cols == old(cols) && bombCount == old(bombCount) && zeros == old(zeros)
      ensures phase == (if InGrid(c, rows, cols) then InGame else SafeClick)
      ensures safe == (if InGrid(c, rows, cols) then c else old(safe))
      ensures forall k :: 0 <= k < tiles.Length ==>
        tiles[k] == if Pos(old(tiles[k])) == c then old(tiles[k]).(covered := false) else old(tiles[k])
    {
      var k := 0;
      while k < tiles.Length
        modifies tiles, this`safe, this`phase
        invariant 0 <= k <= tiles.Length
        invariant forall i :: 0 <= i < k ==>
          tiles[i] == if Pos(old(tiles[i])) == c then old(tiles[i]).(covered := false) else old(tiles[i])
        invariant forall i :: k <= i < tiles.Length ==> tiles[i] == old(tiles[i])
        invariant (exists i :: 0 <= i < k && Pos(old(tiles[i])) == c) ==> phase == InGame && safe == c
        invariant !(exists i :: 0 <= i < k && Pos(old(tiles[i])) == c) ==> phase == SafeClick && safe == old(safe)
      {
        if Pos(tiles[k]) == c {
          safe := c;
          tiles[k] := tiles[k].(covered := false);
          phase := InGame;
        }
        k := k + 1;
      }
      HasTileIffInGrid(old(tiles[..]), rows, cols, c);
    }

    /** The first pass of set_bombs: every tile on one of the positions
        becomes a bomb. */
    method MarkBombs(ps: seq<Coord>)
      modifies tiles
      ensures forall k :: 0 <= k < tiles.Length ==>
        tiles[k] == old(tiles[k]).(bomb := old(tiles[k]).bomb || Pos(old(tiles[k])) in ps)
    {
      var k := 0;
      while k < tiles.Length
        invariant 0 <= k <= tiles.Length
        invariant forall i :: 0 <= i < k ==> tiles[i] == old(tiles[i]).(bomb := old(tiles[i]).bomb || Pos(old(tiles[i])) in ps)
        invariant forall i :: k <= i < tiles.Length ==> tiles[i] == old(tiles[i])
      {
        var tile := MarkTile(tiles[k], ps);
        tiles[k] := tile;
        k := k + 1;
      }
    }

    /** The second pass of set_bombs: every non-bomb tile counts the positions
        around it. */
    method CountBombs(ps: seq<Coord>)
      modifies tiles
      ensures forall k :: 0 <= k < tiles.Length ==>
        tiles[k] == old(tiles[k]).(num := old(tiles[k]).num + if old(tiles[k]).bomb then 0 else AdjacentMines(ps, Pos(old(tiles[k]))))
    {
      var k := 0;
      while k < tiles.Length
        invariant 0 <= k <= tiles.Length
        invariant forall i :: 0 <= i < k ==>
          tiles[i] == old(tiles[i]).(num := old(tiles[i]).num + if old(tiles[i]).bomb then 0 else AdjacentMines(ps, Pos(old(tiles[i]))))
        invariant forall i :: k <= i < tiles.Length ==> tiles[i] == old(tiles[i])
      {
        var tile := CountTile(tiles[k], ps);
        tiles[k] := tile;
        k := k + 1;
      }
    }

    /** set_bombs, run on entering InGame: draw the bomb positions around the
        safe cell, mark the tiles on them as bombs, then give every other tile
        the number of bomb positions around it. When the draws run out before
        the sampler is done, nothing changes. */
    method SetBombs(draws: seq<Coord>) returns (finished: bool)
      requires Valid() && phase == InGame && mines == []
      requires forall i :: 0 <= i < |draws| ==> InGrid(draws[i], rows, cols)
      modifies this, tiles
      ensures Valid() && tiles == old(tiles)
      ensures phase == old(phase) && safe == old(safe) && zeros == old(zeros)
      ensures rows == old(rows) && cols == old(cols) && bombCount == old(bombCount)
      ensures finished <==> bombCount <= |FirstEligible(draws, safe)|
      ensures finished ==> mines == FirstEligible(draws, safe)[..bombCount] && Armed()
      ensures !finished ==> mines == [] && tiles[..] == old(tiles[..])
      ensures forall k :: 0 <= k < tiles.Length ==>
        tiles[k] == old(tiles[k]).(bomb := Pos(old(tiles[k])) in mines,
                                   num := if Pos(old(tiles[k])) in mines then 0 else AdjacentMines(mines, Pos(old(tiles[k]))))
    {
      var positions := GenerateBombPositions(safe, rows, cols, bombCount, draws);
      if positions.None? {
        return false;
      }
      var ps := positions.value;
      MarkBombs(ps);
      CountBombs(ps);
      forall k | 0 <= k < tiles.Length
        ensures tiles[k] == old(tiles[k]).(bomb := Pos(old(tiles[k])) in ps,
                                           num := if Pos(old(tiles[k])) in ps then 0 else AdjacentMines(ps, Pos(old(tiles[k]))))
        ensures Consistent(tiles[k], ps)
      {
        assert Consistent(old(tiles[..])[k], []);
      }
      mines := ps;
      finished := true;
    }

    /** The left-click half of click_switch: a covered, unflagged tile at c
        is uncovered, and GameOver is asked for when it is a bomb. */
    method Reveal(c: Coord) returns (gameOver: bool)
      requires Valid() && phase == InGame
      modifies tiles
      ensures Valid()
      ensures tiles[..] == Clicked(old(tiles[..]), LeftClick(c))
      ensures gameOver <==>
        InGrid(c, rows, cols) && old(At(c)).covered && !old(At(c)).flag && old(At(c)).bomb
    {
      gameOver := false;
      ghost var before := tiles[..];
      var k := 0;
      while k < tiles.Length
        invariant 0 <= k <= tiles.Length
        invariant forall i :: 0 <= i < k ==> tiles[i] == RevealTile(before[i], c)
        invariant forall i :: k <= i < tiles.Length ==> tiles[i] == before[i]
        invariant gameOver <==>
          exists i :: 0 <= i < k && Pos(before[i]) == c && before[i].covered && !before[i].flag && before[i].bomb
      {
        var tile := tiles[k];
        if tile.covered && !tile.flag {
          if Pos(tile) == c {
            tiles[k] := tile.(covered := false);
            if tile.bomb {
              gameOver := true;
            }
          }
        }
        k := k + 1;
      }
      if InGrid(c, rows, cols) {
        TileAt(before, rows, cols, c);
      }
      assert tiles[..] == Clicked(before, LeftClick(c));
    }

    /** The right-click half of click_switch: a covered tile at c has its flag
        flipped, and its sprite becomes Flag or Unknown to match. */
    method ToggleFlag(c: Coord) returns (sprite: Option<Sprite>)
      requires Valid() && phase == InGame
      modifies tiles
      ensures Valid()
      ensures tiles[..] == Clicked(old(tiles[..]), RightClick(c))
      ensures sprite ==
        if InGrid(c, rows, cols) && old(At(c)).covered
        then Some(if old(At(c)).flag then Unknown else Flag)
        else None
    {
      sprite := None;
      ghost var before := tiles[..];
      var k := 0;
      while k < tiles.Length
        invariant 0 <= k <= tiles.Length
        invariant forall i :: 0 <= i < k ==> tiles[i] == ToggleFlagTile(before[i], c)
        invariant forall i :: k <= i < tiles.Length ==> tiles[i] == before[i]
        invariant sprite == None <==> forall i :: 0 <= i < k ==> !(Pos(before[i]) == c && before[i].covered)
        invariant forall i :: 0 <= i < k && Pos(before[i]) == c && before[i].covered ==>
          sprite == Some(if before[i].flag then Unknown else Flag)
      {
        var tile := tiles[k];
        if tile.covered {
          if Pos(tile) == c {
            if !tile.flag {
              tiles[k] := tile.(flag := true);
              sprite := Some(Flag);
            } else {
              tiles[k] := tile.(flag := false);
              sprite := Some(Unknown);
            }
          }
        }
        k := k + 1;
      }
      if InGrid(c, rows, cols) {
        TileAt(before, rows, cols, c);
      }
      assert tiles[..] == Clicked(before, RightClick(c));
    }

    /** click_switch on logical coordinates: a left click reveals, a right
        click toggles a flag, anything else changes nothing. The sprite is
        the image click_switch gives the clicked tile, if any. */
    method ClickSwitch(input: Input) returns (gameOver: bool, sprite: Option<Sprite>)
      requires Valid() && phase == InGame
      modifies tiles
      ensures Valid()
      ensures tiles[..] == Clicked(old(tiles[..]), input)
      ensures gameOver <==>
        input.LeftClick? && InGrid(input.at, rows, cols)
        && old(At(input.at)).covered && !old(At(input.at)).flag && old(At(input.at)).bomb
      ensures gameOver ==> sprite == Some(Exploded)
      ensures input.RightClick? ==>
        sprite == if InGrid(input.at, rows, cols) && old(At(input.at)).covered
                  then Some(if old(At(input.at)).flag then Unknown else Flag)
                  else None
      ensures !input.RightClick? && !gameOver ==> sprite == None
    {
      gameOver, sprite := false, None;
      match input {
        case LeftClick(c) =>
          gameOver := Reveal(c);
          if gameOver {
            sprite := Some(Exploded);
          }
        case RightClick(c) =>
          sprite := ToggleFlag(c);
        case _ =>
          assert tiles[..] == Clicked(tiles[..], input);
      }
    }

    /** tile_check: push the cell of every uncovered, non-bomb tile with count
        0 onto the zeros list, and give each uncovered non-bomb tile its number
        sprite. On a valid board no tile reaches the panic arm. */
    method TileCheck() returns (sprites: seq<CheckOutcome>)
      requires Valid()
      modifies this`zeros
      ensures zeros == old(zeros) + ZeroCoords(tiles[..])
      ensures |sprites| == tiles.Length
      ensures forall k :: 0 <= k < tiles.Length ==> sprites[k] == TileCheckSprite(tiles[k]) && sprites[k] != Panics
    {
      sprites := [];
      var k := 0;
      while k < tiles.Length
        invariant 0 <= k <= tiles.Length
        invariant zeros == old(zeros) + ZeroCoords(tiles[..k])
        invariant |sprites| == k
        invariant forall i :: 0 <= i < k ==> sprites[i] == TileCheckSprite(tiles[i]) && sprites[i] != Panics
      {
        var tile := tiles[k];
        if !tile.covered && !tile.bomb {
          if tile.num == 0 {
            zeros := zeros + [(tile.x, tile.y)];
          }
        }
        assert tiles[..k + 1][..k] == tiles[..k];
        TileCheckOnLaidBoard(tile, mines);
        sprites := sprites + [TileCheckSprite(tile)];
        k := k + 1;
      }
      assert tiles[..k] == tiles[..];
    }

    /** zero_check: uncover every covered tile within one cell of a pushed
        coordinate, flagged tiles included, then clear the list. */
    method ZeroCheck()
      requires Valid() && phase != SafeClick
      modifies this`zeros, tiles
      ensures Valid() && zeros == []
      ensures tiles[..] == UncoverAll(old(tiles[..]), old(zeros))
    {
      ghost var before := tiles[..];
      if zeros != [] {
        var i := 0;
        while i < |zeros|
          modifies tiles
          invariant 0 <= i <= |zeros| && zeros == old(zeros)
          invariant forall j :: 0 <= j < tiles.Length ==> tiles[j] == UncoverNear(before[j], zeros[..i])
        {
          var (x, y) := zeros[i];
          var k := 0;
          while k < tiles.Length
            modifies tiles
            invariant 0 <= k <= tiles.Length
            invariant forall j :: 0 <= j < k ==> tiles[j] == UncoverNear(before[j], zeros[..i + 1])
            invariant forall j :: k <= j < tiles.Length ==> tiles[j] == UncoverNear(before[j], zeros[..i])
          {
            NearAnyExtend(Pos(before[k]), zeros, i);
            var tile := tiles[k];
            if tile.covered && tile.x >= x - 1 && tile.x <= x + 1 && tile.y >= y - 1 && tile.y <= y + 1 {
              tiles[k] := tile.(covered := false);
            }
            k := k + 1;
          }
          i := i + 1;
        }
        assert zeros[..i] == zeros;
        zeros := [];
      } else {
        forall j | 0 <= j < tiles.Length ensures tiles[j] == UncoverNear(before[j], old(zeros)) {
        }
      }
      assert tiles[..] == UncoverAll(before, old(zeros));
    }

    /** game_over, run on entering GameOver: the hint for every tile. It reads
        the tiles and changes nothing. */
    method GameOverHints() returns (hints: seq<Option<Sprite>>)
      requires Valid()
      ensures |hints| == tiles.Length
      ensures forall k :: 0 <= k < tiles.Length ==> hints[k] == GameOverSprite(tiles[k])
      ensures forall k :: 0 <= k < tiles.Length ==>
        (hints[k] == Some(Bomb) <==> tiles[k].covered && tiles[k].bomb && !tiles[k].flag)
        && (hints[k] == Some(FlagCross) <==> tiles[k].flag && !tiles[k].bomb)
    {
      hints := [];
      var k := 0;
      while k < tiles.Length
        invariant 0 <= k <= tiles.Length
        invariant |hints| == k
        invariant forall i :: 0 <= i < k ==> hints[i] == GameOverSprite(tiles[i])
      {
        var tile := tiles[k];
        if tile.covered && tile.bomb && !tile.flag {
          hints := hints + [Some(Bomb)];
        } else if tile.flag && !tile.bomb {
          hints := hints + [Some(FlagCross)];
        } else {
          hints := hints + [None];
        }
        k := k + 1;
      }
    }

    /** A left click in SafeClick: first_click, then set_bombs on entering
        InGame. When the bombs are placed the first tile is open and empty. */
    method Start(c: Coord, draws: seq<Coord>) returns (finished: bool)
      requires Valid() && phase == SafeClick
      requires forall i :: 0 <= i < |draws| ==> InGrid(draws[i], rows, cols)
      modifies this, tiles
      ensures Valid() && tiles == old(tiles) && zeros == old(zeros)
      ensures rows == old(rows) && cols == old(cols) && bombCount == old(bombCount)
      ensures InGrid(c, rows, cols) ==>
        && safe == c && phase == InGame
        && (finished <==> bombCount <= |FirstEligible(draws, c)|)
        && (finished ==> Armed() && mines == FirstEligible(draws, c)[..bombCount])
        && (finished ==> !At(c).covered && !At(c).bomb && At(c).num == 0)
        && (!finished ==> mines == [])
      ensures InGrid(c, rows, cols) ==> forall k :: 0 <= k < tiles.Length ==>
        && Pos(tiles[k]) == Pos(old(tiles[k]))
        && tiles[k].covered == (Pos(old(tiles[k])) != c)
        && !tiles[k].flag
      ensures !InGrid(c, rows, cols) ==>
        phase == SafeClick && tiles[..] == old(tiles[..]) && safe == old(safe) && finished
    {
      finished := true;
      FirstClick(c);
      if phase == InGame {
        TileAt(tiles[..], rows, cols, c);
        ghost var k := Index(c, cols);
        assert !tiles[k].covered;
        finished := SetBombs(draws);
        if finished {
          assert !tiles[k].covered && tiles[k] == At(c);
          assert Consistent(tiles[..][k], mines);
          SafeCellIsEmpty(tiles[k], mines);
        }
      } else {
        assert tiles[..] == old(tiles[..]);
      }
    }

    /** The InGame chain click_switch, tile_check, zero_check, then entering
        GameOver if a bomb was revealed. */
    method Move(input: Input) returns (hints: seq<Option<Sprite>>)
      requires Valid() && phase == InGame && zeros == []
      modifies this`zeros, this`phase, tiles
      ensures Valid() && zeros == []
      ensures tiles[..] == FloodStep(Clicked(old(tiles[..]), input))
      ensures phase == GameOver <==>
        input.LeftClick? && InGrid(input.at, rows, cols)
        && old(At(input.at)).covered && !old(At(input.at)).flag && old(At(input.at)).bomb
      ensures phase != GameOver ==> phase == InGame && hints == []
      ensures phase == GameOver ==>
        |hints| == tiles.Length && forall k :: 0 <= k < tiles.Length ==> hints[k] == GameOverSprite(tiles[k])
    {
      hints := [];
      var gameOver, _ := ClickSwitch(input);
      ghost var clicked := tiles[..];
      var _ := TileCheck();
      assert zeros == ZeroCoords(clicked);
      ZeroCheck();
      assert tiles[..] == FloodStep(clicked);
      if gameOver {
        phase := GameOver;
        hints := GameOverHints();
      }
    }

    /** One frame once assets are loaded. The systems scheduled for the current
        phase run in their chain order; the phase they ask for is entered at
        the end of the frame, running its OnEnter systems. The difficulty
        buttons are checked in every phase and restart the game.
        finished is false only when set_bombs runs out of draws, where the
        source would never return. */
    method Frame(input: Input, draws: seq<Coord>) returns (finished: bool, hints: seq<Option<Sprite>>)
      requires Valid() && zeros == []
      requires forall i :: 0 <= i < |draws| ==> InGrid(draws[i], rows, cols)
      modifies this, tiles
      ensures Valid() && zeros == []
      ensures input.Button? ==>
        phase == SafeClick && MapInfo(rows, cols, bombCount) == Preset(input.level) && fresh(tiles) && FreshGrid()
      ensures !input.Button? ==>
        tiles == old(tiles) && rows == old(rows) && cols == old(cols) && bombCount == old(bombCount)
      // the first click
      ensures old(phase) == SafeClick && input.LeftClick? && InGrid(input.at, rows, cols) ==>
        && safe == input.at && phase == InGame
        && (finished <==> bombCount <= |FirstEligible(draws, input.at)|)
        && (finished ==> Armed() && mines == FirstEligible(draws, input.at)[..bombCount])
        && (finished ==> !At(input.at).covered && !At(input.at).bomb && At(input.at).num == 0)
        && (!finished ==> mines == [])
      ensures old(phase) == SafeClick && input.LeftClick? && InGrid(input.at, rows, cols) ==>
        forall k :: 0 <= k < tiles.Length ==>
          && Pos(tiles[k]) == Pos(old(tiles[k]))
          && tiles[k].covered == (Pos(old(tiles[k])) != input.at)
          && !tiles[k].flag
      ensures old(phase) == SafeClick && !input.Button? && !(input.LeftClick? && InGrid(input.at, rows, cols)) ==>
        phase == SafeClick && tiles[..] == old(tiles[..]) && safe == old(safe)
      // a move
      ensures old(phase) == InGame && !input.Button? ==>
        && tiles[..] == FloodStep(Clicked(old(tiles[..]), input))
        && mines == old(mines) && safe == old(safe)
        && phase != SafeClick
        && (phase == GameOver <==>
              input.LeftClick? && InGrid(input.at, rows, cols)
              && old(At(input.at)).covered && !old(At(input.at)).flag && old(At(input.at)).bomb)
        && (phase == GameOver ==>
              |hints| == tiles.Length && forall k :: 0 <= k < tiles.Length ==> hints[k] == GameOverSprite(tiles[k]))
      // after the game is lost only the buttons do anything
      ensures old(phase) == GameOver && !input.Button? ==>
        phase == GameOver && tiles[..] == old(tiles[..]) && safe == old(safe) && mines == old(mines)
    {
      finished, hints := true, [];
      match phase {
        case SafeClick =>
          if input.LeftClick? {
            finished := Start(input.at, draws);
          }
        case InGame =>
          hints := Move(input);
        case GameOver =>
      }
      if input.Button? {
        SelectLevel(input.level);
      }
    }
  }

  /** Extending the pushed list by one coordinate uncovers what that
      coordinate reaches. */
  lemma NearAnyExtend(c: Coord, zs: seq<Coord>, i: int)
    requires 0 <= i < |zs|
    ensures NearAny(c, zs[..i + 1]) <==> NearAny(c, zs[..i]) || Adjacent(c, zs[i])
  {
    assert zs[..i + 1] == zs[..i] + [zs[i]];
  }
}
