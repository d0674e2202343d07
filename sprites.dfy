/**
 * The sprite a tile is given, as abstract display hints: the number sprites
 * tile_check picks for open tiles and the hints game_over paints.
 */
module Sprites {
  import opened Options
  import opened Grid

  /** Number(n) stands for the sprites zero .. nine. */
  datatype Sprite = Unknown | Exploded | Flag | FlagCross | Bomb | Number(n: nat)

  /** What tile_check does with a tile's image: leave it, set it, or panic. */
  datatype CheckOutcome = Untouched | Shows(sprite: Sprite) | Panics

  /** tile_check's match on the count of an open, non-bomb tile. */
  function TileCheckSprite(t: Tile): CheckOutcome {
    if !t.covered && !t.bomb then
      if t.num <= 9 then Shows(Number(t.num)) else Panics
    else Untouched
  }

  /** On a board consistent with distinct mines, tile_check never reaches its
      nine or panic arms: an open non-bomb tile shows the number of mines
      around it, at most 8, and every other tile is left alone. */
  lemma TileCheckOnLaidBoard(t: Tile, ms: seq<Coord>)
    requires Consistent(t, ms) && Distinct(ms)
    ensures TileCheckSprite(t) != Panics && TileCheckSprite(t) != Shows(Number(9))
    ensures !t.covered && !t.bomb ==>
      TileCheckSprite(t) == Shows(Number(AdjacentMines(ms, Pos(t)))) && t.num <= 8
    ensures t.covered || t.bomb ==> TileCheckSprite(t) == Untouched
  {
    CountAtMostEight(t, ms);
  }

  /** game_over's hint for one tile; it reads the tile and changes nothing.
      A covered, unflagged bomb shows a bomb; a flag on a non-bomb shows a
      crossed flag; every other tile keeps its image. */
  function GameOverSprite(t: Tile): (r: Option<Sprite>)
    ensures r == Some(Bomb) <==> t.covered && t.bomb && !t.flag
    ensures r == Some(FlagCross) <==> t.flag && !t.bomb
    ensures r == None <==> !(t.covered && t.bomb && !t.flag) && !(t.flag && !t.bomb)
  {
    if t.covered && t.bomb && !t.flag then Some(Bomb)
    else if t.flag && !t.bomb then Some(FlagCross)
    else None
  }
}
