# Minesweeper board engine in Dafny

This project models the board and game-state engine of a Bevy minesweeper
(`src/main.rs`). It covers:

- the tile grid that `spawn_tiles` creates;
- first-click-safe bomb placement (`generate_bomb_positions`, `set_bombs`);
- per-frame click handling (`first_click`, `click_switch`);
- the flood reveal that `tile_check` and `zero_check` perform frame by frame;
- the loss hints of `game_over`;
- the phase machine SafeClick → InGame → GameOver, with the difficulty
  buttons restarting it from any phase.

Modules, one per file:

- `Options`: the `Option` type.
- `Grid`: tiles, coordinates and the 3×3 neighbourhood. It defines how many
  mines a cell touches, the row-major layout of the tile array, and the
  consistency of a tile with a mine layout.
- `Difficulty`: the four presets.
- `Bombs`: the safe zone and the rejection sampler, driven by a sequence of
  draws that stands in for the random number generator. It also proves when
  the sampler can finish.
- `Sprites`: what `tile_check` and `game_over` display for a tile.
- `Flood`: one flood step on the whole board, its safety, and the iterated
  flood that reaches a fixed point.
- `Game`: class `Minesweeper`, holding the resources the systems share:
  - the phase;
  - `MapInfo`;
  - `Safe`;
  - the `Empty` zeros list;
  - the tile array;
  - a ghost record of the mine positions.

  Each method of the class is one system. `Frame` runs one frame in the order
  the schedule chains them.

A phase change a system requests is applied at the end of the frame, together
with the OnEnter systems of the new phase. `set_bombs` (OnEnter InGame)
therefore runs in the same `Frame` as the first click, and the loss hints
(OnEnter GameOver) are computed at the end of the losing frame.

Where the code and the usual minesweeper rules differ, the model follows the
code:

- There is no win detection and no Won phase.
- `zero_check` uncovers flagged neighbours of an open zero tile too, and leaves
  their flag set. `Flood.FloodStep` has no flag condition.
- The flood advances one ring of tiles per frame, not in a single operation.
  `Flood.Flood` is the iteration to the fixed point.
- When fewer cells lie outside the safe zone than there are bombs, the sampler
  never finishes. It does not report an error. `Bombs.AcceptedAtMostEligible`
  bounds what it can ever accept. `Bombs.CentreOfThreeByThree` shows a 3×3
  board clicked in the centre, where it accepts nothing.
- The safe zone holds the raw neighbours of the clicked cell, including
  off-grid cells such as x = 0. Those match no draw and no tile, so they are
  harmless.

## Model

| member | source | states |
|---|---|---|
| Difficulty.Preset | src/main.rs:28-38 | The four difficulty presets: rows and columns between 3 and 254, fewer than 256 bombs, and room for every bomb outside a 3×3 safe zone (1 ≤ bombs ≤ rows·cols − 9). |
| Grid.AdjacentMinesIsCardinality | src/main.rs:405-434 | With distinct positions, the count set_bombs accumulates for a cell equals the number of positions among its 8 neighbours. |
| Grid.AdjacentMinesAtMostEight | src/main.rs:405-434 | A count never exceeds 8 when the positions are distinct. |
| Grid.AdjacentMinesZero | src/main.rs:405-434 | A count is 0 exactly when no position is one of the cell's 8 neighbours. |
| Grid.GridCellsCardinality | src/main.rs:247-258 | A rows×cols grid has rows·cols cells. |
| Grid.IndexInjective | src/main.rs:247-258 | Distinct cells have distinct positions in spawn order. |
| Grid.HasTileIffInGrid | src/main.rs:247-258 | On a spawned grid a tile sits at cell c exactly when c is inside the grid, so a click off the grid hits nothing. |
| Grid.TileAt | src/main.rs:247-258 | The tile at spawn position Index(c) is the tile of cell c. |
| Grid.CountAtMostEight | src/main.rs:405-434 | On a board consistent with distinct mines, a non-bomb tile's num is at most 8. |
| Grid.BombTilesAreMines | src/main.rs:397-403 | After marking, the bomb tiles sit on exactly the chosen positions, so there are exactly bomb_count bomb tiles. |
| Bombs.SafeZone | src/main.rs:354-362 | The safe zone has 9 entries, starts with the clicked cell, and holds exactly the cells within one step of it. |
| Bombs.FirstEligible | src/main.rs:365-382 | The reference definition of the sampler: the draws it accepts, in order. A draw is accepted when it is not within one step of the safe cell (the safe-zone test) and does not occur earlier in the draws; that second test stands for the source's `cords in selected`, since every earlier draw that was not rejected is in `selected`. At most one position is accepted per draw. |
| Bombs.FirstEligiblePrefix | src/main.rs:365-382 | The positions accepted from a longer draw sequence extend those accepted from its prefix, so the sampler's result is the first bomb_count accepted draws. |
| Bombs.FirstEligibleDistinct | src/main.rs:367-379 | The sampler never accepts a draw twice. |
| Bombs.FirstEligibleMembers | src/main.rs:367-379 | Every accepted position is a draw outside the safe zone. |
| Bombs.GenerateBombPositions | src/main.rs:349-385 | The sampler finishes exactly when the draws hold bomb_count acceptable positions. Its result is the first bomb_count of them: bomb_count pairwise-distinct in-grid cells, none within one step of the safe cell. |
| Bombs.AcceptedAtMostEligible | src/main.rs:365-382 | No draw sequence yields more positions than there are in-grid cells outside the safe zone. |
| Bombs.EligibleAtLeast | src/main.rs:354-362 | At least rows·cols − 9 cells lie outside the safe zone. |
| Bombs.SomeDrawsFinish | src/main.rs:365-382 | When enough cells lie outside the safe zone, some sequence of in-grid draws lets the sampler finish. |
| Bombs.PresetCanFinish | src/main.rs:28-38 | For every preset and every safe cell, the sampler can finish. |
| Bombs.CentreOfThreeByThree | src/main.rs:365-382 | On a 3×3 board clicked in the centre, no draw is ever accepted, so any bomb count keeps the loop running forever. |
| Sprites.TileCheckOnLaidBoard | src/main.rs:495-513 | On a board consistent with distinct mines, tile_check never reaches the 9 arm or the panic arm. An open non-bomb tile shows its mine count; every other tile is left as it is. |
| Sprites.TileCheckSprite | src/main.rs:497-513 | The definition of tile_check's match for one tile: covered tiles and bombs are untouched, an open non-bomb tile with num 0 to 9 shows that number, and any larger num reaches the panic arm. |
| Sprites.GameOverSprite | src/main.rs:539-546 | game_over's hint: "bomb" exactly for covered unflagged bombs, "flag cross" exactly for flagged non-bombs, nothing otherwise. |
| Flood.ZeroCoords | src/main.rs:495-501 | The definition of what tile_check pushes: the cells of the uncovered non-bomb tiles with num 0, in tile order. |
| Flood.UncoverNear | src/main.rs:524-528 | The definition of zero_check for one tile: a covered tile within one step of some listed cell is uncovered, whatever its flag; any other tile is unchanged. |
| Flood.UncoverAll | src/main.rs:522-531 | zero_check on the whole board: UncoverNear applied to every tile with the same list. |
| Flood.ZeroCoordsMembers | src/main.rs:495-500 | The zeros tile_check pushes are exactly the cells of uncovered non-bomb tiles with num 0. |
| Flood.FloodStep | src/main.rs:495-531 | A tile_check plus zero_check step only uncovers tiles, flagged ones included. A tile ends covered exactly when it was covered and no open zero tile is within one step of it. |
| Flood.FloodStepSafe | src/main.rs:518-531 | The step keeps the board consistent with the mines and never uncovers a bomb: each newly uncovered tile is next to an open zero, which has no mine around it. |
| Flood.FloodStepFixedPoint | src/main.rs:518-531 | The step changes nothing exactly when no covered tile lies next to an open zero tile. |
| Flood.UncoveringLowersCount | src/main.rs:518-531 | A step that changes the board uncovers at least one tile, so the flood ends. |
| Flood.Flood | src/main.rs:187-193 | Repeating the step frame after frame reaches a board the step no longer changes. |
| Flood.FloodSafe | src/main.rs:187-193 | The completed flood stays consistent with the mines and uncovers no bomb. |
| Game.RevealTile | src/main.rs:450-459 | The definition of a left click for one tile: a covered, unflagged tile on the clicked cell is uncovered; any other tile is unchanged. |
| Game.ToggleFlagTile | src/main.rs:469-482 | The definition of a right click for one tile: a covered tile on the clicked cell has its flag flipped; any other tile is unchanged. |
| Game.Clicked | src/main.rs:446-487 | The definition of click_switch on the whole board: the left- or right-click rule applied to every tile; any other input changes nothing. |
| Game.ToggleFlagTwice | src/main.rs:469-482 | A right click leaves an uncovered tile alone and changes only the flag; two right clicks on a cell restore the tile. |
| Game.RevealTileStable | src/main.rs:450-459 | A left click does nothing to a flagged or uncovered tile, and a second left click on the same cell changes nothing more. |
| Game.ClickedChangesOneTile | src/main.rs:446-487 | A click changes at most the tile of the clicked cell and keeps the board consistent with the mines. |
| Game.SafeCellIsEmpty | src/main.rs:354-362 | A tile on a cell that no mine is within one step of is not a bomb and has num 0. |
| Game.MarkTile | src/main.rs:397-403 | A tile becomes a bomb exactly when its cell is one of the positions. |
| Game.CountOne | src/main.rs:406-432 | For one position, a non-bomb tile gains exactly one when the position is one of its 8 neighbours, and nothing otherwise; a bomb is unchanged. |
| Game.CountTile | src/main.rs:405-434 | A non-bomb tile's num grows by the number of positions among its 8 neighbours; a bomb's num does not change. |
| Game.SpawnTiles | src/main.rs:247-258 | spawn_tiles creates rows·cols tiles, one per cell in row-major order, each covered, unflagged, not a bomb, with num 0. |
| Game.Minesweeper.constructor | src/main.rs:142-153 | The initial resources: the Easy map, safe cell (0,0), an empty zeros list, and a fresh grid. |
| Game.Minesweeper.SelectLevel | src/main.rs:584-626 | A difficulty button sets the map to that preset and returns to SafeClick with a fresh grid of the new size; the safe cell and zeros list are unchanged. |
| Game.Minesweeper.FirstClick | src/main.rs:549-571 | The first left click on a grid cell uncovers that tile alone, records it as the safe cell and moves to InGame. A click off the grid changes nothing. |
| Game.Minesweeper.MarkBombs | src/main.rs:397-403 | The first pass of set_bombs makes a bomb of every tile on one of the positions and changes nothing else. |
| Game.Minesweeper.CountBombs | src/main.rs:405-434 | The second pass adds to every non-bomb tile the number of positions around it and changes nothing else. |
| Game.Minesweeper.SetBombs | src/main.rs:387-437 | If the sampler finishes, the bombs are the first bomb_count accepted draws: none near the safe cell. Every tile's bomb flag and num then agree with them, and covered and flag are untouched. Otherwise the board is unchanged. |
| Game.Minesweeper.Start | src/main.rs:549-571 | After the first click and set_bombs, the clicked tile is uncovered, is not a bomb and has num 0. Every other tile stays covered, every tile stays unflagged and in place, and the bombs and counts agree with the chosen positions. A click off the grid changes nothing. |
| Game.Minesweeper.Reveal | src/main.rs:446-462 | A left click uncovers only a covered, unflagged tile at the cell, and asks for GameOver exactly when that tile is a bomb. |
| Game.Minesweeper.ToggleFlag | src/main.rs:465-486 | A right click flips the flag of a covered tile at the cell, with the sprite Flag when it sets the flag and Unknown when it clears it; otherwise nothing changes. |
| Game.Minesweeper.ClickSwitch | src/main.rs:439-488 | A left click uncovers only a covered, unflagged tile, and asks for GameOver exactly when that tile is a bomb. A right click flips the flag of a covered tile, with the Flag or Unknown sprite. The board stays consistent. |
| Game.Minesweeper.TileCheck | src/main.rs:490-516 | tile_check appends the open zero tiles' cells to the zeros list. On a valid board no tile reaches the panic arm. |
| Game.Minesweeper.ZeroCheck | src/main.rs:518-533 | Every covered tile within one step of a listed cell is uncovered, and nothing else changes. The zeros list is empty afterwards. |
| Game.Minesweeper.GameOverHints | src/main.rs:535-547 | game_over reads the board without changing it and gives each tile its loss hint. |
| Game.Minesweeper.Move | src/main.rs:187-193 | An InGame frame leaves the board one flood step after the click, with an empty zeros list. It enters GameOver, with the loss hints, exactly when a covered, unflagged bomb was left-clicked. |
| Game.Minesweeper.Frame | src/main.rs:177-203 | One frame of the phase machine. A button restarts on the chosen preset in any phase. In SafeClick a left click on the grid starts the game with a safe, empty first tile, every other tile still covered and no tile flagged. In InGame the board becomes one flood step after the click, and the phase becomes GameOver exactly when a covered, unflagged bomb was left-clicked. In GameOver only buttons act: the board, the safe cell and the mines stay as they are. |

## Left out

- Bevy plumbing is not modelled: the app builder, plugins, schedules and `apply_system_buffers`. `Frame` fixes the order of one frame instead.
- Rendering is not modelled: windows, the camera, sprites and asset loading. The AssetLoading phase is left out, and the model starts in SafeClick. The sprite handles become the abstract `Sprite` values.
- Mouse hit-testing against `Transform` translations is not modelled; it is `f32` geometry. The model resolves each click to at most one grid cell, or to one difficulty button, never to both.
- Clicks that hit several targets are not modelled. The source tests a ±20 px square around centres 38 px apart. A click in the 2 px band between neighbouring tiles therefore hits two to four tiles, and one in the band between the top tile row and the buttons hits a tile and a button. On such a click, `first_click` uncovers every hit tile and keeps the last one in query order as `Safe`, `click_switch` acts on every hit tile, and the button fires as well.
- `thread_rng` and `gen_range` are not modelled. They become a sequence of draws, each inside the grid. The distribution is not modelled.
- Game.Minesweeper.SetBombs: when the draws run out before bomb_count positions are accepted, it reports `finished == false` and changes nothing. The source would keep drawing forever.
- `println!`, the `Name` components and the entity counter in `spawn_tiles` are not modelled; they are logging only.
- `u8` widths are not modelled. Coordinates and counts are `int`. Under the presets no value exceeds 99, the Expert bomb count that starts the countdown in `generate_bomb_positions`, and `x - 1` is only taken for x ≥ 1, so no wrap-around can occur.
- Bevy's query iteration order is not modelled; the tiles are kept in spawn order. With one cell per click every system treats each tile independently of the others, so the order does not change any result. With several hit tiles the order would decide which one becomes `Safe`; those clicks are left out above.
- A left and a right click in the same frame are not modelled; one frame carries one input.
- Re-entering SafeClick when a button is pressed in SafeClick is modelled as a respawn, like any other phase change.
