/**
 * The four difficulty presets and the map information they set:
 * the board size as (rows, columns) and the number of bombs.
 */
module Difficulty {

  datatype Level = Easy | Medium | Hard | Expert

  /** The MapInfo resource: board_size.0 is the row count, board_size.1 the column count. */
  datatype MapInfo = MapInfo(rows: nat, cols: nat, bombCount: nat)

  /** The preset of a difficulty button. Every preset fits the source's u8 fields
      with room for x + 1, and leaves at least bombCount cells outside any 3x3
      safe zone. */
  function Preset(level: Level): (m: MapInfo)
    ensures 3 <= m.rows < 255 && 3 <= m.cols < 255 && m.bombCount < 256
    ensures 1 <= m.bombCount <= m.rows * m.cols - 9
  {
    match level
    case Easy => MapInfo(10, 10, 10)
    case Medium => MapInfo(12, 12, 26)
    case Hard => MapInfo(15, 15, 40)
    case Expert => MapInfo(16, 30, 99)
  }
}
