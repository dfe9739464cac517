/** The records shared by the maze generator and the game session (src/types/game.ts). */
module GameTypes {

  /** A grid coordinate; `x` grows to the right, `y` grows downwards (row index). */
  datatype Position = Position(x: int, y: int)

  /** The kinds of cell. `Player` exists only for rendering: the generator never produces it. */
  datatype CellType = Wall | Path | Start | End | Player

  /** A cell remembers its own coordinates; the field `type` of the source is named `kind` here. */
  datatype Cell = Cell(kind: CellType, position: Position)

  /** `intervalTime` is in seconds; `pathDensity` is the noise knob in [0, 1]. */
  datatype GameConfig = GameConfig(gridSize: int, intervalTime: int, pathDensity: real)

  /** The game's snapshot: the maze as rows of cells (`maze[y][x]`), the player, the flags, the clock and the score. */
  datatype GameState = GameState(
    maze: seq<seq<Cell>>,
    playerPosition: Position,
    isGameWon: bool,
    isGameLost: bool,
    timeLeft: real,
    score: int)
}
