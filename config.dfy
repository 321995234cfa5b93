/** The game's configuration: the `config` object of script.js and the speed floor that `update` writes as a literal. */
module Config {
  /** Cells per side of the square grid. */
  const GRID_SIZE: int := 20
  /** Tick interval, in milliseconds, at the start of a game. */
  const INITIAL_SPEED: int := 150
  /** Amount by which the tick interval shrinks per food eaten. */
  const SPEED_INCREASE: int := 5
  /** Score awarded per food eaten. */
  const FOOD_VALUE: int := 10
  /** Shortest tick interval; `update` clamps to it with `Math.max(50, ...)`. */
  const MIN_SPEED: int := 50
}
