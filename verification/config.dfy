/**
  The game's tuning constants and the starting values of its two global
  counters (the coin balance and the time factor).
 */
module GameConfig {

  /**
    The grid size new planners are built with: the current values of the
    `ROWS` and `COLS` settings. Both are mutable, so every operation that
    builds a planner takes the size in force as a parameter.
   */
  datatype Size = Size(rows: nat, cols: nat)

  /** The values of `ROWS` and `COLS` at start-up. */
  const Rows: nat := 25
  const Cols: nat := 25
  const StartSize: Size := Size(Rows, Cols)

  /** Price of the first bought monkey; each monkey owned raises it by 10%. */
  const MonkeyBaseCost: nat := 75

  /** Base fees of the two "upgrade all" purchases. */
  const BubbleSortAllStartFee: nat := 750
  const InsertionSortAllStartFee: nat := 1500

  /** Coins per cell of a combo completed by a delivery. */
  const ComboRewardMultiplier: nat := 15

  /** How long a chat or a dance lasts, in time-factor units. */
  const IdleActivityDuration: real := 100.0

  /** `GameStats.coins` and `GameStats.timeFactor` at start-up. */
  const InitialCoins: int := 50
  const InitialTimeFactor: real := 1.0
}
