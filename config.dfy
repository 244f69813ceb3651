/** Configuration constants read by the board-analysis engine (config.py). */
module Config {

  /** Board dimensions (config.py:37-38). */
  const GridRows: int := 6
  const GridCols: int := 6

  /** Smallest group that can be removed (config.py:90). */
  const MinGroupSize: int := 3

  /** The eight neighbour offsets, in the order the engine checks them:
      up, down, left, right, up-left, up-right, down-left, down-right (config.py:93-102). */
  const Directions: seq<(int, int)> :=
    [(-1, 0), (1, 0), (0, -1), (0, 1), (-1, -1), (-1, 1), (1, -1), (1, 1)]
}
