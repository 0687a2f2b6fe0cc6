/** Optional values, standing in for `undefined` / `null` results. */
module Wrappers {
  datatype Option<+T> = None | Some(value: T)
}

/**
 * The occupancy grid shared by the renderer and the editor: a sequence of
 * rows of booleans, indexed (row, column) from zero.
 */
module Grids {

  type Grid = seq<seq<bool>>

  /** Per-cell radius overrides, as the editor stores them and the renderer's lookup returns them. */
  datatype CellSettings = CellSettings(cornerRadius: real, innerRadius: real)

  /** Row count, `grid.length`. */
  function Rows(g: Grid): nat {
    |g|
  }

  /** Column count as the source reads it: `grid[0]?.length || 0`. */
  function Cols(g: Grid): nat {
    if |g| == 0 then 0 else |g[0]|
  }

  /**
   * The renderer's `isFilled`: inside the rows and the column count of row 0,
   * and true in the grid. A ragged row that is shorter reads as unfilled past
   * its end, as an out-of-range array read is falsy in the source.
   */
  predicate Filled(g: Grid, r: int, c: int) {
    0 <= r < |g| && 0 <= c < Cols(g) && c < |g[r]| && g[r][c]
  }

  /** No cell of the grid is filled. */
  ghost predicate NoneFilled(g: Grid) {
    forall r, c :: !Filled(g, r, c)
  }

  /** Every row has the column count of row 0. */
  ghost predicate Rectangular(g: Grid) {
    forall r :: 0 <= r < |g| ==> |g[r]| == Cols(g)
  }

  /** `createEmptyGrid(rows, cols)`: a rows x cols grid with nothing filled. */
  function EmptyGrid(rows: nat, cols: nat): (g: Grid)
    ensures |g| == rows
    ensures forall r :: 0 <= r < rows ==> |g[r]| == cols
    ensures forall r, c :: 0 <= r < rows && 0 <= c < cols ==> !g[r][c]
  {
    seq(rows, _ => seq(cols, _ => false))
  }

  /** An empty grid has the requested shape (when it has rows) and no filled cell. */
  lemma EmptyGridShape(rows: nat, cols: nat)
    ensures Rectangular(EmptyGrid(rows, cols))
    ensures NoneFilled(EmptyGrid(rows, cols))
    ensures rows > 0 ==> Cols(EmptyGrid(rows, cols)) == cols
  {
  }
}
