/**
  The board of the Game of Life: a fixed 40 x 30 grid of cells, indexed
  x first (`g[x][y]`), exactly as the NumPy array of shape
  `(n_cells_x, n_cells_y)` it models. A live cell holds 1, a dead cell 0.
 */
module Board {

  /** Number of cell columns (`n_cells_x`). */
  const Width: int := 40
  /** Number of cell rows (`n_cells_y`). */
  const Height: int := 30

  /** A grid is a sequence of columns; `g[x][y]` is the cell at column x, row y. */
  type Grid = seq<seq<int>>

  predicate InBounds(x: int, y: int) {
    0 <= x < Width && 0 <= y < Height
  }

  /** The grid has the fixed dimensions Width x Height. */
  predicate Shaped(g: Grid) {
    |g| == Width && forall x :: 0 <= x < |g| ==> |g[x]| == Height
  }

  predicate IsBit(v: int) {
    v == 0 || v == 1
  }

  /** The board invariant: fixed dimensions and every cell exactly 0 or 1. */
  ghost predicate WellFormed(g: Grid) {
    Shaped(g) && forall x, y :: InBounds(x, y) ==> IsBit(g[x][y])
  }

  /** Every cell dead. */
  ghost predicate AllDead(g: Grid)
    requires Shaped(g)
  {
    forall x, y :: InBounds(x, y) ==> g[x][y] == 0
  }

  /** Writes `v` into the single cell (x, y); every other cell is left as it was. */
  function Set(g: Grid, x: int, y: int, v: int): (r: Grid)
    requires Shaped(g) && InBounds(x, y)
    ensures Shaped(r)
    ensures r[x][y] == v
    ensures forall i, j :: InBounds(i, j) && (i, j) != (x, y) ==> r[i][j] == g[i][j]
  {
    g[x := g[x][y := v]]
  }

  /** Two shaped grids that agree on every cell are the same grid. */
  lemma SameCells(a: Grid, b: Grid)
    requires Shaped(a) && Shaped(b)
    requires forall x, y :: InBounds(x, y) ==> a[x][y] == b[x][y]
    ensures a == b
  {
    forall x | 0 <= x < Width
      ensures a[x] == b[x]
    {
      assert forall y :: 0 <= y < Height ==> a[x][y] == b[x][y] by {
        forall y | 0 <= y < Height
          ensures a[x][y] == b[x][y]
        {
          assert InBounds(x, y);
        }
      }
    }
  }
}
