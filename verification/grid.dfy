/**
  The grid of a Game of Life board: its value as rows of cells, the errors the
  engine reports, and the view of a mutable board (an `array2<int>`) as a value.
 */
module Grid {

  /** A generation as a value: a sequence of rows, each a sequence of cells
      (0 dead, 1 alive). */
  type Cells = seq<seq<int>>

  /** The errors the engine raises (both are a ValueError in the program). */
  datatype GridError =
    | InvalidDimension  // rows or cols not strictly positive
    | EmptyGrid         // no rows, or an empty first row

  datatype Result<T> = Ok(value: T) | Err(error: GridError)

  /** The column count the engine uses: the length of the first row. */
  function Cols(g: Cells): nat {
    if |g| == 0 then 0 else |g[0]|
  }

  /** Every row is as long as the first one. */
  predicate Rectangular(g: Cells) {
    forall i :: 0 <= i < |g| ==> |g[i]| == Cols(g)
  }

  /** The check both `populate_grid` and `count_live_neighbors` start with. */
  predicate IsEmpty(g: Cells) {
    |g| == 0 || |g[0]| == 0
  }

  /** Every cell is 0 or 1. */
  predicate Binary(g: Cells) {
    forall i, j :: 0 <= i < |g| && 0 <= j < |g[i]| ==> g[i][j] == 0 || g[i][j] == 1
  }

  /** Every cell is 0. */
  predicate AllDead(g: Cells) {
    forall i, j :: 0 <= i < |g| && 0 <= j < |g[i]| ==> g[i][j] == 0
  }

  /** The current contents of a mutable board, row by row. */
  ghost function Row(a: array2<int>, i: nat): (r: seq<int>)
    requires i < a.Length0
    reads a
    ensures |r| == a.Length1
    ensures forall j :: 0 <= j < a.Length1 ==> r[j] == a[i, j]
  {
    seq(a.Length1, j requires 0 <= j < a.Length1 reads a => a[i, j])
  }

  ghost function View(a: array2<int>): (g: Cells)
    reads a
    ensures |g| == a.Length0 && Rectangular(g)
    ensures |g| > 0 ==> Cols(g) == a.Length1
    ensures forall i, j :: 0 <= i < a.Length0 && 0 <= j < a.Length1 ==> g[i][j] == a[i, j]
  {
    seq(a.Length0, i requires 0 <= i < a.Length0 reads a => Row(a, i))
  }
}
