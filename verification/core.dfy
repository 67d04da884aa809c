/**
  The engine's operations on a mutable board (an `array2<int>`): building an
  all-dead board, filling it in place from a random source, counting the live
  neighbours of a cell with the program's two nested loops, and building the
  next generation as a new board. The first two are specified directly by what
  they leave on the board; the loops of the last two are proved, through
  `Grid.View`, to compute the grid-value definitions of module Rules.
 */
module Core {
  import opened Grid
  import opened Rules

  /** The value `random.randint(0, 1)` stands for, given the outcome of one draw. */
  function Draw(coin: nat -> bool, k: nat): (v: int)
    ensures v == 0 || v == 1
    ensures v == 1 <==> coin(k)
  {
    if coin(k) then 1 else 0
  }

  /** A fresh `rows` x `cols` board of dead cells; InvalidDimension unless both are positive. */
  method CreateGrid(rows: int, cols: int) returns (r: Result<array2<int>>)
    ensures r.Err? <==> rows <= 0 || cols <= 0
    ensures r.Err? ==> r.error == InvalidDimension
    ensures r.Ok? ==> fresh(r.value) && r.value.Length0 == rows && r.value.Length1 == cols
    ensures r.Ok? ==> !IsEmpty(View(r.value)) && AllDead(View(r.value))
  {
    if rows <= 0 || cols <= 0 {
      return Err(InvalidDimension);
    }
    var a := new int[rows, cols]((_, _) => 0);
    return Ok(a);
  }

  /** Overwrites every cell, row by row, with the next draw of the random source:
      cell (i, j) gets draw number i * cols + j. EmptyGrid, and no write, when the
      board has no rows or no columns. */
  method PopulateGrid(a: array2<int>, coin: nat -> bool) returns (r: Result<()>)
    modifies a
    ensures r.Err? <==> IsEmpty(old(View(a)))
    ensures r.Err? ==> r.error == EmptyGrid && View(a) == old(View(a))
    ensures r.Ok? ==> forall i, j :: 0 <= i < a.Length0 && 0 <= j < a.Length1 ==>
                        a[i, j] == Draw(coin, i * a.Length1 + j)
    ensures Binary(View(a))
  {
    if a.Length0 == 0 || a.Length1 == 0 {
      return Err(EmptyGrid);
    }
    var rows, cols := a.Length0, a.Length1;
    for rr := 0 to rows
      invariant forall i, j :: 0 <= i < rr && 0 <= j < cols ==> a[i, j] == Draw(coin, i * cols + j)
    {
      for cc := 0 to cols
        invariant forall i, j :: 0 <= i < rr && 0 <= j < cols ==> a[i, j] == Draw(coin, i * cols + j)
        invariant forall j :: 0 <= j < cc ==> a[rr, j] == Draw(coin, rr * cols + j)
      {
        a[rr, cc] := Draw(coin, rr * cols + cc);
      }
    }
    return Ok(());
  }

  /** The live neighbours of (row, col), counted over the clamped 3x3 window with
      the centre skipped; EmptyGrid when the board has no rows or no columns.
      The board is only read. */
  method CountLiveNeighbors(a: array2<int>, row: int, col: int) returns (r: Result<nat>)
    ensures r.Err? <==> IsEmpty(View(a))
    ensures r.Err? ==> r.error == EmptyGrid
    ensures r.Ok? ==> r.value == LiveNeighbors(View(a), row, col)
  {
    if a.Length0 == 0 || a.Length1 == 0 {
      return Err(EmptyGrid);
    }
    ghost var g := View(a);
    var rows, cols := a.Length0, a.Length1;
    assert |g| == rows && Cols(g) == cols;
    var liveNeighbors := 0;
    var rlo, rhi := Max(0, row - 1), Min(rows, row + 2);
    var clo, chi := Max(0, col - 1), Min(cols, col + 2);
    var rr := rlo;
    while rr < rhi
      invariant rlo <= rr <= Max(rlo, rhi)
      invariant liveNeighbors == WindowCount(g, rlo, Min(rr, rhi), clo, chi, row, col)
    {
      var cc := clo;
      while cc < chi
        invariant clo <= cc <= Max(clo, chi)
        invariant liveNeighbors == WindowCount(g, rlo, rr, clo, chi, row, col) + RowCount(g, rr, clo, Min(cc, chi), row, col)
      {
        assert g[rr][cc] == a[rr, cc];
        assert RowCount(g, rr, clo, cc + 1, row, col) == RowCount(g, rr, clo, cc, row, col) + Counted(g, rr, cc, row, col);
        if (rr, cc) != (row, col) && a[rr, cc] == 1 {
          liveNeighbors := liveNeighbors + 1;
        }
        cc := cc + 1;
      }
      assert liveNeighbors == WindowCount(g, rlo, rr + 1, clo, chi, row, col);
      rr := rr + 1;
    }
    return Ok(liveNeighbors);
  }

  /** The next generation as a new board: each cell is the rule applied to the
      input cell and its neighbour count in the input board, which is not changed. */
  method UpdateGrid(a: array2<int>) returns (next: array2<int>)
    requires a.Length0 > 0
    ensures fresh(next)
    ensures View(next) == NextGeneration(View(a))
  {
    ghost var g := View(a);
    var rows, cols := a.Length0, a.Length1;
    next := new int[rows, cols]((_, _) => 0);
    for row := 0 to rows
      invariant forall i, j :: 0 <= i < row && 0 <= j < cols ==>
                  next[i, j] == NextCellState(g[i][j], LiveNeighbors(g, i, j))
    {
      for col := 0 to cols
        invariant forall i, j :: 0 <= i < row && 0 <= j < cols ==>
                    next[i, j] == NextCellState(g[i][j], LiveNeighbors(g, i, j))
        invariant forall j :: 0 <= j < col ==>
                    next[row, j] == NextCellState(g[row][j], LiveNeighbors(g, row, j))
      {
        // the count reads the input board, which the loop never writes
        var liveNeighbors := CountLiveNeighbors(a, row, col);
        next[row, col] := NextCellState(a[row, col], liveNeighbors.value);
      }
    }
    ghost var want := NextGeneration(g);
    forall i | 0 <= i < rows
      ensures View(next)[i] == want[i]
    {
    }
  }
}
