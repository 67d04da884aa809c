/**
  The pure part of the engine: the transition rule, the neighbour count as the
  clamped 3x3 window the program scans, and one generation step, all on grid
  values. The window count is proved equal to an independent definition (the
  eight Moore neighbours, with off-grid cells dead), from which its bounds
  follow.
 */
module Rules {
  import opened Grid

  function Max(a: int, b: int): int { if a < b then b else a }
  function Min(a: int, b: int): int { if a < b then a else b }

  /** The transition rule, checked in the program's order: first match wins. */
  function NextCellState(cell: int, liveNeighbors: int): (r: int)
    // for a cell in {0,1} this is the classic B3/S23 rule ...
    ensures cell == 0 || cell == 1 ==>
              (r == 1 <==> liveNeighbors == 3 || (cell == 1 && liveNeighbors == 2))
    ensures cell == 0 || cell == 1 ==> r == 0 || r == 1
    // ... and any other value falls through every test and is kept
    ensures cell != 0 && cell != 1 ==> r == cell
  {
    if cell == 1 && liveNeighbors < 2 then 0             // underpopulation
    else if cell == 1 && liveNeighbors in [2, 3] then 1  // survival
    else if cell == 1 && liveNeighbors > 3 then 0        // overpopulation
    else if cell == 0 && liveNeighbors == 3 then 1       // birth
    else cell
  }

  /** Whether cell (rr, cc) is examined and alive: not the centre (row, col) and equal to 1. */
  function Counted(g: Cells, rr: nat, cc: nat, row: int, col: int): nat
    requires rr < |g| && cc < |g[rr]|
  {
    if (rr, cc) != (row, col) && g[rr][cc] == 1 then 1 else 0
  }

  /** Live cells of row `rr`, columns [lo, hi), the centre excluded (the inner loop). */
  function RowCount(g: Cells, rr: nat, lo: nat, hi: int, row: int, col: int): (n: nat)
    requires Rectangular(g) && rr < |g| && hi <= Cols(g)
    ensures n <= Max(0, hi - lo)
    decreases hi - lo
  {
    if hi <= lo then 0
    else RowCount(g, rr, lo, hi - 1, row, col) + Counted(g, rr, hi - 1, row, col)
  }

  /** Live cells of rows [rlo, rhi) x columns [clo, chi), the centre excluded (the outer loop). */
  function WindowCount(g: Cells, rlo: nat, rhi: int, clo: nat, chi: int, row: int, col: int): nat
    requires Rectangular(g) && rhi <= |g| && chi <= Cols(g)
    decreases rhi - rlo
  {
    if rhi <= rlo then 0
    else WindowCount(g, rlo, rhi - 1, clo, chi, row, col) + RowCount(g, rhi - 1, clo, chi, row, col)
  }

  /** The neighbour count of (row, col): the window of rows [max(0,row-1), min(rows,row+2))
      and columns [max(0,col-1), min(cols,col+2)), centre excluded. Any row and
      column are accepted; a window that misses the grid counts nothing. */
  function LiveNeighbors(g: Cells, row: int, col: int): nat
    requires Rectangular(g)
  {
    WindowCount(g, Max(0, row - 1), Min(|g|, row + 2), Max(0, col - 1), Min(Cols(g), col + 2), row, col)
  }

  /** Reference definition: 1 if (r, c) is on the grid and alive, else 0. */
  function Alive(g: Cells, r: int, c: int): nat {
    if 0 <= r < |g| && 0 <= c < |g[r]| && g[r][c] == 1 then 1 else 0
  }

  /** Reference definition: the live cells among the eight Moore neighbours. */
  function MooreCount(g: Cells, row: int, col: int): nat {
    Alive(g, row - 1, col - 1) + Alive(g, row - 1, col) + Alive(g, row - 1, col + 1) +
    Alive(g, row, col - 1) + Alive(g, row, col + 1) +
    Alive(g, row + 1, col - 1) + Alive(g, row + 1, col) + Alive(g, row + 1, col + 1)
  }

  /** The three cells of row `rr` in columns col-1 .. col+1, the centre (row, col) excluded. */
  function Triple(g: Cells, rr: int, row: int, col: int): nat {
    (if (rr, col - 1) == (row, col) then 0 else Alive(g, rr, col - 1)) +
    (if (rr, col) == (row, col) then 0 else Alive(g, rr, col)) +
    (if (rr, col + 1) == (row, col) then 0 else Alive(g, rr, col + 1))
  }

  /** One row of the clamped window counts exactly the three columns around `col`. */
  lemma {:induction false} RowCountIsTriple(g: Cells, rr: nat, row: int, col: int)
    requires Rectangular(g) && rr < |g|
    ensures RowCount(g, rr, Max(0, col - 1), Min(Cols(g), col + 2), row, col) == Triple(g, rr, row, col)
  {
    var lo, hi := Max(0, col - 1), Min(Cols(g), col + 2);
    if hi <= lo {
    } else if hi - lo == 1 {
      assert RowCount(g, rr, lo, hi - 1, row, col) == 0;
    } else if hi - lo == 2 {
      assert RowCount(g, rr, lo, hi - 2, row, col) == 0;
      assert RowCount(g, rr, lo, hi - 1, row, col) == Counted(g, rr, hi - 2, row, col);
    } else {
      assert RowCount(g, rr, lo, hi - 3, row, col) == 0;
      assert RowCount(g, rr, lo, hi - 2, row, col) == Counted(g, rr, hi - 3, row, col);
    }
  }

  /** The window count is the Moore count: clamping only drops cells that are off the grid. */
  lemma {:induction false} LiveNeighborsIsMooreCount(g: Cells, row: int, col: int)
    requires Rectangular(g)
    ensures LiveNeighbors(g, row, col) == MooreCount(g, row, col)
  {
    var rlo, rhi := Max(0, row - 1), Min(|g|, row + 2);
    var clo, chi := Max(0, col - 1), Min(Cols(g), col + 2);
    var above, centre, below := Triple(g, row - 1, row, col), Triple(g, row, row, col), Triple(g, row + 1, row, col);
    assert LiveNeighbors(g, row, col) == WindowCount(g, rlo, rhi, clo, chi, row, col);
    assert MooreCount(g, row, col) == above + centre + below;
    if rhi <= rlo {
      // the window misses the grid, and so do all three rows around `row`
      assert above == 0 && centre == 0 && below == 0;
    } else if rhi - rlo == 1 {
      // one of the three rows around `row` is on the grid
      RowCountIsTriple(g, rlo, row, col);
      assert WindowCount(g, rlo, rhi, clo, chi, row, col) == Triple(g, rlo, row, col);
      if rlo == row - 1 {
        assert centre == 0 && below == 0;
      } else if rlo == row {
        assert above == 0 && below == 0;
      } else {
        assert above == 0 && centre == 0;
      }
    } else if rhi - rlo == 2 {
      // two of the three rows around `row` are on the grid
      RowCountIsTriple(g, rlo, row, col);
      RowCountIsTriple(g, rlo + 1, row, col);
      assert WindowCount(g, rlo, rlo + 1, clo, chi, row, col) == Triple(g, rlo, row, col);
      assert WindowCount(g, rlo, rhi, clo, chi, row, col) == Triple(g, rlo, row, col) + Triple(g, rlo + 1, row, col);
      if rlo == row - 1 {
        assert below == 0;
      } else {
        assert above == 0;
      }
    } else {
      assert rlo == row - 1 && rhi == row + 2;
      RowCountIsTriple(g, row - 1, row, col);
      RowCountIsTriple(g, row, row, col);
      RowCountIsTriple(g, row + 1, row, col);
      assert WindowCount(g, rlo, rlo + 1, clo, chi, row, col) == above;
      assert WindowCount(g, rlo, rlo + 2, clo, chi, row, col) == above + centre;
    }
  }

  /** A cell has at most 8 live neighbours, at most 5 on an edge and at most 3 in a corner. */
  lemma NeighborBounds(g: Cells, row: int, col: int)
    requires Rectangular(g) && 0 <= row < |g| && 0 <= col < Cols(g)
    ensures LiveNeighbors(g, row, col) <= 8
    ensures row == 0 || row == |g| - 1 || col == 0 || col == Cols(g) - 1 ==> LiveNeighbors(g, row, col) <= 5
    ensures (row == 0 || row == |g| - 1) && (col == 0 || col == Cols(g) - 1) ==> LiveNeighbors(g, row, col) <= 3
  {
    LiveNeighborsIsMooreCount(g, row, col);
  }

  /** Every in-grid cell of the clamped window except the centre is examined:
      on a board of live cells the count is the window's size less one, which is
      8 for an interior cell, 5 for an edge cell and 3 for a corner cell of a
      board at least 3 cells wide and high. */
  lemma FullNeighborhood(g: Cells, row: int, col: int)
    requires Rectangular(g) && 0 <= row < |g| && 0 <= col < Cols(g)
    requires forall i, j :: 0 <= i < |g| && 0 <= j < |g[i]| ==> g[i][j] == 1
    ensures LiveNeighbors(g, row, col) ==
              (Min(|g|, row + 2) - Max(0, row - 1)) * (Min(Cols(g), col + 2) - Max(0, col - 1)) - 1
  {
    LiveNeighborsIsMooreCount(g, row, col);
    // which of the four sides of the window lie on the board
    var up, down := if row > 0 then 1 else 0, if row + 1 < |g| then 1 else 0;
    var left, right := if col > 0 then 1 else 0, if col + 1 < Cols(g) then 1 else 0;
    assert Triple(g, row - 1, row, col) == up * (1 + left + right);
    assert Triple(g, row, row, col) == left + right;
    assert Triple(g, row + 1, row, col) == down * (1 + left + right);
    assert Min(|g|, row + 2) - Max(0, row - 1) == 1 + up + down;
    assert Min(Cols(g), col + 2) - Max(0, col - 1) == 1 + left + right;
  }

  /** One generation: every cell is the rule applied to its own value and its
      neighbour count, both read from the input grid. */
  function NextGeneration(g: Cells): (next: Cells)
    requires Rectangular(g)
    ensures |next| == |g| && Rectangular(next) && (|g| > 0 ==> Cols(next) == Cols(g))
  {
    seq(|g|, r requires 0 <= r < |g| =>
      seq(Cols(g), c requires 0 <= c < Cols(g) => NextCellState(g[r][c], LiveNeighbors(g, r, c))))
  }

  /** A grid of 0/1 cells steps to a grid of 0/1 cells. */
  lemma NextGenerationBinary(g: Cells)
    requires Rectangular(g) && Binary(g)
    ensures Binary(NextGeneration(g))
  {
  }

  /** An all-dead grid (what `create_grid` builds) is a still life. */
  lemma {:induction false} DeadGridIsStill(g: Cells)
    requires Rectangular(g) && AllDead(g)
    ensures NextGeneration(g) == g
  {
    var next := NextGeneration(g);
    forall r | 0 <= r < |g|
      ensures next[r] == g[r]
    {
      forall c | 0 <= c < Cols(g)
        ensures next[r][c] == g[r][c]
      {
        LiveNeighborsIsMooreCount(g, r, c);
      }
    }
  }
}
