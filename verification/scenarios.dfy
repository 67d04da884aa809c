/**
  Concrete generations that follow from the rule and the clamped neighbour
  count together.
 */
module Scenarios {
  import opened Grid
  import opened Rules

  /** The rule's table on the cases that exercise each branch. */
  lemma RuleTable()
    ensures NextCellState(1, 0) == 0 && NextCellState(1, 1) == 0
    ensures NextCellState(1, 2) == 1 && NextCellState(1, 3) == 1
    ensures NextCellState(1, 4) == 0
    ensures NextCellState(0, 3) == 1 && NextCellState(0, 2) == 0
  {
  }

  /** Rewrites every cell of a step through the Moore count. */
  lemma {:induction false} StepByMooreCount(g: Cells)
    requires Rectangular(g)
    ensures forall r, c :: 0 <= r < |g| && 0 <= c < Cols(g) ==>
              NextGeneration(g)[r][c] == NextCellState(g[r][c], MooreCount(g, r, c))
  {
    forall r, c | 0 <= r < |g| && 0 <= c < Cols(g)
      ensures NextGeneration(g)[r][c] == NextCellState(g[r][c], MooreCount(g, r, c))
    {
      LiveNeighborsIsMooreCount(g, r, c);
    }
  }

  /** The step of `g` is `want` once they agree cell by cell under the Moore count. */
  lemma {:induction false} SameCells(g: Cells, want: Cells)
    requires Rectangular(g) && |g| > 0 && |want| == |g|
    requires forall r :: 0 <= r < |want| ==> |want[r]| == Cols(g)
    requires forall r, c :: 0 <= r < |g| && 0 <= c < Cols(g) ==>
               want[r][c] == NextCellState(g[r][c], MooreCount(g, r, c))
    ensures NextGeneration(g) == want
  {
    StepByMooreCount(g);
    var next := NextGeneration(g);
    forall r | 0 <= r < |g|
      ensures next[r] == want[r]
    {
    }
  }

  /** A 3x3 board whose only live cell is the centre dies out in one step. */
  lemma LoneCellDies()
    ensures NextGeneration([[0, 0, 0], [0, 1, 0], [0, 0, 0]]) == [[0, 0, 0], [0, 0, 0], [0, 0, 0]]
  {
    var g: Cells := [[0, 0, 0], [0, 1, 0], [0, 0, 0]];
    SameCells(g, [[0, 0, 0], [0, 0, 0], [0, 0, 0]]);
  }

  const Horizontal: Cells := [[0, 0, 0, 0, 0], [0, 0, 0, 0, 0], [0, 1, 1, 1, 0], [0, 0, 0, 0, 0], [0, 0, 0, 0, 0]]
  const Vertical: Cells := [[0, 0, 0, 0, 0], [0, 0, 1, 0, 0], [0, 0, 1, 0, 0], [0, 0, 1, 0, 0], [0, 0, 0, 0, 0]]

  /** The horizontal blinker's cells in closed form: alive exactly at row 2, columns 1..3. */
  lemma HorizontalCells(r: int, c: int)
    ensures Alive(Horizontal, r, c) == if r == 2 && 1 <= c <= 3 then 1 else 0
    ensures 0 <= r < 5 && 0 <= c < 5 ==> |Horizontal[r]| == 5 && Horizontal[r][c] == Alive(Horizontal, r, c)
  {
    if 0 <= r < 5 {
      var row := Horizontal[r];
      assert row == if r == 2 then [0, 1, 1, 1, 0] else [0, 0, 0, 0, 0];
    }
  }

  /** The vertical blinker's cells in closed form: alive exactly at column 2, rows 1..3. */
  lemma VerticalCells(r: nat, c: nat)
    requires r < 5 && c < 5
    ensures |Vertical[r]| == 5 && Vertical[r][c] == if c == 2 && 1 <= r <= 3 then 1 else 0
  {
    var row := Vertical[r];
    assert row == if 1 <= r <= 3 then [0, 0, 1, 0, 0] else [0, 0, 0, 0, 0];
  }

  /** One cell of the blinker's step. */
  lemma BlinkerCell(r: nat, c: nat)
    requires r < 5 && c < 5
    ensures Vertical[r][c] == NextCellState(Horizontal[r][c], MooreCount(Horizontal, r, c))
  {
    HorizontalCells(r, c);
    VerticalCells(r, c);
    HorizontalCells(r - 1, c - 1); HorizontalCells(r - 1, c); HorizontalCells(r - 1, c + 1);
    HorizontalCells(r, c - 1); HorizontalCells(r, c + 1);
    HorizontalCells(r + 1, c - 1); HorizontalCells(r + 1, c); HorizontalCells(r + 1, c + 1);
    // live neighbours: 3 above and below the line's centre, 2 at the centre itself,
    // 1 or 2 elsewhere beside the line, 0 away from it
  }

  /** A horizontal blinker in the middle of a 5x5 board turns vertical. */
  lemma BlinkerTurns()
    ensures NextGeneration(Horizontal) == Vertical
  {
    forall r, c | 0 <= r < 5 && 0 <= c < 5 {
      BlinkerCell(r, c);
    }
    SameCells(Horizontal, Vertical);
  }
}
