# Conway's Game of Life engine, in Dafny

This project models the state-transition engine of a Game of Life program
(`gameoflife/core.py`). The board is a bounded rectangle of cells, each 0 (dead)
or 1 (alive), and nothing wraps around at the edges. The engine has five
operations:

- `create_grid` builds an all-dead board. Unless both dimensions are positive
  it raises `ValueError("rows and cols must be positive integers")`, which the
  model returns as `Err(InvalidDimension)`.
- `populate_grid` overwrites every cell in place with a random 0 or 1. On a
  board with no rows or an empty first row it raises
  `ValueError("Grid cannot be empty")`, which the model returns as
  `Err(EmptyGrid)`.
- `count_live_neighbors` counts the live cells in the 3x3 window around a cell.
  The window is clamped to the board and the centre is skipped. On an empty
  board it raises the same `ValueError("Grid cannot be empty")`, which the
  model also returns as `Err(EmptyGrid)`.
- `next_cell_state` is the rule table, where the first matching rule wins.
- `update_grid` builds the next generation as a new board. It reads every
  neighbour count from the input board.

The program raises one exception type, `ValueError`, for both failures. The
model splits it into two error kinds, one per message: `InvalidDimension` for
bad dimensions and `EmptyGrid` for an empty board.

Files:

- `grid.dfy` (module `Grid`) holds a board as a value (`Cells = seq<seq<int>>`),
  the error kinds, `Result`, and `View`. `View` reads a mutable board
  (`array2<int>`) as a value.
- `rules.dfy` (module `Rules`) holds the pure definitions. These are the rule
  `NextCellState` and the neighbour count `LiveNeighbors`. `LiveNeighbors` is
  written as the window sum the program's two loops compute. The module also
  holds an independent definition, `MooreCount`: the eight surrounding cells,
  with off-board cells counted as dead. The remaining definition is one
  generation, `NextGeneration`. The module proves the window count equal to
  the Moore count and derives the count's bounds from that.
- `core.dfy` (module `Core`) holds the four operations on a mutable board.
  `CreateGrid` and `PopulateGrid` are specified directly by the board they
  leave: its dimensions, and which cells are 0 or 1. The nested loops of
  `CountLiveNeighbors` and `UpdateGrid` are proved to compute the definitions
  in `Rules`.
- `scenarios.dfy` (module `Scenarios`) holds the rule table and two concrete
  steps: a lone cell dies, and a blinker turns.

The random source is a parameter of `PopulateGrid`. It is `coin: nat -> bool`,
and `coin(k)` is the outcome of the k-th draw. Draws are taken in row-major
order, so cell (i, j) gets draw number `i * cols + j`.

`count_live_neighbors` accepts any row and column, in range or not. The clamped
loop ranges never index outside the board, and a window that misses the board
counts nothing. The model keeps this behaviour: `CountLiveNeighbors` and
`LiveNeighbors` place no bound on `row` and `col`. The docstring of
`count_live_neighbors` describes `row` and `col` only as the row and column
index of the cell, and the code never checks them.

## Model

| member | source | states |
|---|---|---|
| `Core.CreateGrid` | gameoflife/core.py:20-22 | Returns `Err(InvalidDimension)`, the model's form of the program's ValueError, exactly when rows <= 0 or cols <= 0. Otherwise it returns a fresh board of exactly rows x cols cells, all dead. |
| `Core.Draw` | gameoflife/core.py:42 | One `randint(0, 1)`: always 0 or 1, and 1 exactly when the draw comes up true. |
| `Core.PopulateGrid` | gameoflife/core.py:36-42 | Returns `Err(EmptyGrid)`, the model's form of the program's ValueError, exactly when the board has no rows or no columns, and then writes nothing. Otherwise each cell (i, j) becomes draw number i*cols+j. Either way every cell is 0 or 1 afterwards, and the dimensions of an `array2` never change. |
| `Core.CountLiveNeighbors` | gameoflife/core.py:57-66 | Returns `Err(EmptyGrid)`, the model's form of the program's ValueError, exactly when the board has no rows or no columns. Otherwise the nested loops return the clamped-window count `LiveNeighbors` of the current board, for any row and column. The board is not modified. |
| `Rules.LiveNeighborsIsMooreCount` | gameoflife/core.py:60-66 | For every rectangular board and every row and column, the clamped-window count equals the number of live cells among the eight Moore neighbours. Clamping drops only off-board cells, and the centre is never counted. |
| `Rules.NeighborBounds` | gameoflife/core.py:60-66 | A cell on the board has at most 8 live neighbours. An edge cell has at most 5 and a corner cell at most 3. |
| `Rules.FullNeighborhood` | gameoflife/core.py:62-64 | On a board of live cells, the count is (window height x window width) - 1. So every in-board cell of the window except the centre is examined. On a board at least 3 cells high and 3 cells wide, that is 8 for an interior cell, 5 for an edge cell and 3 for a corner cell. On a board with a single row or a single column these counts are smaller. |
| `Rules.NextCellState` | gameoflife/core.py:81-90 | For a cell in {0,1}, the result is 1 exactly when there are 3 neighbours, or when the cell is alive and there are 2 (B3/S23). The result is then in {0,1}. Any other cell value falls through every rule and is returned unchanged. |
| `Scenarios.RuleTable` | gameoflife/core.py:81-90 | The rule's values on (1,0), (1,1), (1,2), (1,3), (1,4), (0,3) and (0,2) are 0, 0, 1, 1, 0, 1, 0. |
| `Rules.NextGeneration` | gameoflife/core.py:103-110 | One generation of a rectangular board has the same number of rows and the same row length as the input. |
| `Core.UpdateGrid` | gameoflife/core.py:103-110 | Returns a fresh board whose contents are `NextGeneration` of the input. Each cell is the rule applied to the input cell and its neighbour count in the unmodified input. The input board is not changed. |
| `Rules.NextGenerationBinary` | gameoflife/core.py:103-110 | A board of 0/1 cells steps to a board of 0/1 cells. |
| `Rules.DeadGridIsStill` | gameoflife/core.py:103-110 | An all-dead board, which is what `create_grid` builds, steps to itself. |
| `Scenarios.LoneCellDies` | gameoflife/core.py:103-110 | The 3x3 board whose only live cell is the centre steps to the all-dead 3x3 board. |
| `Scenarios.BlinkerTurns` | gameoflife/core.py:103-110 | On a 5x5 board, a horizontal line of three live cells in the middle row steps to a vertical line of three centred on the same cell. |

## Left out

- `main` (gameoflife/core.py:113-123) is left out. It only prints a 10x10 example board to the console.
- The randomness of `random.randint` is not modelled. Each draw is an arbitrary outcome supplied by the `coin` parameter, so the model says nothing about uniformity or independence. That also rules out the probabilistic claim that a populated board has at least one live cell.
- The board is an `array2<int>`, so the model leaves out two things a Python list of lists allows. Rows cannot be ragged, and two rows cannot be one shared list.
- Core.UpdateGrid: requires at least one row. On a board with no rows the program fails with an IndexError when it reads `grid[0]`. A board with rows but no columns is accepted and steps to rows of empty rows, as in the program.
- Cells hold `int` values. Values that are not integers are not modelled. Integer values other than 0 and 1 are modelled: the rule keeps them unchanged, and the neighbour count does not count them.
