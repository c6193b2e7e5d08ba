# Game of Life board model

A Dafny model of the board set-up in `gol.py`, a Python 2 / pygame Game of Life
window. The file opens a 640 by 480 pixel window cut into 10-pixel cells. It
derives the board size in cells from those numbers and builds an all-dead board
as a dictionary keyed by `(x, y)`. It then redraws the grid lines forever. The
file has no generation step, no neighbour counting and no seeding, so none of
these are modelled.

Everything lives in module `GameOfLife` (`gol.dfy`):

- `BoardDimensions` is the start-up check and derivation of `CELLWIDTH` and
  `CELLHEIGHT`. It is total: a zero cell size is `Err(ZeroCellSize)`, because
  Python's `%` raises before either assertion runs. A failed width or height
  assertion is `Err(WidthNotMultiple)` or `Err(HeightNotMultiple)`, and the width
  is checked first. Python 2's `/` on two ints floors, and Dafny's `/` is
  Euclidean. The two agree whenever the division is exact, and it is exact here,
  so the model uses `/` directly and works for any non-zero cell size.
  `ConfiguredDimensions` fixes the shipped constants: a 64 by 48 board.
- `BlankGrid` is `blankGrid` as a method with the same two nested loops (rows
  outside, columns inside) over a local `map<(int, int), int>`. The specification
  sets `Row` and `Cells` are built in the same order the loops run. The outer
  invariant says the map holds exactly the finished rows. The inner invariant adds
  the first `x` cells of the current row. Every value stays `Dead` (0). Bounds are
  plain `int`s: `range(n)` for `n <= 0` yields nothing, and `RangeLength` says so.
- `RangePositions` is `range(0, stop, step)` as a stepping loop. `GridLines` gives
  the positions visited by `drawGrid`'s two loops: the x of each vertical line and
  the y of each horizontal line.
- `BoardCoversWindow` ties the two halves together. For a positive cell size, the
  number of cells times the area of one cell equals the window area in pixels.
  With a negative cell size the start-up assertions still pass, but the derived
  widths are negative and the board is empty, so the lemma needs a positive cell
  size.

## Model

| member | source | states |
|---|---|---|
| `GameOfLife.BoardDimensions` | gol.py:40-46 | Fails exactly when the cell size is zero or does not divide a window dimension. A width that does not divide gives the width error; a width that divides with a height that does not gives the height error. On success, cells times cell size gives back each window dimension exactly. A positive window gives a positive cell count. |
| `GameOfLife.ConfiguredDimensions` | gol.py:36-46 | The shipped 640x480 window with 10-pixel cells passes both assertions and gives a 64 by 48 board. |
| `GameOfLife.BlankGrid` | gol.py:63-73 | The returned dictionary has a key for every (x, y) with 0 <= x < cellWidth and 0 <= y < cellHeight and no other key. Every value is 0 (dead). Proved with row-by-row and cell-by-cell loop invariants. |
| `GameOfLife.InRow` | gol.py:71-72 | After `x` passes of the inner loop, row y holds exactly the cells (i, y) with 0 <= i < x. |
| `GameOfLife.InCells` | gol.py:70-72 | After `y` passes of the outer loop, the board holds exactly the rectangle range(w) x range(y). |
| `GameOfLife.RowSize` | gol.py:71-72 | One pass of the inner loop adds `range(w)`-many distinct cells. |
| `GameOfLife.CellsSize` | gol.py:70-72 | The rectangle built by the two loops has len(range(w)) * len(range(h)) cells. |
| `GameOfLife.GridSize` | gol.py:69-73 | A dictionary keyed by exactly the cells `blankGrid` visits holds CELLWIDTH * CELLHEIGHT entries, or none when either bound is not positive. |
| `GameOfLife.StartingBoard` | gol.py:84 | The board `main` starts from, built from the derived CELLWIDTH and CELLHEIGHT, has 3072 entries, one per cell of the 64 by 48 grid, all dead. |
| `GameOfLife.RangePositions` | gol.py:55 | The positions `range(0, stop, step)` visits are the i-th multiples of step, strictly increasing. They are exactly the non-negative multiples of step below stop, and there are stop / step of them when step divides stop. |
| `GameOfLife.MultiplesBelow` | gol.py:55-59 | Any run of multiples of the step that stays below stop, and whose next multiple does not, lists every non-negative multiple below stop in increasing order, with the expected count. |
| `GameOfLife.GridLines` | gol.py:53-61 | Vertical lines sit at exactly the multiples of the cell size below the window width, and horizontal lines below the height, each list increasing. When the start-up checks pass, there are CELLWIDTH vertical and CELLHEIGHT horizontal lines, the k-th at k * cell size. |
| `GameOfLife.BoardCoversWindow` | gol.py:40-46 | For a positive cell size that passes the checks, the blank board's entry count times the cell area equals the window area. |

## Left out

- Every pygame call (`pygame.init`, `display.set_mode`, `set_caption`, `fill`, `draw.line`, `display.update`, `pygame.quit`): rendering and a foreign library. Only the coordinates `drawGrid` visits are kept, not the line end points or the colour.
- The event loop and exit path of `main` (gol.py:89-95): an endless UI loop that ends in process exit.
- The global `DISPLAYSURF` and the colour constants: display state and presentation only.
- RangePositions: requires a positive step. Python's `range` raises on a zero step (unreachable here, since a zero cell size fails at start-up), and a negative step is not modelled.
- GridLines: requires a positive cell size for the same reason. A negative cell size passes the start-up assertions in Python, but the grid-line loops for it are not modelled.
- The module-level assertions run once at import. `BoardDimensions` models them as a result value instead of an exception that stops the program.
