/*
 * The board of the Game of Life window: how its size in cells is derived from
 * the window and cell sizes, how the blank board is built, and where the grid
 * lines are drawn.
 */
module GameOfLife {

  /** Cell states stored in the board dictionary. */
  const Dead := 0
  const Alive := 1

  /** The window configuration the program starts with (pixels). */
  const WindowWidth := 640
  const WindowHeight := 480
  const CellSize := 10

  /** Board size in cells, as the program computes it at start-up. */
  const CellWidth := WindowWidth / CellSize
  const CellHeight := WindowHeight / CellSize

  /** Why start-up stops before a window is opened. */
  datatype ConfigError =
    | ZeroCellSize       // `%` by a zero cell size raises before either assertion
    | WidthNotMultiple   // the window-width assertion fails
    | HeightNotMultiple  // the window-height assertion fails

  datatype Result<T> = Ok(value: T) | Err(error: ConfigError)

  /** Number of cells across and down the board. */
  datatype Dimensions = Dimensions(cellWidth: int, cellHeight: int)

  /**
   * The start-up checks and the derivation of the board size: the width is
   * checked first, then the height, and only then are both divided (exactly,
   * as integer division) by the cell size.
   */
  function BoardDimensions(windowWidth: int, windowHeight: int, cellSize: int): (r: Result<Dimensions>)
    ensures r == Err(ZeroCellSize) <==> cellSize == 0
    ensures cellSize != 0 ==>
              (r.Ok? <==> windowWidth % cellSize == 0 && windowHeight % cellSize == 0)
    ensures cellSize != 0 && windowWidth % cellSize != 0 ==> r == Err(WidthNotMultiple)
    ensures cellSize != 0 && windowWidth % cellSize == 0 && windowHeight % cellSize != 0 ==>
              r == Err(HeightNotMultiple)
    ensures r.Ok? ==> r.value.cellWidth * cellSize == windowWidth
    ensures r.Ok? ==> r.value.cellHeight * cellSize == windowHeight
    ensures r.Ok? && cellSize > 0 ==>
              (r.value.cellWidth > 0 <==> windowWidth > 0) && (r.value.cellWidth >= 0 <==> windowWidth >= 0)
    ensures r.Ok? && cellSize > 0 ==>
              (r.value.cellHeight > 0 <==> windowHeight > 0) && (r.value.cellHeight >= 0 <==> windowHeight >= 0)
  {
    if cellSize == 0 then Err(ZeroCellSize)
    else if windowWidth % cellSize != 0 then Err(WidthNotMultiple)
    else if windowHeight % cellSize != 0 then Err(HeightNotMultiple)
    else Ok(Dimensions(windowWidth / cellSize, windowHeight / cellSize))
  }

  /** The configured window passes both start-up checks: a 64 by 48 board. */
  lemma ConfiguredDimensions()
    ensures BoardDimensions(WindowWidth, WindowHeight, CellSize) == Ok(Dimensions(CellWidth, CellHeight))
    ensures CellWidth == 64 && CellHeight == 48
  {
  }

  /** How many values `range(n)` yields. */
  function RangeLength(n: int): nat
  {
    if n < 0 then 0 else n
  }

  /** The first `w` cells of row `y`, added left to right as the inner loop does. */
  function Row(w: int, y: int): set<(int, int)>
    decreases w
  {
    if w <= 0 then {} else Row(w - 1, y) + {(w - 1, y)}
  }

  /** The cells of the first `h` rows of a board `w` cells wide, added row by row. */
  function Cells(w: int, h: int): set<(int, int)>
    decreases h
  {
    if h <= 0 then {} else Cells(w, h - 1) + Row(w, h - 1)
  }

  /** Row `y` holds exactly the columns `range(w)` of that row. */
  lemma {:induction false} InRow(w: int, y: int, c: (int, int))
    ensures c in Row(w, y) <==> 0 <= c.0 < w && c.1 == y
    decreases w
  {
    if w > 0 {
      InRow(w - 1, y, c);
    }
  }

  /** The board holds exactly the cells of the `range(w)` by `range(h)` rectangle. */
  lemma {:induction false} InCells(w: int, h: int, c: (int, int))
    ensures c in Cells(w, h) <==> 0 <= c.0 < w && 0 <= c.1 < h
    decreases h
  {
    if h > 0 {
      InCells(w, h - 1, c);
      InRow(w, h - 1, c);
    }
  }

  lemma {:induction false} RowSize(w: int, y: int)
    ensures |Row(w, y)| == RangeLength(w)
    decreases w
  {
    if w > 0 {
      RowSize(w - 1, y);
      InRow(w - 1, y, (w - 1, y));
    }
  }

  /** A `w` by `h` board has `w * h` cells (none if either bound is not positive). */
  lemma {:induction false} CellsSize(w: int, h: int)
    ensures |Cells(w, h)| == RangeLength(w) * RangeLength(h)
    decreases h
  {
    if h > 0 {
      CellsSize(w, h - 1);
      RowSize(w, h - 1);
      var y := h - 1;
      forall c | c in Row(w, y)
        ensures c !in Cells(w, y)
      {
        InRow(w, y, c);
        InCells(w, y, c);
      }
    }
  }

  /** A dictionary keyed by the cells of a `w` by `h` board holds `w * h` entries. */
  lemma GridSize(grid: map<(int, int), int>, w: int, h: int)
    requires grid.Keys == Cells(w, h)
    ensures |grid| == RangeLength(w) * RangeLength(h)
  {
    CellsSize(w, h);
    assert |grid| == |grid.Keys|;
  }

  /**
   * Builds the dictionary of an empty board row by row: exactly one entry per
   * cell of the `cellWidth` by `cellHeight` rectangle, every one of them dead.
   */
  method BlankGrid(cellWidth: int, cellHeight: int) returns (grid: map<(int, int), int>)
    ensures grid.Keys == Cells(cellWidth, cellHeight)
    ensures forall c :: c in grid <==> 0 <= c.0 < cellWidth && 0 <= c.1 < cellHeight
    ensures forall c :: c in grid ==> grid[c] == Dead
  {
    grid := map[];
    var y := 0;
    while y < cellHeight
      invariant 0 <= y && (y <= cellHeight || y == 0)
      invariant grid.Keys == Cells(cellWidth, y)
      invariant forall c :: c in grid ==> grid[c] == Dead
    {
      var x := 0;
      while x < cellWidth
        invariant 0 <= x && (x <= cellWidth || x == 0)
        invariant grid.Keys == Cells(cellWidth, y) + Row(x, y)
        invariant forall c :: c in grid ==> grid[c] == Dead
      {
        grid := grid[(x, y) := Dead];
        x := x + 1;
      }
      y := y + 1;
    }
    forall c
      ensures c in grid <==> 0 <= c.0 < cellWidth && 0 <= c.1 < cellHeight
    {
      InCells(cellWidth, cellHeight, c);
    }
  }

  /** The board the program starts from: 3072 dead cells, one per cell of its 64 by 48 grid. */
  method StartingBoard() returns (grid: map<(int, int), int>)
    ensures |grid| == CellWidth * CellHeight == 3072
    ensures forall c :: c in grid <==> 0 <= c.0 < CellWidth && 0 <= c.1 < CellHeight
    ensures forall c :: c in grid ==> grid[c] == Dead
  {
    ConfiguredDimensions();
    grid := BlankGrid(CellWidth, CellHeight);
    GridSize(grid, CellWidth, CellHeight);
  }

  lemma MulMono(a: int, b: int, s: int)
    requires a <= b && 0 <= s
    ensures a * s <= b * s
  {
  }

  lemma MulStrictMono(a: int, b: int, s: int)
    requires a < b && 0 < s
    ensures a * s < b * s
  {
  }

  /** Euclidean division of `q * s + r` by `s` gives back `q` and `r`. */
  lemma DivModUnique(x: int, s: int, q: int, r: int)
    requires 0 < s && 0 <= r < s && x == q * s + r
    ensures x / s == q && x % s == r
  {
    var d := q - x / s;
    assert d * s == x % s - r;
    if d > 0 {
      MulMono(1, d, s);
      assert false;
    } else if d < 0 {
      MulMono(1, -d, s);
      assert false;
    }
  }

  /**
   * The first `|ps|` multiples of `step`, when they are all below `stop` and
   * the next one is not, are in increasing order exactly the non-negative
   * multiples of `step` below `stop`, and there are `stop / step` of them when
   * `stop` is itself a multiple.
   */
  lemma MultiplesBelow(ps: seq<int>, stop: int, step: int)
    requires step > 0
    requires forall i :: 0 <= i < |ps| ==> ps[i] == i * step && ps[i] < stop
    requires stop <= |ps| * step
    ensures forall i, j :: 0 <= i < j < |ps| ==> ps[i] < ps[j]
    ensures forall p :: p in ps <==> 0 <= p < stop && p % step == 0
    ensures stop % step == 0 ==> |ps| == RangeLength(stop / step)
  {
    forall i, j | 0 <= i < j < |ps|
      ensures ps[i] < ps[j]
    {
      MulStrictMono(i, j, step);
    }
    MultiplesAreListed(ps, stop, step);
    forall i | 0 <= i < |ps|
      ensures 0 <= ps[i] && ps[i] % step == 0
    {
      MulMono(0, i, step);
      DivModUnique(i * step, step, i, 0);
    }
    if stop % step == 0 {
      MultiplesCount(ps, stop, step);
    }
  }

  lemma MultiplesAreListed(ps: seq<int>, stop: int, step: int)
    requires step > 0
    requires forall i :: 0 <= i < |ps| ==> ps[i] == i * step
    requires stop <= |ps| * step
    ensures forall q :: 0 <= q < stop && q % step == 0 ==> q in ps
  {
    forall q | 0 <= q < stop && q % step == 0
      ensures q in ps
    {
      var k := q / step;
      DivModUnique(q, step, k, 0);
      if k >= |ps| {
        MulMono(|ps|, k, step);
        assert false;
      }
      assert ps[k] == q;
    }
  }

  lemma MultiplesCount(ps: seq<int>, stop: int, step: int)
    requires step > 0 && stop % step == 0
    requires forall i :: 0 <= i < |ps| ==> ps[i] == i * step && ps[i] < stop
    requires stop <= |ps| * step
    ensures |ps| == RangeLength(stop / step)
  {
    var n := stop / step;
    DivModUnique(stop, step, n, 0);
    if |ps| < n {
      MulStrictMono(|ps|, n, step);
      assert false;
    } else if RangeLength(n) < |ps| {
      var last := |ps| - 1;
      assert ps[last] == last * step < stop;
      MulMono(RangeLength(n), last, step);
      assert false;
    }
  }

  /**
   * The positions `range(0, stop, step)` visits, collected by stepping up from
   * 0 while below `stop`: exactly the non-negative multiples of `step` below
   * `stop`, in increasing order.
   */
  method RangePositions(stop: int, step: int) returns (ps: seq<int>)
    requires step > 0
    ensures forall i :: 0 <= i < |ps| ==> ps[i] == i * step
    ensures forall i, j :: 0 <= i < j < |ps| ==> ps[i] < ps[j]
    ensures forall p :: p in ps <==> 0 <= p < stop && p % step == 0
    ensures stop % step == 0 ==> |ps| == RangeLength(stop / step)
  {
    ps := [];
    var p := 0;
    while p < stop
      invariant 0 <= p && p == |ps| * step
      invariant forall i :: 0 <= i < |ps| ==> ps[i] == i * step && ps[i] < stop
      decreases stop - p
    {
      ps := ps + [p];
      p := p + step;
    }
    MultiplesBelow(ps, stop, step);
  }

  /**
   * The x positions of the vertical grid lines and the y positions of the
   * horizontal ones. When the window passes the start-up checks there is one
   * line at the left (top) edge of each column (row) of cells.
   */
  method GridLines(windowWidth: int, windowHeight: int, cellSize: int)
    returns (vertical: seq<int>, horizontal: seq<int>)
    requires cellSize > 0
    ensures forall x :: x in vertical <==> 0 <= x < windowWidth && x % cellSize == 0
    ensures forall y :: y in horizontal <==> 0 <= y < windowHeight && y % cellSize == 0
    ensures forall i, j :: 0 <= i < j < |vertical| ==> vertical[i] < vertical[j]
    ensures forall i, j :: 0 <= i < j < |horizontal| ==> horizontal[i] < horizontal[j]
    ensures BoardDimensions(windowWidth, windowHeight, cellSize).Ok? ==>
              var dims := BoardDimensions(windowWidth, windowHeight, cellSize).value;
              && |vertical| == RangeLength(dims.cellWidth)
              && |horizontal| == RangeLength(dims.cellHeight)
              && (forall k :: 0 <= k < |vertical| ==> vertical[k] == k * cellSize)
              && (forall k :: 0 <= k < |horizontal| ==> horizontal[k] == k * cellSize)
  {
    vertical := RangePositions(windowWidth, cellSize);
    horizontal := RangePositions(windowHeight, cellSize);
  }

  /**
   * The board covers the window: its cell count times the area of one cell is
   * the window's area in pixels.
   */
  lemma BoardCoversWindow(windowWidth: nat, windowHeight: nat, cellSize: int, grid: map<(int, int), int>)
    requires cellSize > 0
    requires BoardDimensions(windowWidth, windowHeight, cellSize).Ok?
    requires grid.Keys == Cells(BoardDimensions(windowWidth, windowHeight, cellSize).value.cellWidth,
                                BoardDimensions(windowWidth, windowHeight, cellSize).value.cellHeight)
    ensures |grid| * (cellSize * cellSize) == windowWidth * windowHeight
  {
    var dims := BoardDimensions(windowWidth, windowHeight, cellSize).value;
    var w, h := dims.cellWidth, dims.cellHeight;
    GridSize(grid, w, h);
    calc {
      |grid| * (cellSize * cellSize);
      (w * h) * (cellSize * cellSize);
      (w * cellSize) * (h * cellSize);
      windowWidth * windowHeight;
    }
  }
}
