/** The play field: pixel coordinates of grid cells, the four directions,
    one step of the head with wrap-around, and the random choice of a cell. */
module Grid {

  const ScreenWidth := 640
  const ScreenHeight := 480
  const GridSize := 20
  const GridWidth := ScreenWidth / GridSize
  const GridHeight := ScreenHeight / GridSize

  /** A position on the screen in pixels, top-left corner of a cell. */
  type Cell = (int, int)

  /** The four headings; `Dx` and `Dy` give the vectors of the constants
      `UP = (0, -1)`, `DOWN = (0, 1)`, `LEFT = (-1, 0)` and `RIGHT = (1, 0)`. */
  datatype Direction = Up | Down | Left | Right {

    function Dx(): int {
      match this
      case Up => 0
      case Down => 0
      case Left => -1
      case Right => 1
    }

    function Dy(): int {
      match this
      case Up => -1
      case Down => 1
      case Left => 0
      case Right => 0
    }

    /** The exact reverse heading. */
    function Opposite(): (o: Direction)
      ensures o.Dx() == -Dx() && o.Dy() == -Dy()
      ensures o != this
    {
      match this
      case Up => Down
      case Down => Up
      case Left => Right
      case Right => Left
    }
  }

  /** A grid-aligned cell inside the screen. */
  predicate OnGrid(c: Cell) {
    0 <= c.0 < ScreenWidth && c.0 % GridSize == 0 &&
    0 <= c.1 < ScreenHeight && c.1 % GridSize == 0
  }

  /** The top-left pixel of the cell in column `i` and row `j`. */
  function CellAt(i: int, j: int): Cell {
    (i * GridSize, j * GridSize)
  }

  /** The on-grid cells are exactly the cells of the 32 x 24 board. */
  lemma OnGridIsBoardCell(c: Cell)
    ensures OnGrid(c) <==>
      exists i, j :: 0 <= i < GridWidth && 0 <= j < GridHeight && c == CellAt(i, j)
  {
    if OnGrid(c) {
      var i, j := c.0 / GridSize, c.1 / GridSize;
      assert c == CellAt(i, j);
    }
  }

  /** The head's next cell: one cell along `d`, wrapping with the
      non-negative remainder on both axes. */
  function NextCell(c: Cell, d: Direction): (r: Cell)
    ensures 0 <= r.0 < ScreenWidth && 0 <= r.1 < ScreenHeight
    ensures OnGrid(c) ==> OnGrid(r)
  {
    ((c.0 + d.Dx() * GridSize) % ScreenWidth, (c.1 + d.Dy() * GridSize) % ScreenHeight)
  }

  /** Reference definition of a step on the torus without remainders: move
      one cell, and re-enter at the far edge when leaving the screen. */
  function Neighbour(c: Cell, d: Direction): Cell {
    match d
    case Right => (if c.0 == ScreenWidth - GridSize then 0 else c.0 + GridSize, c.1)
    case Left => (if c.0 == 0 then ScreenWidth - GridSize else c.0 - GridSize, c.1)
    case Down => (c.0, if c.1 == ScreenHeight - GridSize then 0 else c.1 + GridSize)
    case Up => (c.0, if c.1 == 0 then ScreenHeight - GridSize else c.1 - GridSize)
  }

  /** On the grid, the remainder arithmetic is the edge-wrapping step:
      right from x = 620 lands on x = 0, left from x = 0 on x = 620,
      down from y = 460 on y = 0, up from y = 0 on y = 460. */
  lemma NextCellIsNeighbour(c: Cell, d: Direction)
    requires OnGrid(c)
    ensures NextCell(c, d) == Neighbour(c, d)
  {
    // The only remainders that are not the identity are at the edges.
    assert c.0 % ScreenWidth == c.0 && c.1 % ScreenHeight == c.1;
  }

  /** Stepping back the opposite way returns to the cell left. */
  lemma NextCellOpposite(c: Cell, d: Direction)
    requires OnGrid(c)
    ensures NextCell(NextCell(c, d), d.Opposite()) == c
  {
    NextCellIsNeighbour(c, d);
    NextCellIsNeighbour(NextCell(c, d), d.Opposite());
  }

  /** A uniformly drawn cell of the board; only its range is modelled. */
  method RandomCell() returns (c: Cell)
    ensures OnGrid(c)
  {
    var i :| 0 <= i < GridWidth;
    var j :| 0 <= j < GridHeight;
    c := CellAt(i, j);
  }
}
