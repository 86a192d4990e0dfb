/**
 * Board geometry of the Snake game. A cell is addressed by the pixel
 * coordinates of its top-left corner, as in the_snake.py; the board is
 * SCREEN_WIDTH x SCREEN_HEIGHT pixels cut into GRID_SIZE-pixel squares, and
 * the head moves one square per step with toroidal wrap-around.
 */
module Geometry {

  const ScreenWidth: int := 640
  const ScreenHeight: int := 480
  const GridSize: int := 20
  /** Number of columns and rows (Python's `//` on positive operands). */
  const GridWidth: int := ScreenWidth / GridSize
  const GridHeight: int := ScreenHeight / GridSize

  /** A cell, by the pixel coordinates of its top-left corner. */
  datatype Cell = Cell(x: int, y: int)

  /** The four movement vectors UP=(0,-1), DOWN=(0,1), LEFT=(-1,0), RIGHT=(1,0). */
  datatype Direction = Up | Down | Left | Right

  function Dx(d: Direction): int
  {
    match d
    case Left => -1
    case Right => 1
    case _ => 0
  }

  function Dy(d: Direction): int
  {
    match d
    case Up => -1
    case Down => 1
    case _ => 0
  }

  /** The reverse of a direction: the one whose vector is the negated vector. */
  function Opposite(d: Direction): (r: Direction)
    ensures Dx(r) == -Dx(d) && Dy(r) == -Dy(d)
    ensures r != d
  {
    match d
    case Up => Down
    case Down => Up
    case Left => Right
    case Right => Left
  }

  /** The starting cell of the snake: the centre of the screen. */
  const Center: Cell := Cell(ScreenWidth / 2, ScreenHeight / 2)

  predicate InBounds(c: Cell)
  {
    0 <= c.x < ScreenWidth && 0 <= c.y < ScreenHeight
  }

  predicate Aligned(c: Cell)
  {
    c.x % GridSize == 0 && c.y % GridSize == 0
  }

  /** A cell the snake or the apple may occupy: inside the window, on the grid. */
  predicate OnBoard(c: Cell)
  {
    InBounds(c) && Aligned(c)
  }

  /**
   * The cell one square from `c` in direction `d`, wrapping at the window's
   * edges. Python's `%` floors and Dafny's is Euclidean; both agree here
   * because the divisor is a positive constant.
   */
  function NextHead(c: Cell, d: Direction): (r: Cell)
    ensures InBounds(r)
  {
    Cell((c.x + Dx(d) * GridSize) % ScreenWidth, (c.y + Dy(d) * GridSize) % ScreenHeight)
  }

  /** `to` is one step away from `from`. */
  ghost predicate Adjacent(from: Cell, to: Cell)
  {
    exists d: Direction :: NextHead(from, d) == to
  }

  /** The top-left pixel of grid column `col`, row `row` (apple placement). */
  function GridCell(col: int, row: int): (c: Cell)
    requires 0 <= col < GridWidth && 0 <= row < GridHeight
    ensures OnBoard(c)
    ensures c.x / GridSize == col && c.y / GridSize == row
  {
    Cell(col * GridSize, row * GridSize)
  }

  /** Every board cell is the placement of exactly its own column and row. */
  lemma GridCellCoversBoard(c: Cell)
    requires OnBoard(c)
    ensures 0 <= c.x / GridSize < GridWidth && 0 <= c.y / GridSize < GridHeight
    ensures GridCell(c.x / GridSize, c.y / GridSize) == c
  {
  }

  /** One wrapped step of a grid-aligned coordinate in [0, m) stays grid-aligned. */
  lemma WrapAligned(v: int, delta: int, m: int)
    requires m == ScreenWidth || m == ScreenHeight
    requires 0 <= v < m && v % GridSize == 0
    requires delta == -GridSize || delta == 0 || delta == GridSize
    ensures (v + delta) % m % GridSize == 0
  {
    if v + delta < 0 {
      assert (v + delta) % m == m - GridSize;
    } else if v + delta >= m {
      assert (v + delta) % m == 0;
    } else {
      assert (v + delta) % m == v + delta;
    }
  }

  /** A step keeps a board cell on the board. */
  lemma NextHeadOnBoard(c: Cell, d: Direction)
    requires OnBoard(c)
    ensures OnBoard(NextHead(c, d))
  {
    WrapAligned(c.x, Dx(d) * GridSize, ScreenWidth);
    WrapAligned(c.y, Dy(d) * GridSize, ScreenHeight);
  }

  /** Stepping back in the opposite direction undoes a step. */
  lemma NextHeadUndo(c: Cell, d: Direction)
    requires InBounds(c)
    ensures NextHead(NextHead(c, d), Opposite(d)) == c
  {
  }

  /** A step always leaves the cell it started from. */
  lemma NextHeadMoves(c: Cell, d: Direction)
    requires InBounds(c)
    ensures NextHead(c, d) != c
  {
  }

  /** From a given cell, different directions lead to different cells. */
  lemma NextHeadInjective(c: Cell, d1: Direction, d2: Direction)
    requires InBounds(c)
    requires NextHead(c, d1) == NextHead(c, d2)
    ensures d1 == d2
  {
  }

  /**
   * Two consecutive steps return to the start only when the second one is
   * the reverse of the first.
   */
  lemma NoUTurn(c: Cell, first: Direction, second: Direction)
    requires InBounds(c)
    ensures NextHead(NextHead(c, first), second) == c <==> second == Opposite(first)
  {
    var mid := NextHead(c, first);
    NextHeadUndo(c, first);
    if NextHead(mid, second) == c {
      NextHeadInjective(mid, second, Opposite(first));
    }
  }

  /** Leaving the left edge re-enters at the rightmost column, same row. */
  lemma LeftEdgeWraps(y: int)
    requires 0 <= y < ScreenHeight
    ensures NextHead(Cell(0, y), Left) == Cell(ScreenWidth - GridSize, y)
  {
  }

  /** Leaving the right edge re-enters at column 0, same row. */
  lemma RightEdgeWraps(y: int)
    requires 0 <= y < ScreenHeight
    ensures NextHead(Cell(ScreenWidth - GridSize, y), Right) == Cell(0, y)
  {
  }

  /** Leaving the top edge re-enters at the bottom row, same column. */
  lemma TopEdgeWraps(x: int)
    requires 0 <= x < ScreenWidth
    ensures NextHead(Cell(x, 0), Up) == Cell(x, ScreenHeight - GridSize)
  {
  }

  /** Leaving the bottom edge re-enters at row 0, same column. */
  lemma BottomEdgeWraps(x: int)
    requires 0 <= x < ScreenWidth
    ensures NextHead(Cell(x, ScreenHeight - GridSize), Down) == Cell(x, 0)
  {
  }
}
