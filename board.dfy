/** The playfield: two parallel HEIGHT x WIDTH integer grids (occupancy and colour),
    seen here as one grid of cells. Row 0 is the top, column 0 the left wall. */
module Board {

  const WIDTH: int := 10
  const HEIGHT: int := 20

  /** A board coordinate, (row, column). */
  type Pos = (int, int)

  /** One board cell: `occ` is the occupancy grid's entry (1 or 0), `color` the colour
      grid's entry (0 when empty). */
  datatype Cell = Cell(occ: int, color: int)

  const Empty: Cell := Cell(0, 0)

  predicate InBounds(y: int, x: int) {
    0 <= y < HEIGHT && 0 <= x < WIDTH
  }

  type Grid = g: seq<seq<Cell>> | |g| == HEIGHT && forall y :: 0 <= y < |g| ==> |g[y]| == WIDTH
    witness seq(HEIGHT, _ => seq(WIDTH, _ => Cell(0, 0)))

  /** The board invariant every writer keeps: a cell is empty exactly when its colour is 0,
      and an occupied cell holds occupancy 1. */
  predicate ValidCell(c: Cell) {
    (c.occ == 0 && c.color == 0) || (c.occ == 1 && c.color != 0)
  }

  predicate Consistent(g: Grid) {
    forall y, x :: 0 <= y < HEIGHT && 0 <= x < WIDTH ==> ValidCell(g[y][x])
  }

  function EmptyGrid(): (g: Grid)
    ensures Consistent(g)
    ensures forall y, x :: InBounds(y, x) ==> g[y][x] == Empty
  {
    seq(HEIGHT, _ => seq(WIDTH, _ => Empty))
  }

  /** Column x read from top to bottom. */
  function Column(g: Grid, x: int): (c: seq<Cell>)
    requires 0 <= x < WIDTH
    ensures |c| == HEIGHT
    ensures forall y :: 0 <= y < HEIGHT ==> c[y] == g[y][x]
  {
    seq(HEIGHT, (y: int) requires 0 <= y < HEIGHT => g[y][x])
  }

  /** Every position of the board. */
  function AllPos(): (s: set<Pos>)
    ensures forall p :: p in s <==> InBounds(p.0, p.1)
  {
    set y, x | 0 <= y < HEIGHT && 0 <= x < WIDTH :: (y, x)
  }

  /** Two grids that agree cell by cell are equal. */
  lemma GridExt(a: Grid, b: Grid)
    requires forall y, x :: InBounds(y, x) ==> a[y][x] == b[y][x]
    ensures a == b
  {
    forall y | 0 <= y < HEIGHT
      ensures a[y] == b[y]
    {
      assert forall x :: 0 <= x < WIDTH ==> a[y][x] == b[y][x];
    }
  }

  /** Two grids with the same columns are equal. */
  lemma GridExtByColumns(a: Grid, b: Grid)
    requires forall x :: 0 <= x < WIDTH ==> Column(a, x) == Column(b, x)
    ensures a == b
  {
    forall y, x | InBounds(y, x)
      ensures a[y][x] == b[y][x]
    {
      assert Column(a, x)[y] == Column(b, x)[y];
    }
    GridExt(a, b);
  }
}
