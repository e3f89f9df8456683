/** Where a piece may stand: the collision test, the rotation kick search and the
    commit of a piece into the board. */
module Collision {
  import opened Board
  import opened Piece

  /** A board square a filled piece cell may not occupy: outside the side walls, below the
      floor, or an occupied cell. Squares above the top row (gy < 0) are free. */
  predicate Blocked(g: Grid, gy: int, gx: int) {
    gx < 0 || gx >= WIDTH || gy >= HEIGHT || (gy >= 0 && g[gy][gx].occ != 0)
  }

  /** The piece with its 3x3 top-left at board (nx, ny) has a filled cell on a blocked square. */
  predicate Collides(g: Grid, b: Block, nx: int, ny: int): (r: bool)
    ensures !r ==> forall y, x :: 0 <= y < SIZE && 0 <= x < SIZE && b.shape[y][x] != 0 ==>
      0 <= nx + x < WIDTH && ny + y < HEIGHT && (ny + y < 0 || g[ny + y][nx + x].occ == 0)
  {
    exists y, x :: 0 <= y < SIZE && 0 <= x < SIZE && b.shape[y][x] != 0 && Blocked(g, ny + y, nx + x)
  }

  /** The rotation kicks, tried in this order: none, left, right, up, up-left, up-right. */
  const KICKS: seq<(int, int)> := [(0, 0), (-1, 0), (1, 0), (0, -1), (-1, -1), (1, -1)]

  /** Index of the first kick from i on that puts the piece at a non-colliding position;
      |KICKS| when there is none. */
  function FirstFit(g: Grid, b: Block, nx: int, ny: int, i: nat): (k: nat)
    requires i <= |KICKS|
    ensures i <= k <= |KICKS|
    ensures k < |KICKS| ==> !KickCollides(g, b, nx, ny, k)
    ensures forall j :: i <= j < k ==> KickCollides(g, b, nx, ny, j)
    decreases |KICKS| - i
  {
    if i == |KICKS| then i
    else if !KickCollides(g, b, nx, ny, i) then i
    else FirstFit(g, b, nx, ny, i + 1)
  }

  /** The kick search is determined by which kicks collide: from kick s on, FirstFit is
      the first kick that does not collide, or |KICKS| when all do. */
  lemma {:induction false} FirstFitIs(g: Grid, b: Block, nx: int, ny: int, s: int, i: int)
    requires 0 <= s <= i <= |KICKS|
    requires forall j :: s <= j < i ==> KickCollides(g, b, nx, ny, j)
    requires i < |KICKS| ==> !KickCollides(g, b, nx, ny, i)
    ensures FirstFit(g, b, nx, ny, s) == i
    decreases i - s
  {
    if s < i {
      assert KickCollides(g, b, nx, ny, s);
      FirstFitIs(g, b, nx, ny, s + 1, i);
    }
  }

  /** The piece collides after kick j moves it from (nx, ny). */
  predicate KickCollides(g: Grid, b: Block, nx: int, ny: int, j: int)
    requires 0 <= j < |KICKS|
  {
    Collides(g, b, nx + KICKS[j].0, ny + KICKS[j].1)
  }

  /** The board after the piece at (px, py) is written into it: every filled piece cell
      that falls inside the board becomes occupied with the piece cell's colour. */
  function Place(g: Grid, b: Block, px: int, py: int): (r: Grid)
    ensures forall y, x :: InBounds(y, x) ==>
      r[y][x] == if py <= y < py + SIZE && px <= x < px + SIZE && b.shape[y - py][x - px] != 0
                 then Cell(1, b.color[y - py][x - px]) else g[y][x]
  {
    seq(HEIGHT, (y: int) requires 0 <= y < HEIGHT =>
      seq(WIDTH, (x: int) requires 0 <= x < WIDTH =>
        if py <= y < py + SIZE && px <= x < px + SIZE && b.shape[y - py][x - px] != 0
        then Cell(1, b.color[y - py][x - px]) else g[y][x]))
  }

  /** Locking a piece at a non-colliding position only fills empty cells: every cell that
      changes was empty, every filled piece cell inside the board ends up there with its
      colour, and the board invariant is kept. */
  lemma {:induction false} PlaceFillsEmptyCells(g: Grid, b: Block, maxColors: int, px: int, py: int)
    requires Consistent(g) && WellFormed(b, maxColors)
    requires !Collides(g, b, px, py)
    ensures Consistent(Place(g, b, px, py))
    ensures forall y, x :: InBounds(y, x) && Place(g, b, px, py)[y][x] != g[y][x] ==> g[y][x].occ == 0
    ensures forall y, x :: InMatrix(y, x) && b.shape[y][x] != 0 && InBounds(py + y, px + x) ==>
      Place(g, b, px, py)[py + y][px + x] == Cell(1, b.color[y][x]) && g[py + y][px + x] == Empty
  {
    var r := Place(g, b, px, py);
    forall y, x | InBounds(y, x) && r[y][x] != g[y][x]
      ensures g[y][x].occ == 0
    {
      assert !Blocked(g, py + (y - py), px + (x - px));
    }
    forall y, x | InMatrix(y, x) && b.shape[y][x] != 0 && InBounds(py + y, px + x)
      ensures r[py + y][px + x] == Cell(1, b.color[y][x]) && g[py + y][px + x] == Empty
    {
      assert !Blocked(g, py + y, px + x);
    }
  }

  /** Placement keeps the board invariant wherever the piece stands. */
  lemma {:induction false} PlaceKeepsConsistent(g: Grid, b: Block, maxColors: int, px: int, py: int)
    requires Consistent(g) && WellFormed(b, maxColors)
    ensures Consistent(Place(g, b, px, py))
  {
  }

  /** A piece that does not collide can be raised in its column without colliding, so long
      as the squares it passes on the way are empty. */
  lemma {:induction false} RaiseKeepsClear(g: Grid, b: Block, nx: int, ny: int, ny': int)
    requires !Collides(g, b, nx, ny) && ny' <= ny
    requires forall y, x, r ::
      (InMatrix(y, x) && b.shape[y][x] != 0 && 0 <= nx + x < WIDTH && ny' + y <= r <= ny + y && 0 <= r < HEIGHT)
      ==> g[r][nx + x].occ == 0
    ensures !Collides(g, b, nx, ny')
  {
  }

  /** A piece with a filled cell collides once it is low enough: the floor stops it. */
  lemma {:induction false} FloorStops(g: Grid, b: Block, maxColors: int, nx: int, ny: int)
    requires WellFormed(b, maxColors) && ny >= HEIGHT
    ensures Collides(g, b, nx, ny)
  {
    var y, x := FilledCell(b, maxColors);
    assert Blocked(g, ny + y, nx + x);
  }

  /** A piece that does not collide with its filled cell (fy, fx) at row ny lies above the
      floor. */
  lemma {:induction false} FitsAboveFloor(g: Grid, b: Block, fy: int, fx: int, nx: int, ny: int)
    requires InMatrix(fy, fx) && b.shape[fy][fx] != 0 && !Collides(g, b, nx, ny)
    ensures ny + fy < HEIGHT
  {
    assert !Blocked(g, ny + fy, nx + fx);
  }

  /** The piece does not collide on any row from lo + 1 to hi. */
  predicate FreeBetween(g: Grid, b: Block, x: int, lo: int, hi: int) {
    forall r :: lo < r <= hi ==> !Collides(g, b, x, r)
  }

  /** The row a hard drop from row y stops at: the first row from y on where one more row
      down would collide. Past the floor every piece with a filled cell collides, so the
      guard on HEIGHT only makes the function total. */
  function DropRow(g: Grid, b: Block, x: int, y: int): (r: int)
    ensures y <= r
    ensures FreeBetween(g, b, x, y, r)
    ensures r >= HEIGHT || Collides(g, b, x, r + 1)
    decreases HEIGHT - y
  {
    if y >= HEIGHT || Collides(g, b, x, y + 1) then y else DropRow(g, b, x, y + 1)
  }

  /** The hard drop's row is the only row y from y0 on where the piece collides one row
      lower and is free on every row it passes. */
  lemma {:induction false} DropRowIs(g: Grid, b: Block, x: int, y0: int, y: int)
    requires y0 <= y && Collides(g, b, x, y + 1) && FreeBetween(g, b, x, y0, y)
    ensures DropRow(g, b, x, y0) == y
    decreases y - y0
  {
    if y0 < y {
      var fy, fx :| 0 <= fy < SIZE && 0 <= fx < SIZE && b.shape[fy][fx] != 0 && Blocked(g, y + 1 + fy, x + fx);
      assert !Collides(g, b, x, y0 + 1);
      FitsAboveFloor(g, b, fy, fx, x, y0 + 1);
      DropRowIs(g, b, x, y0 + 1, y);
    }
  }

  /** A well-formed piece has a filled cell. */
  lemma FilledCell(b: Block, maxColors: int) returns (y: int, x: int)
    requires WellFormed(b, maxColors)
    ensures InMatrix(y, x) && b.shape[y][x] != 0
  {
    if b.shape[0][1] != 0 { y, x := 0, 1; }
    else if b.shape[1][0] != 0 { y, x := 1, 0; }
    else if b.shape[1][1] != 0 { y, x := 1, 1; }
    else if b.shape[1][2] != 0 { y, x := 1, 2; }
    else { y, x := 2, 1; }
  }
}
