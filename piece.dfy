/** The falling piece: a 3x3 local matrix of filled cells and their colours, rotated
    about its centre [1][1]. */
module Piece {

  const SIZE: int := 3

  type Matrix = m: seq<seq<int>> | |m| == SIZE && forall y :: 0 <= y < |m| ==> |m[y]| == SIZE
    witness [[0, 0, 0], [0, 0, 0], [0, 0, 0]]

  /** shape[y][x] != 0 marks a filled cell; color[y][x] is its colour index. */
  datatype Block = Block(shape: Matrix, color: Matrix)

  predicate InMatrix(y: int, x: int) {
    0 <= y < SIZE && 0 <= x < SIZE
  }

  /** The four corner cells of the 3x3 matrix. */
  predicate IsCorner(y: int, x: int)
    ensures IsCorner(y, x) <==> InMatrix(y, x) && y != 1 && x != 1
  {
    (y == 0 && x == 0) || (y == 0 && x == 2) || (y == 2 && x == 0) || (y == 2 && x == 2)
  }

  predicate CornersEmpty(m: Matrix) {
    m[0][0] == 0 && m[0][2] == 0 && m[2][0] == 0 && m[2][2] == 0
  }

  /** Number of non-zero entries of a row / of a matrix. */
  function RowCount(r: seq<int>): int
    requires |r| == SIZE
  {
    (if r[0] != 0 then 1 else 0) + (if r[1] != 0 then 1 else 0) + (if r[2] != 0 then 1 else 0)
  }

  function FilledCount(b: Block): int {
    RowCount(b.shape[0]) + RowCount(b.shape[1]) + RowCount(b.shape[2])
  }

  /** A piece as the game ever holds one: 0/1 shape, colour 0 exactly on empty cells and in
      1..maxColors on filled ones, empty corners, and exactly two filled cells. */
  ghost predicate WellFormed(b: Block, maxColors: int) {
    && (forall y, x :: InMatrix(y, x) ==> b.shape[y][x] == 0 || b.shape[y][x] == 1)
    && (forall y, x :: InMatrix(y, x) && b.shape[y][x] == 0 ==> b.color[y][x] == 0)
    && (forall y, x :: InMatrix(y, x) && b.shape[y][x] != 0 ==> 1 <= b.color[y][x] <= maxColors)
    && CornersEmpty(b.shape) && CornersEmpty(b.color)
    && FilledCount(b) == 2
  }

  /** A new vertical domino: the top two cells of the middle column, each coloured
      1 + draw % maxColors from its own draw of the random stream. */
  function MakeBlock(maxColors: int, draw1: nat, draw2: nat): (b: Block)
    requires maxColors >= 1
    ensures WellFormed(b, maxColors)
    ensures forall y, x :: InMatrix(y, x) ==> (b.shape[y][x] != 0 <==> x == 1 && y < 2)
    ensures b.color[0][1] == 1 + draw1 % maxColors && b.color[1][1] == 1 + draw2 % maxColors
  {
    Block([[0, 1, 0], [0, 1, 0], [0, 0, 0]],
          [[0, 1 + draw1 % maxColors, 0], [0, 1 + draw2 % maxColors, 0], [0, 0, 0]])
  }

  /** Entry (y, x) after a clockwise turn: read from (2 - x, y); corners are blanked. */
  function RightAt(m: Matrix, y: int, x: int): int
    requires InMatrix(y, x)
  {
    if IsCorner(y, x) then 0 else m[SIZE - 1 - x][y]
  }

  /** Entry (y, x) after a counter-clockwise turn: read from (x, 2 - y); corners are blanked. */
  function LeftAt(m: Matrix, y: int, x: int): int
    requires InMatrix(y, x)
  {
    if IsCorner(y, x) then 0 else m[x][SIZE - 1 - y]
  }

  function RotRight(m: Matrix): (t: Matrix)
    ensures forall y, x :: InMatrix(y, x) ==> t[y][x] == RightAt(m, y, x)
    ensures CornersEmpty(t)
  {
    seq(SIZE, (y: int) requires 0 <= y < SIZE =>
      seq(SIZE, (x: int) requires 0 <= x < SIZE => RightAt(m, y, x)))
  }

  function RotLeft(m: Matrix): (t: Matrix)
    ensures forall y, x :: InMatrix(y, x) ==> t[y][x] == LeftAt(m, y, x)
    ensures CornersEmpty(t)
  {
    seq(SIZE, (y: int) requires 0 <= y < SIZE =>
      seq(SIZE, (x: int) requires 0 <= x < SIZE => LeftAt(m, y, x)))
  }

  /** Clockwise rotation of shape and colour together; the corners come out empty. */
  function RotateRight(b: Block): (r: Block)
    ensures CornersEmpty(r.shape) && CornersEmpty(r.color)
  {
    Block(RotRight(b.shape), RotRight(b.color))
  }

  /** Counter-clockwise rotation of shape and colour together; the corners come out empty. */
  function RotateLeft(b: Block): (r: Block)
    ensures CornersEmpty(r.shape) && CornersEmpty(r.color)
  {
    Block(RotLeft(b.shape), RotLeft(b.color))
  }

  lemma MatrixExt(a: Matrix, b: Matrix)
    requires forall y, x :: InMatrix(y, x) ==> a[y][x] == b[y][x]
    ensures a == b
  {
    assert a[0] == b[0] && a[1] == b[1] && a[2] == b[2];
  }

  lemma RotLeftRight(m: Matrix)
    requires CornersEmpty(m)
    ensures RotLeft(RotRight(m)) == m && RotRight(RotLeft(m)) == m
  {
    MatrixExt(RotLeft(RotRight(m)), m);
    MatrixExt(RotRight(RotLeft(m)), m);
  }

  /** On a piece with empty corners the two rotations undo each other. */
  lemma {:induction false} RotationsInverse(b: Block)
    requires CornersEmpty(b.shape) && CornersEmpty(b.color)
    ensures RotateLeft(RotateRight(b)) == b
    ensures RotateRight(RotateLeft(b)) == b
  {
    RotLeftRight(b.shape);
    RotLeftRight(b.color);
  }

  /** Two clockwise (or two counter-clockwise) turns flip a matrix about its centre. */
  lemma HalfTurn(m: Matrix)
    ensures forall y, x :: InMatrix(y, x) ==>
      RotRight(RotRight(m))[y][x] == (if IsCorner(y, x) then 0 else m[SIZE - 1 - y][SIZE - 1 - x])
    ensures forall y, x :: InMatrix(y, x) ==>
      RotLeft(RotLeft(m))[y][x] == (if IsCorner(y, x) then 0 else m[SIZE - 1 - y][SIZE - 1 - x])
  {
  }

  lemma FourTurnsMatrix(m: Matrix)
    requires CornersEmpty(m)
    ensures RotRight(RotRight(RotRight(RotRight(m)))) == m
    ensures RotLeft(RotLeft(RotLeft(RotLeft(m)))) == m
  {
    HalfTurn(m);
    HalfTurn(RotRight(RotRight(m)));
    HalfTurn(RotLeft(RotLeft(m)));
    MatrixExt(RotRight(RotRight(RotRight(RotRight(m)))), m);
    MatrixExt(RotLeft(RotLeft(RotLeft(RotLeft(m)))), m);
  }

  /** Four clockwise turns give back a piece with empty corners; four counter-clockwise
      turns as well. */
  lemma {:induction false} FourTurnsIdentity(b: Block)
    requires CornersEmpty(b.shape) && CornersEmpty(b.color)
    ensures RotateRight(RotateRight(RotateRight(RotateRight(b)))) == b
    ensures RotateLeft(RotateLeft(RotateLeft(RotateLeft(b)))) == b
  {
    FourTurnsMatrix(b.shape);
    FourTurnsMatrix(b.color);
  }

  /** Where each cell goes: a non-corner cell at (y, x) lands at (x, 2 - y) under a
      clockwise turn and at (2 - x, y) under a counter-clockwise turn, with its colour. */
  lemma {:induction false} RotationMovesCells(b: Block, y: int, x: int)
    requires InMatrix(y, x) && !IsCorner(y, x)
    ensures RotateRight(b).shape[x][SIZE - 1 - y] == b.shape[y][x]
    ensures RotateRight(b).color[x][SIZE - 1 - y] == b.color[y][x]
    ensures RotateLeft(b).shape[SIZE - 1 - x][y] == b.shape[y][x]
    ensures RotateLeft(b).color[SIZE - 1 - x][y] == b.color[y][x]
  {
  }

  /** Rotation keeps a piece well formed, in particular its two filled cells and their
      colours. */
  lemma {:induction false} RotationKeepsWellFormed(b: Block, maxColors: int)
    requires WellFormed(b, maxColors)
    ensures WellFormed(RotateRight(b), maxColors)
    ensures WellFormed(RotateLeft(b), maxColors)
  {
  }
}
