/** The game session: the board grids, the falling and the next piece, the counters, and
    the operations of the engine that change them in place. */
module Game {
  import opened Board
  import opened Piece
  import opened Collision
  import opened Gravity
  import opened Groups
  import opened Cascade

  /** Spawn column of a new piece's 3x3 top-left. */
  const SPAWN_X: int := WIDTH / 2 - 1

  /** How the cascade of a piece locked at (px, py) on board g with counters s ends. */
  ghost function Locked(g: Grid, b: Block, maxColors: int, px: int, py: int, s: Stats): Outcome
    requires Consistent(g) && WellFormed(b, maxColors)
  {
    PlaceKeepsConsistent(g, b, maxColors, px, py);
    Waves(Place(g, b, px, py), s, 0)
  }

  /** The keys the main loop reacts to: the arrow keys, 'z'/'Z' and 'x'/'X' for the
      rotations, 'q' to quit, and any other key or none. */
  datatype Key = Left | Right | TurnLeft | TurnRight | Down | Up | Quit | Other

  /** The scalar part of the session, for stating what an operation leaves alone. */
  datatype Scalars = Scalars(current: Block, next: Block, cx: int, cy: int,
                             score: int, level: int, clears: int,
                             inputLocked: int, lastChain: int, over: bool)

  /** The scalars after a side move by dx on board g: the piece moves when it fits there. */
  function Shifted(g: Grid, s: Scalars, dx: int): Scalars {
    if Collides(g, s.current, s.cx + dx, s.cy) then s else s.(cx := s.cx + dx)
  }

  /** The scalars after a rotation key on board g: the first kick that fits moves the
      rotated piece there; when none fits nothing changes. */
  function Turned(g: Grid, s: Scalars, rotated: Block): Scalars {
    var k := FirstFit(g, rotated, s.cx, s.cy, 0);
    if k == |KICKS| then s else s.(current := rotated, cx := s.cx + KICKS[k].0, cy := s.cy + KICKS[k].1)
  }

  class Session {
    /** Occupancy grid: 1 if occupied, 0 otherwise. */
    const board: array2<int>
    /** Colour grid: the colour index of an occupied cell, 0 on an empty one. */
    const boardColor: array2<int>
    /** Flood-fill marks of the current clear pass. */
    const visited: array2<bool>
    /** Number of colours pieces are drawn from. */
    const maxColors: int

    var current: Block
    var next: Block
    /** Board position of the falling piece's 3x3 top-left. */
    var cx: int
    var cy: int
    var score: int
    var level: int
    var clears: int
    /** Set while a piece locks and its cascade runs. */
    var inputLocked: int
    /** Length of the last chain, for the chain display. */
    var lastChain: int
    /** The game is over: a new piece collided at its spawn position. */
    var over: bool

    /** The three grids have the board's dimensions and the two integer grids are distinct. */
    predicate Shaped() {
      && board.Length0 == HEIGHT && board.Length1 == WIDTH
      && boardColor.Length0 == HEIGHT && boardColor.Length1 == WIDTH
      && visited.Length0 == HEIGHT && visited.Length1 == WIDTH
      && board != boardColor
    }

    /** The two grids seen as one board of cells. */
    function View(): (g: Grid)
      requires Shaped()
      reads board, boardColor
      ensures forall y, x :: InBounds(y, x) ==> g[y][x] == Cell(board[y, x], boardColor[y, x])
    {
      seq(HEIGHT, (y: int) requires 0 <= y < HEIGHT reads board, boardColor =>
        seq(WIDTH, (x: int) requires 0 <= x < WIDTH reads board, boardColor =>
          Cell(board[y, x], boardColor[y, x])))
    }

    /** Flood-fill marks of the current clear pass, as a set beside the grid of flags. */
    ghost var marked: set<Pos>

    /** The set of marked cells and the grid of flags agree. */
    ghost predicate MarksAgree()
      requires Shaped()
      reads this, visited
    {
      forall r, col :: InBounds(r, col) ==> (visited[r, col] <==> (r, col) in marked)
    }

    /** The grids show the board g. */
    ghost predicate Shows(g: Grid)
      requires Shaped()
      reads board, boardColor
    {
      forall r, col :: InBounds(r, col) ==> Cell(board[r, col], boardColor[r, col]) == g[r][col]
    }

    ghost function Counters(): Stats
      reads this
    {
      Stats(score, level, clears)
    }

    /** The falling piece, the next piece and the falling piece's position. */
    ghost function Falling(): (Block, Block, int, int)
      reads this
    {
      (current, next, cx, cy)
    }

    ghost function Snap(): Scalars
      reads this
    {
      Scalars(current, next, cx, cy, score, level, clears, inputLocked, lastChain, over)
    }

    /** The session invariant: the board invariant holds on the grids and both pieces are
        well formed. */
    ghost predicate Valid()
      reads this, board, boardColor
    {
      Shaped() && Consistent(View()) && maxColors >= 1
      && WellFormed(current, maxColors) && WellFormed(next, maxColors)
    }

    /** A new game: an empty board, two fresh pieces, the piece at its spawn position, score
        0, level 1, no clears. The four draws stand for the random numbers that colour the
        two pieces. */
    constructor (maxColors: int, draw1: nat, draw2: nat, draw3: nat, draw4: nat)
      requires maxColors >= 1
      ensures Valid() && fresh(board) && fresh(boardColor) && fresh(visited)
      ensures View() == EmptyGrid()
      ensures this.maxColors == maxColors
      ensures Snap() == Scalars(MakeBlock(maxColors, draw1, draw2), MakeBlock(maxColors, draw3, draw4),
                                SPAWN_X, 0, 0, 1, 0, 0, 0, false)
    {
      board := new int[HEIGHT, WIDTH]((y, x) => 0);
      boardColor := new int[HEIGHT, WIDTH]((y, x) => 0);
      this.maxColors := maxColors;
      current := MakeBlock(maxColors, draw1, draw2);
      next := MakeBlock(maxColors, draw3, draw4);
      cx, cy := SPAWN_X, 0;
      score, level, clears := 0, 1, 0;
      inputLocked, lastChain, over := 0, 0, false;
      visited := new bool[HEIGHT, WIDTH]((y, x) => false);
      marked := {};
      new;
      GridExt(View(), EmptyGrid());
    }

    /** The collision test, cell by cell: true exactly when the piece b with its top-left at
        (nx, ny) has a filled cell outside the walls, below the floor or on an occupied cell. */
    method CheckCollision(b: Block, nx: int, ny: int) returns (hit: bool)
      requires Shaped()
      ensures hit == Collides(View(), b, nx, ny)
    {
      for y := 0 to SIZE
        invariant forall y', x' ::
          0 <= y' < y && 0 <= x' < SIZE && b.shape[y'][x'] != 0 ==> !Blocked(View(), ny + y', nx + x')
      {
        for x := 0 to SIZE
          invariant forall y', x' ::
            (((0 <= y' < y && 0 <= x' < SIZE) || (y' == y && 0 <= x' < x)) && b.shape[y'][x'] != 0)
            ==> !Blocked(View(), ny + y', nx + x')
        {
          if b.shape[y][x] != 0 {
            var gx := nx + x;
            var gy := ny + y;
            if gx < 0 || gx >= WIDTH || gy >= HEIGHT {
              return true;
            }
            if gy >= 0 && board[gy, gx] != 0 {
              return true;
            }
          }
        }
      }
      return false;
    }

    /** Rotation with kicks: the first kick that puts the rotated piece where it does not
        collide moves the piece there and makes it current; when every kick collides nothing
        changes. */
    method AttemptRotation(rotated: Block) returns (ok: bool)
      requires Shaped()
      modifies this`current, this`cx, this`cy
      ensures var k := FirstFit(old(View()), rotated, old(cx), old(cy), 0);
        && ok == (k < |KICKS|)
        && (ok ==> current == rotated && cx == old(cx) + KICKS[k].0 && cy == old(cy) + KICKS[k].1)
        && (!ok ==> current == old(current) && cx == old(cx) && cy == old(cy))
      ensures ok ==> !Collides(old(View()), rotated, cx, cy)
      ensures View() == old(View())
    {
      ghost var v := View();
      var k := FindKick(rotated);
      assert k == FirstFit(v, rotated, cx, cy, 0);
      if k < |KICKS| {
        assert !KickCollides(v, rotated, cx, cy, k);
        cx, cy := cx + KICKS[k].0, cy + KICKS[k].1;
        current := rotated;
        return true;
      }
      return false;
    }

    /** The loop of the rotation: the index of the first kick that puts the piece b where it
        does not collide, or the number of kicks when every kick collides. */
    method FindKick(b: Block) returns (k: int)
      requires Shaped()
      ensures k == FirstFit(View(), b, cx, cy, 0)
    {
      k := 0;
      while k < |KICKS|
        invariant 0 <= k <= |KICKS|
        invariant forall j :: 0 <= j < k ==> KickCollides(View(), b, cx, cy, j)
      {
        var hit := CheckCollision(b, cx + KICKS[k].0, cy + KICKS[k].1);
        if !hit {
          FirstFitIs(View(), b, cx, cy, 0, k);
          return;
        }
        k := k + 1;
      }
      FirstFitIs(View(), b, cx, cy, 0, k);
    }

    /** Locking: writes every filled piece cell that lies inside the board into both grids. */
    method PlaceBlock(b: Block, px: int, py: int)
      requires Shaped()
      modifies board, boardColor
      ensures View() == Place(old(View()), b, px, py)
    {
      ghost var g := View();
      for y := 0 to SIZE
        invariant forall gy, gx :: InBounds(gy, gx) ==>
          (Cell(board[gy, gx], boardColor[gy, gx]) ==
            if py <= gy < py + y && px <= gx < px + SIZE && b.shape[gy - py][gx - px] != 0
            then Cell(1, b.color[gy - py][gx - px]) else g[gy][gx])
      {
        for x := 0 to SIZE
          invariant forall gy, gx :: InBounds(gy, gx) ==>
            (Cell(board[gy, gx], boardColor[gy, gx]) ==
              if ((py <= gy < py + y && px <= gx < px + SIZE) || (gy == py + y && px <= gx < px + x))
                 && b.shape[gy - py][gx - px] != 0
              then Cell(1, b.color[gy - py][gx - px]) else g[gy][gx])
        {
          if b.shape[y][x] != 0 {
            var gx := px + x;
            var gy := py + y;
            if gy >= 0 && gy < HEIGHT && gx >= 0 && gx < WIDTH {
              board[gy, gx] := 1;
              boardColor[gy, gx] := b.color[y][x];
            }
          }
        }
      }
      GridExt(View(), Place(g, b, px, py));
    }

    /** Hard drop: the piece moves down row by row while the row below is free, and stops
        where one more row would collide. */
    method HardDrop()
      requires Shaped() && WellFormed(current, maxColors)
      modifies this`cy
      ensures cy >= old(cy) && Collides(View(), current, cx, cy + 1)
      ensures FreeBetween(View(), current, cx, old(cy), cy)
      ensures cy == DropRow(View(), current, cx, old(cy))
    {
      ghost var fy, fx := FilledCell(current, maxColors);
      ghost var y0 := cy;
      cy := DropFrom(cy, fy, fx);
      DropRowIs(View(), current, cx, y0, cy);
    }

    /** The loop of the hard drop, from row y0: the row where it stops. The filled cell
        (fy, fx) of the piece stops it at the floor at the latest. */
    method DropFrom(y0: int, ghost fy: int, ghost fx: int) returns (y: int)
      requires Shaped() && InMatrix(fy, fx) && current.shape[fy][fx] != 0
      ensures y >= y0 && Collides(View(), current, cx, y + 1)
      ensures FreeBetween(View(), current, cx, y0, y)
    {
      ghost var g := View();
      y := y0;
      var hit := CheckCollision(current, cx, y + 1);
      while !hit
        invariant y >= y0
        invariant hit == Collides(g, current, cx, y + 1)
        invariant FreeBetween(g, current, cx, y0, y)
        decreases HEIGHT - y
      {
        FitsAboveFloor(g, current, fy, fx, cx, y + 1);
        assert FreeBetween(g, current, cx, y0, y + 1) by {
          forall r | y0 < r <= y + 1 ensures !Collides(g, current, cx, r) {
            if r <= y {
              assert FreeBetween(g, current, cx, y0, y);
            }
          }
        }
        y := y + 1;
        hit := CheckCollision(current, cx, y + 1);
      }
    }

    /** The row where the occupied cell (y, x) comes to rest: it moves down while the cell
        below it is inside the board and empty. */
    method LandingRow(y: int, x: int) returns (ny: int)
      requires Shaped() && InBounds(y, x)
      ensures y <= ny < HEIGHT && Landing(Column(View(), x), ny)
      ensures forall j :: y < j <= ny ==> View()[j][x].occ == 0
      ensures View()[y][x].occ != 0 ==> (ny != y <==> Floating(View(), y, x))
    {
      ny := y;
      while ny + 1 < HEIGHT && board[ny + 1, x] == 0
        invariant y <= ny < HEIGHT
        invariant forall j :: y < j <= ny ==> board[j, x] == 0
        decreases HEIGHT - ny
      {
        ny := ny + 1;
      }
    }

    /** Row y of the gravity step's scan: each occupied cell of the row, left to right, is
        copied to its landing row in the scratch grids. */
    method StepRow(y: int, tmp: array2<int>, tmpc: array2<int>, moved0: bool) returns (moved: bool)
      requires Shaped() && 0 <= y < HEIGHT
      requires tmp.Length0 == HEIGHT && tmp.Length1 == WIDTH && tmpc.Length0 == HEIGHT && tmpc.Length1 == WIDTH
      requires tmp != tmpc && tmp != board && tmp != boardColor && tmpc != board && tmpc != boardColor
      requires forall r, col :: InBounds(r, col) ==> Cell(tmp[r, col], tmpc[r, col]) == Partial(View(), r, col, y, 0)
      modifies tmp, tmpc
      ensures forall r, col :: InBounds(r, col) ==> Cell(tmp[r, col], tmpc[r, col]) == Partial(View(), r, col, y, WIDTH)
      ensures moved <==> moved0 || exists col :: 0 <= col < WIDTH && Floating(View(), y, col)
    {
      moved := moved0;
      for x := 0 to WIDTH
        invariant forall r, col :: InBounds(r, col) ==> Cell(tmp[r, col], tmpc[r, col]) == Partial(View(), r, col, y, x)
        invariant moved <==> moved0 || exists col :: 0 <= col < x && Floating(View(), y, col)
      {
        var fell := StepCell(y, x, tmp, tmpc);
        moved := moved || fell;
      }
    }

    /** Cell (y, x) of the gravity step's scan: an occupied cell is copied to its landing
        row in the scratch grids. Reports whether the cell falls. */
    method StepCell(y: int, x: int, tmp: array2<int>, tmpc: array2<int>) returns (fell: bool)
      requires Shaped() && InBounds(y, x)
      requires tmp.Length0 == HEIGHT && tmp.Length1 == WIDTH && tmpc.Length0 == HEIGHT && tmpc.Length1 == WIDTH
      requires tmp != tmpc && tmp != board && tmp != boardColor && tmpc != board && tmpc != boardColor
      requires forall r, col :: InBounds(r, col) ==> Cell(tmp[r, col], tmpc[r, col]) == Partial(View(), r, col, y, x)
      modifies tmp, tmpc
      ensures View() == old(View())
      ensures forall r, col :: InBounds(r, col) ==> Cell(tmp[r, col], tmpc[r, col]) == Partial(View(), r, col, y, x + 1)
      ensures fell <==> Floating(View(), y, x)
    {
      ghost var g := View();
      fell := false;
      if board[y, x] != 0 {
        var ny := LandingRow(y, x);
        PartialCopy(g, y, x, ny);
        tmp[ny, x] := 1;
        tmpc[ny, x] := boardColor[y, x];
        if ny != y {
          fell := true;
        }
      } else {
        PartialSkip(g, y, x);
      }
      assert View() == g;
    }

    /** The scan of a gravity step, bottom row first, into the scratch grids, which end up
        holding one gravity step of the board. Reports whether some occupied cell had an empty
        cell below it. */
    method StepScan(tmp: array2<int>, tmpc: array2<int>) returns (moved: bool)
      requires Shaped()
      requires tmp.Length0 == HEIGHT && tmp.Length1 == WIDTH && tmpc.Length0 == HEIGHT && tmpc.Length1 == WIDTH
      requires tmp != tmpc && tmp != board && tmp != boardColor && tmpc != board && tmpc != boardColor
      requires forall r, col :: InBounds(r, col) ==> tmp[r, col] == 0 && tmpc[r, col] == 0
      modifies tmp, tmpc
      ensures forall r, col :: InBounds(r, col) ==> Cell(tmp[r, col], tmpc[r, col]) == GravityStep(View())[r][col]
      ensures moved <==> !Settled(View())
    {
      ghost var g := View();
      moved := false;
      PartialStart(g);
      var y := HEIGHT - 1;
      while y >= 0
        invariant -1 <= y < HEIGHT && View() == g
        invariant forall r, col :: InBounds(r, col) ==> Cell(tmp[r, col], tmpc[r, col]) == Partial(g, r, col, y, 0)
        invariant moved <==> exists s, col :: y < s < HEIGHT && 0 <= col < WIDTH && Floating(g, s, col)
        decreases y
      {
        moved := StepRow(y, tmp, tmpc, moved);
        PartialNextRow(g, y);
        y := y - 1;
      }
      PartialEnd(g);
    }

    /** One gravity step through a pair of scratch grids: scanning from the bottom row up,
        every occupied cell is copied to the lowest free row beneath it, then the scratch
        grids replace the board. Reports whether some cell had a free cell below it. */
    method GravityFailSafe() returns (moved: bool)
      requires Shaped()
      modifies board, boardColor
      ensures View() == GravityStep(old(View()))
      ensures moved <==> !Settled(old(View()))
    {
      ghost var g := View();
      var tmp := new int[HEIGHT, WIDTH]((y, x) => 0);
      var tmpc := new int[HEIGHT, WIDTH]((y, x) => 0);
      moved := StepScan(tmp, tmpc);
      ghost var h := GravityStep(g);
      Load(tmp, tmpc);
      GridExt(View(), h);
    }

    /** Copies the scratch grids over the board's two grids. */
    method Load(tmp: array2<int>, tmpc: array2<int>)
      requires Shaped()
      requires tmp.Length0 == HEIGHT && tmp.Length1 == WIDTH && tmpc.Length0 == HEIGHT && tmpc.Length1 == WIDTH
      requires tmp != board && tmp != boardColor && tmpc != board && tmpc != boardColor
      modifies board, boardColor
      ensures forall r, col :: InBounds(r, col) ==> board[r, col] == tmp[r, col] && boardColor[r, col] == tmpc[r, col]
    {
      forall r, col | 0 <= r < HEIGHT && 0 <= col < WIDTH {
        board[r, col] := tmp[r, col];
      }
      forall r, col | 0 <= r < HEIGHT && 0 <= col < WIDTH {
        boardColor[r, col] := tmpc[r, col];
      }
    }

    /** Gravity without animation: gravity steps until a step moves nothing, which leaves
        the settled board of the gravity function. */
    method Gravity()
      requires Shaped() && Consistent(View())
      modifies board, boardColor
      ensures View() == Settle(old(View()))
      ensures Falling() == old(Falling())
    {
      ghost var g0 := View();
      var moved := true;
      while moved
        invariant Consistent(View()) && Settle(View()) == Settle(g0)
        invariant !moved ==> Settled(View())
        decreases MAX_WEIGHT - Weight(View()), if moved then 1 else 0
      {
        ghost var g := View();
        GravityStepRaisesWeight(g);
        GravityStepFixedIffSettled(g);
        SettleStep(g);
        moved := GravityFailSafe();
        GravityStepRaisesWeight(View());
      }
      SettleIdempotent(View());
    }

    /** The flood fill from (y, x) on the grids: an unvisited occupied cell of the given
        colour is marked, appended to the list, and the fill goes on below and above it,
        then right and left of it. Reports whether (y, x) was such a cell. It does what the
        fill function does on the board g the grids show. */
    method Dfs(y: int, x: int, color: int, coords: seq<Pos>, ghost g: Grid) returns (started: bool, out: seq<Pos>)
      requires Filling(g)
      modifies visited, this`marked
      ensures MarksAgree()
      ensures started == Open(g, old(marked), color, (y, x))
      ensures marked == Fill(g, old(marked), color, (y, x), coords).0
      ensures out == Fill(g, old(marked), color, (y, x), coords).1
      decreases |AllPos() - marked|, 3
    {
      if y < 0 || y >= HEIGHT || x < 0 || x >= WIDTH {
        return false, coords;
      }
      if board[y, x] == 0 || boardColor[y, x] != color || visited[y, x] {
        assert !Open(g, marked, color, (y, x));
        return false, coords;
      }
      assert Open(g, marked, color, (y, x));
      FillOpens(g, marked, color, (y, x), coords);
      out := Visit(y, x, color, coords, g);
      return true, out;
    }

    /** The visit of an unvisited cell of the fill's colour: the cell is marked and
        appended, then the fill goes on below and above it, then right and left of it. */
    method Visit(y: int, x: int, color: int, coords: seq<Pos>, ghost g: Grid) returns (out: seq<Pos>)
      requires Filling(g) && Open(g, marked, color, (y, x))
      modifies visited, this`marked
      ensures MarksAgree()
      ensures marked == Spread(g, old(marked) + {(y, x)}, color, (y, x), coords + [(y, x)]).0
      ensures out == Spread(g, old(marked) + {(y, x)}, color, (y, x), coords + [(y, x)]).1
      decreases |AllPos() - marked|, 2
    {
      ghost var m0 := marked;
      Mark(y, x);
      out := coords + [(y, x)];
      UnmarkedShrinks(m0, marked, (y, x));
      out := SpreadFrom(y, x, color, out, g);
    }

    /** The fill going on from the marked cell (y, x): below and above it, then right and
        left of it. */
    method SpreadFrom(y: int, x: int, color: int, coords: seq<Pos>, ghost g: Grid) returns (out: seq<Pos>)
      requires Filling(g)
      modifies visited, this`marked
      ensures MarksAgree()
      ensures marked == Spread(g, old(marked), color, (y, x), coords).0
      ensures out == Spread(g, old(marked), color, (y, x), coords).1
      decreases |AllPos() - marked| + 1, 1
    {
      ghost var m1, s1 := marked, coords;
      out := DfsPair(y + 1, x, y - 1, x, color, coords, g);
      ghost var m2, s2 := marked, out;
      UnmarkedNoMore(m1, marked);
      out := DfsPair(y, x + 1, y, x - 1, color, out, g);
      SpreadIs(g, m1, color, y, x, s1, m2, s2, marked, out);
    }

    /** The state a flood fill runs in: the grids show the board g and the flags agree
        with the set of marked cells. */
    ghost predicate Filling(g: Grid)
      reads this, board, boardColor, visited
    {
      Shaped() && Shows(g) && MarksAgree() && visited as object != board && visited as object != boardColor
    }

    /** Sets the flag of cell (y, x). */
    method Mark(y: int, x: int)
      requires Shaped() && MarksAgree() && InBounds(y, x)
      modifies visited, this`marked
      ensures MarksAgree() && marked == old(marked) + {(y, x)}
    {
      visited[y, x] := true;
      marked := marked + {(y, x)};
    }

    /** The flood fill from (y1, x1), then from (y2, x2). */
    method DfsPair(y1: int, x1: int, y2: int, x2: int, color: int, coords: seq<Pos>, ghost g: Grid) returns (out: seq<Pos>)
      requires Filling(g)
      modifies visited, this`marked
      ensures MarksAgree()
      ensures marked == FillPair(g, old(marked), color, (y1, x1), (y2, x2), coords).0
      ensures out == FillPair(g, old(marked), color, (y1, x1), (y2, x2), coords).1
      decreases |AllPos() - marked| + 1, 0
    {
      ghost var m0 := marked;
      var started;
      started, out := Dfs(y1, x1, color, coords, g);
      UnmarkedNoMore(m0, marked);
      started, out := Dfs(y2, x2, color, out, g);
    }

    /** The state of the clear pass's scan before cell (y, x), on the board g0 it started
        from: the marked cells are whole groups of g0 and include every occupied cell
        scanned so far, `removed` holds the cells of those groups with MIN_GROUP or more
        cells and `found` those groups, and the grids show g0 with `removed` emptied. */
    ghost predicate Scanning(g0: Grid, removed: set<Pos>, found: set<set<Pos>>, y: int, x: int)
      reads this, board, boardColor, visited
    {
      && Shaped() && ShowsWithout(g0, removed) && MarksAgree()
      && visited as object != board && visited as object != boardColor
      && Scanned(g0, marked, removed, found) && Swept(g0, marked, y, x)
    }

    /** The grids show the board g0 with the cells of `removed` emptied. */
    ghost predicate ShowsWithout(g0: Grid, removed: set<Pos>)
      requires Shaped()
      reads board, boardColor
    {
      forall r, col :: InBounds(r, col) ==>
        Cell(board[r, col], boardColor[r, col]) == if (r, col) in removed then Empty else g0[r][col]
    }

    /** One clear pass, scoring with chain multiplier 1 + 0.5 * chain: the flags are reset,
        then every occupied unvisited cell, in row-major order, starts a flood fill; a group
        of MIN_GROUP or more cells is emptied and scores. The board ends as the clear pass
        leaves it, the result is the number of cleared cells, and the counters move as
        AfterPass says for the cleared cells and groups. */
    method ClearGroups(chain: nat) returns (total: nat)
      requires Shaped() && visited as object != board && visited as object != boardColor
      modifies board, boardColor, visited, this`marked, this`score, this`level, this`clears
      ensures View() == ClearPass(old(View()))
      ensures total == |Cleared(old(View()))|
      ensures Counters() == AfterPass(old(Counters()), |Cleared(old(View()))|, |ClearedGroups(old(View()))|, chain)
      ensures Falling() == old(Falling())
      ensures inputLocked == old(inputLocked) && lastChain == old(lastChain) && over == old(over)
    {
      var groups, points;
      total, groups, points := ScanAll(chain);
      Tally(points, groups, total, chain);
    }

    /** The end of a clear pass that removed `total` cells in `groups` groups worth
        `points`: the points add to the score, the groups to the clears, and the level
        rises when the clears reach CLEARS_PER_LEVEL times the level. */
    method Tally(points: int, groups: nat, ghost total: nat, ghost chain: nat)
      requires points == GroupPoints(total, chain)
      modifies this`score, this`clears, this`level
      ensures Counters() == AfterPass(old(Counters()), total, groups, chain)
    {
      score := score + points;
      if groups > 0 {
        clears := clears + groups;
        if clears / CLEARS_PER_LEVEL >= level {
          level := level + 1;
        }
      }
    }

    /** The scan of the clear pass: every group of MIN_GROUP or more cells of the board is
        emptied; returns the number of cells and of groups cleared and the points they
        score. The points of the groups are summed as they are found. */
    method ScanAll(chain: nat) returns (total: nat, groups: nat, points: int)
      requires Shaped() && visited as object != board && visited as object != boardColor
      modifies board, boardColor, visited, this`marked
      ensures View() == ClearPass(old(View()))
      ensures total == |Cleared(old(View()))| && groups == |ClearedGroups(old(View()))|
      ensures points == GroupPoints(total, chain)
    {
      ghost var g0 := View();
      ResetMarks();
      total, groups := 0, 0;
      points := 0;
      ghost var removed: set<Pos>, found: set<set<Pos>> := {}, {};
      ScanStart(g0);
      for y := 0 to HEIGHT
        invariant Scanning(g0, removed, found, y, 0)
        invariant total == |removed| && groups == |found| && points == GroupPoints(total, chain)
      {
        total, groups, points, removed, found := ScanRow(y, chain, g0, removed, found, total, groups, points);
      }
      ScanDone(g0, marked, removed, found);
      GridExt(View(), ClearPass(g0));
    }

    /** Clears every flood-fill flag. */
    method ResetMarks()
      requires Shaped()
      modifies visited, this`marked
      ensures MarksAgree() && marked == {}
    {
      forall r, col | 0 <= r < HEIGHT && 0 <= col < WIDTH {
        visited[r, col] := false;
      }
      marked := {};
    }

    /** Row y of the clear pass's scan. */
    method ScanRow(y: int, chain: nat, ghost g0: Grid, ghost removed: set<Pos>, ghost found: set<set<Pos>>,
                   total: nat, groups: nat, points: int)
      returns (total': nat, groups': nat, points': int, ghost removed': set<Pos>, ghost found': set<set<Pos>>)
      requires 0 <= y < HEIGHT && Scanning(g0, removed, found, y, 0)
      requires total == |removed| && groups == |found| && points == GroupPoints(total, chain)
      modifies board, boardColor, visited, this`marked
      ensures Scanning(g0, removed', found', y + 1, 0)
      ensures total' == |removed'| && groups' == |found'| && points' == GroupPoints(total', chain)
    {
      total', groups', points', removed', found' := total, groups, points, removed, found;
      for x := 0 to WIDTH
        invariant Scanning(g0, removed', found', y, x)
        invariant total' == |removed'| && groups' == |found'| && points' == GroupPoints(total', chain)
      {
        var cleared;
        cleared, groups', removed', found' := ScanCell(y, x, g0, removed', found', total', groups');
        GroupPointsAdd(total', cleared, chain);
        points' := points' + GroupPoints(cleared, chain);
        total' := total' + cleared;
      }
      SweptRow(g0, marked, y);
    }

    /** One cell of the scan: an occupied unvisited cell starts a flood fill whose group is
        taken; any other cell is passed over. Returns the number of cells cleared. */
    method ScanCell(y: int, x: int, ghost g0: Grid, ghost removed: set<Pos>, ghost found: set<set<Pos>>,
                    total: nat, groups: nat)
      returns (cleared: nat, groups': nat, ghost removed': set<Pos>, ghost found': set<set<Pos>>)
      requires InBounds(y, x) && Scanning(g0, removed, found, y, x)
      requires total == |removed| && groups == |found|
      modifies board, boardColor, visited, this`marked
      ensures Scanning(g0, removed', found', y, x + 1)
      ensures total + cleared == |removed'| && groups' == |found'|
    {
      if board[y, x] != 0 && !visited[y, x] {
        cleared, groups', removed', found' := TakeGroup(y, x, g0, removed, found, total, groups);
      } else {
        cleared, groups', removed', found' := 0, groups, removed, found;
        SweptStep(g0, marked, marked, y, x);
      }
    }

    /** The scan reaching the occupied unvisited cell (y, x): a flood fill on the grids
        finds its whole group; a group of MIN_GROUP or more cells is emptied and counts.
        Returns the number of cells cleared, 0 for a smaller group. */
    method TakeGroup(y: int, x: int, ghost g0: Grid, ghost removed: set<Pos>, ghost found: set<set<Pos>>,
                     total: nat, groups: nat)
      returns (cleared: nat, groups': nat, ghost removed': set<Pos>, ghost found': set<set<Pos>>)
      requires InBounds(y, x) && Scanning(g0, removed, found, y, x)
      requires board[y, x] != 0 && !visited[y, x]
      requires total == |removed| && groups == |found|
      modifies board, boardColor, visited, this`marked
      ensures Scanning(g0, removed', found', y, x + 1)
      ensures total + cleared == |removed'| && groups' == |found'|
    {
      var coords := FindGroup(y, x, g0, removed, found);
      ghost var n := Component(g0, (y, x));
      cleared, groups', removed', found' := 0, groups, removed, found;
      if |coords| >= MIN_GROUP {
        RemoveCells(coords, g0, removed, n);
        cleared, groups' := |coords|, groups + 1;
        removed', found' := removed + n, found + {n};
      }
    }

    /** The flood fill from the occupied unvisited cell (y, x) of the clear pass's scan:
        it marks exactly the group of (y, x) on the board g0 the pass started from and
        lists each of its cells once, and the group joins the scanned ones. */
    method FindGroup(y: int, x: int, ghost g0: Grid, ghost removed: set<Pos>, ghost found: set<set<Pos>>)
      returns (coords: seq<Pos>)
      requires InBounds(y, x) && Scanning(g0, removed, found, y, x)
      requires board[y, x] != 0 && !visited[y, x]
      modifies visited, this`marked
      ensures var n := Component(g0, (y, x));
        && MarksAgree() && marked == old(marked) + n
        && |coords| == |n| && (forall q :: q in coords <==> q in n) && (forall q :: q in n ==> InBounds(q.0, q.1))
        && Swept(g0, marked, y, x + 1)
        && (|n| >= MIN_GROUP ==> Scanned(g0, marked, removed + n, found + {n})
                                 && |removed + n| == |removed| + |n| && |found + {n}| == |found| + 1)
        && (|n| < MIN_GROUP ==> Scanned(g0, marked, removed, found))
    {
      ghost var h := Without(g0, removed);
      assert Shows(h);
      ghost var v := marked;
      var color := boardColor[y, x];
      assert Node(g0, (y, x)) && ColorAt(g0, (y, x)) == color;
      FillAgrees(g0, h, v, color, (y, x), []);
      var started;
      started, coords := Dfs(y, x, color, [], h);
      ScanGroup(g0, v, removed, found, y, x);
    }

    /** Empties the listed cells n of the grids, which show g0 with `removed` emptied. */
    method RemoveCells(coords: seq<Pos>, ghost g0: Grid, ghost removed: set<Pos>, ghost n: set<Pos>)
      requires Shaped() && ShowsWithout(g0, removed)
      requires forall q :: q in coords <==> q in n
      requires forall q :: q in n ==> InBounds(q.0, q.1)
      modifies board, boardColor
      ensures ShowsWithout(g0, removed + n)
    {
      for i := 0 to |coords|
        invariant forall r, col :: InBounds(r, col) ==>
          Cell(board[r, col], boardColor[r, col]) == if (r, col) in removed || (r, col) in coords[..i] then Empty else g0[r][col]
      {
        var q := coords[i];
        assert q in n;
        board[q.0, q.1] := 0;
        boardColor[q.0, q.1] := 0;
        assert coords[..i + 1] == coords[..i] + [q];
      }
      assert coords[..|coords|] == coords;
    }

    // ------------------------------------------------------------- lock and cascade

    /** Locking and its cascade: the piece is written into the board, the next piece
        becomes current at the spawn position and a new next piece is drawn (the two draws
        colour it); then the cascade runs, the chain display ends at the chain's length (0
        when nothing cleared), and the game is over when the new piece collides where it
        spawns. Input is locked while this runs. */
    method LockAndCascade(draw1: nat, draw2: nat)
      requires Valid()
      modifies board, boardColor, visited, this`marked, this`score, this`level, this`clears, this`lastChain,
               this`inputLocked, this`current, this`next, this`cx, this`cy, this`over
      ensures Valid()
      ensures var r := Locked(old(View()), old(current), maxColors, old(cx), old(cy), old(Counters()));
        && View() == Settle(r.board) && Counters() == r.stats && lastChain == r.chain
      ensures current == old(next) && next == MakeBlock(maxColors, draw1, draw2)
      ensures cx == SPAWN_X && cy == 0 && inputLocked == 0
      ensures over == Collides(View(), current, SPAWN_X, 0)
    {
      ghost var r := Locked(View(), current, maxColors, cx, cy, Counters());
      Lock(draw1, draw2);
      assert Waves(View(), Counters(), 0) == r;
      var chain := RunCascade();
      EndLock(chain);
    }

    /** The start of a lock: input is locked, the piece is written into the board, and the
        next piece becomes current at the spawn position with a new next piece drawn. */
    method Lock(draw1: nat, draw2: nat)
      requires Valid()
      modifies board, boardColor, this`inputLocked, this`current, this`next, this`cx, this`cy
      ensures Valid() && Counters() == old(Counters())
      ensures View() == Place(old(View()), old(current), old(cx), old(cy))
      ensures current == old(next) && next == MakeBlock(maxColors, draw1, draw2)
      ensures cx == SPAWN_X && cy == 0 && inputLocked == 1
    {
      inputLocked := 1;
      PlaceKeepsConsistent(View(), current, maxColors, cx, cy);
      PlaceBlock(current, cx, cy);
      Spawn(draw1, draw2);
    }

    /** The next piece becomes current at the spawn position and a new next piece is drawn. */
    method Spawn(draw1: nat, draw2: nat)
      requires maxColors >= 1
      modifies this`current, this`next, this`cx, this`cy
      ensures current == old(next) && next == MakeBlock(maxColors, draw1, draw2)
      ensures cx == SPAWN_X && cy == 0
    {
      current := next;
      next := MakeBlock(maxColors, draw1, draw2);
      cx, cy := SPAWN_X, 0;
    }

    /** The end of a lock whose cascade made `chain` clearing passes: every clearing pass
        showed the chain so far, so the display ends at the chain's length, and a lock
        that cleared nothing resets it; input is unlocked, and the game is over when the
        current piece collides where it stands. */
    method EndLock(chain: nat)
      requires Shaped()
      modifies this`lastChain, this`inputLocked, this`over
      ensures lastChain == chain && inputLocked == 0
      ensures over == Collides(View(), current, cx, cy)
    {
      lastChain := chain;
      inputLocked := 0;
      over := CheckCollision(current, cx, cy);
    }

    /** The outer loop of the cascade: a round of waves followed by a full gravity,
        repeated while the round cleared something. The board ends as gravity leaves the
        board the waves end on, the counters as the waves leave them, and the chain counts
        the clearing passes; the piece and its position are left alone. */
    method RunCascade() returns (chain: nat)
      requires Shaped() && Consistent(View()) && visited as object != board && visited as object != boardColor
      modifies board, boardColor, visited, this`marked, this`score, this`level, this`clears
      ensures var r := Waves(old(View()), old(Counters()), 0);
        && View() == Settle(r.board) && Counters() == r.stats && chain == r.chain
      ensures Consistent(View()) && Falling() == old(Falling())
    {
      chain := 0;
      ghost var r := Waves(View(), Counters(), 0);
      while true
        invariant Consistent(View()) && Waves(View(), Counters(), chain) == r
        invariant chain > 0 ==> Cleared(View()) == {}
        invariant Falling() == old(Falling())
        decreases if chain == 0 then 1 else 0
      {
        ghost var b, s, c0 := View(), Counters(), chain;
        WavesEnd(b, s, c0);
        var any;
        chain, any := CascadeRound(chain);
        if !any {
          break;
        }
        assert c0 == 0;
      }
    }

    /** One round of the outer loop: the waves, then a full gravity. */
    method CascadeRound(chain0: nat) returns (chain: nat, any: bool)
      requires Shaped() && Consistent(View()) && visited as object != board && visited as object != boardColor
      modifies board, boardColor, visited, this`marked, this`score, this`level, this`clears
      ensures var r := Waves(old(View()), old(Counters()), chain0);
        && View() == Settle(r.board) && Counters() == r.stats && chain == r.chain
      ensures any <==> chain > chain0
      ensures Falling() == old(Falling())
    {
      chain, any := RunWaves(chain0);
      Gravity();
    }

    /** The inner loop of the cascade: clear passes with chain multiplier 1 + 0.5 * chain;
        a pass that clears something moves the chain on and is followed by a full gravity,
        and the first pass that clears nothing ends the loop. The board, counters and chain
        end as the waves of the cascade leave them, and `any` tells whether some pass
        cleared. */
    method RunWaves(chain0: nat) returns (chain: nat, any: bool)
      requires Shaped() && Consistent(View()) && visited as object != board && visited as object != boardColor
      modifies board, boardColor, visited, this`marked, this`score, this`level, this`clears
      ensures var r := Waves(old(View()), old(Counters()), chain0);
        && View() == r.board && Counters() == r.stats && chain == r.chain
      ensures any <==> chain > chain0
    {
      chain := chain0;
      ghost var r := Waves(View(), Counters(), chain0);
      var cleared := true;
      while cleared
        invariant Consistent(View())
        invariant cleared ==> Waves(View(), Counters(), chain) == r
        invariant !cleared ==> View() == r.board && Counters() == r.stats && chain == r.chain
        invariant chain0 <= chain
        decreases OccCount(View()), cleared
      {
        cleared := WaveTurn(chain, r);
        if cleared {
          chain := chain + 1;
        }
      }
      any := chain > chain0;
    }

    /** One turn of the inner loop, seen from the cascade whose outcome is r: a pass that
        clears nothing leaves the board and counters where the cascade stops; a pass that
        clears something leaves the rest of the cascade to the next chain number. */
    method WaveTurn(chain: nat, ghost r: Outcome) returns (cleared: bool)
      requires Shaped() && Consistent(View()) && visited as object != board && visited as object != boardColor
      requires Waves(View(), Counters(), chain) == r
      modifies board, boardColor, visited, this`marked, this`score, this`level, this`clears
      ensures Consistent(View())
      ensures cleared ==> Waves(View(), Counters(), chain + 1) == r && r.chain > chain
      ensures cleared ==> OccCount(View()) < OccCount(old(View()))
      ensures !cleared ==> View() == old(View()) == r.board && Counters() == r.stats && chain == r.chain
    {
      ghost var b, s := View(), Counters();
      cleared := WaveStep(chain);
      if !cleared {
        IdlePass(b, s, chain);
      } else {
        WavesOn(b, s, chain);
        WavesEnd(b, s, chain);
        WaveLowersCount(b);
      }
    }

    /** One turn of the inner loop: a clear pass, and when it cleared something, a full
        gravity; `cleared` tells which. */
    method WaveStep(chain: nat) returns (cleared: bool)
      requires Shaped() && Consistent(View()) && visited as object != board && visited as object != boardColor
      modifies board, boardColor, visited, this`marked, this`score, this`level, this`clears
      ensures cleared <==> Cleared(old(View())) != {}
      ensures Counters() == AfterPass(old(Counters()), |Cleared(old(View()))|, |ClearedGroups(old(View()))|, chain)
      ensures !cleared ==> View() == old(View())
      ensures cleared ==> Consistent(ClearPass(old(View()))) && View() == Settle(ClearPass(old(View())))
    {
      ghost var b := View();
      var total := ClearGroups(chain);
      cleared := total != 0;
      if !cleared {
        GridExt(View(), b);
      } else {
        ClearPassKeepsConsistent(b);
        Gravity();
      }
    }

    // ------------------------------------------------------------- main loop intents

    /** The session after the main loop's lock of piece b at (px, py) on board g0 with
        counters s0: the lock and its cascade, then, unless the game ended, a full gravity
        and a clear pass with multiplier 1. */
    ghost predicate LockedFrom(g0: Grid, s0: Stats, b: Block, px: int, py: int)
      requires Shaped() && Consistent(g0) && WellFormed(b, maxColors)
      reads this, board, boardColor
    {
      var r := Locked(g0, b, maxColors, px, py, s0);
      var f := Settle(r.board);
      && over == Collides(f, current, SPAWN_X, 0)
      && (over ==> View() == f && Counters() == r.stats)
      && (!over ==> View() == ClearPass(f) && Counters() == AfterPass(r.stats, |Cleared(f)|, |ClearedGroups(f)|, 0))
      && lastChain == r.chain
    }

    /** The main loop's lock: lock and cascade; when the new piece fits at its spawn
        position, a full gravity and a clear pass with multiplier 1 follow. */
    method LockPiece(draw1: nat, draw2: nat)
      requires Valid()
      modifies board, boardColor, visited, this`marked, this`score, this`level, this`clears, this`lastChain,
               this`inputLocked, this`current, this`next, this`cx, this`cy, this`over
      ensures Valid()
      ensures LockedFrom(old(View()), old(Counters()), old(current), old(cx), old(cy))
      ensures current == old(next) && next == MakeBlock(maxColors, draw1, draw2)
      ensures cx == SPAWN_X && cy == 0 && inputLocked == 0
    {
      ghost var r := Locked(View(), current, maxColors, cx, cy, Counters());
      LockAndCascade(draw1, draw2);
      ghost var f := View();
      assert f == Settle(r.board) && Counters() == r.stats && lastChain == r.chain;
      SettleIdempotent(r.board);
      assert Settle(f) == f;
      Tidy();
    }

    /** What the main loop does after a lock unless the game ended: a full gravity and a
        clear pass with multiplier 1. */
    method Tidy()
      requires Valid()
      modifies board, boardColor, visited, this`marked, this`score, this`level, this`clears
      ensures Valid() && Falling() == old(Falling())
      ensures inputLocked == old(inputLocked) && lastChain == old(lastChain) && over == old(over)
      ensures over ==> View() == old(View()) && Counters() == old(Counters())
      ensures !over ==> var f := Settle(old(View()));
        View() == ClearPass(f) && Counters() == AfterPass(old(Counters()), |Cleared(f)|, |ClearedGroups(f)|, 0)
    {
      if !over {
        Gravity();
        ClearPassKeepsConsistent(View());
        var _ := ClearGroups(0);
      }
    }

    /** One key of the main loop, read while input is not locked: a side move when the
        piece fits one column over, a rotation with kicks, a hard drop that locks the
        piece, or quitting; a soft drop and any other key only change the fall speed. The
        draws colour the piece a lock brings in. */
    method Input(key: Key, draw1: nat, draw2: nat) returns (quit: bool)
      requires Valid()
      modifies board, boardColor, visited, this`marked, this`score, this`level, this`clears, this`lastChain,
               this`inputLocked, this`current, this`next, this`cx, this`cy, this`over
      ensures Valid()
      ensures quit <==> old(inputLocked) == 0 && key == Quit
      ensures old(inputLocked) != 0 || key in {Down, Quit, Other} ==> View() == old(View()) && Snap() == old(Snap())
      ensures old(inputLocked) == 0 && key in {Left, Right} ==>
        View() == old(View()) && Snap() == Shifted(old(View()), old(Snap()), if key == Left then -1 else 1)
      ensures old(inputLocked) == 0 && key in {TurnLeft, TurnRight} ==>
        View() == old(View()) &&
        Snap() == Turned(old(View()), old(Snap()), if key == TurnLeft then RotateLeft(old(current)) else RotateRight(old(current)))
      ensures old(inputLocked) == 0 && key == Up ==>
        && LockedFrom(old(View()), old(Counters()), old(current), old(cx), DropRow(old(View()), old(current), old(cx), old(cy)))
        && current == old(next) && next == MakeBlock(maxColors, draw1, draw2)
        && cx == SPAWN_X && cy == 0 && inputLocked == 0
    {
      quit := false;
      if inputLocked != 0 {
        return;
      }
      match key {
        case Quit => quit := true;
        case Left => Shift(-1);
        case Right => Shift(1);
        case TurnLeft =>
          RotationKeepsWellFormed(current, maxColors);
          Rotate(RotateLeft(current));
        case TurnRight =>
          RotationKeepsWellFormed(current, maxColors);
          Rotate(RotateRight(current));
        case Up => DropAndLock(draw1, draw2);
        case Down =>
        case Other =>
      }
    }

    /** The hard-drop key: the piece drops as far as it can and locks there. */
    method DropAndLock(draw1: nat, draw2: nat)
      requires Valid()
      modifies board, boardColor, visited, this`marked, this`score, this`level, this`clears, this`lastChain,
               this`inputLocked, this`current, this`next, this`cx, this`cy, this`over
      ensures Valid()
      ensures LockedFrom(old(View()), old(Counters()), old(current), old(cx), DropRow(old(View()), old(current), old(cx), old(cy)))
      ensures current == old(next) && next == MakeBlock(maxColors, draw1, draw2)
      ensures cx == SPAWN_X && cy == 0 && inputLocked == 0
    {
      ghost var g, s, b, x := View(), Counters(), current, cx;
      HardDrop();
      assert View() == g && Counters() == s && current == b && cx == x;
      LockPiece(draw1, draw2);
    }

    /** A side move by dx columns, taken only when the piece fits there. */
    method Shift(dx: int)
      requires Shaped()
      modifies this`cx
      ensures Snap() == Shifted(View(), old(Snap()), dx)
    {
      var hit := CheckCollision(current, cx + dx, cy);
      if !hit {
        cx := cx + dx;
      }
    }

    /** A rotation key: the rotated piece goes through the kick search. */
    method Rotate(rotated: Block)
      requires Valid() && WellFormed(rotated, maxColors)
      modifies this`current, this`cx, this`cy
      ensures Valid()
      ensures View() == old(View())
      ensures Snap() == Turned(old(View()), old(Snap()), rotated)
    {
      ghost var s0 := Snap();
      var ok := AttemptRotation(rotated);
      assert Snap() == s0.(current := current, cx := cx, cy := cy);
    }

    /** The timed fall of the main loop: the piece moves one row down when it fits there,
        and is locked where it stands when it does not. */
    method Fall(draw1: nat, draw2: nat)
      requires Valid()
      modifies board, boardColor, visited, this`marked, this`score, this`level, this`clears, this`lastChain,
               this`inputLocked, this`current, this`next, this`cx, this`cy, this`over
      ensures Valid()
      ensures !Collides(old(View()), old(current), old(cx), old(cy) + 1) ==>
        View() == old(View()) && Snap() == old(Snap()).(cy := old(cy) + 1)
      ensures Collides(old(View()), old(current), old(cx), old(cy) + 1) ==>
        && LockedFrom(old(View()), old(Counters()), old(current), old(cx), old(cy))
        && current == old(next) && next == MakeBlock(maxColors, draw1, draw2)
        && cx == SPAWN_X && cy == 0 && inputLocked == 0
    {
      var hit := CheckCollision(current, cx, cy + 1);
      if !hit {
        cy := cy + 1;
      } else {
        LockPiece(draw1, draw2);
      }
    }
  }
}
