/** Gravity: one double-buffered step drops every occupied cell to just above the first
    occupied cell below it on the old board; full gravity repeats the step until nothing
    moves. Columns are independent, so the step is defined on one column, top to bottom. */
module Gravity {
  import opened Board

  // ---------------------------------------------------------------- one column

  /** Colours of the occupied cells of a column, top to bottom. */
  function Colors(c: seq<Cell>): seq<int> {
    if |c| == 0 then [] else (if c[0].occ != 0 then [c[0].color] else []) + Colors(c[1..])
  }

  predicate ValidCol(c: seq<Cell>) {
    forall i :: 0 <= i < |c| ==> ValidCell(c[i])
  }

  /** No occupied cell of the column stands on an empty one. */
  predicate SettledCol(c: seq<Cell>) {
    forall i :: 0 <= i < |c| - 1 && c[i].occ != 0 ==> c[i + 1].occ != 0
  }

  /** One gravity step on a column: an occupied cell with an empty cell below it moves
      down until the next cell is occupied (on the old column) or it reaches the floor. */
  function StepCol(c: seq<Cell>): (r: seq<Cell>)
    ensures |r| == |c|
    decreases |c|
  {
    if |c| == 0 then []
    else if c[0].occ == 0 then [Empty] + StepCol(c[1..])
    else if |c| == 1 || c[1].occ != 0 then [Cell(1, c[0].color)] + StepCol(c[1..])
    else [Empty] + StepCol([c[0]] + c[2..])
  }

  /** Sum of the row indices of the occupied cells: what gravity increases. */
  function ColWeight(c: seq<Cell>): int {
    if |c| == 0 then 0 else ColWeight(c[1..]) + |Colors(c[1..])|
  }

  lemma {:induction false} ColorsBound(c: seq<Cell>)
    ensures |Colors(c)| <= |c|
  {
    if |c| > 0 { ColorsBound(c[1..]); }
  }

  lemma {:induction false} ColWeightBound(c: seq<Cell>)
    ensures 0 <= ColWeight(c) <= |c| * |c|
  {
    if |c| > 0 {
      ColWeightBound(c[1..]);
      ColorsBound(c[1..]);
    }
  }

  /** A step keeps the column's colour sequence: cells fall straight down and never pass
      each other, so the number of occupied cells is kept too. */
  lemma {:induction false} StepColKeepsColors(c: seq<Cell>)
    ensures Colors(StepCol(c)) == Colors(c)
    decreases |c|
  {
    if |c| == 0 {
    } else if c[0].occ == 0 || |c| == 1 || c[1].occ != 0 {
      StepColKeepsColors(c[1..]);
      StayKeepsColors(c);
    } else {
      StepColKeepsColors([c[0]] + c[2..]);
      FallKeepsColors(c);
    }
  }

  /** The colours of a column with one more cell on top. */
  lemma {:induction false} ColorsCons(x: Cell, t: seq<Cell>)
    ensures Colors([x] + t) == (if x.occ != 0 then [x.color] else []) + Colors(t)
  {
    assert ([x] + t)[1..] == t;
  }

  /** A step whose top cell stays where it is keeps the colours when the step below does. */
  lemma {:induction false} StayKeepsColors(c: seq<Cell>)
    requires |c| > 0 && (c[0].occ == 0 || |c| == 1 || c[1].occ != 0)
    requires Colors(StepCol(c[1..])) == Colors(c[1..])
    ensures Colors(StepCol(c)) == Colors(c)
  {
    if c[0].occ == 0 {
      ColorsCons(Empty, StepCol(c[1..]));
    } else {
      ColorsCons(Cell(1, c[0].color), StepCol(c[1..]));
    }
  }

  /** A step whose top cell falls onto the empty cell below it keeps the colours when the
      step of the column without that empty cell does. */
  lemma {:induction false} FallKeepsColors(c: seq<Cell>)
    requires |c| > 1 && c[0].occ != 0 && c[1].occ == 0
    requires Colors(StepCol([c[0]] + c[2..])) == Colors([c[0]] + c[2..])
    ensures Colors(StepCol(c)) == Colors(c)
  {
    ColorsCons(Empty, StepCol([c[0]] + c[2..]));
    ColorsCons(c[0], c[2..]);
    assert c[1..] == [c[1]] + c[2..];
    ColorsCons(c[1], c[2..]);
  }

  /** A step produces only valid cells from valid ones. */
  lemma {:induction false} StepColValid(c: seq<Cell>)
    requires ValidCol(c)
    ensures ValidCol(StepCol(c))
    decreases |c|
  {
    if |c| == 0 {
    } else if c[0].occ == 0 || |c| == 1 || c[1].occ != 0 {
      StepColValid(c[1..]);
    } else {
      StepColValid([c[0]] + c[2..]);
    }
  }

  /** A settled column of valid cells is left as it is. */
  lemma {:induction false} StepColSettledFixed(c: seq<Cell>)
    requires ValidCol(c) && SettledCol(c)
    ensures StepCol(c) == c
    decreases |c|
  {
    if |c| > 0 {
      assert SettledCol(c[1..]);
      StepColSettledFixed(c[1..]);
    }
  }

  /** A step never lowers the weight, and raises it when the column was not settled. */
  lemma {:induction false} StepColWeight(c: seq<Cell>)
    ensures ColWeight(StepCol(c)) >= ColWeight(c)
    ensures !SettledCol(c) ==> ColWeight(StepCol(c)) > ColWeight(c)
    decreases |c|
  {
    if |c| == 0 {
    } else if c[0].occ == 0 || |c| == 1 || c[1].occ != 0 {
      var t := c[1..];
      StepColWeight(t);
      StepColKeepsColors(t);
      var h := if c[0].occ == 0 then Empty else Cell(1, c[0].color);
      assert StepCol(c) == [h] + StepCol(t);
      assert ([h] + StepCol(t))[1..] == StepCol(t);
      if !SettledCol(c) {
        var i :| 0 <= i < |c| - 1 && c[i].occ != 0 && c[i + 1].occ == 0;
        assert i > 0;
        assert t[i - 1].occ != 0 && t[i].occ == 0;
      }
    } else {
      var d := [c[0]] + c[2..];
      StepColWeight(d);
      StepColKeepsColors(d);
      assert ([Empty] + StepCol(d))[1..] == StepCol(d);
      assert d[1..] == c[2..] == c[1..][1..];
      assert Colors(c[1..]) == Colors(c[2..]);
    }
  }

  // ------------------------------------------------- the step, cell by cell

  /** Row of the nearest occupied cell at or above row r, or -1 if there is none. */
  function Above(c: seq<Cell>, r: int): (k: int)
    requires -1 <= r < |c|
    ensures -1 <= k <= r
    ensures k >= 0 ==> c[k].occ != 0
    ensures forall j :: k < j <= r ==> c[j].occ == 0
    decreases r + 1
  {
    if r < 0 then -1 else if c[r].occ != 0 then r else Above(c, r - 1)
  }

  lemma AboveUnique(c: seq<Cell>, r: int, k: int)
    requires -1 <= k <= r < |c|
    requires k >= 0 ==> c[k].occ != 0
    requires forall j :: k < j <= r ==> c[j].occ == 0
    ensures Above(c, r) == k
  {
  }

  /** Row r is where a falling cell comes to rest: the floor or an occupied cell is below. */
  predicate Landing(c: seq<Cell>, r: int)
    requires 0 <= r < |c|
  {
    r == |c| - 1 || c[r + 1].occ != 0
  }

  /** What a step leaves at row r: the nearest occupied cell at or above r, if r is a
      landing row, and otherwise nothing. */
  function StepAt(c: seq<Cell>, r: int): Cell
    requires 0 <= r < |c|
  {
    var k := Above(c, r);
    if Landing(c, r) && k >= 0 then Cell(1, c[k].color) else Empty
  }

  /** Cell by cell, a step moves cells only downwards: row r of the stepped column holds a
      copy of the nearest occupied cell at or above r when r is a landing row, else nothing. */
  lemma {:induction false} StepColAt(c: seq<Cell>, r: int)
    requires 0 <= r < |c|
    ensures StepCol(c)[r] == StepAt(c, r)
    decreases |c|, 1
  {
    if c[0].occ == 0 {
      StepColAtEmptyTop(c, r);
    } else if |c| == 1 || c[1].occ != 0 {
      StepColAtResting(c, r);
    } else {
      StepColAtFalling(c, r);
    }
  }

  lemma {:induction false} StepColAtEmptyTop(c: seq<Cell>, r: int)
    requires 0 <= r < |c| && c[0].occ == 0
    ensures StepCol(c)[r] == StepAt(c, r)
    decreases |c|, 0
  {
    if r > 0 {
      var t := c[1..];
      StepColAt(t, r - 1);
      var a := Above(t, r - 1);
      AboveUnique(c, r, if a >= 0 then a + 1 else -1);
    } else {
      AboveUnique(c, 0, -1);
    }
  }

  lemma {:induction false} StepColAtResting(c: seq<Cell>, r: int)
    requires 0 <= r < |c| && c[0].occ != 0 && (|c| == 1 || c[1].occ != 0)
    ensures StepCol(c)[r] == StepAt(c, r)
    decreases |c|, 0
  {
    if r > 0 {
      var t := c[1..];
      StepColAt(t, r - 1);
      var a := Above(t, r - 1);
      assert a >= 0;
      AboveUnique(c, r, a + 1);
    } else {
      AboveUnique(c, 0, 0);
    }
  }

  lemma {:induction false} StepColAtFalling(c: seq<Cell>, r: int)
    requires 0 <= r < |c| && c[0].occ != 0 && |c| > 1 && c[1].occ == 0
    ensures StepCol(c)[r] == StepAt(c, r)
    decreases |c|, 0
  {
    var d := [c[0]] + c[2..];
    assert StepCol(c) == [Empty] + StepCol(d);
    if r > 0 {
      StepColAt(d, r - 1);
      var a := Above(d, r - 1);
      assert a >= 0;
      assert forall j :: 1 <= j < |d| ==> d[j] == c[j + 1];
      assert Landing(d, r - 1) == Landing(c, r);
      if a == 0 {
        assert forall j :: 1 < j <= r ==> c[j] == d[j - 1];
        AboveUnique(c, r, 0);
      } else {
        assert forall j :: a + 1 < j <= r ==> c[j] == d[j - 1];
        AboveUnique(c, r, a + 1);
      }
    } else {
      AboveUnique(c, 0, 0);
    }
  }

  // ---------------------------------------------------------- stable compaction

  /** A column of the given colours stacked on the floor, top to bottom. */
  function Stack(s: seq<int>): (r: seq<Cell>)
    ensures |r| == |s|
  {
    seq(|s|, (i: int) requires 0 <= i < |s| => Cell(1, s[i]))
  }

  /** The column with all its occupied cells pushed to the floor in their order. */
  function Compact(c: seq<Cell>): (r: seq<Cell>)
    ensures |r| == |c|
  {
    ColorsBound(c);
    seq(|c| - |Colors(c)|, _ => Empty) + Stack(Colors(c))
  }

  lemma {:induction false} ColorsOfStack(s: seq<int>)
    ensures Colors(Stack(s)) == s
    decreases |s|
  {
    if |s| > 0 {
      ColorsOfStack(s[1..]);
      assert Stack(s)[1..] == Stack(s[1..]);
    }
  }

  /** A settled column of valid cells is already compact: empty cells on top, then its
      occupied cells down to the floor. */
  lemma {:induction false} SettledColIsCompact(c: seq<Cell>)
    requires ValidCol(c) && SettledCol(c)
    ensures c == Compact(c)
    decreases |c|
  {
    if |c| == 0 {
    } else if c[0].occ == 0 {
      assert SettledCol(c[1..]);
      SettledColIsCompact(c[1..]);
      ColorsBound(c[1..]);
      assert c == [Empty] + c[1..];
    } else {
      AllOccupiedBelow(c);
      ColorsOfFull(c);
      assert c == Stack(Colors(c));
    }
  }

  lemma {:induction false} AllOccupiedBelow(c: seq<Cell>)
    requires SettledCol(c) && |c| > 0 && c[0].occ != 0
    ensures forall i :: 0 <= i < |c| ==> c[i].occ != 0
  {
    var i := 0;
    while i < |c| - 1
      invariant 0 <= i < |c|
      invariant forall j :: 0 <= j <= i ==> c[j].occ != 0
    {
      assert c[i].occ != 0;
      i := i + 1;
    }
  }

  lemma {:induction false} ColorsOfFull(c: seq<Cell>)
    requires ValidCol(c) && forall i :: 0 <= i < |c| ==> c[i].occ != 0
    ensures Colors(c) == seq(|c|, (i: int) requires 0 <= i < |c| => c[i].color)
    ensures c == Stack(Colors(c))
    decreases |c|
  {
    if |c| > 0 {
      ColorsOfFull(c[1..]);
    }
  }

  /** Two columns of the same height and colour sequence compact to the same column. */
  lemma CompactByColors(c: seq<Cell>, d: seq<Cell>)
    requires |c| == |d| && Colors(c) == Colors(d)
    ensures Compact(c) == Compact(d)
  {
  }

  // ---------------------------------------------------------------- whole board

  /** One gravity step on the board: every column takes one step. */
  function GravityStep(g: Grid): (r: Grid)
    ensures forall x :: 0 <= x < WIDTH ==> Column(r, x) == StepCol(Column(g, x))
  {
    var r: Grid := seq(HEIGHT, (y: int) requires 0 <= y < HEIGHT =>
      seq(WIDTH, (x: int) requires 0 <= x < WIDTH => StepCol(Column(g, x))[y]));
    assert forall x :: 0 <= x < WIDTH ==> Column(r, x) == StepCol(Column(g, x)) by {
      forall x | 0 <= x < WIDTH
        ensures Column(r, x) == StepCol(Column(g, x))
      {
        assert forall y :: 0 <= y < HEIGHT ==> Column(r, x)[y] == StepCol(Column(g, x))[y];
      }
    }
    r
  }

  /** An occupied cell with an empty cell right below it. */
  predicate Floating(g: Grid, y: int, x: int)
    requires InBounds(y, x)
  {
    g[y][x].occ != 0 && y + 1 < HEIGHT && g[y + 1][x].occ == 0
  }

  /** No empty cell lies beneath an occupied one. */
  predicate Settled(g: Grid) {
    forall y, x :: 0 <= y < HEIGHT && 0 <= x < WIDTH ==> !Floating(g, y, x)
  }

  lemma SettledByColumns(g: Grid)
    ensures Settled(g) <==> forall x :: 0 <= x < WIDTH ==> SettledCol(Column(g, x))
  {
    if Settled(g) {
      forall x | 0 <= x < WIDTH
        ensures SettledCol(Column(g, x))
      {
        forall i | 0 <= i < HEIGHT - 1 && Column(g, x)[i].occ != 0
          ensures Column(g, x)[i + 1].occ != 0
        {
          assert !Floating(g, i, x);
        }
      }
    }
    if forall x :: 0 <= x < WIDTH ==> SettledCol(Column(g, x)) {
      forall y, x | 0 <= y < HEIGHT && 0 <= x < WIDTH
        ensures !Floating(g, y, x)
      {
        assert SettledCol(Column(g, x));
        if y + 1 < HEIGHT {
          assert Column(g, x)[y] == g[y][x] && Column(g, x)[y + 1] == g[y + 1][x];
        }
      }
    }
  }

  lemma ConsistentByColumns(g: Grid)
    ensures Consistent(g) <==> forall x :: 0 <= x < WIDTH ==> ValidCol(Column(g, x))
  {
    if forall x :: 0 <= x < WIDTH ==> ValidCol(Column(g, x)) {
      forall y, x | 0 <= y < HEIGHT && 0 <= x < WIDTH
        ensures ValidCell(g[y][x])
      {
        assert Column(g, x)[y] == g[y][x];
      }
    }
  }

  /** A step keeps the board invariant. */
  lemma {:induction false} GravityStepKeepsConsistent(g: Grid)
    requires Consistent(g)
    ensures Consistent(GravityStep(g))
  {
    ConsistentByColumns(g);
    forall x | 0 <= x < WIDTH
      ensures ValidCol(Column(GravityStep(g), x))
    {
      StepColValid(Column(g, x));
    }
    ConsistentByColumns(GravityStep(g));
  }

  /** Sum of the weights of columns x.. of the board. */
  function WeightFrom(g: Grid, x: int): int
    requires 0 <= x <= WIDTH
    decreases WIDTH - x
  {
    if x == WIDTH then 0 else ColWeight(Column(g, x)) + WeightFrom(g, x + 1)
  }

  /** Sum over the occupied cells of their row index. */
  function Weight(g: Grid): int {
    WeightFrom(g, 0)
  }

  const MAX_WEIGHT: int := WIDTH * HEIGHT * HEIGHT

  lemma {:induction false} WeightFromBound(g: Grid, x: int)
    requires 0 <= x <= WIDTH
    ensures 0 <= WeightFrom(g, x) <= (WIDTH - x) * (HEIGHT * HEIGHT)
    decreases WIDTH - x
  {
    if x < WIDTH {
      WeightFromBound(g, x + 1);
      ColWeightBound(Column(g, x));
    }
  }

  lemma {:induction false} WeightFromGrows(g: Grid, s: Grid, x: int, k: int)
    requires 0 <= x <= WIDTH
    requires forall x' :: x <= x' < WIDTH ==> ColWeight(Column(s, x')) >= ColWeight(Column(g, x'))
    ensures WeightFrom(s, x) >= WeightFrom(g, x)
    ensures x <= k < WIDTH
      ==> WeightFrom(s, x) - WeightFrom(g, x) >= ColWeight(Column(s, k)) - ColWeight(Column(g, k))
    decreases WIDTH - x
  {
    if x < WIDTH {
      WeightFromGrows(g, s, x + 1, k);
    }
  }

  /** The termination measure of full gravity: a step never lowers the weight, raises it
      strictly when the board was not settled, and the weight is bounded. */
  lemma {:induction false} GravityStepRaisesWeight(g: Grid)
    ensures 0 <= Weight(g) <= MAX_WEIGHT
    ensures Weight(GravityStep(g)) >= Weight(g)
    ensures !Settled(g) ==> Weight(GravityStep(g)) > Weight(g)
  {
    var s := GravityStep(g);
    WeightFromBound(g, 0);
    forall x | 0 <= x < WIDTH
      ensures ColWeight(Column(s, x)) >= ColWeight(Column(g, x))
      ensures !SettledCol(Column(g, x)) ==> ColWeight(Column(s, x)) > ColWeight(Column(g, x))
    {
      StepColWeight(Column(g, x));
    }
    SettledByColumns(g);
    if !Settled(g) {
      var k :| 0 <= k < WIDTH && !SettledCol(Column(g, k));
      WeightFromGrows(g, s, 0, k);
    } else {
      WeightFromGrows(g, s, 0, 0);
    }
  }

  /** A step leaves the board unchanged exactly when it is settled: what the step's
      "moved" result reports. */
  lemma {:induction false} GravityStepFixedIffSettled(g: Grid)
    requires Consistent(g)
    ensures GravityStep(g) == g <==> Settled(g)
  {
    GravityStepRaisesWeight(g);
    if Settled(g) {
      SettledByColumns(g);
      ConsistentByColumns(g);
      forall x | 0 <= x < WIDTH
        ensures Column(GravityStep(g), x) == Column(g, x)
      {
        StepColSettledFixed(Column(g, x));
      }
      GridExtByColumns(GravityStep(g), g);
    }
  }

  /** A step keeps every column's colour sequence. */
  lemma {:induction false} GravityStepKeepsColors(g: Grid)
    ensures forall x :: 0 <= x < WIDTH ==> Colors(Column(GravityStep(g), x)) == Colors(Column(g, x))
  {
    forall x | 0 <= x < WIDTH
      ensures Colors(Column(GravityStep(g), x)) == Colors(Column(g, x))
    {
      StepColKeepsColors(Column(g, x));
    }
  }

  /** Full gravity: steps until nothing moves. The result is settled, keeps the board
      invariant and every column's colour sequence. */
  function Settle(g: Grid): (r: Grid)
    requires Consistent(g)
    ensures Consistent(r) && Settled(r)
    ensures forall x :: 0 <= x < WIDTH ==> Colors(Column(r, x)) == Colors(Column(g, x))
    decreases MAX_WEIGHT - Weight(g)
  {
    var s := GravityStep(g);
    GravityStepFixedIffSettled(g);
    GravityStepRaisesWeight(g);
    GravityStepKeepsConsistent(g);
    GravityStepKeepsColors(g);
    GravityStepRaisesWeight(s);
    if s == g then g else Settle(s)
  }

  /** Gravity compacts every column: its occupied cells end up stacked on the floor in
      their original top-to-bottom order. */
  lemma {:induction false} SettleCompacts(g: Grid, x: int)
    requires Consistent(g) && 0 <= x < WIDTH
    ensures Column(Settle(g), x) == Compact(Column(g, x))
  {
    var r := Settle(g);
    SettledByColumns(r);
    ConsistentByColumns(r);
    SettledColIsCompact(Column(r, x));
    CompactByColors(Column(r, x), Column(g, x));
  }

  /** A settled board is left unchanged by gravity, so gravity is idempotent. */
  lemma {:induction false} SettleIdempotent(g: Grid)
    requires Consistent(g)
    ensures Settled(g) ==> Settle(g) == g
    ensures Settle(Settle(g)) == Settle(g)
  {
    GravityStepFixedIffSettled(g);
    GravityStepFixedIffSettled(Settle(g));
  }

  // ------------------------------------------------------------- occupied cells

  /** Number of occupied cells of columns x.. of the board. */
  function CountFrom(g: Grid, x: int): nat
    requires 0 <= x <= WIDTH
    decreases WIDTH - x
  {
    if x == WIDTH then 0 else |Colors(Column(g, x))| + CountFrom(g, x + 1)
  }

  /** Number of occupied cells on the board. */
  function OccCount(g: Grid): nat {
    CountFrom(g, 0)
  }

  /** Emptying some cells of a column never adds occupied cells, and emptying the
      occupied cell k removes one. */
  lemma {:induction false} ColThinning(c: seq<Cell>, d: seq<Cell>, k: int)
    requires |c| == |d|
    requires forall i :: 0 <= i < |c| ==> d[i] == c[i] || d[i].occ == 0
    ensures |Colors(d)| <= |Colors(c)|
    ensures 0 <= k < |c| && c[k].occ != 0 && d[k].occ == 0 ==> |Colors(d)| < |Colors(c)|
    decreases |c|
  {
    if |c| > 0 {
      ColThinning(c[1..], d[1..], k - 1);
      if 0 < k < |c| {
        assert c[1..][k - 1] == c[k] && d[1..][k - 1] == d[k];
      }
    }
  }

  /** Emptying some cells of the columns from x on never adds occupied cells, and
      emptying the occupied cell (ty, tx) of one of them removes one. */
  lemma {:induction false} CountFromThinning(g: Grid, h: Grid, x: int, ty: int, tx: int)
    requires 0 <= x <= WIDTH
    requires forall y, x :: InBounds(y, x) ==> h[y][x] == g[y][x] || h[y][x].occ == 0
    ensures CountFrom(h, x) <= CountFrom(g, x)
    ensures 0 <= ty < HEIGHT && x <= tx < WIDTH && g[ty][tx].occ != 0 && h[ty][tx].occ == 0
      ==> CountFrom(h, x) < CountFrom(g, x)
    decreases WIDTH - x
  {
    if x < WIDTH {
      CountFromThinning(g, h, x + 1, ty, tx);
      ColThinning(Column(g, x), Column(h, x), if tx == x then ty else -1);
    }
  }

  /** Emptying cells of the board lowers the number of occupied cells by at least one
      when an occupied cell is among them. */
  lemma {:induction false} ThinningLowersCount(g: Grid, h: Grid, y: int, x: int)
    requires forall y, x :: InBounds(y, x) ==> h[y][x] == g[y][x] || h[y][x].occ == 0
    requires InBounds(y, x) && g[y][x].occ != 0 && h[y][x].occ == 0
    ensures OccCount(h) < OccCount(g)
  {
    CountFromThinning(g, h, 0, y, x);
  }

  lemma {:induction false} CountFromByColors(g: Grid, h: Grid, x: int)
    requires 0 <= x <= WIDTH
    requires forall x' :: x <= x' < WIDTH ==> Colors(Column(h, x')) == Colors(Column(g, x'))
    ensures CountFrom(h, x) == CountFrom(g, x)
    decreases WIDTH - x
  {
    if x < WIDTH {
      CountFromByColors(g, h, x + 1);
    }
  }

  /** Gravity neither creates nor destroys cells. */
  lemma {:induction false} SettleKeepsCount(g: Grid)
    requires Consistent(g)
    ensures OccCount(Settle(g)) == OccCount(g)
  {
    CountFromByColors(g, Settle(g), 0);
  }

  /** Full gravity is unaffected by taking one step first. */
  lemma {:induction false} SettleStep(g: Grid)
    requires Consistent(g)
    ensures Consistent(GravityStep(g))
    ensures Settle(GravityStep(g)) == Settle(g)
  {
    GravityStepKeepsConsistent(g);
  }

  // ------------------------------------------ the double-buffered step, cell by cell

  /** Source cell (s, col) comes before the scan position (y, x) of a bottom-up, left-to-right
      scan. */
  predicate Done(s: int, col: int, y: int, x: int) {
    s > y || (s == y && col < x)
  }

  /** Cell (r, col) of the step's buffers once the sources before scan position (y, x)
      have been copied: the source that lands on r, if it has been copied, else nothing. */
  ghost function Partial(g: Grid, r: int, col: int, y: int, x: int): Cell
    requires InBounds(r, col)
  {
    var c := Column(g, col);
    var k := Above(c, r);
    if Landing(c, r) && k >= 0 && Done(k, col, y, x) then Cell(1, c[k].color) else Empty
  }

  /** Before the scan the buffers are empty. */
  lemma PartialStart(g: Grid)
    ensures forall r, col :: InBounds(r, col) ==> Partial(g, r, col, HEIGHT - 1, 0) == Empty
  {
  }

  /** Finishing a row of the scan is starting the row above. */
  lemma PartialNextRow(g: Grid, y: int)
    ensures forall r, col :: InBounds(r, col) ==> Partial(g, r, col, y, WIDTH) == Partial(g, r, col, y - 1, 0)
  {
  }

  /** An empty source copies nothing. */
  lemma {:induction false} PartialSkip(g: Grid, y: int, x: int)
    requires InBounds(y, x) && g[y][x].occ == 0
    ensures forall r, col :: InBounds(r, col) ==> Partial(g, r, col, y, x + 1) == Partial(g, r, col, y, x)
  {
    forall r, col | InBounds(r, col)
      ensures Partial(g, r, col, y, x + 1) == Partial(g, r, col, y, x)
    {
      var c := Column(g, col);
      assert c[y] == g[y][x] || col != x;
    }
  }

  /** An occupied source at (y, x) whose landing row, the last row before the first
      occupied cell below it, is ny, is copied to (ny, x) and nowhere else. */
  lemma {:induction false} PartialCopy(g: Grid, y: int, x: int, ny: int)
    requires InBounds(y, x) && g[y][x].occ != 0
    requires y <= ny < HEIGHT && (ny == HEIGHT - 1 || g[ny + 1][x].occ != 0)
    requires forall j :: y < j <= ny ==> g[j][x].occ == 0
    ensures forall r, col :: InBounds(r, col) ==>
      Partial(g, r, col, y, x + 1) == if (r, col) == (ny, x) then Cell(1, g[y][x].color) else Partial(g, r, col, y, x)
  {
    var c := Column(g, x);
    AboveUnique(c, ny, y);
    forall r | 0 <= r < HEIGHT && r != ny && Landing(c, r)
      ensures Above(c, r) != y
    {
    }
  }

  /** When the scan is over the buffers hold exactly one gravity step of the board. */
  lemma {:induction false} PartialEnd(g: Grid)
    ensures forall r, col :: InBounds(r, col) ==> Partial(g, r, col, -1, 0) == GravityStep(g)[r][col]
  {
    forall r, col | InBounds(r, col)
      ensures Partial(g, r, col, -1, 0) == GravityStep(g)[r][col]
    {
      StepColAt(Column(g, col), r);
      assert Column(GravityStep(g), col)[r] == GravityStep(g)[r][col];
    }
  }
}
