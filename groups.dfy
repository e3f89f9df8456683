/** Colour groups: the 4-connected components of occupied cells of one colour, and the
    clear pass that empties every component of four or more cells. */
module Groups {
  import opened Board

  /** Smallest group size that is cleared. */
  const MIN_GROUP: int := 4

  /** b is one of the four neighbours of a: below, above, right, left. */
  predicate Adjacent(a: Pos, b: Pos) {
    b == (a.0 + 1, a.1) || b == (a.0 - 1, a.1) || b == (a.0, a.1 + 1) || b == (a.0, a.1 - 1)
  }

  /** An occupied board cell. */
  predicate Node(g: Grid, p: Pos) {
    InBounds(p.0, p.1) && g[p.0][p.1].occ != 0
  }

  function ColorAt(g: Grid, p: Pos): int
    requires InBounds(p.0, p.1)
  {
    g[p.0][p.1].color
  }

  /** Two neighbouring occupied cells of the same colour: one step of the flood fill. */
  predicate Linked(g: Grid, a: Pos, b: Pos) {
    Node(g, a) && Node(g, b) && Adjacent(a, b) && ColorAt(g, a) == ColorAt(g, b)
  }

  /** A walk through same-colour neighbours. */
  predicate IsPath(g: Grid, s: seq<Pos>) {
    |s| > 0 && Node(g, s[0]) && forall i :: 0 <= i < |s| - 1 ==> Linked(g, s[i], s[i + 1])
  }

  ghost predicate Reaches(g: Grid, p: Pos, q: Pos) {
    exists s :: IsPath(g, s) && s[0] == p && s[|s| - 1] == q
  }

  /** The group of p: every cell reachable from p through same-colour neighbours. */
  ghost function Component(g: Grid, p: Pos): set<Pos> {
    set q | q in AllPos() && Reaches(g, p, q)
  }

  // ------------------------------------------------------------------ paths

  /** Every cell on a walk is occupied and has the colour of its first cell. */
  lemma {:induction false} PathCells(g: Grid, s: seq<Pos>)
    requires IsPath(g, s)
    ensures forall i :: 0 <= i < |s| ==> Node(g, s[i]) && ColorAt(g, s[i]) == ColorAt(g, s[0])
  {
    var i := 0;
    while i < |s| - 1
      invariant 0 <= i < |s|
      invariant forall j :: 0 <= j <= i ==> Node(g, s[j]) && ColorAt(g, s[j]) == ColorAt(g, s[0])
    {
      assert Linked(g, s[i], s[i + 1]);
      i := i + 1;
    }
  }

  lemma {:induction false} ReachesEnds(g: Grid, p: Pos, q: Pos)
    requires Reaches(g, p, q)
    ensures Node(g, p) && Node(g, q) && ColorAt(g, p) == ColorAt(g, q)
  {
    var s :| IsPath(g, s) && s[0] == p && s[|s| - 1] == q;
    PathCells(g, s);
  }

  lemma ReachesSelf(g: Grid, p: Pos)
    requires Node(g, p)
    ensures Reaches(g, p, p)
  {
    assert IsPath(g, [p]);
  }

  lemma {:induction false} ReachesStep(g: Grid, p: Pos, q: Pos, r: Pos)
    requires Reaches(g, p, q) && Linked(g, q, r)
    ensures Reaches(g, p, r)
  {
    var s :| IsPath(g, s) && s[0] == p && s[|s| - 1] == q;
    var t := s + [r];
    forall i | 0 <= i < |t| - 1
      ensures Linked(g, t[i], t[i + 1])
    {
      if i < |s| - 1 {
        assert t[i] == s[i] && t[i + 1] == s[i + 1];
      }
    }
    assert IsPath(g, t);
  }

  lemma {:induction false} ReachesSymmetric(g: Grid, p: Pos, q: Pos)
    requires Reaches(g, p, q)
    ensures Reaches(g, q, p)
  {
    var s :| IsPath(g, s) && s[0] == p && s[|s| - 1] == q;
    PathCells(g, s);
    var n := |s|;
    var t := seq(n, (i: int) requires 0 <= i < n => s[n - 1 - i]);
    forall i | 0 <= i < n - 1
      ensures Linked(g, t[i], t[i + 1])
    {
      assert Linked(g, s[n - 2 - i], s[n - 1 - i]);
    }
    assert IsPath(g, t);
  }

  lemma {:induction false} ReachesTransitive(g: Grid, p: Pos, q: Pos, r: Pos)
    requires Reaches(g, p, q) && Reaches(g, q, r)
    ensures Reaches(g, p, r)
  {
    var s :| IsPath(g, s) && s[0] == p && s[|s| - 1] == q;
    var u :| IsPath(g, u) && u[0] == q && u[|u| - 1] == r;
    var t := s + u[1..];
    forall i | 0 <= i < |t| - 1
      ensures Linked(g, t[i], t[i + 1])
    {
      if i < |s| - 1 {
        assert t[i] == s[i] && t[i + 1] == s[i + 1];
      } else {
        assert t[i] == u[i - |s| + 1] && t[i + 1] == u[i - |s| + 2];
      }
    }
    assert IsPath(g, t);
  }

  // ------------------------------------------------------------- components

  lemma {:induction false} InComponent(g: Grid, p: Pos, q: Pos)
    ensures q in Component(g, p) <==> Reaches(g, p, q)
  {
    if Reaches(g, p, q) {
      ReachesEnds(g, p, q);
    }
  }

  /** An occupied cell belongs to its own group. */
  lemma {:induction false} ComponentHasSeed(g: Grid, p: Pos)
    requires Node(g, p)
    ensures p in Component(g, p)
  {
    ReachesSelf(g, p);
    InComponent(g, p, p);
  }

  /** A group holds only occupied cells of the seed's colour. */
  lemma {:induction false} ComponentCells(g: Grid, p: Pos, q: Pos)
    requires q in Component(g, p)
    ensures Node(g, p) && Node(g, q) && ColorAt(g, q) == ColorAt(g, p)
  {
    InComponent(g, p, q);
    ReachesEnds(g, p, q);
  }

  /** Same-colour neighbours share a group. */
  lemma {:induction false} LinkedInComponent(g: Grid, p: Pos, a: Pos, b: Pos)
    requires a in Component(g, p) && Linked(g, a, b)
    ensures b in Component(g, p)
  {
    InComponent(g, p, a);
    ReachesStep(g, p, a, b);
    InComponent(g, p, b);
  }

  /** Groups partition the occupied cells: every member of a group has that same group. */
  lemma {:induction false} ComponentOfMember(g: Grid, p: Pos, q: Pos)
    requires q in Component(g, p)
    ensures Component(g, q) == Component(g, p)
  {
    InComponent(g, p, q);
    ReachesSymmetric(g, p, q);
    forall r | r in Component(g, q)
      ensures r in Component(g, p)
    {
      InComponent(g, q, r);
      ReachesTransitive(g, p, q, r);
      InComponent(g, p, r);
    }
    forall r | r in Component(g, p)
      ensures r in Component(g, q)
    {
      InComponent(g, p, r);
      ReachesTransitive(g, q, p, r);
      InComponent(g, q, r);
    }
  }

  /** Two groups are equal or disjoint. */
  lemma {:induction false} ComponentsDisjoint(g: Grid, p: Pos, q: Pos)
    requires Component(g, p) != Component(g, q)
    ensures Component(g, p) !! Component(g, q)
  {
    forall r | r in Component(g, p) && r in Component(g, q)
      ensures false
    {
      ComponentOfMember(g, p, r);
      ComponentOfMember(g, q, r);
    }
  }

  /** Removing cells never joins groups: on a board h whose occupied cells are occupied
      alike in g, every group of h lies inside the group of g with the same seed. */
  lemma {:induction false} ComponentShrinks(g: Grid, h: Grid, p: Pos)
    requires forall q :: Node(h, q) ==> Node(g, q) && ColorAt(h, q) == ColorAt(g, q)
    ensures Component(h, p) <= Component(g, p)
  {
    forall q | q in Component(h, p)
      ensures q in Component(g, p)
    {
      InComponent(h, p, q);
      var s :| IsPath(h, s) && s[0] == p && s[|s| - 1] == q;
      PathCells(h, s);
      forall i | 0 <= i < |s| - 1
        ensures Linked(g, s[i], s[i + 1])
      {
        assert Linked(h, s[i], s[i + 1]);
      }
      assert IsPath(g, s);
      InComponent(g, p, q);
    }
  }

  lemma {:induction false} SubsetCard(a: set<Pos>, b: set<Pos>)
    requires a <= b
    ensures |a| <= |b|
  {
    assert b == a + (b - a);
  }

  // ---------------------------------------------------------------- clearing

  /** The flood fill may step onto q: inside the board, not yet visited, occupied, of colour c. */
  predicate Open(g: Grid, v: set<Pos>, c: int, q: Pos) {
    InBounds(q.0, q.1) && q !in v && g[q.0][q.1].occ != 0 && g[q.0][q.1].color == c
  }

  /** Every same-colour occupied neighbour of q is visited. */
  predicate Closed(g: Grid, v: set<Pos>, c: int, q: Pos) {
    && (Open(g, {}, c, (q.0 + 1, q.1)) ==> (q.0 + 1, q.1) in v)
    && (Open(g, {}, c, (q.0 - 1, q.1)) ==> (q.0 - 1, q.1) in v)
    && (Open(g, {}, c, (q.0, q.1 + 1)) ==> (q.0, q.1 + 1) in v)
    && (Open(g, {}, c, (q.0, q.1 - 1)) ==> (q.0, q.1 - 1) in v)
  }

  /** The cells one clear pass removes: every cell of every group of MIN_GROUP or more. */
  ghost function Cleared(g: Grid): set<Pos> {
    set p | p in AllPos() && Node(g, p) && |Component(g, p)| >= MIN_GROUP
  }

  /** The groups one clear pass removes. */
  ghost function ClearedGroups(g: Grid): set<set<Pos>> {
    set p | p in Cleared(g) :: Component(g, p)
  }

  /** The board g with the given cells emptied. */
  ghost function Without(g: Grid, cells: set<Pos>): (r: Grid)
    ensures forall y, x :: InBounds(y, x) ==> r[y][x] == if (y, x) in cells then Empty else g[y][x]
  {
    seq(HEIGHT, (y: int) requires 0 <= y < HEIGHT =>
      seq(WIDTH, (x: int) requires 0 <= x < WIDTH => if (y, x) in cells then Empty else g[y][x]))
  }

  /** The board after one clear pass. */
  ghost function ClearPass(g: Grid): (r: Grid)
    ensures forall y, x :: InBounds(y, x) ==> r[y][x] == if (y, x) in Cleared(g) then Empty else g[y][x]
  {
    Without(g, Cleared(g))
  }

  /** A clear pass removes whole groups: a group is cleared entirely or not at all. */
  lemma {:induction false} ClearedIsWholeGroups(g: Grid, p: Pos)
    requires Node(g, p)
    ensures p in Cleared(g) <==> Component(g, p) <= Cleared(g)
    ensures p !in Cleared(g) <==> Component(g, p) !! Cleared(g)
  {
    ComponentHasSeed(g, p);
    forall q | q in Component(g, p)
      ensures q in Cleared(g) <==> p in Cleared(g)
    {
      ComponentOfMember(g, p, q);
      ComponentCells(g, p, q);
    }
  }

  /** The cleared cells are exactly the cells of the cleared groups, and each cleared group
      has at least MIN_GROUP cells. */
  lemma {:induction false} ClearedIsUnionOfGroups(g: Grid)
    ensures forall p :: p in Cleared(g) <==> exists grp :: grp in ClearedGroups(g) && p in grp
    ensures forall grp :: grp in ClearedGroups(g) ==> |grp| >= MIN_GROUP && grp <= Cleared(g)
  {
    forall p | p in Cleared(g)
      ensures exists grp :: grp in ClearedGroups(g) && p in grp
    {
      ComponentHasSeed(g, p);
      assert Component(g, p) in ClearedGroups(g);
    }
    forall grp | grp in ClearedGroups(g)
      ensures |grp| >= MIN_GROUP && grp <= Cleared(g)
    {
      var p :| p in Cleared(g) && grp == Component(g, p);
      ClearedIsWholeGroups(g, p);
    }
  }

  /** A clear pass keeps the board invariant. */
  lemma {:induction false} ClearPassKeepsConsistent(g: Grid)
    requires Consistent(g)
    ensures Consistent(ClearPass(g))
  {
  }

  /** After a clear pass no group of MIN_GROUP or more is left, so a second pass changes
      nothing. */
  lemma {:induction false} ClearPassLeavesNoGroups(g: Grid)
    ensures Cleared(ClearPass(g)) == {}
    ensures ClearPass(ClearPass(g)) == ClearPass(g)
  {
    var h := ClearPass(g);
    forall p | Node(h, p)
      ensures |Component(h, p)| < MIN_GROUP
    {
      assert p !in Cleared(g);
      ComponentShrinks(g, h, p);
      SubsetCard(Component(h, p), Component(g, p));
    }
    GridExt(ClearPass(h), h);
  }

  /** Only cleared cells change, and each of them was occupied. */
  lemma {:induction false} ClearPassEmptiesOccupied(g: Grid)
    ensures forall y, x :: InBounds(y, x) ==> ClearPass(g)[y][x] == g[y][x] || ClearPass(g)[y][x] == Empty
    ensures forall p :: p in Cleared(g) ==> Node(g, p) && !Node(ClearPass(g), p)
  {
  }

  // ------------------------------------------------------------- flood fill

  /** A group that does not meet the visited set v0 of earlier fills: once a fill from p has
      marked p and closed every cell it marked, the whole group of p is marked by it. */
  lemma {:induction false} FillCoversComponent(g: Grid, v0: set<Pos>, v1: set<Pos>, p: Pos)
    requires Node(g, p) && p in v1 - v0
    requires forall q :: q in v0 ==> Component(g, q) <= v0
    requires forall q :: q in v1 - v0 ==> Closed(g, v1, ColorAt(g, p), q)
    ensures Component(g, p) <= v1 - v0
  {
    var c := ColorAt(g, p);
    ComponentHasSeed(g, p);
    forall q | q in Component(g, p)
      ensures q !in v0
    {
      if q in v0 {
        ComponentOfMember(g, p, q);
      }
    }
    forall r | r in Component(g, p)
      ensures r in v1
    {
      InComponent(g, p, r);
      var s :| IsPath(g, s) && s[0] == p && s[|s| - 1] == r;
      PathCells(g, s);
      var i := 0;
      while i < |s| - 1
        invariant 0 <= i < |s|
        invariant s[i] in v1 && s[i] in Component(g, p)
      {
        assert s[i] !in v0;
        assert Closed(g, v1, c, s[i]);
        assert Linked(g, s[i], s[i + 1]);
        assert Open(g, {}, c, s[i + 1]);
        LinkedInComponent(g, p, s[i], s[i + 1]);
        i := i + 1;
      }
    }
  }

  /** The flood fill from p with colour c over visited set m, appending to list s: an
      unvisited occupied cell of colour c is marked and appended, and the fill spreads from
      it. Returns the new visited set and list. */
  function Fill(g: Grid, m: set<Pos>, c: int, p: Pos, s: seq<Pos>): (r: (set<Pos>, seq<Pos>))
    ensures m <= r.0
    ensures Open(g, m, c, p) ==> p in r.0
    decreases |AllPos() - m|, 2
  {
    if !Open(g, m, c, p) then (m, s)
    else
      UnmarkedShrinks(m, m + {p}, p);
      Spread(g, m + {p}, c, p, s + [p])
  }

  /** The fill going on from the marked cell p: below and above it, then right and left. */
  function Spread(g: Grid, m: set<Pos>, c: int, p: Pos, s: seq<Pos>): (r: (set<Pos>, seq<Pos>))
    ensures m <= r.0
    decreases |AllPos() - m| + 1, 1
  {
    var r := FillPair(g, m, c, (p.0 + 1, p.1), (p.0 - 1, p.1), s);
    UnmarkedNoMore(m, r.0);
    FillPair(g, r.0, c, (p.0, p.1 + 1), (p.0, p.1 - 1), r.1)
  }

  /** The fill from a, then the fill from b over what it left. */
  function FillPair(g: Grid, m: set<Pos>, c: int, a: Pos, b: Pos, s: seq<Pos>): (r: (set<Pos>, seq<Pos>))
    ensures m <= r.0
    decreases |AllPos() - m| + 1, 0
  {
    var r := Fill(g, m, c, a, s);
    UnmarkedNoMore(m, r.0);
    Fill(g, r.0, c, b, r.1)
  }

  /** The fill from an unvisited cell of its colour marks it, appends it and spreads. */
  lemma {:induction false} FillOpens(g: Grid, m: set<Pos>, c: int, p: Pos, s: seq<Pos>)
    requires Open(g, m, c, p)
    ensures Fill(g, m, c, p, s) == Spread(g, m + {p}, c, p, s + [p])
  {
  }

  /** Spreading from (y, x) is the fill below and above it, then the fill right and left
      of it over what the first pair left. */
  lemma {:induction false} SpreadIs(g: Grid, m: set<Pos>, c: int, y: int, x: int, s: seq<Pos>,
                                    m1: set<Pos>, s1: seq<Pos>, m2: set<Pos>, s2: seq<Pos>)
    requires m1 == FillPair(g, m, c, (y + 1, x), (y - 1, x), s).0
    requires s1 == FillPair(g, m, c, (y + 1, x), (y - 1, x), s).1
    requires m2 == FillPair(g, m1, c, (y, x + 1), (y, x - 1), s1).0
    requires s2 == FillPair(g, m1, c, (y, x + 1), (y, x - 1), s1).1
    ensures Spread(g, m, c, (y, x), s) == (m2, s2)
  {
  }

  /** What a flood fill did between visited sets m0 and m1 while its list of cells grew from
      `before` to `after`: each newly visited cell is an occupied cell of colour c whose
      same-colour neighbours are all visited, and the list gained exactly those cells, once
      each. */
  ghost predicate Filled(g: Grid, m0: set<Pos>, m1: set<Pos>, c: int, before: seq<Pos>, after: seq<Pos>) {
    && m0 <= m1
    && (forall q {:trigger q in m1 - m0} :: q in m1 - m0 ==> Open(g, {}, c, q) && Closed(g, m1, c, q))
    && |after| == |before| + |m1 - m0| && after[..|before|] == before
    && (forall q :: q in m1 - m0 <==> q in after[|before|..])
  }

  /** Two fills one after the other are one fill. */
  lemma {:induction false} FilledTrans(g: Grid, m0: set<Pos>, m1: set<Pos>, m2: set<Pos>, c: int,
                                       s0: seq<Pos>, s1: seq<Pos>, s2: seq<Pos>)
    requires Filled(g, m0, m1, c, s0, s1) && Filled(g, m1, m2, c, s1, s2)
    ensures Filled(g, m0, m2, c, s0, s2)
  {
    forall q | q in m2 - m0
      ensures Open(g, {}, c, q) && Closed(g, m2, c, q)
    {
      if q in m1 {
        assert q in m1 - m0;
        assert Closed(g, m1, c, q);
      } else {
        assert q in m2 - m1;
      }
    }
    DiffSplit(m0, m1, m2);
    ListSplit(s0, s1, s2);
  }

  lemma {:induction false} DiffSplit(m0: set<Pos>, m1: set<Pos>, m2: set<Pos>)
    requires m0 <= m1 <= m2
    ensures |m2 - m0| == |m1 - m0| + |m2 - m1|
  {
    assert m2 - m0 == (m1 - m0) + (m2 - m1);
  }

  lemma {:induction false} ListSplit(s0: seq<Pos>, s1: seq<Pos>, s2: seq<Pos>)
    requires |s0| <= |s1| <= |s2| && s1[..|s0|] == s0 && s2[..|s1|] == s1
    ensures s2[..|s0|] == s0
    ensures forall q :: q in s2[|s0|..] <==> q in s1[|s0|..] || q in s2[|s1|..]
  {
    assert s2[..|s0|] == s1[..|s0|];
    assert s2[|s0|..] == s1[|s0|..] + s2[|s1|..];
  }

  /** A fill that marked p first, added it to the list, went on from there and left p
      closed is a fill from before p was marked. */
  lemma {:induction false} FilledSeed(g: Grid, m0: set<Pos>, m1: set<Pos>, c: int, p: Pos, s0: seq<Pos>, s1: seq<Pos>)
    requires Open(g, m0, c, p) && Closed(g, m1, c, p)
    requires Filled(g, m0 + {p}, m1, c, s0 + [p], s1)
    ensures Filled(g, m0, m1, c, s0, s1)
  {
    forall q | q in m1 - m0
      ensures Open(g, {}, c, q) && Closed(g, m1, c, q)
    {
      if q != p {
        assert q in m1 - (m0 + {p});
      }
    }
    assert (m0 + {p}) - m0 == {p};
    DiffSplit(m0, m0 + {p}, m1);
    assert (s0 + [p])[|s0|..] == [p];
    ListSplit(s0, s0 + [p], s1);
  }

  /** After the flood fill has been sent from the occupied cell s of colour c to its
      neighbour n: n is visited if it is an occupied cell of colour c, and everything the
      visit marked lies in the group of s. */
  lemma {:induction false} NeighbourVisited(g: Grid, s: Pos, n: Pos, c: int, m0: set<Pos>, m1: set<Pos>, started: bool)
    requires Node(g, s) && ColorAt(g, s) == c && Adjacent(s, n) && m0 <= m1
    requires started <==> Open(g, m0, c, n)
    requires started ==> n in m1 && m1 - m0 <= Component(g, n)
    requires !started ==> m1 == m0
    ensures Open(g, {}, c, n) ==> n in m1
    ensures m1 - m0 <= Component(g, s)
  {
    if started {
      assert Linked(g, s, n);
      ComponentHasSeed(g, s);
      LinkedInComponent(g, s, s, n);
      ComponentOfMember(g, s, n);
    }
  }

  /** What a flood fill sent to p with colour c reports, having grown the visited set from
      m0 to m1 and the list from `before` to `after`: it started exactly when p was an
      unvisited occupied cell of colour c, and then marked p and only cells of p's group. */
  ghost predicate FillResult(g: Grid, m0: set<Pos>, m1: set<Pos>, c: int, before: seq<Pos>, after: seq<Pos>,
                             p: Pos, started: bool) {
    && Filled(g, m0, m1, c, before, after)
    && (started <==> Open(g, m0, c, p))
    && (started ==> p in m1 && m1 - m0 <= Component(g, p))
    && (!started ==> m1 == m0 && after == before)
  }

  /** What the two fills sent from the occupied cell p of colour c to its neighbours na and
      nb report together, having grown the visited set from m0 to m1 and the list from
      `before` to `after`: they grew both as a fill does, left each of na and nb that is an
      occupied cell of colour c visited, and marked only cells of p's group. */
  ghost predicate PairResult(g: Grid, m0: set<Pos>, m1: set<Pos>, c: int, before: seq<Pos>, after: seq<Pos>,
                             p: Pos, na: Pos, nb: Pos) {
    && Filled(g, m0, m1, c, before, after)
    && (Open(g, {}, c, na) ==> na in m1)
    && (Open(g, {}, c, nb) ==> nb in m1)
    && m1 - m0 <= Component(g, p)
  }

  /** Two fills in a row, sent from p to its neighbours na and nb, report together what a
      pair of fills should. */
  lemma {:induction false} PairFromFills(g: Grid, c: int, p: Pos, na: Pos, nb: Pos,
                                         m0: set<Pos>, m1: set<Pos>, m2: set<Pos>,
                                         s0: seq<Pos>, s1: seq<Pos>, s2: seq<Pos>, d1: bool, d2: bool)
    requires Node(g, p) && ColorAt(g, p) == c && Adjacent(p, na) && Adjacent(p, nb)
    ensures FillResult(g, m0, m1, c, s0, s1, na, d1) && FillResult(g, m1, m2, c, s1, s2, nb, d2)
            ==> PairResult(g, m0, m2, c, s0, s2, p, na, nb)
  {
    if FillResult(g, m0, m1, c, s0, s1, na, d1) && FillResult(g, m1, m2, c, s1, s2, nb, d2) {
      NeighbourVisited(g, p, na, c, m0, m1, d1);
      NeighbourVisited(g, p, nb, c, m1, m2, d2);
      FilledTrans(g, m0, m1, m2, c, s0, s1, s2);
      DiffSplit(m0, m1, m2);
    }
  }

  /** A fill that marks the unvisited cell (y, x) of colour c, appends it to the list and
      is then sent below and above it, then right and left of it, reports that it started
      at (y, x). */
  lemma {:induction false} FillFromSeed(g: Grid, c: int, y: int, x: int,
                                        m0: set<Pos>, m1: set<Pos>, m2: set<Pos>, m3: set<Pos>,
                                        s0: seq<Pos>, s1: seq<Pos>, s2: seq<Pos>, s3: seq<Pos>)
    requires Open(g, m0, c, (y, x)) && m1 == m0 + {(y, x)} && s1 == s0 + [(y, x)]
    ensures PairResult(g, m1, m2, c, s1, s2, (y, x), (y + 1, x), (y - 1, x))
            && PairResult(g, m2, m3, c, s2, s3, (y, x), (y, x + 1), (y, x - 1))
            ==> FillResult(g, m0, m3, c, s0, s3, (y, x), true)
  {
    if PairResult(g, m1, m2, c, s1, s2, (y, x), (y + 1, x), (y - 1, x))
       && PairResult(g, m2, m3, c, s2, s3, (y, x), (y, x + 1), (y, x - 1)) {
      var p := (y, x);
      FilledTrans(g, m1, m2, m3, c, s1, s2, s3);
      assert Closed(g, m3, c, p);
      FilledSeed(g, m0, m3, c, p, s0, s3);
      ComponentHasSeed(g, p);
      DiffSplit(m1, m2, m3);
    }
  }

  /** The flood fill does what a fill should: it starts exactly at an unvisited occupied
      cell of its colour, marks only cells of that cell's group, appends each once, and
      leaves every cell it marked with all its same-colour neighbours marked. */
  lemma {:induction false} FillSound(g: Grid, m: set<Pos>, c: int, p: Pos, s: seq<Pos>)
    ensures FillResult(g, m, Fill(g, m, c, p, s).0, c, s, Fill(g, m, c, p, s).1, p, Open(g, m, c, p))
    decreases |AllPos() - m|, 2
  {
    if Open(g, m, c, p) {
      FillOpens(g, m, c, p, s);
      SpreadSound(g, m, c, p.0, p.1, s);
    }
  }

  /** The fill from the open cell (y, x), spreading to its four neighbours, is sound. */
  lemma {:induction false} SpreadSound(g: Grid, m: set<Pos>, c: int, y: int, x: int, s: seq<Pos>)
    requires Open(g, m, c, (y, x))
    ensures FillResult(g, m, Spread(g, m + {(y, x)}, c, (y, x), s + [(y, x)]).0, c, s,
                       Spread(g, m + {(y, x)}, c, (y, x), s + [(y, x)]).1, (y, x), true)
    decreases |AllPos() - m|, 1
  {
    var p, m1, s1 := (y, x), m + {(y, x)}, s + [(y, x)];
    assert Node(g, p) && ColorAt(g, p) == c;
    assert Adjacent(p, (y + 1, x)) && Adjacent(p, (y - 1, x)) && Adjacent(p, (y, x + 1)) && Adjacent(p, (y, x - 1));
    SpreadSteps(g, m1, c, p, s1);
    UnmarkedShrinks(m, m1, p);
    var r := FillPair(g, m1, c, (y + 1, x), (y - 1, x), s1);
    PairSound(g, m1, c, p, (y + 1, x), (y - 1, x), s1);
    UnmarkedShrinks(m, r.0, p);
    var r' := FillPair(g, r.0, c, (y, x + 1), (y, x - 1), r.1);
    PairSound(g, r.0, c, p, (y, x + 1), (y, x - 1), r.1);
    FillFromSeed(g, c, y, x, m, m1, r.0, r'.0, s, s1, r.1, r'.1);
  }

  /** The spread from p is the pair of fills below and above p, then the pair right and
      left of it, starting where the first pair stopped. */
  lemma {:induction false} SpreadSteps(g: Grid, m: set<Pos>, c: int, p: Pos, s: seq<Pos>)
    ensures var r := FillPair(g, m, c, (p.0 + 1, p.1), (p.0 - 1, p.1), s);
      Spread(g, m, c, p, s) == FillPair(g, r.0, c, (p.0, p.1 + 1), (p.0, p.1 - 1), r.1)
  {
  }

  /** The two fills sent from the occupied cell p of colour c to its neighbours na and nb
      report together what a pair of fills should. */
  lemma {:induction false} PairSound(g: Grid, m: set<Pos>, c: int, p: Pos, na: Pos, nb: Pos, s: seq<Pos>)
    requires Node(g, p) && ColorAt(g, p) == c && Adjacent(p, na) && Adjacent(p, nb)
    ensures PairResult(g, m, FillPair(g, m, c, na, nb, s).0, c, s, FillPair(g, m, c, na, nb, s).1, p, na, nb)
    decreases |AllPos() - m| + 1, 0
  {
    var r1 := Fill(g, m, c, na, s);
    FillSound(g, m, c, na, s);
    UnmarkedNoMore(m, r1.0);
    FillSound(g, r1.0, c, nb, r1.1);
    PairFromFills(g, c, p, na, nb, m, r1.0, FillPair(g, m, c, na, nb, s).0, s, r1.1, FillPair(g, m, c, na, nb, s).1,
                  Open(g, m, c, na), Open(g, r1.0, c, nb));
  }

  /** Two boards that agree on every cell outside the set m. */
  ghost predicate SameOutside(g: Grid, h: Grid, m: set<Pos>) {
    forall y, x :: InBounds(y, x) && (y, x) !in m ==> g[y][x] == h[y][x]
  }

  /** The flood fill reads only unvisited cells: on two boards that agree outside the
      visited set it does the same. */
  lemma {:induction false} FillAgrees(g: Grid, h: Grid, m: set<Pos>, c: int, p: Pos, s: seq<Pos>)
    requires SameOutside(g, h, m)
    ensures Fill(g, m, c, p, s) == Fill(h, m, c, p, s)
    decreases |AllPos() - m|, 2
  {
    if Open(g, m, c, p) {
      assert Open(h, m, c, p);
      UnmarkedShrinks(m, m + {p}, p);
      SpreadAgrees(g, h, m + {p}, c, p, s + [p]);
    } else {
      assert !Open(h, m, c, p);
    }
  }

  lemma {:induction false} SpreadAgrees(g: Grid, h: Grid, m: set<Pos>, c: int, p: Pos, s: seq<Pos>)
    requires SameOutside(g, h, m)
    ensures Spread(g, m, c, p, s) == Spread(h, m, c, p, s)
    decreases |AllPos() - m| + 1, 1
  {
    var r := FillPair(g, m, c, (p.0 + 1, p.1), (p.0 - 1, p.1), s);
    FillPairAgrees(g, h, m, c, (p.0 + 1, p.1), (p.0 - 1, p.1), s);
    UnmarkedNoMore(m, r.0);
    FillPairAgrees(g, h, r.0, c, (p.0, p.1 + 1), (p.0, p.1 - 1), r.1);
  }

  lemma {:induction false} FillPairAgrees(g: Grid, h: Grid, m: set<Pos>, c: int, a: Pos, b: Pos, s: seq<Pos>)
    requires SameOutside(g, h, m)
    ensures FillPair(g, m, c, a, b, s) == FillPair(h, m, c, a, b, s)
    decreases |AllPos() - m| + 1, 0
  {
    var r := Fill(g, m, c, a, s);
    FillAgrees(g, h, m, c, a, s);
    UnmarkedNoMore(m, r.0);
    FillAgrees(g, h, r.0, c, b, r.1);
  }

  /** The flood fill sent to an occupied cell p outside the groups visited so far marks
      exactly p's group and lists each of its cells once. */
  lemma {:induction false} FillFindsGroup(g: Grid, v: set<Pos>, p: Pos)
    requires forall q :: q in v ==> Component(g, q) <= v
    requires Node(g, p) && p !in v
    ensures var r := Fill(g, v, ColorAt(g, p), p, []);
      && r.0 == v + Component(g, p) && Component(g, p) !! v
      && |r.1| == |Component(g, p)| && (forall q :: q in r.1 <==> q in Component(g, p))
  {
    var c := ColorAt(g, p);
    var r := Fill(g, v, c, p, []);
    FillSound(g, v, c, p, []);
    assert Open(g, v, c, p);
    assert Filled(g, v, r.0, c, [], r.1);
    FillCoversComponent(g, v, r.0, p);
    assert r.0 - v == Component(g, p);
    assert r.1[0..] == r.1;
  }

  /** Marking a cell shrinks the set of unmarked cells: the flood fill's termination measure. */
  lemma {:induction false} UnmarkedShrinks(m0: set<Pos>, m1: set<Pos>, p: Pos)
    requires m0 <= m1 && p in m1 && p !in m0 && InBounds(p.0, p.1)
    ensures |AllPos() - m1| < |AllPos() - m0|
  {
    SubsetCard(AllPos() - m1, (AllPos() - m0) - {p});
  }

  lemma {:induction false} UnmarkedNoMore(m0: set<Pos>, m1: set<Pos>)
    requires m0 <= m1
    ensures |AllPos() - m1| <= |AllPos() - m0|
  {
    SubsetCard(AllPos() - m1, AllPos() - m0);
  }

  /** What a row-major scan of flood fills has established: v is a union of whole groups
      of g, `removed` holds exactly the cells of those with MIN_GROUP or more cells, and
      `found` is the set of those groups. */
  ghost predicate Scanned(g: Grid, v: set<Pos>, removed: set<Pos>, found: set<set<Pos>>) {
    && (forall q :: q in v ==> Node(g, q) && Component(g, q) <= v)
    && (forall q :: q in removed <==> q in v && |Component(g, q)| >= MIN_GROUP)
    && found == (set q | q in removed :: Component(g, q))
  }

  lemma ScanStart(g: Grid)
    ensures Scanned(g, {}, {}, {})
  {
  }

  /** The group of an occupied cell outside a union of whole groups v is disjoint from v,
      and every member of it has that same group. */
  lemma {:induction false} FreshComponent(g: Grid, v: set<Pos>, p: Pos)
    requires forall q :: q in v ==> Component(g, q) <= v
    requires Node(g, p) && p !in v
    ensures p in Component(g, p) && Component(g, p) !! v
    ensures forall q :: q in Component(g, p) ==> Node(g, q) && Component(g, q) == Component(g, p)
  {
    var n := Component(g, p);
    ComponentHasSeed(g, p);
    forall q | q in n
      ensures q !in v && Node(g, q) && Component(g, q) == n
    {
      ComponentOfMember(g, p, q);
      ComponentCells(g, p, q);
    }
  }

  /** Adding the group of an unvisited occupied cell keeps the scan invariant; the group
      counts as found, and its cells as removed, exactly when it has MIN_GROUP or more. */
  lemma {:induction false} ScanAdd(g: Grid, v: set<Pos>, removed: set<Pos>, found: set<set<Pos>>, p: Pos)
    requires Scanned(g, v, removed, found) && Node(g, p) && p !in v
    ensures var n := Component(g, p);
      && n !! v && p in n
      && (|n| >= MIN_GROUP ==> Scanned(g, v + n, removed + n, found + {n})
                               && |removed + n| == |removed| + |n| && |found + {n}| == |found| + 1)
      && (|n| < MIN_GROUP ==> Scanned(g, v + n, removed, found))
  {
    var n := Component(g, p);
    FreshComponent(g, v, p);
    if |n| >= MIN_GROUP {
      ScanAddBig(g, v, removed, found, p);
    } else {
      forall q | q in v + n
        ensures Node(g, q) && Component(g, q) <= v + n
      {
      }
      forall q
        ensures q in removed <==> q in v + n && |Component(g, q)| >= MIN_GROUP
      {
      }
    }
  }

  lemma {:induction false} ScanAddBig(g: Grid, v: set<Pos>, removed: set<Pos>, found: set<set<Pos>>, p: Pos)
    requires Scanned(g, v, removed, found) && Node(g, p) && p !in v
    requires p in Component(g, p) && Component(g, p) !! v
    requires forall q :: q in Component(g, p) ==> Node(g, q) && Component(g, q) == Component(g, p)
    requires |Component(g, p)| >= MIN_GROUP
    ensures var n := Component(g, p);
      Scanned(g, v + n, removed + n, found + {n})
      && |removed + n| == |removed| + |n| && |found + {n}| == |found| + 1
  {
    var n := Component(g, p);
    assert removed !! n;
    forall q | q in removed
      ensures q in Component(g, q)
    {
      ComponentHasSeed(g, q);
    }
    FoundGrows(g, removed, found, n, p);
    forall q | q in v + n
      ensures Node(g, q) && Component(g, q) <= v + n
    {
      if q in v {
        assert Component(g, q) <= v;
      } else {
        assert Component(g, q) == n;
      }
    }
    assert B: forall q :: q in removed + n <==> q in v + n && |Component(g, q)| >= MIN_GROUP;
  }

  lemma {:induction false} FoundGrows(g: Grid, removed: set<Pos>, found: set<set<Pos>>, n: set<Pos>, p: Pos)
    requires found == (set q | q in removed :: Component(g, q))
    requires p in n && p !in removed && removed !! n && n == Component(g, p)
    requires forall q :: q in removed ==> q in Component(g, q)
    requires forall q :: q in n ==> Component(g, q) == n
    ensures found + {n} == (set q | q in removed + n :: Component(g, q))
    ensures |found + {n}| == |found| + 1
  {
    var removed', found' := removed + n, found + {n};
    assert n !in found;
    forall grp | grp in found'
      ensures grp in (set q | q in removed' :: Component(g, q))
    {
      if grp == n {
        assert p in removed';
      } else {
        var q :| q in removed && grp == Component(g, q);
        assert q in removed';
      }
    }
    forall grp | grp in (set q | q in removed' :: Component(g, q))
      ensures grp in found'
    {
      var q :| q in removed' && grp == Component(g, q);
      if q !in removed {
        assert grp == n;
      }
    }
  }

  /** Cell q comes before cell (y, x) in a row-major scan. */
  predicate Before(q: Pos, y: int, x: int) {
    q.0 < y || (q.0 == y && q.1 < x)
  }

  /** Every occupied cell a row-major scan has passed before (y, x) is visited. */
  ghost predicate Swept(g: Grid, v: set<Pos>, y: int, x: int) {
    forall q :: Node(g, q) && Before(q, y, x) ==> q in v
  }

  /** Passing the cell (y, x), which is visited or empty, moves the sweep one cell on. */
  lemma {:induction false} SweptStep(g: Grid, v: set<Pos>, v': set<Pos>, y: int, x: int)
    requires Swept(g, v, y, x) && v <= v'
    requires Node(g, (y, x)) ==> (y, x) in v'
    ensures Swept(g, v', y, x + 1)
  {
    forall q | Node(g, q) && Before(q, y, x + 1)
      ensures q in v'
    {
      if q != (y, x) {
        assert Before(q, y, x);
      }
    }
  }

  /** The end of a row is the start of the next one. */
  lemma {:induction false} SweptRow(g: Grid, v: set<Pos>, y: int)
    requires Swept(g, v, y, WIDTH)
    ensures Swept(g, v, y + 1, 0)
  {
    forall q | Node(g, q) && Before(q, y + 1, 0)
      ensures q in v
    {
      assert Before(q, y, WIDTH);
    }
  }

  /** The scan reaching the occupied unvisited cell (y, x): the flood fill from it marks
      exactly its group, listing each cell once, the sweep moves on past (y, x), and the
      group joins the scanned ones, as found and removed exactly when it has MIN_GROUP or
      more cells. */
  lemma {:induction false} ScanGroup(g: Grid, v: set<Pos>, removed: set<Pos>, found: set<set<Pos>>, y: int, x: int)
    requires Scanned(g, v, removed, found) && Swept(g, v, y, x)
    requires Node(g, (y, x)) && (y, x) !in v
    ensures var r := Fill(g, v, ColorAt(g, (y, x)), (y, x), []);
      var n := Component(g, (y, x));
      && r.0 == v + n && |r.1| == |n| && (forall q :: q in r.1 <==> q in n)
      && (forall q :: q in n ==> InBounds(q.0, q.1))
      && Swept(g, v + n, y, x + 1)
      && (|n| >= MIN_GROUP ==> Scanned(g, v + n, removed + n, found + {n})
                               && |removed + n| == |removed| + |n| && |found + {n}| == |found| + 1)
      && (|n| < MIN_GROUP ==> Scanned(g, v + n, removed, found))
  {
    var n := Component(g, (y, x));
    FillFindsGroup(g, v, (y, x));
    ScanAdd(g, v, removed, found, (y, x));
    SweptStep(g, v, v + n, y, x);
  }

  /** Once every occupied cell is visited, the scan has removed exactly the cells one clear
      pass removes and found exactly its groups. */
  lemma {:induction false} ScanDone(g: Grid, v: set<Pos>, removed: set<Pos>, found: set<set<Pos>>)
    requires Scanned(g, v, removed, found)
    requires forall q :: Node(g, q) ==> q in v
    ensures removed == Cleared(g)
    ensures found == ClearedGroups(g)
  {
  }
}
