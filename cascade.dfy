/** The cascade after a piece locks: clear passes alternate with full gravity until a pass
    clears nothing, each pass scoring with the chain multiplier 1 + 0.5 * k, where k counts
    the earlier passes of the same cascade that cleared something. */
module Cascade {
  import opened Board
  import opened Gravity
  import opened Groups

  /** The counters a clear pass updates. */
  datatype Stats = Stats(score: int, level: int, clears: int)

  /** Where a cascade ends: the board, the counters and the number of clearing passes. */
  datatype Outcome = Outcome(board: Grid, stats: Stats, chain: nat)

  /** Clears needed per level. */
  const CLEARS_PER_LEVEL: int := 5

  /** Points for one cleared group of cnt cells on pass chain: cnt * 100 * (1 + 0.5 * chain),
      which is always a whole number. */
  function GroupPoints(cnt: int, chain: nat): (r: int)
    ensures r as real == cnt as real * 100.0 * (1.0 + 0.5 * chain as real)
    ensures cnt >= 0 ==> r >= 100 * cnt
  {
    cnt * 50 * (2 + chain)
  }

  /** The points of the cells of a pass add up group by group: a group of b cells cleared
      after a cells adds its own points. */
  lemma {:induction false} GroupPointsAdd(a: nat, b: nat, chain: nat)
    ensures GroupPoints(a + b, chain) == GroupPoints(a, chain) + GroupPoints(b, chain)
  {
  }

  /** The counters after a clear pass that removed `total` cells in `groups` groups. */
  function AfterPass(s: Stats, total: nat, groups: nat, chain: nat): (r: Stats)
    ensures r.score >= s.score
    ensures groups == 0 ==> r == Stats(s.score + GroupPoints(total, chain), s.level, s.clears)
    ensures r.clears == s.clears + groups
    ensures r.level == s.level || r.level == s.level + 1
    ensures r.level == s.level + 1 <==> groups > 0 && r.clears / CLEARS_PER_LEVEL >= s.level
  {
    var score := s.score + GroupPoints(total, chain);
    if groups > 0 then
      var clears := s.clears + groups;
      Stats(score, if clears / CLEARS_PER_LEVEL >= s.level then s.level + 1 else s.level, clears)
    else
      Stats(score, s.level, s.clears)
  }

  /** A clear pass that removes something lowers the number of occupied cells, and the
      gravity after it keeps that number: the cascade's termination measure. */
  lemma {:induction false} WaveLowersCount(b: Grid)
    requires Consistent(b) && Cleared(b) != {}
    ensures Consistent(ClearPass(b))
    ensures OccCount(Settle(ClearPass(b))) < OccCount(b)
  {
    ClearPassKeepsConsistent(b);
    ClearPassEmptiesOccupied(b);
    var p :| p in Cleared(b);
    ThinningLowersCount(b, ClearPass(b), p.0, p.1);
    SettleKeepsCount(ClearPass(b));
  }

  /** One wave: a clear pass followed by full gravity. */
  ghost function Wave(b: Grid): (r: Grid)
    requires Consistent(b)
    ensures Consistent(r) && Settled(r)
    ensures Cleared(b) != {} ==> OccCount(r) < OccCount(b)
  {
    ClearPassKeepsConsistent(b);
    if Cleared(b) != {} then WaveLowersCount(b); Settle(ClearPass(b))
    else Settle(ClearPass(b))
  }

  /** The counters after the clear pass of one wave. */
  ghost function WaveStats(b: Grid, s: Stats, chain: nat): Stats {
    AfterPass(s, |Cleared(b)|, |ClearedGroups(b)|, chain)
  }

  /** A clear pass over a board with nothing to clear changes neither the board nor the
      counters, whatever the chain. */
  lemma {:induction false} IdlePass(b: Grid, s: Stats, chain: nat)
    requires Cleared(b) == {}
    ensures ClearPass(b) == b && AfterPass(s, |Cleared(b)|, |ClearedGroups(b)|, chain) == s
    ensures Consistent(b) ==> Waves(b, s, chain) == Outcome(b, s, chain)
  {
    GridExt(ClearPass(b), b);
    assert ClearedGroups(b) == {};
  }

  /** The recurrence of the cascade, unfolded once: a pass that clears something hands the
      rest of the cascade on to the board gravity leaves after the pass, with the pass's
      counters and the next chain number. */
  lemma {:induction false} WavesOn(b: Grid, s: Stats, chain: nat)
    requires Consistent(b) && Cleared(b) != {}
    ensures Consistent(ClearPass(b))
    ensures Waves(b, s, chain)
      == Waves(Settle(ClearPass(b)), AfterPass(s, |Cleared(b)|, |ClearedGroups(b)|, chain), chain + 1)
  {
    ClearPassKeepsConsistent(b);
  }

  /** The waves of a cascade from board b: while a clear pass removes something, clear,
      score with the current chain, settle and go on with the next chain number. */
  ghost function Waves(b: Grid, s: Stats, chain: nat): (r: Outcome)
    requires Consistent(b)
    ensures Consistent(r.board)
    decreases OccCount(b)
  {
    if Cleared(b) == {} then Outcome(b, s, chain)
    else Waves(Wave(b), WaveStats(b, s, chain), chain + 1)
  }

  /** The cascade stops on a board with nothing to clear; the chain grows exactly when
      the first pass clears something, and once a pass has cleared something the board the
      cascade stops on is also settled, so the final gravity leaves it as it is. */
  lemma {:induction false} WavesEnd(b: Grid, s: Stats, chain: nat)
    requires Consistent(b)
    ensures var r := Waves(b, s, chain);
      && Cleared(r.board) == {}
      && (r.chain > chain <==> Cleared(b) != {})
      && (r.chain > chain ==> Settled(r.board) && Settle(r.board) == r.board)
    decreases OccCount(b)
  {
    var r := Waves(b, s, chain);
    if Cleared(b) != {} {
      var b' := Wave(b);
      var s' := WaveStats(b, s, chain);
      assert r == Waves(b', s', chain + 1);
      WavesEnd(b', s', chain + 1);
      if Cleared(b') == {} {
        assert r == Outcome(b', s', chain + 1);
      }
      SettleIdempotent(r.board);
    }
  }

  /** The counters only grow during a cascade, and the level rises by at most one per
      clearing pass. */
  lemma {:induction false} WavesStats(b: Grid, s: Stats, chain: nat)
    requires Consistent(b)
    ensures var r := Waves(b, s, chain);
      && r.chain >= chain
      && r.stats.score >= s.score && r.stats.clears >= s.clears
      && s.level <= r.stats.level <= s.level + (r.chain - chain)
    decreases OccCount(b)
  {
    if Cleared(b) != {} {
      assert Waves(b, s, chain) == Waves(Wave(b), WaveStats(b, s, chain), chain + 1);
      WavesStats(Wave(b), WaveStats(b, s, chain), chain + 1);
    }
  }

}
