/** The slate aggregator: runs already scored across all games, plus the
    runs the market still expects from the games that are not final. */
module Slate {
  import opened Wrappers
  import opened AltLines
  import opened MarketTotal
  import opened SeqFacts

  /** Game status as delivered by the ingestion layer. */
  datatype GameState = Scheduled | InProgress | Final

  /** One game of the slate. `runsSoFar` is None when the runs are missing
      or not a number; `markets` is None when the game carries no market data. */
  datatype Game = Game(state: GameState, runsSoFar: Option<real>, markets: Option<MarketBundle>)

  /** The two headline numbers. */
  datatype SlateSummary = SlateSummary(totalRunsScored: real, projectedSlateFinish: real)

  function Max(a: real, b: real): real {
    if a >= b then a else b
  }

  /** Runs already scored in a game; missing counts as 0 and negatives are clamped to 0. */
  function RunsScored(g: Game): (a: real)
    ensures a >= 0.0
  {
    Max(0.0, g.runsSoFar.GetOr(0.0))
  }

  /** The market bundle of a game, empty when the game has none. */
  function BundleOf(g: Game): MarketBundle {
    g.markets.GetOr(EmptyBundle)
  }

  /** Runs the market still expects from a game: nothing once it is final or
      when no total is available, otherwise the total less the runs scored,
      never below zero. */
  function ExpectedRemaining(g: Game): (rem: real)
    ensures rem >= 0.0
  {
    if g.state == Final then 0.0
    else
      match MarketImpliedTotal(BundleOf(g))
      case Some(t) => Max(t - RunsScored(g), 0.0)
      case None => 0.0
  }

  /** Where a game is projected to finish on its own: the market total when it
      is above the runs already scored and the game is not final, otherwise
      the runs already scored. An independent reference for the aggregate. */
  function ProjectedFinish(g: Game): real {
    var a := RunsScored(g);
    if g.state == Final then a
    else
      match MarketImpliedTotal(BundleOf(g))
      case Some(t) => Max(a, t)
      case None => a
  }

  /** Sum of f over the games, folding from the front. */
  function SumOf(gs: seq<Game>, f: Game -> real): real {
    if |gs| == 0 then 0.0 else SumOf(gs[..|gs| - 1], f) + f(gs[|gs| - 1])
  }

  /** Runs already scored across the slate. */
  function TotalRunsScored(gs: seq<Game>): (t: real)
    ensures t >= 0.0
  {
    SumOfNonnegative(gs, RunsScored);
    SumOf(gs, RunsScored)
  }

  /** Runs the market still expects across the slate. */
  function ExpectedRemainingSum(gs: seq<Game>): (e: real)
    ensures e >= 0.0
  {
    SumOfNonnegative(gs, ExpectedRemaining);
    SumOf(gs, ExpectedRemaining)
  }

  /** What the aggregation reports for a slate. */
  function Summary(gs: seq<Game>): (s: SlateSummary)
    ensures 0.0 <= s.totalRunsScored <= s.projectedSlateFinish
  {
    var total := TotalRunsScored(gs);
    SlateSummary(total, total + ExpectedRemainingSum(gs))
  }

  /** The loop of the source: two accumulators updated game by game. */
  method ComputeTwoNumbers(games: seq<Game>) returns (s: SlateSummary)
    ensures s == Summary(games)
    ensures 0.0 <= s.totalRunsScored <= s.projectedSlateFinish
  {
    var totalRunsScored, expectedRemainingSum := 0.0, 0.0;
    var i := 0;
    while i < |games|
      invariant 0 <= i <= |games|
      invariant totalRunsScored == TotalRunsScored(games[..i])
      invariant expectedRemainingSum == ExpectedRemainingSum(games[..i])
    {
      var g := games[i];
      var a := Max(0.0, g.runsSoFar.GetOr(0.0));
      totalRunsScored := totalRunsScored + a;
      if g.state != Final {
        var tStar := MarketImpliedTotal(g.markets.GetOr(EmptyBundle));
        var rem := if tStar.Some? then Max(tStar.value - a, 0.0) else 0.0;
        assert rem == ExpectedRemaining(g);
        expectedRemainingSum := expectedRemainingSum + rem;
      }
      assert games[..i + 1][..i] == games[..i];
      i := i + 1;
    }
    assert games[..i] == games;
    s := SlateSummary(totalRunsScored, totalRunsScored + expectedRemainingSum);
  }

  // ---- Properties of the sums ----

  lemma {:induction false} SumOfNonnegative(gs: seq<Game>, f: Game -> real)
    requires forall i :: 0 <= i < |gs| ==> f(gs[i]) >= 0.0
    ensures SumOf(gs, f) >= 0.0
  {
    if |gs| > 0 {
      SumOfNonnegative(gs[..|gs| - 1], f);
    }
  }

  lemma {:induction false} SumOfAppend(gs: seq<Game>, hs: seq<Game>, f: Game -> real)
    ensures SumOf(gs + hs, f) == SumOf(gs, f) + SumOf(hs, f)
  {
    if |hs| == 0 {
      assert gs + hs == gs;
    } else {
      assert (gs + hs)[..|gs + hs| - 1] == gs + hs[..|hs| - 1];
      SumOfAppend(gs, hs[..|hs| - 1], f);
    }
  }

  /** A sum over the games does not depend on their order. */
  lemma {:induction false} SumOfPermutation(gs: seq<Game>, hs: seq<Game>, f: Game -> real)
    requires multiset(gs) == multiset(hs)
    ensures SumOf(gs, f) == SumOf(hs, f)
  {
    if |gs| == 0 {
      assert |hs| == |multiset(hs)| == 0;
    } else {
      var last := gs[|gs| - 1];
      var init := gs[..|gs| - 1];
      MultisetRemoveAt(gs, |gs| - 1);
      assert gs[..|gs| - 1] + gs[|gs|..] == init;
      var j := IndexOfMember(hs, last);
      MultisetRemoveAt(hs, j);
      var pre, post := hs[..j], hs[j + 1..];
      SumOfPermutation(init, pre + post, f);
      SumOfAppend(pre + [last], post, f);
      SumOfAppend(pre, post, f);
    }
  }

  // ---- Properties of the summary ----

  /** Adding a game adds its runs to the total, and adds to the projection
      its runs plus the market's remaining runs for it: nothing more when it
      is final or has no total, otherwise the total less its runs, at least 0. */
  lemma SummaryAppendGame(gs: seq<Game>, g: Game)
    ensures Summary(gs + [g]).totalRunsScored == Summary(gs).totalRunsScored + RunsScored(g)
    ensures var t := MarketImpliedTotal(BundleOf(g));
            Summary(gs + [g]).projectedSlateFinish == Summary(gs).projectedSlateFinish + RunsScored(g) +
              (if g.state == Final || t.None? then 0.0 else Max(t.value - RunsScored(g), 0.0))
  {
    assert (gs + [g])[..|gs|] == gs;
  }

  /** The projection is the sum of the games' own projected finishes. */
  lemma {:induction false} ProjectedIsSumOfFinishes(gs: seq<Game>)
    ensures Summary(gs).projectedSlateFinish == SumOf(gs, ProjectedFinish)
  {
    if |gs| > 0 {
      var init, g := gs[..|gs| - 1], gs[|gs| - 1];
      ProjectedIsSumOfFinishes(init);
      assert gs == init + [g];
      SummaryAppendGame(init, g);
    }
  }

  /** The summary does not depend on the order of the games. */
  lemma SummaryOrderIndependent(gs: seq<Game>, hs: seq<Game>)
    requires multiset(gs) == multiset(hs)
    ensures Summary(gs) == Summary(hs)
  {
    SumOfPermutation(gs, hs, RunsScored);
    SumOfPermutation(gs, hs, ExpectedRemaining);
  }

  /** Games that are final or have no market total add no expectation. */
  lemma {:induction false} SettledOrUnpricedAddNothing(gs: seq<Game>)
    requires forall i :: 0 <= i < |gs| ==> gs[i].state == Final || MarketImpliedTotal(BundleOf(gs[i])).None?
    ensures Summary(gs).projectedSlateFinish == Summary(gs).totalRunsScored
  {
    if |gs| > 0 {
      var init, g := gs[..|gs| - 1], gs[|gs| - 1];
      SettledOrUnpricedAddNothing(init);
      assert gs == init + [g];
      SummaryAppendGame(init, g);
    }
  }

  /** A final game with 9 runs and a live game with 3 runs whose only market
      is a pregame main line at 9.0: 12 runs scored, 18 projected. */
  lemma TwoGameSlate(g1: Game, g2: Game)
    requires g1 == Game(Final, Some(9.0), None)
    requires g2 == Game(InProgress, Some(3.0), Some(MarketBundle(None, None, Some(Quote(Some(9.0), None, None)), None)))
    ensures Summary([g1, g2]) == SlateSummary(12.0, 18.0)
  {
    assert ExpectedRemaining(g1) == 0.0;
    assert MarketImpliedTotal(BundleOf(g2)) == Some(9.0);
    assert ExpectedRemaining(g2) == 6.0;
    SummaryAppendGame([g1], g2);
    SummaryAppendGame([], g1);
    assert [] + [g1] == [g1];
    assert [g1] + [g2] == [g1, g2];
  }
}
