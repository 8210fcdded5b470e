/** Worked cases of the implied-median resolver, each computed exactly. */
module AltLinesExamples {
  import opened Wrappers
  import opened MarketMath
  import opened AltLines

  /** A quote whose three fields are all finite numbers. */
  function Priced(line: real, overOdds: real, underOdds: real): Quote {
    Quote(Some(line), Some(overOdds), Some(underOdds))
  }

  lemma ToPointsOfTwo(a: Quote, b: Quote)
    requires Usable(a) && Usable(b)
    ensures ToPoints([a, b]) == [PointOf(a), PointOf(b)]
  {
    assert [a, b][1..] == [b];
    assert [b][1..] == [];
  }

  lemma ToPointsOfThree(a: Quote, b: Quote, c: Quote)
    requires Usable(a) && Usable(b) && Usable(c)
    ensures ToPoints([a, b, c]) == [PointOf(a), PointOf(b), PointOf(c)]
  {
    assert [a, b, c][1..] == [b, c];
    ToPointsOfTwo(b, c);
  }

  // Fair under-probabilities of the prices used below.
  lemma EvenPrices()
    ensures PointOf(Priced(8.5, 100.0, -100.0)) == Point(8.5, 0.5)
  {
  }

  lemma SixtyFortyPrices(line: real)
    ensures PointOf(Priced(line, 150.0, -150.0)) == Point(line, 0.6)
    ensures PointOf(Priced(line, -150.0, 150.0)) == Point(line, 0.4)
  {
    assert AmericanToProbRaw(150.0) == 0.4;
    assert AmericanToProbRaw(-150.0) == 0.6;
  }

  lemma SeventyThirtyPrices(line: real)
    ensures PointOf(Priced(line, 700.0 / 3.0, -700.0 / 3.0)) == Point(line, 0.7)
    ensures PointOf(Priced(line, -700.0 / 3.0, 700.0 / 3.0)) == Point(line, 0.3)
  {
    assert AmericanToProbRaw(700.0 / 3.0) == 0.3;
    assert AmericanToProbRaw(-700.0 / 3.0) == 0.7;
  }

  lemma EightyTwentyPrices(line: real)
    ensures PointOf(Priced(line, 400.0, -400.0)) == Point(line, 0.8)
    ensures PointOf(Priced(line, -400.0, 400.0)) == Point(line, 0.2)
  {
    assert AmericanToProbRaw(400.0) == 0.2;
    assert AmericanToProbRaw(-400.0) == 0.8;
  }

  /** The resolver only sees the quotes through their points. */
  lemma MedianFromPoints(qs: seq<Quote>, pts: seq<Point>)
    requires ToPoints(qs) == pts && |pts| > 0
    ensures ImpliedMedian(Some(qs)) == Some(Resolve(SortByLine(pts)))
  {
  }

  // The cases below are stated over quotes with given fair probabilities;
  // the lemmas above give prices that produce each of them.

  lemma CrossingOnASampleSorted(pa: Point, pb: Point, pc: Point)
    requires pa == Point(9.5, 0.3) && pb == Point(7.5, 0.6) && pc == Point(8.5, 0.5)
    ensures SortByLine([pa, pb, pc]) == [pb, pc, pa]
  {
    assert [pa, pb, pc][1..] == [pb, pc];
    SortByLineSorted([pb, pc]);
    InsertByLineAtEnd(pa, [pb, pc]);
  }

  lemma CrossingOnASampleResolved()
    ensures Resolve([Point(7.5, 0.6), Point(8.5, 0.5), Point(9.5, 0.3)]) == 8.5
  {
    assert FirstBracket([Point(7.5, 0.6), Point(8.5, 0.5), Point(9.5, 0.3)], 0) == Some(0);
    assert LinInterp(7.5, 0.6, 8.5, 0.5, 0.5) == 8.5;
  }

  /** A curve falling from 0.6 at 7.5 through exactly 0.5 at 8.5 to 0.3 at
      9.5, quoted out of order: the first sorted pair brackets even money
      and the interpolation lands on 8.5 itself. */
  lemma CrossingOnASample(a: Quote, b: Quote, c: Quote)
    requires Usable(a) && Usable(b) && Usable(c)
    requires PointOf(a) == Point(9.5, 0.3)
    requires PointOf(b) == Point(7.5, 0.6)
    requires PointOf(c) == Point(8.5, 0.5)
    ensures ImpliedMedian(Some([a, b, c])) == Some(8.5)
  {
    ToPointsOfThree(a, b, c);
    MedianFromPoints([a, b, c], [Point(9.5, 0.3), Point(7.5, 0.6), Point(8.5, 0.5)]);
    CrossingOnASampleSorted(Point(9.5, 0.3), Point(7.5, 0.6), Point(8.5, 0.5));
    CrossingOnASampleResolved();
  }

  lemma NoCrossingPoints(pts: seq<Point>)
    requires pts == [Point(6.5, 0.8), Point(7.5, 0.7)]
    ensures Resolve(SortByLine(pts)) == 7.5
  {
    SortByLineSorted(pts);
    assert FirstBracket(pts, 0) == None by {
      assert !Brackets(pts[0], pts[1]);
    }
    assert ClosestIndex(pts) == 1 by {
      assert pts[..1] == [pts[0]];
    }
  }

  /** A one-sided board at 6.5 (0.8) and 7.5 (0.7) never crosses even money;
      the sample closest to it, 7.5, is returned. */
  lemma NoCrossingFallsBackToClosest(a: Quote, b: Quote)
    requires Usable(a) && Usable(b)
    requires PointOf(a) == Point(6.5, 0.8)
    requires PointOf(b) == Point(7.5, 0.7)
    ensures ImpliedMedian(Some([a, b])) == Some(7.5)
  {
    ToPointsOfTwo(a, b);
    MedianFromPoints([a, b], [Point(6.5, 0.8), Point(7.5, 0.7)]);
    NoCrossingPoints([Point(6.5, 0.8), Point(7.5, 0.7)]);
  }

  lemma InputOrderSorted(pts: seq<Point>)
    requires pts == [Point(7.0, 0.4), Point(8.0, 0.6), Point(8.0, 0.2)]
    ensures SortByLine(pts) == pts
  {
    SortByLineSorted(pts);
  }

  lemma SwappedOrderSorted(pts: seq<Point>)
    requires pts == [Point(7.0, 0.4), Point(8.0, 0.2), Point(8.0, 0.6)]
    ensures SortByLine(pts) == pts
  {
    SortByLineSorted(pts);
  }

  lemma InputOrderCrossesLow()
    ensures Resolve([Point(7.0, 0.4), Point(8.0, 0.6), Point(8.0, 0.2)]) == 7.5
  {
    assert FirstBracket([Point(7.0, 0.4), Point(8.0, 0.6), Point(8.0, 0.2)], 0) == Some(0);
    assert LinInterp(7.0, 0.4, 8.0, 0.6, 0.5) == 7.5;
  }

  lemma SwappedOrderCrossesHigh()
    ensures Resolve([Point(7.0, 0.4), Point(8.0, 0.2), Point(8.0, 0.6)]) == 8.0
  {
    assert FirstBracket([Point(7.0, 0.4), Point(8.0, 0.2), Point(8.0, 0.6)], 0) == Some(1);
    assert LinInterp(8.0, 0.2, 8.0, 0.6, 0.5) == 8.0;
  }

  /** With two quotes at the same line the order of the input matters: the
      stable sort keeps equal lines in input order, so a different pair can
      be the first to bracket even money. */
  lemma DuplicateLinesMakeOrderMatter(a: Quote, b: Quote, c: Quote)
    requires Usable(a) && Usable(b) && Usable(c)
    requires PointOf(a) == Point(7.0, 0.4)
    requires PointOf(b) == Point(8.0, 0.6)
    requires PointOf(c) == Point(8.0, 0.2)
    ensures multiset([a, b, c]) == multiset([a, c, b])
    ensures ImpliedMedian(Some([a, b, c])) == Some(7.5)
    ensures ImpliedMedian(Some([a, c, b])) == Some(8.0)
  {
    InputOrder(a, b, c);
    SwappedOrder(a, b, c);
  }

  lemma InputOrder(a: Quote, b: Quote, c: Quote)
    requires Usable(a) && Usable(b) && Usable(c)
    requires PointOf(a) == Point(7.0, 0.4)
    requires PointOf(b) == Point(8.0, 0.6)
    requires PointOf(c) == Point(8.0, 0.2)
    ensures ImpliedMedian(Some([a, b, c])) == Some(7.5)
  {
    ToPointsOfThree(a, b, c);
    MedianFromPoints([a, b, c], [Point(7.0, 0.4), Point(8.0, 0.6), Point(8.0, 0.2)]);
    InputOrderSorted([Point(7.0, 0.4), Point(8.0, 0.6), Point(8.0, 0.2)]);
    InputOrderCrossesLow();
  }

  lemma SwappedOrder(a: Quote, b: Quote, c: Quote)
    requires Usable(a) && Usable(b) && Usable(c)
    requires PointOf(a) == Point(7.0, 0.4)
    requires PointOf(b) == Point(8.0, 0.6)
    requires PointOf(c) == Point(8.0, 0.2)
    ensures ImpliedMedian(Some([a, c, b])) == Some(8.0)
  {
    ToPointsOfThree(a, c, b);
    MedianFromPoints([a, c, b], [Point(7.0, 0.4), Point(8.0, 0.2), Point(8.0, 0.6)]);
    SwappedOrderSorted([Point(7.0, 0.4), Point(8.0, 0.2), Point(8.0, 0.6)]);
    SwappedOrderCrossesHigh();
  }
}
