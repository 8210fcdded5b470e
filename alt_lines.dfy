/** The implied-median resolver for one game's alternate totals: usable
    quotes become (line, fair under-probability) points, the points are
    stably sorted by line, the first adjacent pair that brackets even money
    is interpolated, and when none does the point closest to even money is
    taken. */
module AltLines {
  import opened Wrappers
  import opened MarketMath
  import opened SeqFacts

  /** One alternate-total quote. A field is None when the source value is
      not a finite number (missing, null, NaN, an infinity or not a number). */
  datatype Quote = Quote(line: Option<real>, overOdds: Option<real>, underOdds: Option<real>)

  /** A sample of the probability curve: a line and the fair probability of the under there. */
  datatype Point = Point(line: real, F: real)

  /** A quote with a finite line and finite prices on both sides. */
  predicate Usable(q: Quote) {
    q.line.Some? && q.overOdds.Some? && q.underOdds.Some?
  }

  /** Fair probability of the under for a usable quote. */
  function FairUnder(q: Quote): (f: real)
    requires Usable(q)
    ensures 0.0 < f < 1.0
  {
    var pOverRaw := AmericanToProbRaw(q.overOdds.value);
    var pUnderRaw := AmericanToProbRaw(q.underOdds.value);
    DevigTwoWay(pOverRaw, pUnderRaw).pUnder
  }

  function PointOf(q: Quote): (p: Point)
    requires Usable(q)
    ensures p.line == q.line.value && 0.0 < p.F < 1.0
  {
    Point(q.line.value, FairUnder(q))
  }

  /** The filter and map steps: the points of the usable quotes, in input order. */
  function ToPoints(alts: seq<Quote>): (pts: seq<Point>)
    ensures |pts| <= |alts|
    ensures |pts| == 0 <==> forall i :: 0 <= i < |alts| ==> !Usable(alts[i])
    ensures forall i :: 0 <= i < |pts| ==> 0.0 < pts[i].F < 1.0
  {
    if |alts| == 0 then []
    else (if Usable(alts[0]) then [PointOf(alts[0])] else []) + ToPoints(alts[1..])
  }

  lemma {:induction false} ToPointsConcat(a: seq<Quote>, b: seq<Quote>)
    ensures ToPoints(a + b) == ToPoints(a) + ToPoints(b)
  {
    if |a| > 0 {
      assert (a + b)[1..] == a[1..] + b;
      ToPointsConcat(a[1..], b);
    } else {
      assert a + b == b;
    }
  }

  /** Reordering the quotes reorders the points and nothing else. */
  lemma {:induction false} ToPointsPermutation(a1: seq<Quote>, a2: seq<Quote>)
    requires multiset(a1) == multiset(a2)
    ensures multiset(ToPoints(a1)) == multiset(ToPoints(a2))
  {
    if |a1| == 0 {
      assert |a2| == |multiset(a2)| == 0;
    } else {
      var q := a1[0];
      assert q in multiset(a1);
      var j := IndexOfMember(a2, q);
      var rest := a2[..j] + a2[j + 1..];
      MultisetRemoveAt(a1, 0);
      MultisetRemoveAt(a2, j);
      assert a1[..0] + a1[1..] == a1[1..];
      ToPointsPermutation(a1[1..], rest);
      ToPointsRemoveAt(a1, 0);
      ToPointsRemoveAt(a2, j);
    }
  }

  /** The points of a list are those of one quote plus those of the rest. */
  lemma ToPointsRemoveAt(a: seq<Quote>, j: nat)
    requires j < |a|
    ensures multiset(ToPoints(a)) == multiset(ToPoints([a[j]])) + multiset(ToPoints(a[..j] + a[j + 1..]))
  {
    MultisetRemoveAt(a, j);
    var pre, one, post := a[..j], [a[j]], a[j + 1..];
    ToPointsConcat(pre + one, post);
    ToPointsConcat(pre, one);
    ToPointsConcat(pre, post);
  }

  // ---- Stable sort by line ----

  predicate SortedByLine(s: seq<Point>) {
    forall i, j :: 0 <= i < j < |s| ==> s[i].line <= s[j].line
  }

  /** The points of s that sit at line L, in their order in s. */
  function AtLine(s: seq<Point>, L: real): seq<Point> {
    if |s| == 0 then []
    else (if s[0].line == L then [s[0]] else []) + AtLine(s[1..], L)
  }

  lemma ConsSorted(x: Point, t: seq<Point>)
    requires SortedByLine(t)
    requires |t| > 0 ==> x.line <= t[0].line
    ensures SortedByLine([x] + t)
  {
    var r := [x] + t;
    forall i, j | 0 <= i < j < |r| ensures r[i].line <= r[j].line {
      if i == 0 {
        assert r[j] == t[j - 1];
        assert t[0].line <= t[j - 1].line || j == 1;
      }
    }
  }

  /** Inserts p before the first point whose line is not below p's. */
  function InsertByLine(p: Point, s: seq<Point>): (r: seq<Point>)
    ensures |r| == |s| + 1
    ensures r[0] == p || (|s| > 0 && r[0] == s[0])
    ensures multiset(r) == multiset(s) + multiset{p}
    ensures SortedByLine(s) ==> SortedByLine(r)
  {
    if |s| == 0 then [p]
    else if p.line <= s[0].line then
      ConsSortedIf(p, s);
      [p] + s
    else
      var rest := InsertByLine(p, s[1..]);
      assert s == [s[0]] + s[1..];
      assert SortedByLine(s) ==> SortedByLine(s[1..]);
      assert SortedByLine(s) && |s| > 1 ==> s[0].line <= s[1].line;
      ConsSortedIf(s[0], rest);
      [s[0]] + rest
  }

  /** A point above every line of the list is inserted at its end. */
  lemma {:induction false} InsertByLineAtEnd(p: Point, s: seq<Point>)
    requires forall i :: 0 <= i < |s| ==> s[i].line < p.line
    ensures InsertByLine(p, s) == s + [p]
  {
    if |s| > 0 {
      InsertByLineAtEnd(p, s[1..]);
      assert s == [s[0]] + s[1..];
    }
  }

  lemma ConsSortedIf(x: Point, t: seq<Point>)
    ensures SortedByLine(t) && (|t| > 0 ==> x.line <= t[0].line) ==> SortedByLine([x] + t)
  {
    if SortedByLine(t) && (|t| > 0 ==> x.line <= t[0].line) {
      ConsSorted(x, t);
    }
  }

  /** The sort step, as an insertion sort: stable, like the sort it models. */
  function SortByLine(s: seq<Point>): (r: seq<Point>)
    ensures |r| == |s|
    ensures multiset(r) == multiset(s)
    ensures SortedByLine(r)
  {
    if |s| == 0 then []
    else
      assert s == [s[0]] + s[1..];
      InsertByLine(s[0], SortByLine(s[1..]))
  }

  lemma AtLineCons(x: Point, t: seq<Point>, L: real)
    ensures AtLine([x] + t, L) == (if x.line == L then [x] else []) + AtLine(t, L)
  {
    assert ([x] + t)[1..] == t;
  }

  lemma {:induction false} InsertByLineAtLine(p: Point, s: seq<Point>, L: real)
    requires SortedByLine(s)
    ensures AtLine(InsertByLine(p, s), L) == (if p.line == L then [p] else []) + AtLine(s, L)
  {
    if |s| == 0 {
      AtLineCons(p, s, L);
    } else if p.line <= s[0].line {
      AtLineCons(p, s, L);
    } else {
      var rest := InsertByLine(p, s[1..]);
      assert SortedByLine(s[1..]);
      InsertByLineAtLine(p, s[1..], L);
      AtLineCons(s[0], rest, L);
      assert s == [s[0]] + s[1..];
      AtLineCons(s[0], s[1..], L);
    }
  }

  /** Sorting input that is already in line order leaves it unchanged. */
  lemma {:induction false} SortByLineSorted(s: seq<Point>)
    requires SortedByLine(s)
    ensures SortByLine(s) == s
  {
    if |s| > 0 {
      assert SortedByLine(s[1..]);
      SortByLineSorted(s[1..]);
      assert s == [s[0]] + s[1..];
    }
  }

  /** Stability: at every line, the sorted points keep their input order. */
  lemma {:induction false} SortByLineStable(s: seq<Point>, L: real)
    ensures AtLine(SortByLine(s), L) == AtLine(s, L)
  {
    if |s| > 0 {
      SortByLineStable(s[1..], L);
      InsertByLineAtLine(s[0], SortByLine(s[1..]), L);
    }
  }

  /** No two different points share a line. */
  ghost predicate LinesDistinct(m: multiset<Point>) {
    forall p, q :: p in m && q in m && p.line == q.line ==> p == q
  }

  lemma LinesDistinctSub(m1: multiset<Point>, m2: multiset<Point>)
    requires m1 <= m2
    requires LinesDistinct(m2)
    ensures LinesDistinct(m1)
  {
  }

  /** Sorting by line determines the order completely once lines are distinct. */
  lemma {:induction false} SortedPermutationsEqual(r1: seq<Point>, r2: seq<Point>)
    requires SortedByLine(r1) && SortedByLine(r2)
    requires multiset(r1) == multiset(r2)
    requires LinesDistinct(multiset(r1))
    ensures r1 == r2
  {
    assert |r2| == |multiset(r2)| == |r1|;
    if |r1| > 0 {
      SortedHeadsEqual(r1, r2);
      SortedTail(r1);
      SortedTail(r2);
      TailMultiset(r1);
      TailMultiset(r2);
      LinesDistinctSub(multiset(r1[1..]), multiset(r1));
      SortedPermutationsEqual(r1[1..], r2[1..]);
    }
  }

  /** Two sorted lists of the same points with distinct lines start alike. */
  lemma SortedHeadsEqual(r1: seq<Point>, r2: seq<Point>)
    requires SortedByLine(r1) && SortedByLine(r2)
    requires multiset(r1) == multiset(r2)
    requires LinesDistinct(multiset(r1))
    requires |r1| > 0 && |r2| > 0
    ensures r1[0] == r2[0]
  {
    assert r1[0] in multiset(r1) && r2[0] in multiset(r2);
    var j := IndexOfMember(r2, r1[0]);
    var i := IndexOfMember(r1, r2[0]);
    assert r1[0].line <= r1[i].line;
    assert r2[0].line <= r2[j].line;
  }

  lemma SortedTail(r: seq<Point>)
    requires SortedByLine(r) && |r| > 0
    ensures SortedByLine(r[1..])
  {
    forall i, j | 0 <= i < j < |r| - 1 ensures r[1..][i].line <= r[1..][j].line {
      assert r[1..][i] == r[i + 1] && r[1..][j] == r[j + 1];
    }
  }

  lemma TailMultiset(r: seq<Point>)
    requires |r| > 0
    ensures multiset(r[1..]) == multiset(r) - multiset{r[0]}
  {
    assert r == [r[0]] + r[1..];
  }

  // ---- Scan for the crossing, and the fallback ----

  /** One endpoint is at or below even money and the other at or above it. */
  predicate Brackets(a: Point, b: Point) {
    (a.F <= 0.5 && b.F >= 0.5) || (a.F >= 0.5 && b.F <= 0.5)
  }

  /** The index of the first adjacent pair from `from` on that brackets even money. */
  function FirstBracket(pts: seq<Point>, from: nat): (k: Option<nat>)
    ensures k.Some? ==> from <= k.value && k.value + 1 < |pts| && Brackets(pts[k.value], pts[k.value + 1])
    ensures k.Some? ==> forall j :: from <= j < k.value ==> !Brackets(pts[j], pts[j + 1])
    ensures k.None? ==> forall j :: from <= j && j + 1 < |pts| ==> !Brackets(pts[j], pts[j + 1])
    decreases |pts| - from
  {
    if from + 1 >= |pts| then None
    else if Brackets(pts[from], pts[from + 1]) then Some(from)
    else FirstBracket(pts, from + 1)
  }

  /** Distance of a point's probability from even money. */
  function Distance(p: Point): (d: real)
    ensures d >= 0.0
    ensures d == 0.0 <==> p.F == 0.5
  {
    if p.F >= 0.5 then p.F - 0.5 else 0.5 - p.F
  }

  /** The reduce step: a left fold from the first point that moves to a later
      point only when it is strictly closer to even money. */
  function ClosestIndex(pts: seq<Point>): (k: nat)
    requires |pts| > 0
    ensures k < |pts|
    ensures forall j :: 0 <= j < |pts| ==> Distance(pts[k]) <= Distance(pts[j])
    ensures forall j :: 0 <= j < k ==> Distance(pts[k]) < Distance(pts[j])
  {
    if |pts| == 1 then 0
    else
      var best := ClosestIndex(pts[..|pts| - 1]);
      if Distance(pts[|pts| - 1]) < Distance(pts[best]) then |pts| - 1 else best
  }

  /** The usable points in the order the resolver scans them. */
  function SortedPoints(alts: seq<Quote>): seq<Point> {
    SortByLine(ToPoints(alts))
  }

  /** The even-money line of a non-empty sorted curve. */
  function Resolve(pts: seq<Point>): (r: real)
    requires |pts| > 0
    ensures exists i, j :: 0 <= i < |pts| && 0 <= j < |pts| && pts[i].line <= r <= pts[j].line
  {
    match FirstBracket(pts, 0)
    case Some(k) =>
      var a, b := pts[k], pts[k + 1];
      LinInterpWithinBracket(a.line, a.F, b.line, b.F, 0.5);
      var r := LinInterp(a.line, a.F, b.line, b.F, 0.5);
      if a.line <= r <= b.line then
        assert pts[k].line <= r <= pts[k + 1].line;
        r
      else
        assert pts[k + 1].line <= r <= pts[k].line;
        r
    case None =>
      var c := ClosestIndex(pts);
      assert pts[c].line <= pts[c].line <= pts[c].line;
      pts[c].line
  }

  /** The market's implied median total from alternate quotes; None when the
      list is absent or empty or no quote is usable. */
  function ImpliedMedian(alts: Option<seq<Quote>>): (m: Option<real>)
    ensures m.None? <==> alts.None? || forall i :: 0 <= i < |alts.value| ==> !Usable(alts.value[i])
  {
    if alts.None? || |alts.value| == 0 then None
    else
      var pts := SortedPoints(alts.value);
      if |pts| == 0 then None else Some(Resolve(pts))
  }

  /** The loop of the source: scan adjacent pairs, return at the first
      bracketing one, otherwise fall back to the closest point. */
  method ImpliedMedianFromAlts(alts: Option<seq<Quote>>) returns (m: Option<real>)
    ensures m == ImpliedMedian(alts)
  {
    if alts.None? || |alts.value| == 0 {
      return None;
    }
    var pts := SortByLine(ToPoints(alts.value));
    if |pts| == 0 {
      return None;
    }
    assert ImpliedMedian(alts) == Some(Resolve(pts));
    var i := 0;
    while i < |pts| - 1
      invariant 0 <= i <= |pts| - 1
      invariant forall j :: 0 <= j < i ==> !Brackets(pts[j], pts[j + 1])
    {
      var a, b := pts[i], pts[i + 1];
      if (a.F <= 0.5 && b.F >= 0.5) || (a.F >= 0.5 && b.F <= 0.5) {
        ResolveAtCrossing(pts, i);
        return Some(LinInterp(a.line, a.F, b.line, b.F, 0.5));
      }
      i := i + 1;
    }
    ResolveFallback(pts);
    return Some(pts[ClosestIndex(pts)].line);
  }

  lemma ResolveAtCrossing(pts: seq<Point>, k: nat)
    requires k + 1 < |pts| && Brackets(pts[k], pts[k + 1])
    requires forall j :: 0 <= j < k ==> !Brackets(pts[j], pts[j + 1])
    ensures Resolve(pts) == LinInterp(pts[k].line, pts[k].F, pts[k + 1].line, pts[k + 1].F, 0.5)
  {
    assert FirstBracket(pts, 0) == Some(k);
  }

  lemma ResolveFallback(pts: seq<Point>)
    requires |pts| > 0
    requires forall j :: 0 <= j && j + 1 < |pts| ==> !Brackets(pts[j], pts[j + 1])
    ensures Resolve(pts) == pts[ClosestIndex(pts)].line
  {
    assert FirstBracket(pts, 0) == None;
  }

  // ---- Properties ----

  /** When the k-th sorted pair is the first to bracket even money, the result
      is the interpolation there, and it lies between the pair's lines. */
  lemma ImpliedMedianAtFirstCrossing(alts: seq<Quote>, k: nat)
    requires var pts := SortedPoints(alts);
             k + 1 < |pts| && Brackets(pts[k], pts[k + 1]) &&
             forall j :: 0 <= j < k ==> !Brackets(pts[j], pts[j + 1])
    ensures var pts := SortedPoints(alts);
            var m := LinInterp(pts[k].line, pts[k].F, pts[k + 1].line, pts[k + 1].F, 0.5);
            ImpliedMedian(Some(alts)) == Some(m) && pts[k].line <= m <= pts[k + 1].line
  {
    var pts := SortedPoints(alts);
    assert |alts| >= |ToPoints(alts)| == |pts| > 0;
    var fb := FirstBracket(pts, 0);
    assert fb == Some(k);
    LinInterpWithinBracket(pts[k].line, pts[k].F, pts[k + 1].line, pts[k + 1].F, 0.5);
  }

  /** When no sorted pair brackets even money, the result is the line of the
      first point among those closest to even money. */
  lemma ImpliedMedianFallback(alts: seq<Quote>, k: nat)
    requires var pts := SortedPoints(alts);
             k < |pts| &&
             (forall j :: 0 <= j && j + 1 < |pts| ==> !Brackets(pts[j], pts[j + 1])) &&
             (forall j :: 0 <= j < |pts| ==> Distance(pts[k]) <= Distance(pts[j])) &&
             (forall j :: 0 <= j < k ==> Distance(pts[k]) < Distance(pts[j]))
    ensures ImpliedMedian(Some(alts)) == Some(SortedPoints(alts)[k].line)
  {
    var pts := SortedPoints(alts);
    assert |alts| >= |ToPoints(alts)| == |pts| > 0;
    var c := ClosestIndex(pts);
    assert c == k;
  }

  /** A result always lies between the lowest and highest usable line. */
  lemma ImpliedMedianWithinRange(alts: seq<Quote>)
    requires ImpliedMedian(Some(alts)).Some?
    ensures exists i :: 0 <= i < |ToPoints(alts)| && ToPoints(alts)[i].line <= ImpliedMedian(Some(alts)).value
    ensures exists j :: 0 <= j < |ToPoints(alts)| && ImpliedMedian(Some(alts)).value <= ToPoints(alts)[j].line
  {
    var m := ImpliedMedian(Some(alts)).value;
    var sorted := SortedPoints(alts);
    assert |sorted| > 0 && m == Resolve(sorted);
    var lo, hi := ResolveBetweenPoints(sorted);
    SortedPointIsUsable(alts, lo);
    SortedPointIsUsable(alts, hi);
  }

  /** The resolved line lies between the lines of two of the points. */
  lemma ResolveBetweenPoints(pts: seq<Point>) returns (lo: nat, hi: nat)
    requires |pts| > 0 && SortedByLine(pts)
    ensures lo < |pts| && hi < |pts|
    ensures pts[lo].line <= Resolve(pts) <= pts[hi].line
  {
    match FirstBracket(pts, 0) {
      case Some(k) =>
        assert Resolve(pts) == LinInterp(pts[k].line, pts[k].F, pts[k + 1].line, pts[k + 1].F, 0.5);
        LinInterpWithinBracket(pts[k].line, pts[k].F, pts[k + 1].line, pts[k + 1].F, 0.5);
        lo, hi := k, k + 1;
      case None =>
        lo := ClosestIndex(pts);
        hi := lo;
        assert Resolve(pts) == pts[lo].line;
    }
  }

  /** Every sorted point is the point of some usable quote. */
  lemma SortedPointIsUsable(alts: seq<Quote>, k: nat)
    requires k < |SortedPoints(alts)|
    ensures exists i :: 0 <= i < |ToPoints(alts)| && ToPoints(alts)[i] == SortedPoints(alts)[k]
  {
    var pts := ToPoints(alts);
    var sorted := SortedPoints(alts);
    assert sorted[k] in multiset(sorted);
    assert sorted[k] in pts;
  }

  /** The result does not depend on the order of the quotes when no two
      different usable points share a line. */
  lemma ImpliedMedianOrderIndependent(a1: seq<Quote>, a2: seq<Quote>)
    requires multiset(a1) == multiset(a2)
    requires LinesDistinct(multiset(ToPoints(a1)))
    ensures ImpliedMedian(Some(a1)) == ImpliedMedian(Some(a2))
  {
    assert |a1| == |multiset(a1)| == |a2|;
    ToPointsPermutation(a1, a2);
    SortedPermutationsEqual(SortedPoints(a1), SortedPoints(a2));
  }
}
