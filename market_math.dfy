/** The probability normalizer: American odds to a raw implied probability,
    proportional removal of the bookmaker margin from an over/under pair,
    and the linear interpolation used to find where the fair curve crosses
    even money. All arithmetic is exact, over `real`. */
module MarketMath {

  /** Raw implied probability of an American price. A positive price pays
      `odds` per 100 staked; a negative price needs `-odds` staked to win 100.
      The margin is still in it. */
  function AmericanToProbRaw(odds: real): (p: real)
    ensures 0.0 < p <= 1.0
    ensures p == 1.0 <==> odds == 0.0
  {
    if odds >= 0.0 then
      RatioInUnit(100.0, odds + 100.0);
      100.0 / (odds + 100.0)
    else
      RatioInUnit(-odds, (-odds) + 100.0);
      (-odds) / ((-odds) + 100.0)
  }

  /** A positive numerator no larger than the denominator gives a ratio in (0, 1]. */
  lemma RatioInUnit(a: real, b: real)
    requires 0.0 < a <= b
    ensures 0.0 < a / b <= 1.0
    ensures a / b == 1.0 <==> a == b
  {
    ShiftQuotient(a, b, 1.0);
    assert a / b - 1.0 == (a - b) / b;
  }

  /** Subtracting m from a quotient subtracts m times the divisor from the dividend. */
  lemma ShiftQuotient(c: real, q: real, m: real)
    requires q != 0.0
    ensures c / q - m == (c - m * q) / q
  {
  }

  /** Decimal odds of an American price: what one unit staked returns,
      stake included. An independent reference for AmericanToProbRaw. */
  function DecimalOdds(odds: real): (d: real)
    ensures d >= 1.0
    ensures odds != 0.0 ==> d > 1.0
  {
    if odds >= 0.0 then 1.0 + odds / 100.0 else 1.0 + 100.0 / (-odds)
  }

  /** The American price quoted for a probability strictly between 0 and 1:
      an underdog price (at least +100) up to even money, a favourite price
      (below -100) above it. The inverse of AmericanToProbRaw on prices at
      +100 or longer and on prices shorter than -100. */
  function ProbToAmerican(p: real): (odds: real)
    requires 0.0 < p < 1.0
    ensures p <= 0.5 ==> odds >= 100.0
    ensures p > 0.5 ==> odds < -100.0
  {
    if p <= 0.5 then
      ReciprocalAtLeast(p, 100.0);
      100.0 / p - 100.0
    else
      ReciprocalAtLeast(1.0 - p, 100.0 * p);
      -(100.0 * p) / (1.0 - p)
  }

  /** The quotient c / q exceeds m exactly when c exceeds m times q (for q > 0). */
  lemma ReciprocalAtLeast(q: real, c: real)
    requires 0.0 < q
    ensures q * 2.0 <= c / 100.0 ==> c / q >= 200.0
    ensures q < c / 100.0 ==> c / q > 100.0
  {
    ShiftQuotient(c, q, 200.0);
    ShiftQuotient(c, q, 100.0);
  }

  /** Both even-money prices, +100 and -100, mean probability one half,
      which is quoted back as +100. */
  lemma EvenMoney()
    ensures AmericanToProbRaw(100.0) == 0.5
    ensures AmericanToProbRaw(-100.0) == 0.5
    ensures ProbToAmerican(AmericanToProbRaw(-100.0)) == 100.0
  {
  }

  /** The raw probability is the reciprocal of the decimal payout. */
  lemma ProbIsReciprocalOfPayout(odds: real)
    ensures AmericanToProbRaw(odds) * DecimalOdds(odds) == 1.0
  {
    if odds >= 0.0 {
      assert DecimalOdds(odds) == (odds + 100.0) / 100.0;
    } else {
      assert DecimalOdds(odds) == ((-odds) + 100.0) / (-odds);
    }
  }

  /** Within each sign, a longer price means a smaller probability. */
  lemma AmericanToProbRawAntitone(o1: real, o2: real)
    requires o1 < o2
    requires (o1 >= 0.0 && o2 >= 0.0) || (o1 < 0.0 && o2 < 0.0)
    ensures AmericanToProbRaw(o1) > AmericanToProbRaw(o2)
  {
    if o1 >= 0.0 {
      QuotientAntitone(100.0, o1 + 100.0, o2 + 100.0);
    } else {
      assert (-o1) / ((-o1) + 100.0) == 1.0 - 100.0 / ((-o1) + 100.0);
      assert (-o2) / ((-o2) + 100.0) == 1.0 - 100.0 / ((-o2) + 100.0);
      QuotientAntitone(100.0, (-o2) + 100.0, (-o1) + 100.0);
    }
  }

  /** A positive quantity shared among more gives each less. */
  lemma QuotientAntitone(c: real, a: real, b: real)
    requires 0.0 < c && 0.0 < a < b
    ensures c / a > c / b
  {
    var qb := c / b;
    assert qb * a < qb * b == c;
    ShiftQuotient(c, a, qb);
  }

  /** Every probability strictly between 0 and 1 is recovered from its price. */
  lemma ProbToAmericanRoundTrip(p: real)
    requires 0.0 < p < 1.0
    ensures AmericanToProbRaw(ProbToAmerican(p)) == p
  {
    var odds := ProbToAmerican(p);
    if p <= 0.5 {
      assert odds + 100.0 == 100.0 / p;
    } else {
      assert -odds == (100.0 * p) / (1.0 - p);
      assert (-odds) + 100.0 == 100.0 / (1.0 - p);
    }
  }

  /** Every price at +100 or longer, or shorter than -100, is recovered from
      its probability; -100 comes back as +100, its even-money twin. */
  lemma AmericanRoundTrip(odds: real)
    requires odds >= 100.0 || odds < -100.0
    ensures 0.0 < AmericanToProbRaw(odds) < 1.0
    ensures ProbToAmerican(AmericanToProbRaw(odds)) == odds
  {
    var p := AmericanToProbRaw(odds);
    if odds >= 100.0 {
      assert p <= 0.5;
      assert 100.0 / p == odds + 100.0;
    } else {
      assert p > 0.5;
      assert 1.0 - p == 100.0 / ((-odds) + 100.0);
      assert (100.0 * p) / (1.0 - p) == -odds;
    }
  }

  /** A fair probability pair for the two sides of a total. */
  datatype FairPair = FairPair(pOver: real, pUnder: real)

  /** Proportional ("multiplicative") de-vig of an over/under pair: each side
      is divided by the overround, so the pair sums to one and keeps the
      ratio of the raw probabilities. */
  function DevigTwoWay(pOverRaw: real, pUnderRaw: real): (r: FairPair)
    requires pOverRaw + pUnderRaw != 0.0
    ensures r.pOver + r.pUnder == 1.0
    ensures r.pOver * (pOverRaw + pUnderRaw) == pOverRaw
    ensures r.pUnder * (pOverRaw + pUnderRaw) == pUnderRaw
    ensures pOverRaw > 0.0 && pUnderRaw > 0.0 ==>
              0.0 < r.pOver < 1.0 && 0.0 < r.pUnder < 1.0
  {
    var d := pOverRaw + pUnderRaw;
    var pOver := pOverRaw / d;
    FairPair(pOver, 1.0 - pOver)
  }

  /** A pair that sums to one and is in the raw ratio is the de-vigged pair. */
  lemma DevigUnique(pOverRaw: real, pUnderRaw: real, x: real, y: real)
    requires pOverRaw + pUnderRaw != 0.0
    requires x + y == 1.0
    requires x * pUnderRaw == y * pOverRaw
    ensures DevigTwoWay(pOverRaw, pUnderRaw) == FairPair(x, y)
  {
    var d := pOverRaw + pUnderRaw;
    assert x * d == x * pOverRaw + y * pOverRaw;
    assert x * d == pOverRaw;
    assert x == pOverRaw / d;
  }

  /** Only the ratio of the raw probabilities matters, not the size of the margin. */
  lemma DevigScaleInvariant(pOverRaw: real, pUnderRaw: real, k: real)
    requires pOverRaw + pUnderRaw != 0.0
    requires k != 0.0
    ensures k * pOverRaw + k * pUnderRaw != 0.0
    ensures DevigTwoWay(k * pOverRaw, k * pUnderRaw) == DevigTwoWay(pOverRaw, pUnderRaw)
  {
    assert k * pOverRaw + k * pUnderRaw == k * (pOverRaw + pUnderRaw);
    var r := DevigTwoWay(pOverRaw, pUnderRaw);
    assert r.pOver * (k * pUnderRaw) == k * (r.pOver * pUnderRaw);
    assert r.pUnder * (k * pOverRaw) == k * (r.pUnder * pOverRaw);
    assert r.pOver * pUnderRaw == r.pUnder * pOverRaw;
    DevigUnique(k * pOverRaw, k * pUnderRaw, r.pOver, r.pUnder);
  }

  /** A pair that is already fair is left unchanged. */
  lemma DevigFairFixed(pOver: real)
    ensures DevigTwoWay(pOver, 1.0 - pOver) == FairPair(pOver, 1.0 - pOver)
  {
  }

  /** Linear interpolation of the x at which the line through (x1, F1) and
      (x2, F2) reaches `target`; a flat segment gives the midpoint. */
  function LinInterp(x1: real, F1: real, x2: real, F2: real, target: real): (r: real)
    ensures F1 == F2 ==> r == (x1 + x2) / 2.0
    ensures F1 != F2 ==> (r - x1) * (F2 - F1) == (target - F1) * (x2 - x1)
  {
    if F2 == F1 then (x1 + x2) / 2.0
    else
      var t := (target - F1) / (F2 - F1);
      x1 + t * (x2 - x1)
  }

  /** On a sloped segment the interpolation hits the endpoints exactly. */
  lemma LinInterpEndpoints(x1: real, F1: real, x2: real, F2: real)
    requires F1 != F2
    ensures LinInterp(x1, F1, x2, F2, F1) == x1
    ensures LinInterp(x1, F1, x2, F2, F2) == x2
  {
  }

  /** A target between F1 and F2 (in either order, inclusive) is reached at an
      x between x1 and x2. */
  lemma LinInterpWithinBracket(x1: real, F1: real, x2: real, F2: real, target: real)
    requires (F1 <= target <= F2) || (F2 <= target <= F1)
    ensures (x1 <= LinInterp(x1, F1, x2, F2, target) <= x2) ||
            (x2 <= LinInterp(x1, F1, x2, F2, target) <= x1)
  {
    var r := LinInterp(x1, F1, x2, F2, target);
    if F1 != F2 {
      var t := (target - F1) / (F2 - F1);
      assert r == x1 + t * (x2 - x1);
      InterpFractionInUnit(F1, F2, target);
      PointOnSegment(x1, x2, t);
    } else {
      assert r == (x1 + x2) / 2.0;
      assert (x1 <= r <= x2) || (x2 <= r <= x1);
    }
  }

  /** The fraction of the way from F1 to F2 at which a target between them sits. */
  lemma InterpFractionInUnit(F1: real, F2: real, target: real)
    requires F1 != F2
    requires (F1 <= target <= F2) || (F2 <= target <= F1)
    ensures 0.0 <= (target - F1) / (F2 - F1) <= 1.0
  {
    ShiftQuotient(target - F1, F2 - F1, 1.0);
    if F1 < F2 {
      assert (target - F2) / (F2 - F1) <= 0.0;
    } else {
      assert (target - F1) / (F2 - F1) == (F1 - target) / (F1 - F2);
      assert (target - F2) / (F2 - F1) == -((target - F2) / (F1 - F2));
    }
  }

  /** A point a fraction t in [0, 1] of the way from x1 to x2 lies between them. */
  lemma PointOnSegment(x1: real, x2: real, t: real)
    requires 0.0 <= t <= 1.0
    ensures (x1 <= x1 + t * (x2 - x1) <= x2) || (x2 <= x1 + t * (x2 - x1) <= x1)
  {
    var span := x2 - x1;
    assert span - t * span == (1.0 - t) * span;
    if span >= 0.0 {
      assert 0.0 <= t * span && 0.0 <= (1.0 - t) * span;
    } else {
      assert t * span <= 0.0 && (1.0 - t) * span <= 0.0;
    }
  }
}
