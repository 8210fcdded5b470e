# MLB slate runs tracker: market math

This project models the market-math engine of the MLB runs tracker front end
(`mlb-runs-tracker/public/script.js`, lines 1–39) and proves properties of it in Dafny.
The engine turns sportsbook total-runs quotes into one expected final total per game.
It then adds those totals up across a slate:

- **MarketMath** converts American odds to raw implied probabilities.
  It removes the bookmaker margin from an over/under pair by proportional de-vig.
  It also interpolates linearly to a target probability.
- **AltLines** takes the alternate-total quotes of one game.
  It keeps the quotes whose line and both prices are finite.
  Each becomes a point (line, fair probability of the under), and the points are stably sorted by line.
  The result is the line where the curve first crosses even money, found by interpolating the first adjacent pair that brackets 0.5.
  If no pair does, the result is the line of the first point closest to 0.5.
  There is no result when no quote is usable.
  The early-exit scan is a method with a `while` loop, proved equal to the specification function `ImpliedMedian`.
- **MarketTotal** picks a game's market total by fixed precedence.
  The order is: live alternates median, live main line, pregame alternates median, pregame main line.
- **Slate** sums the runs already scored, each clamped at 0.
  For every game that is not final it adds what the market still expects, the total less the runs scored and never below 0.
  The loop over the games is a method proved equal to the specification function `Summary`.
- **Wrappers** holds the `Option` type.

All arithmetic is exact rational arithmetic over `real`.
A JavaScript value that is missing, `null`, `NaN` or infinite (anything `Number.isFinite` rejects) is `None`.
Game status is an enumeration, and only `Final` is treated specially, as in the source.

Three facts about the source shape the model:

- American odds of -100 give probability 0.5, like +100 (`script.js:2`, `MarketMath.EvenMoney`).
- Alternate quotes are not de-duplicated by line, and the stable sort keeps quotes at equal lines in input order (`script.js:7-10`).
  So the result can depend on the input order when two quotes share a line (`AltLinesExamples.DuplicateLinesMakeOrderMatter`).
  The order-independence lemma therefore requires distinct lines.
- A game's runs are its `runsSoFar` field (`script.js:30`).

## Model

| member | source | states |
|---|---|---|
| MarketMath.AmericanToProbRaw | mlb-runs-tracker/public/script.js:2 | the raw probability lies in (0, 1], and it is 1 exactly when the odds are 0 |
| MarketMath.EvenMoney | mlb-runs-tracker/public/script.js:2 | both +100 and -100 give probability 0.5, and that probability converts back to +100 |
| MarketMath.DecimalOdds | mlb-runs-tracker/public/script.js:2 | reference for script.js:2: the decimal payout of a price is at least 1, and above 1 for any non-zero price |
| MarketMath.ProbIsReciprocalOfPayout | mlb-runs-tracker/public/script.js:2 | the raw probability times the decimal payout is exactly 1, for every price |
| MarketMath.AmericanToProbRawAntitone | mlb-runs-tracker/public/script.js:2 | for prices of the same sign, a larger price gives a strictly smaller probability |
| MarketMath.ProbToAmerican | mlb-runs-tracker/public/script.js:2 | reference for script.js:2: the price of a probability in (0, 1) is at least +100 up to 0.5 and below -100 above it |
| MarketMath.ProbToAmericanRoundTrip | mlb-runs-tracker/public/script.js:2 | converting a probability in (0, 1) to a price and back gives the same probability |
| MarketMath.AmericanRoundTrip | mlb-runs-tracker/public/script.js:2 | a price of at least +100 or below -100 is recovered from its probability |
| MarketMath.DevigTwoWay | mlb-runs-tracker/public/script.js:3 | the fair pair sums to 1, each side times the raw sum is its raw value, and both sides lie strictly in (0, 1) when both raw values are positive |
| MarketMath.DevigUnique | mlb-runs-tracker/public/script.js:3 | any pair that sums to 1 and keeps the raw ratio is the de-vigged pair |
| MarketMath.DevigScaleInvariant | mlb-runs-tracker/public/script.js:3 | scaling both raw values by the same non-zero factor leaves the fair pair unchanged |
| MarketMath.DevigFairFixed | mlb-runs-tracker/public/script.js:3 | a pair that already sums to 1 is returned unchanged |
| MarketMath.LinInterp | mlb-runs-tracker/public/script.js:4 | a flat segment gives the midpoint; otherwise the result is on the line through both points at the target |
| MarketMath.LinInterpEndpoints | mlb-runs-tracker/public/script.js:4 | on a sloped segment, target F1 gives x1 and target F2 gives x2 |
| MarketMath.LinInterpWithinBracket | mlb-runs-tracker/public/script.js:4 | a target between F1 and F2, inclusive and in either order, gives a result between x1 and x2 |
| AltLines.Usable | mlb-runs-tracker/public/script.js:8 | definition of the filter: the line and both prices are finite |
| AltLines.PointOf | mlb-runs-tracker/public/script.js:9 | the point of a usable quote keeps its line and has a fair under-probability strictly in (0, 1) |
| AltLines.FairUnder | mlb-runs-tracker/public/script.js:9 | the fair under-probability of a usable quote lies strictly in (0, 1) |
| AltLines.ToPoints | mlb-runs-tracker/public/script.js:7-9 | there are no more points than quotes, there are none exactly when no quote is usable, and every fair probability lies in (0, 1) |
| AltLines.ToPointsPermutation | mlb-runs-tracker/public/script.js:7-9 | reordering the quotes only reorders the points |
| AltLines.InsertByLine | mlb-runs-tracker/public/script.js:10 | insertion adds exactly one point and keeps a sorted list sorted |
| AltLines.SortByLine | mlb-runs-tracker/public/script.js:10 | the sort is a permutation of its input and is ordered by line |
| AltLines.InsertByLineAtEnd | mlb-runs-tracker/public/script.js:10 | a point above every line of a list goes to its end |
| AltLines.SortByLineSorted | mlb-runs-tracker/public/script.js:10 | input already in line order is left unchanged |
| AltLines.SortByLineStable | mlb-runs-tracker/public/script.js:10 | at every line, the sorted points keep their input order (stability) |
| AltLines.SortedPermutationsEqual | mlb-runs-tracker/public/script.js:10 | with distinct lines, two sorted permutations of the same points are equal |
| AltLines.Brackets | mlb-runs-tracker/public/script.js:14 | definition of the test: one endpoint is at or below 0.5 and the other at or above it, in either order |
| AltLines.FirstBracket | mlb-runs-tracker/public/script.js:12-14 | it finds the first adjacent pair that brackets 0.5, or there is none |
| AltLines.Distance | mlb-runs-tracker/public/script.js:16 | the distance of a probability from 0.5 is never negative, and it is 0 exactly at 0.5 |
| AltLines.ClosestIndex | mlb-runs-tracker/public/script.js:16 | the chosen point is as close to 0.5 as every point, and strictly closer than every earlier point (ties go to the earliest) |
| AltLines.Resolve | mlb-runs-tracker/public/script.js:12-16 | the scan and fallback on the sorted points; the result lies between the lines of two of the points, and ResolveAtCrossing, ResolveFallback and ResolveBetweenPoints state which value it is |
| AltLines.ResolveAtCrossing | mlb-runs-tracker/public/script.js:12-14 | when pair k is the first to bracket 0.5, the sorted curve resolves to the interpolation at pair k |
| AltLines.ResolveFallback | mlb-runs-tracker/public/script.js:16 | when no pair brackets 0.5, the curve resolves to the line of the closest point |
| AltLines.ResolveBetweenPoints | mlb-runs-tracker/public/script.js:12-16 | on a sorted curve the resolved line lies between the lines of two of its points |
| AltLines.ImpliedMedian | mlb-runs-tracker/public/script.js:5-17 | no result exactly when the list is absent or empty, or no quote has a finite line and both prices |
| AltLines.ImpliedMedianFromAlts | mlb-runs-tracker/public/script.js:5-17 | the loop with the early return computes the specification function ImpliedMedian |
| AltLines.ImpliedMedianAtFirstCrossing | mlb-runs-tracker/public/script.js:12-15 | when pair k is the first to bracket 0.5, the result is the interpolation at that pair and lies in [pts[k].line, pts[k+1].line] |
| AltLines.ImpliedMedianFallback | mlb-runs-tracker/public/script.js:16 | when no pair brackets 0.5, the result is the line of the first point closest to 0.5 |
| AltLines.ImpliedMedianWithinRange | mlb-runs-tracker/public/script.js:5-17 | every result lies between some usable line and some usable line, so within [min line, max line] |
| AltLines.ImpliedMedianOrderIndependent | mlb-runs-tracker/public/script.js:5-17 | when no two usable points share a line, the order of the quotes does not change the result |
| AltLinesExamples.EvenPrices | mlb-runs-tracker/public/script.js:9 | the quote 8.5 at +100/-100 becomes the point (8.5, 0.5) |
| AltLinesExamples.SixtyFortyPrices | mlb-runs-tracker/public/script.js:9 | prices of +150/-150 give a fair under of 0.6, and -150/+150 give 0.4 |
| AltLinesExamples.SeventyThirtyPrices | mlb-runs-tracker/public/script.js:9 | prices of +700/3 and -700/3 give a fair under of 0.7, and the reverse gives 0.3 |
| AltLinesExamples.EightyTwentyPrices | mlb-runs-tracker/public/script.js:9 | prices of +400/-400 give a fair under of 0.8, and -400/+400 give 0.2 |
| AltLinesExamples.CrossingOnASample | mlb-runs-tracker/public/script.js:5-17 | quotes at 9.5 (0.3), 7.5 (0.6) and 8.5 (0.5), given out of order, resolve to 8.5 |
| AltLinesExamples.NoCrossingFallsBackToClosest | mlb-runs-tracker/public/script.js:16 | quotes at 6.5 (0.8) and 7.5 (0.7) never cross 0.5, so the result is 7.5 |
| AltLinesExamples.DuplicateLinesMakeOrderMatter | mlb-runs-tracker/public/script.js:10-15 | the same three quotes, with two at line 8, resolve to 7.5 in one order and 8.0 in another |
| MarketTotal.MainLine | mlb-runs-tracker/public/script.js:21-24 | definition of `Number.isFinite(x?.line)`: the line of a main quote when the quote is there and its line is finite |
| MarketTotal.MarketImpliedTotal | mlb-runs-tracker/public/script.js:18-26 | no total exactly when all four sources are missing; otherwise the total is one of the four |
| MarketTotal.FirstPresent | mlb-runs-tracker/public/script.js:18-26 | the first present value of a list: none exactly when every entry is missing, otherwise an entry with only missing ones before it |
| MarketTotal.MarketImpliedTotalIsFirstPresent | mlb-runs-tracker/public/script.js:18-26 | the precedence chain is the first present of live alternates median, live main line, pregame alternates median and pregame main line |
| MarketTotal.MarketImpliedTotalPrecedence | mlb-runs-tracker/public/script.js:18-26 | when source k is the first present one, the total is its value |
| MarketTotal.LiveBeatsPregame | mlb-runs-tracker/public/script.js:19-21 | any live value means the total is live |
| MarketTotal.OnlyPregameMainLine | mlb-runs-tracker/public/script.js:24 | a bundle holding only a pregame main line resolves to that line |
| MarketTotal.EmptyBundleHasNoTotal | mlb-runs-tracker/public/script.js:25 | an empty bundle has no total |
| Slate.RunsScored | mlb-runs-tracker/public/script.js:30 | a game's runs are never negative |
| Slate.BundleOf | mlb-runs-tracker/public/script.js:33 | definition of the `g.markets` fallback to an empty object: the game's bundle, or the empty bundle when it has none |
| Slate.ExpectedRemaining | mlb-runs-tracker/public/script.js:32-35 | a game's remaining expectation is never negative |
| Slate.TotalRunsScored | mlb-runs-tracker/public/script.js:29-31 | the sum over the games of the clamped runs; it is never negative |
| Slate.ExpectedRemainingSum | mlb-runs-tracker/public/script.js:32-36 | the sum over the games of the remaining expectation; it is never negative |
| Slate.Summary | mlb-runs-tracker/public/script.js:27-38 | the two numbers the loop is proved to compute: total runs scored is at least 0, and the projection is at least the total |
| Slate.ComputeTwoNumbers | mlb-runs-tracker/public/script.js:27-39 | the loop computes the specification function Summary, and 0 <= total runs <= projected finish |
| Slate.SumOfPermutation | mlb-runs-tracker/public/script.js:29-37 | a per-game sum does not depend on the order of the games |
| Slate.SummaryAppendGame | mlb-runs-tracker/public/script.js:29-37 | a game adds its clamped runs to the total; to the projection it adds those runs, plus its total less those runs (at least 0) unless it is final or has no total |
| Slate.ProjectedIsSumOfFinishes | mlb-runs-tracker/public/script.js:27-39 | the projection is the sum of per-game finishes: the runs scored, or the larger of runs and market total for a priced game that is not final |
| Slate.SummaryOrderIndependent | mlb-runs-tracker/public/script.js:27-39 | the summary does not depend on the order of the games |
| Slate.SettledOrUnpricedAddNothing | mlb-runs-tracker/public/script.js:31-35 | when every game is final or has no total, the projection equals the runs scored |
| Slate.TwoGameSlate | mlb-runs-tracker/public/script.js:27-39 | a final game with 9 runs plus a live game with 3 runs that has only a pregame line of 9.0 gives 12 scored and 18 projected |

## Left out

- Floating point: the model is exact over `real`. Rounding, overflow to infinity and `NaN` results of arithmetic are not modelled. Values that are not finite numbers on input are `None`.
- MarketMath.DevigTwoWay: requires a non-zero raw sum. At a zero sum the source divides by zero and gets non-finite values. The only caller always passes two positive raw probabilities.
- The example lemmas for the resolver are stated over quotes with given fair points. Separate lemmas give prices that produce those points. Concrete prices are not pushed through the whole resolver in one lemma.
- MarketMath.LinInterp: the source's default `target = .5` (`script.js:4`) is an explicit parameter. Every call passes 0.5, so no behaviour is lost.
- The user interface of `script.js` (lines 41–123) is not part of this model: DOM access, rendering, `fetch` and the refresh timer.
- `server.js` is not part of this model: the odds feed, the JSON mapping and the computation of `runsSoFar` and the game state. Games are given inputs.
- JavaScript type coercion of non-numeric fields (for example a string `runsSoFar`) is not modelled. A runs field is a number or `None`.
