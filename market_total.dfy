/** The market-implied total of one game: a fixed precedence over live and
    pregame data, alternates before the main line within each. */
module MarketTotal {
  import opened Wrappers
  import opened AltLines

  /** The market data attached to a game; every part may be absent. */
  datatype MarketBundle = MarketBundle(
    liveMain: Option<Quote>,
    liveAlts: Option<seq<Quote>>,
    preMain: Option<Quote>,
    preAlts: Option<seq<Quote>>)

  /** A bundle with nothing in it, used when a game carries no markets. */
  const EmptyBundle := MarketBundle(None, None, None, None)

  /** The line of a main quote when the quote is there and its line is finite. */
  function MainLine(main: Option<Quote>): Option<real> {
    if main.Some? then main.value.line else None
  }

  /** The first finite result of: live alternates median, live main line,
      pregame alternates median, pregame main line. */
  function MarketImpliedTotal(m: MarketBundle): (t: Option<real>)
    ensures t.None? <==> ImpliedMedian(m.liveAlts).None? && MainLine(m.liveMain).None? &&
                         ImpliedMedian(m.preAlts).None? && MainLine(m.preMain).None?
    ensures t.Some? ==> t == ImpliedMedian(m.liveAlts) || t == MainLine(m.liveMain) ||
                        t == ImpliedMedian(m.preAlts) || t == MainLine(m.preMain)
  {
    var liveMedian := ImpliedMedian(m.liveAlts);
    if liveMedian.Some? then liveMedian
    else if MainLine(m.liveMain).Some? then MainLine(m.liveMain)
    else
      var preMedian := ImpliedMedian(m.preAlts);
      if preMedian.Some? then preMedian
      else if MainLine(m.preMain).Some? then MainLine(m.preMain)
      else None
  }

  /** The four sources, most preferred first. */
  function Candidates(m: MarketBundle): (cs: seq<Option<real>>)
    ensures |cs| == 4
  {
    [ImpliedMedian(m.liveAlts), MainLine(m.liveMain), ImpliedMedian(m.preAlts), MainLine(m.preMain)]
  }

  /** Reference combinator: the first present value of a list. */
  function FirstPresent(cs: seq<Option<real>>): (r: Option<real>)
    ensures r.None? <==> forall k :: 0 <= k < |cs| ==> cs[k].None?
    ensures r.Some? ==> exists k :: 0 <= k < |cs| && cs[k] == r && forall j :: 0 <= j < k ==> cs[j].None?
  {
    if |cs| == 0 then None
    else if cs[0].Some? then cs[0]
    else
      var r := FirstPresent(cs[1..]);
      assert forall k :: 0 <= k < |cs[1..]| ==> cs[1..][k] == cs[k + 1];
      r
  }

  /** The precedence chain is exactly "first present" over the four sources. */
  lemma MarketImpliedTotalIsFirstPresent(m: MarketBundle)
    ensures MarketImpliedTotal(m) == FirstPresent(Candidates(m))
  {
    var cs := Candidates(m);
    var cs1 := cs[1..];
    var cs2 := cs1[1..];
    var cs3 := cs2[1..];
    assert cs3[1..] == [];
    assert FirstPresent(cs3) == cs3[0];
    assert cs3[0] == cs[3] && cs2[0] == cs[2] && cs1[0] == cs[1];
    assert FirstPresent(cs2) == if cs2[0].Some? then cs2[0] else FirstPresent(cs3);
    assert FirstPresent(cs1) == if cs1[0].Some? then cs1[0] else FirstPresent(cs2);
    assert FirstPresent(cs) == if cs[0].Some? then cs[0] else FirstPresent(cs1);
  }

  /** An equivalent statement with an index: when source k is the first
      present one, the total is its value. */
  lemma MarketImpliedTotalPrecedence(m: MarketBundle, k: nat)
    requires k < 4
    requires Candidates(m)[k].Some?
    requires forall j :: 0 <= j < k ==> Candidates(m)[j].None?
    ensures MarketImpliedTotal(m) == Candidates(m)[k]
  {
    MarketImpliedTotalIsFirstPresent(m);
    var cs := Candidates(m);
    var r := FirstPresent(cs);
    var i :| 0 <= i < |cs| && cs[i] == r && forall j :: 0 <= j < i ==> cs[j].None?;
    assert i == k;
  }

  /** Live data, when there is any, always wins over pregame data. */
  lemma LiveBeatsPregame(m: MarketBundle)
    requires ImpliedMedian(m.liveAlts).Some? || MainLine(m.liveMain).Some?
    ensures MarketImpliedTotal(m) == ImpliedMedian(m.liveAlts) || MarketImpliedTotal(m) == MainLine(m.liveMain)
    ensures MarketImpliedTotal(m).Some?
  {
  }

  /** A bundle holding only a pregame main line resolves to that line. */
  lemma OnlyPregameMainLine(line: real, over: Option<real>, under: Option<real>)
    ensures MarketImpliedTotal(MarketBundle(None, None, Some(Quote(Some(line), over, under)), None)) == Some(line)
  {
  }

  /** An empty bundle gives no total. */
  lemma EmptyBundleHasNoTotal()
    ensures MarketImpliedTotal(EmptyBundle) == None
  {
  }
}
