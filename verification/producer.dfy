/**
 One run of the producer: for each coin in a fixed order, fetch its price,
 append the price to the coin's history, then judge the price against the
 history as it stands after that append. The price request is a parameter
 (`fetch`), since it is a network call.
 */
module Producer {
  import opened Wrappers
  import opened DecimalText
  import opened Stats
  import opened Alerts
  import opened PriceStore

  /** The coins polled, in the order they are polled. */
  const Coins: seq<string> := ["btcusd", "ltcusd", "dogeusd"]

  /** Why `fetch_coin_price` raised: the price request failed, or its answer carried no price. */
  datatype FetchError =
    | SourceUnavailable     // the price request could not complete
    | MalformedResponse     // the response had no numeric `result.price`

  /** What one run leaves behind: the store, the verdicts in order, and the error that stopped it, if any. */
  datatype Run = Run(store: Store, verdicts: seq<Verdict>, failure: Option<FetchError>)

  /** The last `min(3599, |history|)` entries: the part of the old history that shares a window with a new entry. */
  function RecentPrior(history: seq<string>): (w: seq<string>)
    ensures |w| == Min(HourWindow - 1, |history|)
    ensures w == history[|history| - |w|..]
  {
    PySliceFrom(history, -(HourWindow as int - 1))
  }

  /** After appending `entry`, the hour window is the recent prior history followed by `entry`. */
  lemma WindowAfterAppend(history: seq<string>, entry: string)
    ensures HourMetrics(history + [entry]) == RecentPrior(history) + [entry]
  {
    var h := history + [entry];
    var w := HourMetrics(h);
    var p := RecentPrior(history);
    assert |w| == |p| + 1;
    forall i | 0 <= i < |w| ensures w[i] == (p + [entry])[i] {
      if i < |p| {
        assert w[i] == h[|h| - |w| + i];
        assert h[|h| - |w| + i] == history[|history| - |p| + i];
      }
    }
  }

  /** The filtered window after a write ends with the written price itself. */
  lemma PricesAfterAppend(history: seq<string>, price: Decimal)
    ensures ParseAll(HourMetrics(history + [Format(price)]))
            == ParseAll(RecentPrior(history)) + [price.Value()]
  {
    WindowAfterAppend(history, Format(price));
    ParseAllAppend(RecentPrior(history), [Format(price)]);
    FormatParseRoundTrip(price);
    assert ParseAll([Format(price)]) == [price.Value()];
  }

  /**
   `write_to_ddb`: append `str(price)` to the coin's history, then call
   `generate_alerts` on the updated history. Because the written price is
   always in its own window, the mean never raises here.
   */
  function WriteToDdb(store: Store, coin: string, price: Decimal): (r: (Store, Result<Verdict, MeanError>))
    ensures History(r.0, coin) == History(store, coin) + [Format(price)]
    ensures forall c :: c != coin ==> History(r.0, c) == History(store, c)
    ensures r.1 == GenerateAlerts(coin, price.Value(), History(store, coin) + [Format(price)])
    ensures r.1.Success? && r.1.value.coin == coin && r.1.value.price == price.Value()
  {
    var store' := AppendPrice(store, coin, Format(price));
    PricesAfterAppend(History(store, coin), price);
    (store', GenerateAlerts(coin, price.Value(), History(store', coin)))
  }

  /**
   The self-inclusion of the written price, stated as arithmetic: with `n`
   readable prior prices in the window summing to `total`, `n + 1` copies of
   the baseline add up to `total + p`, and the alert fires exactly when
   `n * p > 2 * p + 3 * total`, that is when `p * (n - 2) > 3 * total`.
   */
  lemma SelfInclusion(history: seq<string>, coin: string, price: Decimal)
    ensures GenerateAlerts(coin, price.Value(), history + [Format(price)]).Success?
    ensures Copies(|ParseAll(RecentPrior(history))| + 1,
                   GenerateAlerts(coin, price.Value(), history + [Format(price)]).value.baseline)
            == Sum(ParseAll(RecentPrior(history))) + price.Value()
    ensures GenerateAlerts(coin, price.Value(), history + [Format(price)]).value.raised
            <==> Copies(|ParseAll(RecentPrior(history))|, price.Value())
                 > 2.0 * price.Value() + 3.0 * Sum(ParseAll(RecentPrior(history)))
  {
    PricesAfterAppend(history, price);
    var p := price.Value();
    var prior := ParseAll(RecentPrior(history));
    JudgeWithOwnPrice(coin, p, prior);
    assert GenerateAlerts(coin, p, history + [Format(price)]) == Judge(coin, p, prior + [p]);
  }

  /** The verdict on readable prices `prior` followed by the judged price `p` itself. */
  lemma JudgeWithOwnPrice(coin: string, p: real, prior: seq<real>)
    ensures Judge(coin, p, prior + [p]).Success?
    ensures Copies(|prior| + 1, Judge(coin, p, prior + [p]).value.baseline) == Sum(prior) + p
    ensures Judge(coin, p, prior + [p]).value.raised <==> Copies(|prior|, p) > 2.0 * p + 3.0 * Sum(prior)
  {
    var v := Judge(coin, p, prior + [p]).value;
    OwnMeanBaseline(v.baseline, p, prior);
    ThresholdScaled(v.baseline, p, |prior|, Sum(prior));
  }

  /** A mean of prices ending in `p` has `n + 1` copies adding up to the prior total plus `p`. */
  lemma OwnMeanBaseline(b: real, p: real, prior: seq<real>)
    requires Mean(prior + [p]) == Success(b)
    ensures Copies(|prior| + 1, b) == Sum(prior) + p
  {
    MeanOfExtended(prior, p);
  }

  /**
   When `b` is the mean of `n` values totalling `t` and `p` itself, `p > 3 * b`
   exactly when `n * p > 2 * p + 3 * t`.
   */
  lemma ThresholdScaled(b: real, p: real, n: nat, t: real)
    requires Copies(n + 1, b) == t + p
    ensures p > 3.0 * b <==> Copies(n, p) > 2.0 * p + 3.0 * t
  {
    CopiesIsProduct(n + 1, b);
    CopiesIsProduct(n, p);
    var m := n as real + 1.0;
    assert b * m == t + p;
    assert p > 3.0 * b <==> p * m > 3.0 * b * m;
  }

  /** With no history, the first written price is its own baseline, so a non-negative price never alerts. */
  lemma FirstPriceIsOwnBaseline(store: Store, coin: string, price: Decimal)
    requires History(store, coin) == []
    ensures WriteToDdb(store, coin, price).1.value.baseline == price.Value()
    ensures WriteToDdb(store, coin, price).1.value.raised <==> price.Value() < 0.0
  {
    SelfInclusion(History(store, coin), coin, price);
    assert RecentPrior([]) == [];
    assert Copies(1, WriteToDdb(store, coin, price).1.value.baseline)
        == WriteToDdb(store, coin, price).1.value.baseline;
  }

  /**
   With at most two readable prior prices, all non-negative, a non-negative
   price can never alert: its own weight in the baseline is too large.
   */
  lemma FewPricesNeverAlert(store: Store, coin: string, price: Decimal)
    requires |ParseAll(RecentPrior(History(store, coin)))| <= 2
    requires forall k :: 0 <= k < |ParseAll(RecentPrior(History(store, coin)))| ==>
               ParseAll(RecentPrior(History(store, coin)))[k] >= 0.0
    requires price.mantissa >= 0
    ensures !WriteToDdb(store, coin, price).1.value.raised
  {
    var prior := ParseAll(RecentPrior(History(store, coin)));
    SelfInclusion(History(store, coin), coin, price);
    SumNonNegative(prior);
    AtMostTwoCopies(|prior|, price.Value());
  }

  /** At most two copies of a non-negative value add up to at most twice it. */
  lemma AtMostTwoCopies(n: nat, p: real)
    requires n <= 2 && p >= 0.0
    ensures Copies(n, p) <= 2.0 * p
  {
    if n == 2 {
      assert Copies(2, p) == Copies(1, p) + p;
    }
  }

  /** A short history is read whole: the just-written price is the window's last entry. */
  lemma ShortHistorySeesNewPrice(store: Store, coin: string, price: Decimal)
    requires |History(store, coin)| < HourWindow
    ensures HourMetrics(History(WriteToDdb(store, coin, price).0, coin))
            == History(store, coin) + [Format(price)]
    ensures ParseAll(HourMetrics(History(WriteToDdb(store, coin, price).0, coin)))
            == ParseAll(History(store, coin)) + [price.Value()]
  {
    PricesAfterAppend(History(store, coin), price);
    assert RecentPrior(History(store, coin)) == History(store, coin);
  }

  /**
   The verdicts of a run follow the coins in order, each judging that coin's
   fetched price, and the run stops exactly at the first failed fetch.
   */
  predicate FollowsFetches(coins: seq<string>, fetch: string -> Result<Decimal, FetchError>, r: Run) {
    && |r.verdicts| <= |coins|
    && (forall k :: 0 <= k < |r.verdicts| ==>
          && fetch(coins[k]).Success?
          && r.verdicts[k].coin == coins[k]
          && r.verdicts[k].price == fetch(coins[k]).value.Value())
    && (r.failure.None? ==> |r.verdicts| == |coins|)
    && (r.failure.Some? ==> |r.verdicts| < |coins| && fetch(coins[|r.verdicts|]) == Failure(r.failure.value))
  }

  /**
   The `for coin in coins` loop: fetch, write and evaluate each coin in
   turn. A failed fetch propagates and ends the run, so later coins are not
   touched; the mean cannot raise here, since `WriteToDdb` always has a verdict.
   */
  function ProcessCoins(store: Store, coins: seq<string>, fetch: string -> Result<Decimal, FetchError>): (r: Run)
    ensures FollowsFetches(coins, fetch, r)
    ensures forall c :: c !in coins ==> History(r.store, c) == History(store, c)
    decreases |coins|
  {
    if |coins| == 0 then Run(store, [], None)
    else
      match fetch(coins[0])
      case Failure(e) => Run(store, [], Some(e))
      case Success(price) =>
        var (store', verdict) := WriteToDdb(store, coins[0], price);
        var v := verdict.value;
        var rest := ProcessCoins(store', coins[1..], fetch);
        PrependVerdict(coins, fetch, v, rest);
        assert forall c :: c !in coins ==> c != coins[0] && c !in coins[1..];
        Run(rest.store, [v] + rest.verdicts, rest.failure)
  }

  /** A verdict for the first coin in front of a run over the remaining coins still follows the fetches. */
  lemma PrependVerdict(coins: seq<string>, fetch: string -> Result<Decimal, FetchError>, v: Verdict, rest: Run)
    requires |coins| > 0 && fetch(coins[0]).Success?
    requires v.coin == coins[0] && v.price == fetch(coins[0]).value.Value()
    requires FollowsFetches(coins[1..], fetch, rest)
    ensures FollowsFetches(coins, fetch, Run(rest.store, [v] + rest.verdicts, rest.failure))
  {
    assert forall k :: 1 <= k < |coins| ==> coins[1..][k - 1] == coins[k];
  }

  /** A run completes exactly when every fetch succeeds. */
  lemma RunCompletesIffAllFetched(store: Store, coins: seq<string>, fetch: string -> Result<Decimal, FetchError>)
    ensures ProcessCoins(store, coins, fetch).failure.None? <==>
      forall k :: 0 <= k < |coins| ==> fetch(coins[k]).Success?
  {
    var r := ProcessCoins(store, coins, fetch);
    if r.failure.Some? {
      assert fetch(coins[|r.verdicts|]).Failure?;
    }
  }

  predicate Distinct(coins: seq<string>) {
    forall i, j :: 0 <= i < j < |coins| ==> coins[i] != coins[j]
  }

  /**
   The first `n` coins each gained exactly their fetched price as one new
   entry, and the remaining coins are as they were in `store`.
   */
  predicate AppendedOnce(store: Store, coins: seq<string>, fetch: string -> Result<Decimal, FetchError>, n: nat, after: Store) {
    && n <= |coins|
    && (forall k :: 0 <= k < n ==>
          fetch(coins[k]).Success? &&
          History(after, coins[k]) == History(store, coins[k]) + [Format(fetch(coins[k]).value)])
    && (forall k :: n <= k < |coins| ==> History(after, coins[k]) == History(store, coins[k]))
  }

  /**
   For distinct coins, each coin that got a verdict had exactly its fetched
   price appended, and the coin that failed and every coin after it are
   untouched.
   */
  lemma {:induction false} RunAppendsOncePerCoin(
    store: Store, coins: seq<string>, fetch: string -> Result<Decimal, FetchError>)
    requires Distinct(coins)
    ensures AppendedOnce(store, coins, fetch, |ProcessCoins(store, coins, fetch).verdicts|,
                         ProcessCoins(store, coins, fetch).store)
    decreases |coins|
  {
    if |coins| > 0 && fetch(coins[0]).Success? {
      var price := fetch(coins[0]).value;
      var written := WriteToDdb(store, coins[0], price);
      DistinctTail(coins);
      RunAppendsOncePerCoin(written.0, coins[1..], fetch);
      var rest := ProcessCoins(written.0, coins[1..], fetch);
      AppendedStep(store, written.0, coins, fetch, |rest.verdicts|, rest.store);
    }
  }

  lemma DistinctTail(coins: seq<string>)
    requires Distinct(coins) && |coins| > 0
    ensures Distinct(coins[1..]) && coins[0] !in coins[1..]
  {
    var tail := coins[1..];
    forall i, j | 0 <= i < j < |tail| ensures tail[i] != tail[j] {
      assert tail[i] == coins[i + 1] && tail[j] == coins[j + 1];
    }
  }

  /** One write for the first coin followed by a run over the rest appends once per coin. */
  lemma AppendedStep(store: Store, store': Store, coins: seq<string>, fetch: string -> Result<Decimal, FetchError>,
                     n: nat, after: Store)
    requires Distinct(coins) && |coins| > 0 && fetch(coins[0]).Success?
    requires History(store', coins[0]) == History(store, coins[0]) + [Format(fetch(coins[0]).value)]
    requires forall c :: c != coins[0] ==> History(store', c) == History(store, c)
    requires forall c :: c !in coins[1..] ==> History(after, c) == History(store', c)
    requires AppendedOnce(store', coins[1..], fetch, n, after)
    ensures AppendedOnce(store, coins, fetch, n + 1, after)
  {
    DistinctTail(coins);
    forall k | 1 <= k < |coins| ensures coins[k] == coins[1..][k - 1] && coins[k] != coins[0] {
    }
  }

  /**
   The verdict for each coin is `judge` applied to its fetched price and the
   coin's history at the start of the run followed by that price.
   */
  predicate JudgesOwnWritesBy(judge: (string, real, seq<string>) -> Result<Verdict, MeanError>,
                              store: Store, coins: seq<string>, fetch: string -> Result<Decimal, FetchError>,
                              verdicts: seq<Verdict>) {
    && |verdicts| <= |coins|
    && forall k :: 0 <= k < |verdicts| ==>
         fetch(coins[k]).Success? &&
         judge(coins[k], fetch(coins[k]).value.Value(),
               History(store, coins[k]) + [Format(fetch(coins[k]).value)]) == Success(verdicts[k])
  }

  /**
   For distinct coins, each verdict judges the coin's fetched price against
   that coin's history with the price appended: earlier coins' writes do
   not leak into it.
   */
  lemma {:induction false} RunJudgesOwnWrites(
    store: Store, coins: seq<string>, fetch: string -> Result<Decimal, FetchError>)
    requires Distinct(coins)
    ensures JudgesOwnWritesBy(GenerateAlerts, store, coins, fetch, ProcessCoins(store, coins, fetch).verdicts)
    decreases |coins|
  {
    if |coins| > 0 && fetch(coins[0]).Success? {
      var price := fetch(coins[0]).value;
      var written := WriteToDdb(store, coins[0], price);
      DistinctTail(coins);
      RunJudgesOwnWrites(written.0, coins[1..], fetch);
      var rest := ProcessCoins(written.0, coins[1..], fetch);
      JudgedStep(GenerateAlerts, store, written.0, coins, fetch, written.1.value, rest.verdicts);
    }
  }

  /** A verdict on the first coin's own write followed by verdicts from the updated store judges each write. */
  lemma JudgedStep(judge: (string, real, seq<string>) -> Result<Verdict, MeanError>,
                   store: Store, store': Store, coins: seq<string>, fetch: string -> Result<Decimal, FetchError>,
                   v: Verdict, rest: seq<Verdict>)
    requires Distinct(coins) && |coins| > 0 && fetch(coins[0]).Success?
    requires judge(coins[0], fetch(coins[0]).value.Value(),
                   History(store, coins[0]) + [Format(fetch(coins[0]).value)]) == Success(v)
    requires forall c :: c != coins[0] ==> History(store', c) == History(store, c)
    requires JudgesOwnWritesBy(judge, store', coins[1..], fetch, rest)
    ensures JudgesOwnWritesBy(judge, store, coins, fetch, [v] + rest)
  {
    DistinctTail(coins);
    forall k | 1 <= k < |coins| ensures coins[k] == coins[1..][k - 1] && coins[k] != coins[0] {
    }
  }

  /**
   `lambda_handler`: one pass over btcusd, ltcusd and dogeusd in that order.
   Verdicts come out in that order, and the run completes exactly when every
   fetch succeeds.
   */
  function LambdaHandler(store: Store, fetch: string -> Result<Decimal, FetchError>): (r: Run)
    ensures |r.verdicts| <= 3
    ensures forall k :: 0 <= k < |r.verdicts| ==> r.verdicts[k].coin == ["btcusd", "ltcusd", "dogeusd"][k]
    ensures r.failure.None? <==>
      fetch("btcusd").Success? && fetch("ltcusd").Success? && fetch("dogeusd").Success?
    ensures r.failure.None? ==> |r.verdicts| == 3
    ensures forall c :: c !in Coins ==> History(r.store, c) == History(store, c)
  {
    RunCompletesIffAllFetched(store, Coins, fetch);
    assert Coins[0] == "btcusd" && Coins[1] == "ltcusd" && Coins[2] == "dogeusd";
    ProcessCoins(store, Coins, fetch)
  }

  /**
   A complete run appends exactly one entry to each polled coin, and each
   verdict judges the coin's fetched price against its history after that
   append.
   */
  lemma CompleteRunAppendsOncePerCoin(store: Store, fetch: string -> Result<Decimal, FetchError>)
    requires forall c :: c in Coins ==> fetch(c).Success?
    ensures var r := LambdaHandler(store, fetch);
      && |r.verdicts| == 3
      && forall k :: 0 <= k < 3 ==>
        var price := fetch(Coins[k]).value;
        var written := History(store, Coins[k]) + [Format(price)];
        && History(r.store, Coins[k]) == written
        && GenerateAlerts(Coins[k], price.Value(), written) == Success(r.verdicts[k])
  {
    assert Distinct(Coins);
    RunAppendsOncePerCoin(store, Coins, fetch);
    RunJudgesOwnWrites(store, Coins, fetch);
  }

  /** When the fetch for a coin fails, neither it nor any coin after it gets a new entry. */
  lemma FailedFetchStopsRun(store: Store, fetch: string -> Result<Decimal, FetchError>, k: nat)
    requires k < 3 && fetch(Coins[k]).Failure?
    ensures var r := LambdaHandler(store, fetch);
      && r.failure.Some?
      && |r.verdicts| <= k
      && forall j :: k <= j < 3 ==> History(r.store, Coins[j]) == History(store, Coins[j])
  {
    assert Distinct(Coins);
    RunAppendsOncePerCoin(store, Coins, fetch);
  }
}
