/**
 `generate_alerts`: take the last hour of a coin's stored price strings,
 keep the entries that read as numbers, average them, and raise an alert
 when the new price is strictly more than three times that baseline.
 */
module Alerts {
  import opened Wrappers
  import opened DecimalText
  import opened Stats

  /** One observation per second for an hour: the baseline window length. */
  const HourWindow: nat := 60 * 60


  /** The outcome of one evaluation; it is reported, never stored. */
  datatype Verdict = Verdict(coin: string, price: real, baseline: real, raised: bool)

  function Min(a: nat, b: nat): nat {
    if a < b then a else b
  }

  /**
   Python's `s[start:]`: a negative start counts back from the end and is
   clamped to the beginning, a start past the end gives the empty list.
   */
  function PySliceFrom<T>(s: seq<T>, start: int): (r: seq<T>)
    ensures |r| == if start < 0 then Min(-start, |s|) else if start <= |s| then |s| - start else 0
    ensures r == s[|s| - |r|..]
  {
    var from :=
      if start < 0 then (if |s| + start < 0 then 0 else |s| + start)
      else if start > |s| then |s|
      else start;
    s[from..]
  }

  /**
   `day_metrics[(-1 * 60 * 60):]`: exactly the last `min(3600, |dayMetrics|)`
   entries, oldest first.
   */
  function HourMetrics(dayMetrics: seq<string>): (w: seq<string>)
    ensures |w| == Min(HourWindow, |dayMetrics|)
    ensures w == dayMetrics[|dayMetrics| - |w|..]
  {
    PySliceFrom(dayMetrics, -(HourWindow as int))
  }

  /** A history no longer than the window is taken whole. */
  lemma ShortHistoryIsWholeWindow(dayMetrics: seq<string>)
    requires |dayMetrics| <= HourWindow
    ensures HourMetrics(dayMetrics) == dayMetrics
  {
  }

  /**
   The values `f` yields on the elements of `s`, in order, skipping the
   elements on which it yields nothing.
   */
  function FilterMap<A, B>(s: seq<A>, f: A -> Option<B>): (r: seq<B>)
    ensures |r| <= |s|
  {
    if |s| == 0 then []
    else
      match f(s[0])
      case Some(v) => [v] + FilterMap(s[1..], f)
      case None => FilterMap(s[1..], f)
  }

  lemma {:induction false} FilterMapAppend<A, B>(a: seq<A>, b: seq<A>, f: A -> Option<B>)
    ensures FilterMap(a + b, f) == FilterMap(a, f) + FilterMap(b, f)
  {
    if |a| == 0 {
      assert a + b == b;
    } else {
      assert (a + b)[0] == a[0];
      assert (a + b)[1..] == a[1..] + b;
      FilterMapAppend(a[1..], b, f);
    }
  }

  /**
   `idx` lists, in increasing order, exactly the positions of `s` from `from`
   onwards on which `f` yields a value, and `r[k]` is the value at position
   `idx[k]`.
   */
  ghost predicate SelectsFrom<A, B>(s: seq<A>, f: A -> Option<B>, r: seq<B>, idx: seq<nat>, from: nat) {
    && |idx| == |r|
    && (forall k :: 0 <= k < |idx| ==> from <= idx[k] < |s| && f(s[idx[k]]) == Some(r[k]))
    && (forall k, l :: 0 <= k < l < |idx| ==> idx[k] < idx[l])
    && (forall i :: from <= i < |s| && f(s[i]).Some? ==> i in idx)
  }

  lemma {:induction false} FilterMapSelects<A, B>(s: seq<A>, f: A -> Option<B>) returns (idx: seq<nat>)
    ensures SelectsFrom(s, f, FilterMap(s, f), idx, 0)
  {
    if |s| == 0 {
      idx := [];
    } else {
      var r := FilterMap(s[1..], f);
      var rest := FilterMapSelects(s[1..], f);
      var shifted := ShiftSelection(s, f, r, rest);
      if f(s[0]).Some? {
        idx := [0] + shifted;
        PrependSelection(s, f, r, shifted);
        assert FilterMap(s, f) == [f(s[0]).value] + r;
      } else {
        idx := shifted;
        assert FilterMap(s, f) == r;
      }
    }
  }

  /** Lifts a selection on `s[1..]` to the positions of `s` it came from. */
  lemma ShiftSelection<A, B>(s: seq<A>, f: A -> Option<B>, r: seq<B>, rest: seq<nat>)
    returns (shifted: seq<nat>)
    requires |s| > 0 && SelectsFrom(s[1..], f, r, rest, 0)
    ensures SelectsFrom(s, f, r, shifted, 1)
  {
    shifted := seq(|rest|, k requires 0 <= k < |rest| => rest[k] + 1);
    ShiftedHits(s, f, r, rest, shifted);
    ShiftedComplete(s, f, r, rest, shifted);
  }

  lemma ShiftedHits<A, B>(s: seq<A>, f: A -> Option<B>, r: seq<B>, rest: seq<nat>, shifted: seq<nat>)
    requires |s| > 0 && SelectsFrom(s[1..], f, r, rest, 0)
    requires |shifted| == |rest| && forall k :: 0 <= k < |rest| ==> shifted[k] == rest[k] + 1
    ensures forall k :: 0 <= k < |shifted| ==> 1 <= shifted[k] < |s| && f(s[shifted[k]]) == Some(r[k])
    ensures forall k, l :: 0 <= k < l < |shifted| ==> shifted[k] < shifted[l]
  {
    var tail := s[1..];
    forall k | 0 <= k < |shifted| ensures 1 <= shifted[k] < |s| && f(s[shifted[k]]) == Some(r[k]) {
      assert s[shifted[k]] == tail[rest[k]];
    }
  }

  lemma ShiftedComplete<A, B>(s: seq<A>, f: A -> Option<B>, r: seq<B>, rest: seq<nat>, shifted: seq<nat>)
    requires |s| > 0 && SelectsFrom(s[1..], f, r, rest, 0)
    requires |shifted| == |rest| && forall k :: 0 <= k < |rest| ==> shifted[k] == rest[k] + 1
    ensures forall i :: 1 <= i < |s| && f(s[i]).Some? ==> i in shifted
  {
    var tail := s[1..];
    forall i | 1 <= i < |s| && f(s[i]).Some? ensures i in shifted {
      assert tail[i - 1] == s[i];
      var k :| 0 <= k < |rest| && rest[k] == i - 1;
      assert shifted[k] == i;
    }
  }

  /** A value at position 0 goes in front of a selection of the later positions. */
  lemma PrependSelection<A, B>(s: seq<A>, f: A -> Option<B>, r: seq<B>, shifted: seq<nat>)
    requires |s| > 0 && f(s[0]).Some? && SelectsFrom(s, f, r, shifted, 1)
    ensures SelectsFrom(s, f, [f(s[0]).value] + r, [0] + shifted, 0)
  {
    var idx := [0] + shifted;
    var r' := [f(s[0]).value] + r;
    assert forall k :: 1 <= k < |idx| ==> idx[k] == shifted[k - 1] && r'[k] == r[k - 1];
    forall i | 0 <= i < |s| && f(s[i]).Some? ensures i in idx {
      if i > 0 {
        assert i in shifted;
      }
    }
  }

  lemma {:induction false} FilterMapEmpty<A, B>(s: seq<A>, f: A -> Option<B>)
    ensures FilterMap(s, f) == [] <==> forall i :: 0 <= i < |s| ==> f(s[i]).None?
  {
    if |s| > 0 {
      FilterMapEmpty(s[1..], f);
      assert forall i :: 1 <= i < |s| ==> s[1..][i - 1] == s[i];
    }
  }

  lemma {:induction false} FilterMapUniform<A, B>(s: seq<A>, f: A -> Option<B>, v: B)
    requires forall i :: 0 <= i < |s| ==> f(s[i]) == Some(v)
    ensures |FilterMap(s, f)| == |s|
    ensures forall k :: 0 <= k < |s| ==> FilterMap(s, f)[k] == v
  {
    if |s| > 0 {
      assert forall i :: 1 <= i < |s| ==> s[1..][i - 1] == s[i];
      FilterMapUniform(s[1..], f, v);
    }
  }

  /** The numbers the window's entries read as, in window order; unreadable entries are skipped. */
  function ParseAll(window: seq<string>): (prices: seq<real>)
    ensures |prices| <= |window|
  {
    FilterMap(window, Parse)
  }

  lemma ParseAllAppend(a: seq<string>, b: seq<string>)
    ensures ParseAll(a + b) == ParseAll(a) + ParseAll(b)
  {
    FilterMapAppend(a, b, Parse);
  }

  /**
   Filtering keeps exactly the entries that parse, in their original order:
   the result is the parsed subsequence picked out by increasing positions.
   */
  lemma ParseAllKeepsParsedInOrder(window: seq<string>) returns (idx: seq<nat>)
    ensures |idx| == |ParseAll(window)|
    ensures forall k :: 0 <= k < |idx| ==>
      idx[k] < |window| && Parse(window[idx[k]]) == Some(ParseAll(window)[k])
    ensures forall k, l :: 0 <= k < l < |idx| ==> idx[k] < idx[l]
    ensures forall i :: 0 <= i < |window| && Parse(window[i]).Some? ==> i in idx
  {
    idx := FilterMapSelects(window, Parse);
  }

  /** Nothing parses in the window exactly when filtering leaves nothing. */
  lemma ParseAllEmpty(window: seq<string>)
    ensures ParseAll(window) == [] <==> forall i :: 0 <= i < |window| ==> Parse(window[i]).None?
  {
    FilterMapEmpty(window, Parse);
  }

  /** A window whose entries all read as `v` filters to `|window|` copies of `v`. */
  lemma ParseAllUniform(window: seq<string>, v: real)
    requires forall i :: 0 <= i < |window| ==> Parse(window[i]) == Some(v)
    ensures |ParseAll(window)| == |window|
    ensures forall k :: 0 <= k < |window| ==> ParseAll(window)[k] == v
  {
    FilterMapUniform(window, Parse, v);
  }

  /**
   The `for metric in hour_metrics` loop: convert each entry, skip the ones
   that raise, append the others.
   */
  method CollectPrices(hourMetrics: seq<string>) returns (prices: seq<real>)
    ensures prices == ParseAll(hourMetrics)
  {
    prices := [];
    for i := 0 to |hourMetrics|
      invariant prices == ParseAll(hourMetrics[..i])
    {
      ParseAllAppend(hourMetrics[..i], [hourMetrics[i]]);
      assert hourMetrics[..i + 1] == hourMetrics[..i] + [hourMetrics[i]];
      match Parse(hourMetrics[i])
      case Some(converted) =>
        prices := prices + [converted];
      case None =>
    }
    assert hourMetrics[..|hourMetrics|] == hourMetrics;
  }

  /** `coin_price > 3 * mean`, a strict comparison. */
  predicate ExceedsThreshold(price: real, baseline: real) {
    price > 3.0 * baseline
  }

  /**
   The mean of the filtered prices and the strict threshold test against it;
   an empty list has no mean and so no verdict.
   */
  function Judge(coin: string, price: real, prices: seq<real>): (r: Result<Verdict, MeanError>)
    ensures r.Failure? <==> |prices| == 0
    ensures r.Failure? ==> r.error == InsufficientHistory
    ensures r.Success? ==> r.value.coin == coin && r.value.price == price
    ensures r.Success? ==> Mean(prices) == Success(r.value.baseline)
    ensures r.Success? ==> (r.value.raised <==> price > 3.0 * r.value.baseline)
  {
    match Mean(prices)
    case Failure(e) => Failure(e)
    case Success(mean) => Success(Verdict(coin, price, mean, ExceedsThreshold(price, mean)))
  }

  /**
   The alert decision for `coin` at `price` against the stored history
   `dayMetrics`. When no entry of the window reads as a number the mean
   raises, so there is no verdict.
   */
  function GenerateAlerts(coin: string, price: real, dayMetrics: seq<string>): (r: Result<Verdict, MeanError>)
    ensures r.Failure? <==> ParseAll(HourMetrics(dayMetrics)) == []
    ensures r.Failure? ==> r.error == InsufficientHistory
    ensures r.Success? ==> r.value.coin == coin && r.value.price == price
    ensures r.Success? ==> Mean(ParseAll(HourMetrics(dayMetrics))) == Success(r.value.baseline)
    ensures r.Success? ==> (r.value.raised <==> price > 3.0 * r.value.baseline)
  {
    Judge(coin, price, ParseAll(HourMetrics(dayMetrics)))
  }

  /**
   There is no verdict exactly when no entry of the hour window reads as a
   number; the baseline is never taken to be zero.
   */
  lemma NoVerdictIffWindowUnreadable(coin: string, price: real, dayMetrics: seq<string>)
    ensures GenerateAlerts(coin, price, dayMetrics).Failure? <==>
      forall i :: 0 <= i < |HourMetrics(dayMetrics)| ==> Parse(HourMetrics(dayMetrics)[i]).None?
  {
    ParseAllEmpty(HourMetrics(dayMetrics));
  }

  /** A price exactly three times the baseline does not alert; anything above it does. */
  lemma ThresholdBoundary(coin: string, dayMetrics: seq<string>, baseline: real, excess: real)
    requires GenerateAlerts(coin, 0.0, dayMetrics).Success?
    requires GenerateAlerts(coin, 0.0, dayMetrics).value.baseline == baseline
    requires excess > 0.0
    ensures GenerateAlerts(coin, 3.0 * baseline, dayMetrics).Success?
    ensures !GenerateAlerts(coin, 3.0 * baseline, dayMetrics).value.raised
    ensures GenerateAlerts(coin, 3.0 * baseline + excess, dayMetrics).value.raised
  {
  }

  /** Against the same history, a higher price alerts whenever a lower one does. */
  lemma AlertMonotone(coin: string, dayMetrics: seq<string>, low: real, high: real)
    requires low <= high
    requires GenerateAlerts(coin, low, dayMetrics).Success?
    requires GenerateAlerts(coin, low, dayMetrics).value.raised
    ensures GenerateAlerts(coin, high, dayMetrics).Success?
    ensures GenerateAlerts(coin, high, dayMetrics).value.raised
  {
  }

  /** The baseline does not depend on the price being judged. */
  lemma BaselineIndependentOfPrice(coin: string, dayMetrics: seq<string>, p: real, q: real)
    requires GenerateAlerts(coin, p, dayMetrics).Success?
    ensures GenerateAlerts(coin, q, dayMetrics).Success?
    ensures GenerateAlerts(coin, q, dayMetrics).value.baseline
            == GenerateAlerts(coin, p, dayMetrics).value.baseline
  {
  }

  /**
   A window whose readable entries all read as `v`, with at least one of them
   readable, has baseline `v`; unreadable entries in it and anything older than
   the window play no part.
   */
  lemma UniformWindowBaseline(coin: string, price: real, dayMetrics: seq<string>, v: real)
    requires exists i :: 0 <= i < |HourMetrics(dayMetrics)| && Parse(HourMetrics(dayMetrics)[i]).Some?
    requires forall i :: 0 <= i < |HourMetrics(dayMetrics)| && Parse(HourMetrics(dayMetrics)[i]).Some? ==>
      Parse(HourMetrics(dayMetrics)[i]) == Some(v)
    ensures GenerateAlerts(coin, price, dayMetrics).Success?
    ensures GenerateAlerts(coin, price, dayMetrics).value.baseline == v
    ensures GenerateAlerts(coin, price, dayMetrics).value.raised <==> price > 3.0 * v
  {
    var w := HourMetrics(dayMetrics);
    var ps := ParseAll(w);
    var idx := ParseAllKeepsParsedInOrder(w);
    ParseAllEmpty(w);
    forall k | 0 <= k < |ps| ensures ps[k] == v {
      assert Parse(w[idx[k]]) == Some(ps[k]);
    }
    MeanConstant(ps, v);
  }

  /** Sixty stored "100" entries: a price of 350 alerts, a price of 250 does not. */
  lemma SixtyHundredsExample()
    ensures GenerateAlerts("btcusd", 350.0, seq(60, _ => "100"))
            == Success(Verdict("btcusd", 350.0, 100.0, true))
    ensures GenerateAlerts("btcusd", 250.0, seq(60, _ => "100"))
            == Success(Verdict("btcusd", 250.0, 100.0, false))
  {
    ParseWholeNumber(100);
    assert NatToDigits(100) == "100";
    var history := seq(60, _ => "100");
    assert forall i :: 0 <= i < |history| ==> Parse(history[i]) == Some(100.0);
    assert HourMetrics(history) == history;
    assert Parse(HourMetrics(history)[0]).Some?;
    UniformWindowBaseline("btcusd", 350.0, history, 100.0);
    UniformWindowBaseline("btcusd", 250.0, history, 100.0);
  }

  /** An unreadable entry among readable ones is skipped: the baseline of 100, 102 and 98 is 100. */
  lemma MixedWindowExample()
    ensures GenerateAlerts("btcusd", 301.0, ["100", "bad", "102", "98"])
            == Success(Verdict("btcusd", 301.0, 100.0, true))
  {
    var w := ["100", "bad", "102", "98"];
    MixedWindowPrices();
    assert HourMetrics(w) == w;
    assert Sum([100.0, 102.0, 98.0]) == 300.0;
  }

  lemma MixedWindowPrices()
    ensures ParseAll(["100", "bad", "102", "98"]) == [100.0, 102.0, 98.0]
  {
    MixedWindowFront();
    MixedWindowBack();
    ParseAllAppend(["100", "bad"], ["102", "98"]);
    assert ["100", "bad"] + ["102", "98"] == ["100", "bad", "102", "98"];
  }

  lemma MixedWindowFront()
    ensures ParseAll(["100", "bad"]) == [100.0]
  {
    assert NatToDigits(100) == "100";
    ReadsAsWholeNumber("100", 100);
    assert Parse("bad") == None;
    ParseAllAppend(["100"], ["bad"]);
    assert ["100"] + ["bad"] == ["100", "bad"];
  }

  lemma MixedWindowBack()
    ensures ParseAll(["102", "98"]) == [102.0, 98.0]
  {
    assert NatToDigits(102) == "102";
    ReadsAsWholeNumber("102", 102);
    assert NatToDigits(98) == "98";
    ReadsAsWholeNumber("98", 98);
    ParseAllAppend(["102"], ["98"]);
    assert ["102"] + ["98"] == ["102", "98"];
  }

  /** The decimal digits of `n` read as `n` and survive filtering. */
  lemma ReadsAsWholeNumber(s: string, n: nat)
    requires s == NatToDigits(n)
    ensures Parse(s) == Some(n as real)
    ensures ParseAll([s]) == [n as real]
  {
    ParseWholeNumber(n);
  }

  /** A window of nothing but unreadable entries gives no verdict at all. */
  lemma UnreadableWindowExample()
    ensures GenerateAlerts("btcusd", 100.0, ["bad", "", "1.2.3"]) == Failure(InsufficientHistory)
  {
    var w := ["bad", "", "1.2.3"];
    assert Parse(w[0]) == None && Parse(w[1]) == None;
    assert Parse(w[2]) == None by {
      assert IndexOf(w[2], '.') == 1;
      assert w[2][2..] == "2.3";
    }
    assert HourMetrics(w) == w;
  }
}
