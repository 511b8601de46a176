# btc-poll producer: a Dafny model of the price-alert core

This project models the producer Lambda of btc-poll. Each run polls three
coins in a fixed order: btcusd, ltcusd, then dogeusd. For each coin it does
three things:

1. It fetches the current price.
2. It appends `str(price)` to the coin's stored list of prices.
3. It runs `generate_alerts` on the coin's updated history.

`generate_alerts` works in four steps:

1. It takes the last hour of entries, at most 3600 of them, using Python's
   negative slicing.
2. It keeps the entries that `float()` accepts and silently skips the rest.
3. It averages the kept values with `statistics.mean`.
4. It raises an alert exactly when the new price is strictly greater than
   three times that mean.

The model is written over exact numbers:

- A price is an exact decimal, `Decimal(mantissa, scale)`.
- `str(price)` and `float(text)` are modelled as `Format` and `Parse`.
- All arithmetic is on Dafny's `real`, so the threshold test is exact.
- The price store is a map from coin id to its list of price strings.
- The price request is a function parameter `fetch`.

Modules:

- `wrappers.dfy`: `Option` and `Result`.
- `decimal_text.dfy`: `str` and `float` for prices, and their round trip.
- `stats.dfy`: `Sum`, `Mean` and the error values.
- `alerts.dfy`: the window, the filter and the alert rule.
- `price_store.dfy`: the `list_append(if_not_exists(...))` update.
- `producer.dfy`: `write_to_ddb`, the loop over coins, and `lambda_handler`.

Three behaviours of the code are kept as written:

- **The price judges itself.** `write_to_ddb` appends the price and only then
  calls `generate_alerts`. The price just written is therefore always inside
  its own window. Because `str` and `float` round-trip, the filtered window
  always has at least that one value. So the `statistics.mean` error can never
  happen on this path (`WriteToDdb`). After a write, the baseline is
  `(total + p) / (n + 1)`, where `n` is the number of readable earlier entries
  that share the window and `total` is their sum. An alert fires exactly when
  `p * (n - 2) > 3 * total` (`SelfInclusion`). It follows that a coin with at
  most two readable earlier prices, all non-negative, can never alert on a
  non-negative price (`FewPricesNeverAlert`).
  An evaluation that left out the current price would have been cleaner, but
  the code does not do that, and neither does the model.
- **Any error ends the run.** The code has no `try` around the loop body, so
  any exception stops the run, and later coins are neither fetched nor
  written. The model stops at the first failed fetch in the same way; the mean cannot raise on this path (see above), so a failed fetch is the only error a run can end with. Errors
  are not isolated per coin.
- **Parsing uses a restricted grammar.** `Parse` accepts an optional sign,
  then digits with at most one decimal point, with at least one digit in
  total. `float()` accepts more than this; see "Left out".

## Model

| member | source | states |
|---|---|---|
| Alerts.PySliceFrom | lambda/producer/lambda_function.py:31 | Python `s[start:]`: the result's length follows the clamping rules for negative and out-of-range starts, and the result is exactly a suffix of `s` |
| Alerts.HourMetrics | lambda/producer/lambda_function.py:31 | the window is exactly the last min(3600, length of the history) entries of the history, in their original order |
| Alerts.ShortHistoryIsWholeWindow | lambda/producer/lambda_function.py:31 | a history of at most 3600 entries is taken whole |
| Alerts.ParseAll | lambda/producer/lambda_function.py:34-40 | the filtered prices are never more than the window's entries, so never more than 3600 |
| Alerts.CollectPrices | lambda/producer/lambda_function.py:34-40 | the `try float(...) / except continue` loop computes exactly the filtered sequence `ParseAll` |
| Alerts.ParseAllKeepsParsedInOrder | lambda/producer/lambda_function.py:34-40 | the result is the parsed subsequence: strictly increasing positions, each entry's value, and every parseable position included |
| Alerts.ParseAllAppend | lambda/producer/lambda_function.py:34-40 | filtering distributes over concatenation of windows |
| Alerts.ParseAllEmpty | lambda/producer/lambda_function.py:34-40 | the filter leaves nothing exactly when no entry parses |
| Alerts.ParseAllUniform | lambda/producer/lambda_function.py:34-40 | a window whose entries all read as `v` filters to as many copies of `v` |
| Alerts.FilterMapAppend | lambda/producer/lambda_function.py:34-40 | the generic skip-on-failure map distributes over concatenation |
| Alerts.FilterMapSelects | lambda/producer/lambda_function.py:34-40 | the generic skip-on-failure map picks out exactly the successful positions, in increasing order |
| Alerts.FilterMapEmpty | lambda/producer/lambda_function.py:34-40 | the generic skip-on-failure map is empty exactly when no element succeeds |
| Alerts.Judge | lambda/producer/lambda_function.py:42-46 | no verdict exactly for an empty price list, with `InsufficientHistory`; otherwise the baseline is the mean of the prices, and the alert is raised iff price > 3 × baseline |
| Alerts.GenerateAlerts | lambda/producer/lambda_function.py:26-46 | no verdict exactly when the filtered window is empty; otherwise the baseline is the mean of the filtered window, and the alert is raised iff price > 3 × baseline |
| Alerts.NoVerdictIffWindowUnreadable | lambda/producer/lambda_function.py:42 | there is no verdict exactly when no entry of the hour window parses; the baseline is never taken to be 0 |
| Alerts.ThresholdBoundary | lambda/producer/lambda_function.py:43-46 | a price equal to 3 × baseline does not alert, and any larger price does |
| Alerts.AlertMonotone | lambda/producer/lambda_function.py:43 | against the same history, if a lower price alerts then any higher price alerts |
| Alerts.BaselineIndependentOfPrice | lambda/producer/lambda_function.py:42 | the baseline depends only on the history, not on the price being judged |
| Alerts.UniformWindowBaseline | lambda/producer/lambda_function.py:42-43 | when at least one window entry is readable and every readable window entry reads as `v`, the baseline is `v` and the alert is raised iff price > 3v; unreadable entries and entries older than the window do not matter |
| Alerts.SixtyHundredsExample | lambda/producer/lambda_function.py:42-43 | sixty entries of "100": a price of 350 alerts and a price of 250 does not |
| Alerts.MixedWindowExample | lambda/producer/lambda_function.py:34-46 | the window ["100", "bad", "102", "98"] has baseline 100, so a price of 301 alerts |
| Alerts.UnreadableWindowExample | lambda/producer/lambda_function.py:34-42 | a window of only unreadable entries gives `InsufficientHistory` |
| Stats.Mean | lambda/producer/lambda_function.py:42 | `statistics.mean` fails exactly on the empty list, with `InsufficientHistory` |
| Stats.AccumulateIsQuotient | lambda/producer/lambda_function.py:42 | the one-pass running total and count end in total / count |
| Stats.MeanIsQuotient | lambda/producer/lambda_function.py:42 | the mean of a non-empty list is its sum divided by its length |
| Stats.MeanTimesCount | lambda/producer/lambda_function.py:42 | as many copies of the mean as there are entries add up to the sum |
| Stats.MeanConstant | lambda/producer/lambda_function.py:42 | the mean of a list of copies of `v` is `v` |
| Stats.MeanBounds | lambda/producer/lambda_function.py:42 | the mean lies within any bounds of the entries |
| Stats.MeanOfExtended | lambda/producer/lambda_function.py:42 | after appending `p`, `n + 1` copies of the mean add up to the prior sum plus `p` |
| Stats.SumAppend | lambda/producer/lambda_function.py:42 | the sum of a concatenation is the sum of the sums |
| DecimalText.Format | lambda/producer/lambda_function.py:57 | `str(price)` is non-empty and starts with '-' exactly for negative prices |
| DecimalText.Parse | lambda/producer/lambda_function.py:37 | an accepted string is non-empty; without a '-' its value is ≥ 0, and with one it is ≤ 0 |
| DecimalText.ParseUnsignedAccepts | lambda/producer/lambda_function.py:37 | the unsigned parser accepts exactly: digits and points, at most one point, at least one digit |
| DecimalText.FormatParseRoundTrip | lambda/producer/lambda_function.py:57 | reading back a stored price string gives exactly the price: `Parse(Format(d)) == Some(d.Value())` |
| DecimalText.ParseWholeNumber | lambda/producer/lambda_function.py:37 | the plain digits of a whole number read back as that number |
| DecimalText.DigitsValueAppend | lambda/producer/lambda_function.py:37 | writing digits `b` after digits `a` multiplies `a` by 10 to the power of the length of `b`, then adds `b` |
| DecimalText.ScaledIsQuotient | lambda/producer/lambda_function.py:37 | moving the point `k` places left divides by 10^k |
| PriceStore.AppendPrice | lambda/producer/lambda_function.py:50-59 | the coin gains exactly `entry` at the end of its history (an empty history if it had no item), the coin gets an item, and no other coin changes |
| PriceStore.AppendToMissing | lambda/producer/lambda_function.py:52 | appending to a coin with no item gives a one-element list |
| PriceStore.AppendKeepsEarlierEntries | lambda/producer/lambda_function.py:52 | every earlier entry of every coin keeps its position and value |
| Producer.WriteToDdb | lambda/producer/lambda_function.py:48-62 | `str(price)` is appended to the coin's history and no other coin changes; the verdict is `generate_alerts` on the updated history and always exists, with the coin and price it was given |
| Producer.RecentPrior | lambda/producer/lambda_function.py:31 | the last min(3599, length of the history) entries, i.e. the old entries that share a window with the new one |
| Producer.WindowAfterAppend | lambda/producer/lambda_function.py:31 | after an append, the hour window is the recent prior entries followed by the new entry |
| Producer.PricesAfterAppend | lambda/producer/lambda_function.py:57-62 | after writing `str(price)`, the filtered window ends with the price itself |
| Producer.SelfInclusion | lambda/producer/lambda_function.py:62 | after the write there is always a verdict; `n + 1` copies of its baseline add up to the prior total plus the price; it alerts iff `n * p > 2p + 3 * total` |
| Producer.JudgeWithOwnPrice | lambda/producer/lambda_function.py:42-43 | judging `p` against prices that end with `p` always gives a verdict; the baseline and alert condition are as in `SelfInclusion` |
| Producer.ThresholdScaled | lambda/producer/lambda_function.py:43 | if `b` is the mean of `n` values totalling `t` plus `p` itself, then `p > 3b` iff `n * p > 2p + 3t` |
| Producer.FirstPriceIsOwnBaseline | lambda/producer/lambda_function.py:48-62 | the first price written for a coin is its own baseline, so it alerts iff it is negative |
| Producer.FewPricesNeverAlert | lambda/producer/lambda_function.py:48-62 | with at most two non-negative readable prior prices, a non-negative price never alerts |
| Producer.ShortHistorySeesNewPrice | lambda/producer/lambda_function.py:62 | with fewer than 3600 stored entries, the window after the write is the old history plus the new entry, and its filtered values end with the price |
| Producer.ProcessCoins | lambda/producer/lambda_function.py:64-67 | the verdicts follow the coins in order, each carrying its coin and fetched price; a run without failure has one verdict per coin; a failed run stops at the first failed fetch with that fetch's error; coins outside the list are untouched |
| Producer.PrependVerdict | lambda/producer/lambda_function.py:64-67 | a verdict for the first coin, followed by a run over the remaining coins, still follows the fetches in order |
| Producer.RunCompletesIffAllFetched | lambda/producer/lambda_function.py:64-67 | a run completes exactly when every fetch succeeds |
| Producer.RunAppendsOncePerCoin | lambda/producer/lambda_function.py:64-67 | for distinct coins, each coin with a verdict gained exactly its fetched price once; the coin that failed and all later coins are unchanged |
| Producer.RunJudgesOwnWrites | lambda/producer/lambda_function.py:62-67 | for distinct coins, each verdict is `generate_alerts` on that coin's own history plus its own price; earlier coins' writes do not leak into it |
| Producer.LambdaHandler | lambda/producer/lambda_function.py:64-67 | verdicts come in the order btcusd, ltcusd, dogeusd; the run completes iff all three fetches succeed; other coins are untouched |
| Producer.CompleteRunAppendsOncePerCoin | lambda/producer/lambda_function.py:64-67 | in a complete run, each of the three coins gains one entry, and its verdict judges its price against that history |
| Producer.FailedFetchStopsRun | lambda/producer/lambda_function.py:64-67 | when the fetch for the k-th coin fails, the run fails and that coin and every later coin are left unchanged |

## Left out

- `fetch_coin_price` (lines 19-24) is not modelled as code. The HTTP request and the JSON lookup of `result.price` are network I/O. The model receives them as the parameter `fetch`, which returns a price or an error.
- The DynamoDB resource, `TABLE_NAME` from the environment, and the `update_item` response are left out. Only the effect of the update expression on the coin's `prices` list is modelled, by `AppendPrice`.
- `MetricsGatherer.get_metrics` is not part of this model. Its result is taken to be the coin's stored list of prices, which is the list the write just extended.
- All `print` output is left out, including the "Alert"/"No alerts" messages. The verdict is returned as a `Verdict` value instead.
- IEEE-754 floats are not modelled. Prices, `float(metric)` and `statistics.mean` work on exact reals, so rounding and its effect at the exact threshold boundary are not modelled.
- DecimalText.Parse: does not model the rest of `float()`'s syntax: exponents, `inf`, `nan`, surrounding whitespace, `_` separators and non-ASCII decimal digits (such as Arabic-Indic digits). Such entries are treated as unreadable, so the model may drop an entry the code would keep.
- DecimalText.Format: writes prices positionally. It does not model the exponent form `str(float)` uses for very large or very small values; that form only matters for the round trip, and `Parse` does not read it back. Only a canonical decimal (no trailing fractional zero, and a fractional part for a float) is written exactly as `str` writes it: `Decimal(1000, 2)` is written "10.00" where `str(10.0)` gives "10.0", and `Decimal(10, 0)` is written "10" as for an int price. What `float` reads back from the text is the same value either way.
- `Decimal` carries a price that has already been fetched. The JSON number that the price API returns is not modelled.
