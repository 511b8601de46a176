/**
 The per-coin price history kept by `write_to_ddb`: one item per coin whose
 `prices` attribute is a list of price strings, grown by one entry per write.
 */
module PriceStore {

  /** The `prices` list of each coin's item, keyed by the coin id. */
  type Store = map<string, seq<string>>

  /** `if_not_exists(#prices, :empty_list)`: a coin without an item has an empty history. */
  function History(store: Store, coin: string): seq<string> {
    if coin in store then store[coin] else []
  }

  /**
   `set #prices = list_append(if_not_exists(#prices, :empty_list), :price)`:
   the coin's history gains `entry` at the end and no other coin's changes.
   */
  function AppendPrice(store: Store, coin: string, entry: string): (s': Store)
    ensures s'.Keys == store.Keys + {coin}
    ensures History(s', coin) == History(store, coin) + [entry]
    ensures forall c :: c != coin ==> History(s', c) == History(store, c)
  {
    store[coin := History(store, coin) + [entry]]
  }

  /** Writing to a coin that has no item yet gives a one-element list. */
  lemma AppendToMissing(store: Store, coin: string, entry: string)
    requires coin !in store
    ensures History(AppendPrice(store, coin, entry), coin) == [entry]
  {
  }

  /** An append only adds at the end: every earlier entry keeps its position and value. */
  lemma AppendKeepsEarlierEntries(store: Store, coin: string, entry: string, c: string)
    ensures |History(AppendPrice(store, coin, entry), c)| >= |History(store, c)|
    ensures forall i :: 0 <= i < |History(store, c)| ==>
      History(AppendPrice(store, coin, entry), c)[i] == History(store, c)[i]
  {
  }
}
