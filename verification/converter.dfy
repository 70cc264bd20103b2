/** `Converter.ToDictionary` (`IExchange.cs`): indexes the elements of a
    list response by a key field. `Dictionary.Add` throws on a key that is
    already present, and reading a null `Data` throws too; both are failures
    here. */
module Converter {
  import opened Outcomes
  import opened Exchange

  /** No two elements share a key. */
  predicate DistinctKeys<T>(xs: seq<T>, key: T -> string) {
    forall i, j :: 0 <= i < j < |xs| ==> key(xs[i]) != key(xs[j])
  }

  /** Element `j` is the first whose key an earlier element already has. */
  predicate FirstRepeat<T>(xs: seq<T>, key: T -> string, j: int) {
    0 <= j < |xs| && DistinctKeys(xs[..j], key) &&
    exists i :: 0 <= i < j && key(xs[i]) == key(xs[j])
  }

  /** The keys of a list. */
  function Keys<T>(xs: seq<T>, key: T -> string): (ks: set<string>)
    ensures forall i :: 0 <= i < |xs| ==> key(xs[i]) in ks
    ensures forall k :: k in ks ==> exists i :: 0 <= i < |xs| && key(xs[i]) == k
  {
    set i | 0 <= i < |xs| :: key(xs[i])
  }

  /** Taking one more element adds its key. */
  lemma KeysSnoc<T>(xs: seq<T>, key: T -> string, i: nat)
    requires i < |xs|
    ensures Keys(xs[..i + 1], key) == Keys(xs[..i], key) + {key(xs[i])}
  {
    assert xs[..i + 1][i] == xs[i];
    forall k | k in Keys(xs[..i + 1], key)
      ensures k in Keys(xs[..i], key) + {key(xs[i])}
    {
      var e :| 0 <= e < i + 1 && key(xs[..i + 1][e]) == k;
      if e < i {
        assert xs[..i][e] == xs[..i + 1][e];
      }
    }
    forall e | 0 <= e < i
      ensures key(xs[..i][e]) in Keys(xs[..i + 1], key)
    {
      assert xs[..i][e] == xs[..i + 1][e];
    }
  }

  /** A key new to the prefix keeps the keys distinct. */
  lemma DistinctSnoc<T>(xs: seq<T>, key: T -> string, i: nat)
    requires i < |xs| && DistinctKeys(xs[..i], key) && key(xs[i]) !in Keys(xs[..i], key)
    ensures DistinctKeys(xs[..i + 1], key)
  {
    var ys := xs[..i + 1];
    forall a, b | 0 <= a < b < |ys|
      ensures key(ys[a]) != key(ys[b])
    {
      if b < i {
        assert xs[..i][a] == ys[a] && xs[..i][b] == ys[b];
      } else {
        assert xs[..i][a] == ys[a];
      }
    }
  }

  /** A key already among the prefix's makes this element the first repeat,
      and the whole list's keys are not distinct. */
  lemma RepeatFound<T>(xs: seq<T>, key: T -> string, i: nat)
    requires i < |xs| && DistinctKeys(xs[..i], key) && key(xs[i]) in Keys(xs[..i], key)
    ensures FirstRepeat(xs, key, i) && !DistinctKeys(xs, key)
  {
    var e :| 0 <= e < i && key(xs[..i][e]) == key(xs[i]);
    assert xs[..i][e] == xs[e];
  }

  /** Adding a new key keeps every earlier element under its key. */
  lemma StoredAfterAdd<T>(xs: seq<T>, key: T -> string, i: nat, d: map<string, T>)
    requires i < |xs| && key(xs[i]) !in d
    requires forall j :: 0 <= j < i ==> key(xs[j]) in d && d[key(xs[j])] == xs[j]
    ensures forall j :: 0 <= j < i + 1 ==>
              key(xs[j]) in d[key(xs[i]) := xs[i]] && d[key(xs[i]) := xs[i]][key(xs[j])] == xs[j]
  {
  }

  /** The shared loop of the three overloads: `Add` each element in order
      under its key. Succeeds exactly when the keys are distinct; otherwise
      fails on the first repeated key. */
  method ToDictionary<T>(data: Option<seq<T>>, key: T -> string)
    returns (r: Result<map<string, T>, Fault>)
    ensures data.None? ==> r == Failure(NullReference)
    ensures r.Success? <==> data.Some? && DistinctKeys(data.value, key)
    ensures r.Success? ==> r.value.Keys == Keys(data.value, key) && |r.value| == |data.value|
    ensures r.Success? ==> forall i :: 0 <= i < |data.value| ==>
              key(data.value[i]) in r.value && r.value[key(data.value[i])] == data.value[i]
    ensures r.Failure? && data.Some? ==>
              exists j :: FirstRepeat(data.value, key, j) && r.error == DuplicateKey(key(data.value[j]))
  {
    if data.None? {
      return Failure(NullReference);
    }
    var xs := data.value;
    var d: map<string, T> := map[];
    var i := 0;
    while i < |xs|
      invariant 0 <= i <= |xs|
      invariant DistinctKeys(xs[..i], key)
      invariant d.Keys == Keys(xs[..i], key)
      invariant |d| == i
      invariant forall j :: 0 <= j < i ==> key(xs[j]) in d && d[key(xs[j])] == xs[j]
    {
      var k := key(xs[i]);
      if k in d {
        RepeatFound(xs, key, i);
        return Failure(DuplicateKey(k));
      }
      KeysSnoc(xs, key, i);
      DistinctSnoc(xs, key, i);
      StoredAfterAdd(xs, key, i, d);
      d := d[k := xs[i]];
      i := i + 1;
    }
    assert xs[..i] == xs;
    return Success(d);
  }

  function CurrencyKey(c: CurrencyResult): string { c.symbol }
  function TradePairKey(t: TradePairResult): string { t.marketLabel }
  function MarketKey(m: MarketResult): string { m.marketLabel }

  /** The `CurrenciesResponse` overload: keyed by `Symbol`. */
  method CurrenciesToDictionary(response: Response<seq<CurrencyResult>>)
    returns (r: Result<map<string, CurrencyResult>, Fault>)
    ensures r.Success? <==> response.data.Some? && DistinctKeys(response.data.value, CurrencyKey)
    ensures r.Success? ==> |r.value| == |response.data.value|
    ensures r.Success? ==>
              forall c :: c in response.data.value ==> c.symbol in r.value && r.value[c.symbol] == c
  {
    r := ToDictionary(response.data, CurrencyKey);
  }

  /** The `TradePairsResponse` overload: keyed by `Label`. */
  method TradePairsToDictionary(response: Response<seq<TradePairResult>>)
    returns (r: Result<map<string, TradePairResult>, Fault>)
    ensures r.Success? <==> response.data.Some? && DistinctKeys(response.data.value, TradePairKey)
    ensures r.Success? ==> |r.value| == |response.data.value|
    ensures r.Success? ==>
              forall t :: t in response.data.value ==> t.marketLabel in r.value && r.value[t.marketLabel] == t
  {
    r := ToDictionary(response.data, TradePairKey);
  }

  /** The `MarketsResponse` overload: keyed by `Label`. */
  method MarketsToDictionary(response: Response<seq<MarketResult>>)
    returns (r: Result<map<string, MarketResult>, Fault>)
    ensures r.Success? <==> response.data.Some? && DistinctKeys(response.data.value, MarketKey)
    ensures r.Success? ==> |r.value| == |response.data.value|
    ensures r.Success? ==>
              forall m :: m in response.data.value ==> m.marketLabel in r.value && r.value[m.marketLabel] == m
  {
    r := ToDictionary(response.data, MarketKey);
  }
}
