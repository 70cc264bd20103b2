/** The Bittrex adapter around its transport (`Bittrex.cs`): the public and
    private query strings, the public URL and its empty-body short cut, the
    signed private URL, and the fields the adapter fills in after the reply
    has been read. The transport and the JSON reader are not modelled: a
    reply body is an input, and post-processing starts from the record the
    reader produced. */
module Bittrex {
  import opened Outcomes
  import opened Text
  import opened Numbers
  import opened Exchange
  import opened BittrexShim
  import CompositeFormat

  const DefaultBaseUrl := "https://bittrex.com"

  // ---------------------------------------------------------------------------
  // Public calls
  // ---------------------------------------------------------------------------

  /** The endpoint and parameters each public operation asks for. */
  function PublicQuery(req: PublicRequest): (q: string)
    ensures MarketOf(req).Some? <==> '?' in q
  {
    match req
    case Currencies => "getcurrencies"
    case TradePairs => "getmarkets"
    case Markets(_) => "getmarketsummaries"
    case Market(r) => "getmarketsummary" + "?market=" + PairLabel(r.tradePair)
    case MarketHistory(r) => "getmarkethistory" + "?market=" + PairLabel(r.tradePair)
    case MarketOrders(r) => "getorderbook" + "?market=" + PairLabel(r.tradePair) + "&type=both"
  }

  /** The endpoint of a query: what precedes its `?`. */
  function Endpoint(q: string): string {
    Split(q, '?')[0]
  }

  /** The value of a query's first parameter when that parameter is `name`. */
  function Parameter(q: string, name: string): Option<string> {
    var parts := Split(q, '?');
    if |parts| != 2 then None
    else
      var first := Split(parts[1], '&')[0];
      var key := name + "=";
      if StartsWith(first, key) then Some(first[|key|..]) else None
  }

  /** The query names the market by its pair label, and only the
      single-market operations name one. */
  lemma PublicQueryNamesMarket(req: PublicRequest)
    requires MarketOf(req).Some? ==>
               '?' !in PairLabel(MarketOf(req).value) && '&' !in PairLabel(MarketOf(req).value)
    ensures Parameter(PublicQuery(req), "market") == if MarketOf(req).Some?
                                                     then Some(PairLabel(MarketOf(req).value))
                                                     else None
  {
    if MarketOf(req).Some? {
      SingleMarketQueryNamesMarket(req);
    } else {
      SplitNoSeparator(PublicQuery(req), '?');
    }
  }

  /** The three single-market queries carry the label as their first
      parameter. */
  lemma SingleMarketQueryNamesMarket(req: PublicRequest)
    requires MarketOf(req).Some?
    requires '?' !in PairLabel(MarketOf(req).value) && '&' !in PairLabel(MarketOf(req).value)
    ensures Parameter(PublicQuery(req), "market") == Some(PairLabel(MarketOf(req).value))
  {
    MarketQueryShape(req);
    ParameterSplit(PublicQuery(req), MarketEndpointName(req), "market", PairLabel(MarketOf(req).value), MarketQueryTail(req));
  }

  /** The endpoint a single-market operation asks for. */
  function MarketEndpointName(req: PublicRequest): (e: string)
    requires MarketOf(req).Some?
    ensures '?' !in e
  {
    match req
    case Market(_) => "getmarketsummary"
    case MarketHistory(_) => "getmarkethistory"
    case MarketOrders(_) => "getorderbook"
  }

  /** What a single-market query appends after the label. */
  function MarketQueryTail(req: PublicRequest): (t: string)
    requires MarketOf(req).Some?
    ensures '?' !in t && (t == "" || t[0] == '&')
  {
    if req.MarketOrders? then "&type=both" else ""
  }

  /** A single-market query is its endpoint, `?market=`, the label and the
      tail. */
  lemma MarketQueryShape(req: PublicRequest)
    requires MarketOf(req).Some?
    ensures PublicQuery(req) ==
            MarketEndpointName(req) + "?market=" + PairLabel(MarketOf(req).value) + MarketQueryTail(req)
  {
  }

  /** Each public operation queries its own endpoint: the text before the
      `?`, or the whole query when it has no parameter. The order book also
      asks for both sides. Holds for every label, whatever it holds. */
  lemma PublicQueryReadBack(req: PublicRequest)
    ensures var e := Endpoint(PublicQuery(req));
            (req.Currencies? ==> e == "getcurrencies") &&
            (req.TradePairs? ==> e == "getmarkets") &&
            (req.Markets? ==> e == "getmarketsummaries") &&
            (req.Market? ==> e == "getmarketsummary") &&
            (req.MarketHistory? ==> e == "getmarkethistory") &&
            (req.MarketOrders? ==> e == "getorderbook")
    ensures req.MarketOrders? ==> EndsWith(PublicQuery(req), "&type=both")
    ensures MarketOf(req).None? <==> '?' !in PublicQuery(req)
  {
    if MarketOf(req).None? {
      BareQueryEndpoint(req);
    } else {
      MarketQueryEndpoint(req);
    }
  }

  /** The three operations without a market send their endpoint alone. */
  lemma BareQueryEndpoint(req: PublicRequest)
    requires MarketOf(req).None?
    ensures var e := Endpoint(PublicQuery(req));
            (req.Currencies? ==> e == "getcurrencies") &&
            (req.TradePairs? ==> e == "getmarkets") &&
            (req.Markets? ==> e == "getmarketsummaries")
    ensures '?' !in PublicQuery(req)
  {
    SplitNoSeparator(PublicQuery(req), '?');
  }

  /** The three single-market operations send their endpoint, then `?`. */
  lemma MarketQueryEndpoint(req: PublicRequest)
    requires MarketOf(req).Some?
    ensures var e := Endpoint(PublicQuery(req));
            (req.Market? ==> e == "getmarketsummary") &&
            (req.MarketHistory? ==> e == "getmarkethistory") &&
            (req.MarketOrders? ==> e == "getorderbook")
    ensures req.MarketOrders? ==> EndsWith(PublicQuery(req), "&type=both")
    ensures '?' in PublicQuery(req)
  {
    var pair := PairLabel(MarketOf(req).value);
    MarketQueryShape(req);
    assert PublicQuery(req) == MarketEndpointName(req) + "?market=" + (pair + MarketQueryTail(req));
    MarketEndpoint(PublicQuery(req), MarketEndpointName(req), pair + MarketQueryTail(req));
  }

  /** A query `endpoint?market=...` has that endpoint and holds a `?`. */
  lemma MarketEndpoint(q: string, endpoint: string, tail: string)
    requires q == endpoint + "?market=" + tail && '?' !in endpoint
    ensures Endpoint(q) == endpoint && '?' in q
  {
    assert q == endpoint + ['?'] + ("market=" + tail);
    assert q[|endpoint|] == '?';
    SplitAtFirst(endpoint, '?', "market=" + tail);
  }

  /** How an `endpoint?name=value...` query splits: the endpoint and the
      value read back. */
  lemma ParameterSplit(q: string, endpoint: string, name: string, value: string, rest: string)
    requires q == endpoint + "?" + name + "=" + value + rest
    requires '?' !in endpoint && '?' !in name && '&' !in name
    requires '?' !in value && '&' !in value && '?' !in rest
    requires rest == "" || rest[0] == '&'
    ensures Endpoint(q) == endpoint && Parameter(q, name) == Some(value)
  {
    var key := name + "=";
    var param := key + value;
    assert Split(q, '?') == [endpoint, param + rest] by {
      assert q == endpoint + ['?'] + (param + rest);
      assert '?' !in param;
      SplitAtFirst(endpoint, '?', param + rest);
      SplitNoSeparator(param + rest, '?');
    }
    assert Split(param + rest, '&')[0] == param by {
      if rest == "" {
        assert param + rest == param;
        SplitNoSeparator(param, '&');
      } else {
        assert param + rest == param + ['&'] + rest[1..];
        SplitAtFirst(param, '&', rest[1..]);
      }
    }
    assert param[|key|..] == value;
  }

  /** A bare `endpoint?` query: the endpoint and no parameter. */
  lemma BareQuerySplit(q: string, endpoint: string, name: string)
    requires q == endpoint + "?" && '?' !in endpoint
    ensures Endpoint(q) == endpoint && Parameter(q, name) == None
  {
    assert q == endpoint + ['?'] + "";
    SplitAtFirst(endpoint, '?', "");
    SplitNoSeparator("", '?');
    SplitNoSeparator("", '&');
  }

  /** `GetResult`'s public URL: the base URL is used as given. */
  function PublicUrl(baseUrl: string, query: string): (url: string)
    ensures StartsWith(url, baseUrl + "/api/v1.1/public/") && EndsWith(url, query)
    ensures |url| == |baseUrl| + 17 + |query|
  {
    baseUrl + "/api/v1.1/public/" + query
  }

  /** Bittrex's public `GetResult`: a body is translated by the shim. */
  function PublicResult(call: PublicCall, body: Option<string>): (f: Fetched)
    ensures f.NoBody? <==> body.None? || |body.value| == 0
    ensures f.ParseText? ==> f.text == DoPublic(call, body.value)
  {
    if body.None? || |body.value| == 0 then NoBody else ParseText(DoPublic(call, body.value))
  }

  /** The empty body never reaches the shim: the outcome does not depend on
      the call kind and the reader is never consulted. */
  lemma EmptyBodySkipsShim<T>(a: PublicCall, b: PublicCall, ra: string -> Response<T>, rb: string -> Response<T>)
    ensures Respond(PublicResult(a, Some("")), ra) == Respond(PublicResult(b, None), rb)
  {
  }

  // ---------------------------------------------------------------------------
  // Derived fields of public replies
  // ---------------------------------------------------------------------------

  /** `Change` of one summary: the percentage move from the previous day's
      price to the last one. */
  function WithChange(m: MarketResult): (c: MarketResult)
    requires m.prevDay != 0.0
    ensures c.(change := m.change) == m
    ensures c.lastPrice == c.prevDay * (1.0 + c.change / 100.0)
  {
    m.(change := (m.lastPrice / m.prevDay - 1.0) * 100.0)
  }

  predicate NoZeroPrevDay(xs: seq<MarketResult>) {
    forall i :: 0 <= i < |xs| ==> xs[i].prevDay != 0.0
  }

  function ChangeAll(xs: seq<MarketResult>): (ys: seq<MarketResult>)
    requires NoZeroPrevDay(xs)
    ensures |ys| == |xs| && forall i :: 0 <= i < |xs| ==> ys[i] == WithChange(xs[i])
  {
    if |xs| == 0 then [] else [WithChange(xs[0])] + ChangeAll(xs[1..])
  }

  /** `GetMarkets` after the reply is read: every summary gets its `Change`.
      A null list and a zero `PrevDay` (decimal division) throw. */
  function MarketsAfterRead(r: Response<seq<MarketResult>>): (out: Result<Response<seq<MarketResult>>, Fault>)
    ensures r.data.None? ==> out == Failure(NullReference)
    ensures r.data.Some? ==> (out.Failure? <==> !NoZeroPrevDay(r.data.value))
    ensures r.data.Some? && out.Failure? ==> out.error == DivideByZero
    ensures out.Success? ==>
              out.value.success == r.success && out.value.error == r.error && out.value.data.Some?
    ensures out.Success? ==> |out.value.data.value| == |r.data.value|
    ensures out.Success? ==> forall i :: 0 <= i < |r.data.value| ==>
              out.value.data.value[i].(change := r.data.value[i].change) == r.data.value[i]
    ensures out.Success? ==> forall i :: 0 <= i < |r.data.value| ==>
              r.data.value[i].lastPrice ==
              r.data.value[i].prevDay * (1.0 + out.value.data.value[i].change / 100.0)
  {
    match r.data
    case None => Failure(NullReference)
    case Some(xs) =>
      if NoZeroPrevDay(xs) then Success(r.(data := Some(ChangeAll(xs)))) else Failure(DivideByZero)
  }

  /** `GetMarketHistory` after the reply is read: every trade is labelled
      with the requested pair. */
  function LabelAll(pairLabel: string, xs: seq<MarketHistoryResult>): (ys: seq<MarketHistoryResult>)
    ensures |ys| == |xs|
    ensures forall i :: 0 <= i < |xs| ==> ys[i].marketLabel == pairLabel
    ensures forall i :: 0 <= i < |xs| ==> ys[i].(marketLabel := xs[i].marketLabel) == xs[i]
  {
    if |xs| == 0 then [] else [xs[0].(marketLabel := pairLabel)] + LabelAll(pairLabel, xs[1..])
  }

  function MarketHistoryAfterRead(req: MarketHistoryRequest, r: Response<seq<MarketHistoryResult>>)
    : (out: Result<Response<seq<MarketHistoryResult>>, Fault>)
    ensures out.Failure? <==> r.data.None?
    ensures out.Failure? ==> out.error == NullReference
    ensures out.Success? ==> out.value == r.(data := Some(LabelAll(PairLabel(req.tradePair), r.data.value)))
  {
    match r.data
    case None => Failure(NullReference)
    case Some(xs) => Success(r.(data := Some(LabelAll(PairLabel(req.tradePair), xs))))
  }

  /** One order-book row after `GetMarketOrders`: labelled, and priced at
      `Price * Volume`. */
  function PriceRow(pairLabel: string, o: MarketOrderResult): (p: MarketOrderResult)
    ensures p.(marketLabel := o.marketLabel, total := o.total) == o
    ensures p.marketLabel == pairLabel && p.total == o.price * o.volume
  {
    o.(marketLabel := pairLabel, total := o.price * o.volume)
  }

  function PriceRows(pairLabel: string, xs: seq<MarketOrderResult>): (ys: seq<MarketOrderResult>)
    ensures |ys| == |xs| && forall i :: 0 <= i < |xs| ==> ys[i] == PriceRow(pairLabel, xs[i])
  {
    if |xs| == 0 then [] else [PriceRow(pairLabel, xs[0])] + PriceRows(pairLabel, xs[1..])
  }

  /** Pricing the rows again changes nothing. */
  lemma PriceRowsIdempotent(pairLabel: string, xs: seq<MarketOrderResult>)
    ensures PriceRows(pairLabel, PriceRows(pairLabel, xs)) == PriceRows(pairLabel, xs)
  {
    var ys := PriceRows(pairLabel, xs);
    var zs := PriceRows(pairLabel, ys);
    forall i | 0 <= i < |ys|
      ensures zs[i] == ys[i]
    {
      assert ys[i].price == xs[i].price && ys[i].volume == xs[i].volume;
    }
  }

  /** `GetMarketOrders` after the reply is read: both sides are priced and
      labelled; a null book, buy side or sell side throws. */
  function MarketOrdersAfterRead(req: MarketOrdersRequest, r: Response<MarketOrdersResult>)
    : (out: Result<Response<MarketOrdersResult>, Fault>)
    ensures out.Failure? <==> r.data.None? || r.data.value.buy.None? || r.data.value.sell.None?
    ensures out.Failure? ==> out.error == NullReference
    ensures out.Success? ==> out.value.success == r.success && out.value.error == r.error
    ensures out.Success? ==>
              var pairLabel := PairLabel(req.tradePair);
              var book := r.data.value;
              out.value.data == Some(MarketOrdersResult(
                Some(PriceRows(pairLabel, book.buy.value)), Some(PriceRows(pairLabel, book.sell.value))))
  {
    match r.data
    case None => Failure(NullReference)
    case Some(book) =>
      if book.buy.None? || book.sell.None? then Failure(NullReference)
      else
        var pairLabel := PairLabel(req.tradePair);
        Success(r.(data := Some(MarketOrdersResult(
          Some(PriceRows(pairLabel, book.buy.value)), Some(PriceRows(pairLabel, book.sell.value))))))
  }

  // ---------------------------------------------------------------------------
  // The fix for replies without a body
  // ---------------------------------------------------------------------------

  /** The post-processing as the operations could have meant it: a record
      without data, such as the "No Response." one, is passed on as it is. */
  function MarketsAfterReadGuarded(r: Response<seq<MarketResult>>)
    : (out: Result<Response<seq<MarketResult>>, Fault>)
    ensures r.data.None? ==> out == Success(r)
    ensures r.data.Some? ==> out == MarketsAfterRead(r)
  {
    if r.data.None? then Success(r) else MarketsAfterRead(r)
  }

  /** For an empty body `GetMarkets` throws instead of returning the
      "No Response." record `GetResult` built for it. */
  lemma EmptyBodyThrowsInGetMarkets(read: string -> Response<seq<MarketResult>>)
    ensures MarketsAfterRead(Respond(PublicResult(GetMarkets, Some("")), read)) == Failure(NullReference)
  {
  }

  /** With the guard, an empty body reaches the caller as "No Response.". */
  lemma EmptyBodyReportedWhenGuarded(read: string -> Response<seq<MarketResult>>, body: Option<string>)
    requires body.None? || |body.value| == 0
    ensures MarketsAfterReadGuarded(Respond(PublicResult(GetMarkets, body), read)) == Success(NoResponse())
  {
  }

  // ---------------------------------------------------------------------------
  // Private calls
  // ---------------------------------------------------------------------------

  /** The operations that throw `NotImplementedException`. */
  function Unsupported(req: PrivateRequest): (u: bool)
    ensures u <==> PrivateCallOf(req) in {CancelTrade, GetOpenOrders, SubmitTrade, SubmitWithdraw}
    ensures !u <==> PrivateCallOf(req) in {GetBalance, GetDepositAddress, GetTradeHistory, GetTransactions}
  {
    req.CancelTradeOp? || req.OpenOrders? || req.SubmitTradeOp? || req.SubmitWithdrawOp?
  }

  /** A query the signed URL can append `apikey=` to: it ends in `?` or `&`. */
  predicate OpensParameter(q: string) {
    |q| > 0 && (q[|q| - 1] == '?' || q[|q| - 1] == '&')
  }

  /** The queries an operation sends, in order: the withdrawal history then
      the deposit history for `GetTransactions`, one query otherwise. */
  function PrivateQueries(req: PrivateRequest): (r: Result<seq<string>, Fault>)
    ensures r.Failure? <==> Unsupported(req)
    ensures r.Failure? ==> r.error == NotImplemented
    ensures r.Success? ==> |r.value| == if req.Transactions? then 2 else 1
    ensures r.Success? && !req.DepositAddress? ==>
              forall i :: 0 <= i < |r.value| ==> OpensParameter(r.value[i])
    ensures req.DepositAddress? ==> (OpensParameter(r.value[0]) <==> req.deposit.currency.Some?)
  {
    match req
    case Balances(b) =>
      Success([if b.currency.Some? then "getbalance?currency=" + b.currency.value + "&" else "getbalances?"])
    case DepositAddress(d) =>
      Success([if d.currency.Some? then "getdepositaddress?currency=" + d.currency.value + "&" else ""])
    case TradeHistory(t) =>
      Success([if t.market.Some? then "getorderhistory?market=" + t.market.value + "&" else "getorderhistory?"])
    case Transactions(t) =>
      if t.currency.Some? then
        Success(["getwithdrawalhistory?currency=" + t.currency.value + "&",
                 "getdeposithistory?currency=" + t.currency.value + "&"])
      else Success(["getwithdrawalhistory?", "getdeposithistory?"])
    case _ => Failure(NotImplemented)
  }

  /** The currency or market a private request filters on, when it has one. */
  function Filter(req: PrivateRequest): Option<string> {
    match req
    case Balances(b) => b.currency
    case DepositAddress(d) => d.currency
    case TradeHistory(t) => t.market
    case Transactions(t) => t.currency
    case _ => None
  }

  /** Each query reads back to the endpoint its operation names and to the
      request's filter: the `currency` parameter for balances, deposit
      addresses and both transaction histories, the `market` parameter for
      the order history. */
  lemma PrivateQueriesReadBack(req: PrivateRequest)
    requires Filter(req).Some? ==> '?' !in Filter(req).value && '&' !in Filter(req).value
    ensures req.Balances? ==>
              var q := PrivateQueries(req).value[0];
              Endpoint(q) == (if req.balance.currency.Some? then "getbalance" else "getbalances") &&
              Parameter(q, "currency") == req.balance.currency
    ensures req.DepositAddress? ==>
              var q := PrivateQueries(req).value[0];
              (req.deposit.currency.Some? ==> Endpoint(q) == "getdepositaddress") &&
              (req.deposit.currency.None? ==> q == "") &&
              Parameter(q, "currency") == req.deposit.currency
    ensures req.TradeHistory? ==>
              var q := PrivateQueries(req).value[0];
              Endpoint(q) == "getorderhistory" && Parameter(q, "market") == req.trades.market
    ensures req.Transactions? ==>
              var qs := PrivateQueries(req).value;
              Endpoint(qs[0]) == "getwithdrawalhistory" && Endpoint(qs[1]) == "getdeposithistory" &&
              Parameter(qs[0], "currency") == req.transactions.currency &&
              Parameter(qs[1], "currency") == req.transactions.currency
  {
    match req
    case Balances(b) => BalanceQueryReadBack(b);
    case DepositAddress(d) => DepositQueryReadBack(d);
    case TradeHistory(t) => OrderQueryReadBack(t);
    case Transactions(t) => TransactionQueriesReadBack(t);
    case _ =>
  }

  lemma BalanceQueryReadBack(b: BalanceRequest)
    requires b.currency.Some? ==> '?' !in b.currency.value && '&' !in b.currency.value
    ensures var q := PrivateQueries(Balances(b)).value[0];
            Endpoint(q) == (if b.currency.Some? then "getbalance" else "getbalances") &&
            Parameter(q, "currency") == b.currency
  {
    var q := PrivateQueries(Balances(b)).value[0];
    if b.currency.Some? {
      ParameterSplit(q, "getbalance", "currency", b.currency.value, "&");
    } else {
      BareQuerySplit(q, "getbalances", "currency");
    }
  }

  lemma DepositQueryReadBack(d: DepositAddressRequest)
    requires d.currency.Some? ==> '?' !in d.currency.value && '&' !in d.currency.value
    ensures var q := PrivateQueries(DepositAddress(d)).value[0];
            (d.currency.Some? ==> Endpoint(q) == "getdepositaddress") &&
            (d.currency.None? ==> q == "") &&
            Parameter(q, "currency") == d.currency
  {
    var q := PrivateQueries(DepositAddress(d)).value[0];
    if d.currency.Some? {
      ParameterSplit(q, "getdepositaddress", "currency", d.currency.value, "&");
    } else {
      EmptyQueryReadBack("currency");
    }
  }

  /** The empty query has an empty endpoint and no parameter. */
  lemma EmptyQueryReadBack(name: string)
    ensures Endpoint("") == "" && Parameter("", name) == None
  {
    SplitNoSeparator("", '?');
  }

  lemma OrderQueryReadBack(t: TradeHistoryRequest)
    requires t.market.Some? ==> '?' !in t.market.value && '&' !in t.market.value
    ensures var q := PrivateQueries(TradeHistory(t)).value[0];
            Endpoint(q) == "getorderhistory" && Parameter(q, "market") == t.market
  {
    var q := PrivateQueries(TradeHistory(t)).value[0];
    if t.market.Some? {
      ParameterSplit(q, "getorderhistory", "market", t.market.value, "&");
    } else {
      BareQuerySplit(q, "getorderhistory", "market");
    }
  }

  lemma TransactionQueriesReadBack(t: TransactionRequest)
    requires t.currency.Some? ==> '?' !in t.currency.value && '&' !in t.currency.value
    ensures var qs := PrivateQueries(Transactions(t)).value;
            Endpoint(qs[0]) == "getwithdrawalhistory" && Endpoint(qs[1]) == "getdeposithistory" &&
            Parameter(qs[0], "currency") == t.currency && Parameter(qs[1], "currency") == t.currency
  {
    WithdrawalQueryReadBack(t);
    DepositHistoryQueryReadBack(t);
  }

  lemma WithdrawalQueryReadBack(t: TransactionRequest)
    requires t.currency.Some? ==> '?' !in t.currency.value && '&' !in t.currency.value
    ensures var q := PrivateQueries(Transactions(t)).value[0];
            Endpoint(q) == "getwithdrawalhistory" && Parameter(q, "currency") == t.currency
  {
    HistoryQueryReadBack(t.currency, "getwithdrawalhistory", PrivateQueries(Transactions(t)).value[0]);
  }

  lemma DepositHistoryQueryReadBack(t: TransactionRequest)
    requires t.currency.Some? ==> '?' !in t.currency.value && '&' !in t.currency.value
    ensures var q := PrivateQueries(Transactions(t)).value[1];
            Endpoint(q) == "getdeposithistory" && Parameter(q, "currency") == t.currency
  {
    HistoryQueryReadBack(t.currency, "getdeposithistory", PrivateQueries(Transactions(t)).value[1]);
  }

  /** One of the two transaction history queries. */
  lemma HistoryQueryReadBack(currency: Option<string>, endpoint: string, q: string)
    requires currency.Some? ==> '?' !in currency.value && '&' !in currency.value
    requires '?' !in endpoint
    requires q == if currency.Some? then endpoint + "?currency=" + currency.value + "&" else endpoint + "?"
    ensures Endpoint(q) == endpoint && Parameter(q, "currency") == currency
  {
    if currency.Some? {
      ParameterSplit(q, endpoint, "currency", currency.value, "&");
    } else {
      BareQuerySplit(q, endpoint, "currency");
    }
  }

  /** The private URL as it is laid out: the base URL without trailing
      slashes, the account path, the query, then the key and the nonce. */
  function AccountUrl(baseUrl: string, query: string, apiKey: string, nonce: string): (url: string)
    ensures StartsWith(url, TrimEnd(baseUrl, '/') + "/api/v1.1/account/" + query)
    ensures EndsWith(url, "&nonce=" + nonce)
    ensures var head := TrimEnd(baseUrl, '/') + "/api/v1.1/account/" + query;
            |url| == |head| + 7 + |apiKey| + 7 + |nonce| &&
            url[|head|..|head| + 7 + |apiKey|] == "apikey=" + apiKey
  {
    TrimEnd(baseUrl, '/') + "/api/v1.1/account/" + query + "apikey=" + apiKey + "&nonce=" + nonce
  }

  /** The composite format the private `GetResult` builds: the key and the
      nonce are concatenated into the format itself rather than passed as
      arguments. */
  function PrivateFormat(apiKey: string, nonce: string): string {
    CompositeFormat.HoleOf(0) + "/api/v1.1/account/" + CompositeFormat.HoleOf(1) + "apikey=" + apiKey + "&nonce=" + nonce
  }

  /** `GetResult`'s private URL: `String.Format` of that format with the
      trimmed base URL and the query. Those two are substituted as they are;
      the key and the nonce are read as format text, so a brace in them
      either names an argument or throws `FormatException`. */
  function PrivateUrl(baseUrl: string, query: string, apiKey: string, nonce: string): (url: Result<string, Fault>)
    ensures var tail := CompositeFormat.Format(apiKey + "&nonce=" + nonce, [TrimEnd(baseUrl, '/'), query]);
            (url.Success? <==> tail.Some?) &&
            (url.Success? ==> url.value == TrimEnd(baseUrl, '/') + "/api/v1.1/account/" + query + "apikey=" + tail.value)
    ensures url.Failure? ==> url.error == FormatError
    ensures CompositeFormat.Braceless(apiKey) && CompositeFormat.Braceless(nonce) ==>
              url == Success(AccountUrl(baseUrl, query, apiKey, nonce))
  {
    var args := [TrimEnd(baseUrl, '/'), query];
    var u := CompositeFormat.Format(PrivateFormat(apiKey, nonce), args);
    PrivateFormatFacts(apiKey, nonce, args, query);
    if u.Some? then Success(u.value) else Failure(FormatError)
  }

  /** What the private format gives: the base URL and the query in front of
      whatever the key and the nonce format to, which is the key and the
      nonce themselves when neither holds a brace. */
  lemma PrivateFormatFacts(apiKey: string, nonce: string, args: seq<string>, query: string)
    requires |args| == 2 && args[1] == query
    ensures var u := CompositeFormat.Format(PrivateFormat(apiKey, nonce), args);
            var tail := CompositeFormat.Format(apiKey + "&nonce=" + nonce, args);
            (u.Some? <==> tail.Some?) &&
            (u.Some? ==> u.value == args[0] + "/api/v1.1/account/" + query + "apikey=" + tail.value)
    ensures CompositeFormat.Braceless(apiKey) && CompositeFormat.Braceless(nonce) ==>
              CompositeFormat.Format(PrivateFormat(apiKey, nonce), args) ==
              Some(args[0] + "/api/v1.1/account/" + query + "apikey=" + apiKey + "&nonce=" + nonce)
  {
    var tail := apiKey + "&nonce=" + nonce;
    PrivateFormatSplit(PrivateFormat(apiKey, nonce), args, query, tail);
    if CompositeFormat.Braceless(apiKey) && CompositeFormat.Braceless(nonce) {
      PrivateTailBraceless(apiKey, nonce);
      var head := args[0] + "/api/v1.1/account/" + query + "apikey=";
      assert CompositeFormat.Format(tail, args) == Some(tail);
      assert CompositeFormat.Format(PrivateFormat(apiKey, nonce), args) == Some(head + tail);
      JoinTail(head, apiKey, "&nonce=", nonce);
    }
  }

  lemma JoinTail(a: string, b: string, c: string, d: string)
    ensures a + (b + c + d) == a + b + c + d
    ensures a + (b + (c + d)) == a + b + c + d
  {
  }

  /** The private format substitutes the base URL and the query in front of
      whatever the key and the nonce format to. */
  lemma PrivateFormatSplit(f: string, args: seq<string>, query: string, tail: string)
    requires |args| == 2 && args[1] == query
    requires f == CompositeFormat.HoleOf(0) + "/api/v1.1/account/" + CompositeFormat.HoleOf(1) + "apikey=" + tail
    ensures CompositeFormat.Format(f, args) ==
            CompositeFormat.Prepend(args[0] + "/api/v1.1/account/" + query + "apikey=", CompositeFormat.Format(tail, args))
  {
    CompositeFormat.FormatTwoHoles(f, args, 0, "/api/v1.1/account/", 1, "apikey=", tail);
  }

  /** A key and a nonce without braces give a tail without braces. */
  lemma PrivateTailBraceless(apiKey: string, nonce: string)
    ensures CompositeFormat.Braceless(apiKey) && CompositeFormat.Braceless(nonce) ==>
              CompositeFormat.Braceless(apiKey + "&nonce=" + nonce)
  {
    var t := apiKey + "&nonce=" + nonce;
    if CompositeFormat.Braceless(apiKey) && CompositeFormat.Braceless(nonce) {
      forall i | 0 <= i < |t| ensures t[i] != '{' && t[i] != '}' {
        if i < |apiKey| {
          assert t[i] == apiKey[i];
        } else if i < |apiKey| + 7 {
          assert t[i] == "&nonce="[i - |apiKey|];
        } else {
          assert t[i] == nonce[i - |apiKey| - 7];
        }
      }
    }
  }

  /** A tick count's digits hold no brace. */
  lemma DecimalBraceless(n: nat)
    ensures CompositeFormat.Braceless(DecimalString(n))
  {
    var s := DecimalString(n);
    assert forall i :: 0 <= i < |s| ==> s[i] != '{' && s[i] != '}' by {
      forall i | 0 <= i < |s| ensures s[i] != '{' && s[i] != '}' {
        assert IsDecimalDigit(s[i]);
      }
    }
  }

  /** A key that is itself the hole `{0}` is replaced by the base URL. */
  lemma KeyHoleSubstituted(baseUrl: string, query: string, apiKey: string, nonce: string)
    requires apiKey == "{0}" && CompositeFormat.Braceless(nonce)
    ensures PrivateUrl(baseUrl, query, apiKey, nonce) ==
            Success(TrimEnd(baseUrl, '/') + "/api/v1.1/account/" + query + "apikey=" + TrimEnd(baseUrl, '/') + "&nonce=" + nonce)
  {
    var args := [TrimEnd(baseUrl, '/'), query];
    KeyHoleTail(args, apiKey, nonce);
    var head := args[0] + "/api/v1.1/account/" + query + "apikey=";
    JoinTail(head, args[0], "&nonce=", nonce);
  }

  /** The tail of a URL whose key is the hole `{0}`. */
  lemma KeyHoleTail(args: seq<string>, apiKey: string, nonce: string)
    requires |args| == 2 && apiKey == CompositeFormat.HoleOf(0) && CompositeFormat.Braceless(nonce)
    ensures CompositeFormat.Format(apiKey + "&nonce=" + nonce, args) == Some(args[0] + "&nonce=" + nonce)
  {
    CompositeFormat.FormatHoleLiteral(apiKey + "&nonce=" + nonce, args, 0, "&nonce=", nonce);
  }

  /** So a key `{0}` is signed as the base URL rather than as itself,
      unless the trimmed base URL happens to be the text `{0}`. */
  lemma KeyHoleChangesUrl(baseUrl: string, query: string, apiKey: string, nonce: string)
    requires apiKey == "{0}" && CompositeFormat.Braceless(nonce)
    ensures PrivateUrl(baseUrl, query, apiKey, nonce) != Success(AccountUrl(baseUrl, query, apiKey, nonce))
            <==> TrimEnd(baseUrl, '/') != apiKey
  {
    var b := TrimEnd(baseUrl, '/');
    var head := b + "/api/v1.1/account/" + query + "apikey=";
    var t := "&nonce=" + nonce;
    assert PrivateUrl(baseUrl, query, apiKey, nonce) == Success(head + (b + t)) by {
      KeyHoleSubstituted(baseUrl, query, apiKey, nonce);
      JoinTail(head, b, "&nonce=", nonce);
    }
    assert AccountUrl(baseUrl, query, apiKey, nonce) == head + (apiKey + t) by {
      AccountUrlSplit(baseUrl, query, apiKey, nonce);
    }
    assert head + (b + t) == head + (apiKey + t) ==> b == apiKey by {
      if head + (b + t) == head + (apiKey + t) {
        CancelSides(head, b, apiKey, t);
      }
    }
  }

  /** The private layout as a head, the key, and the nonce parameter. */
  lemma AccountUrlSplit(baseUrl: string, query: string, apiKey: string, nonce: string)
    ensures AccountUrl(baseUrl, query, apiKey, nonce) ==
            TrimEnd(baseUrl, '/') + "/api/v1.1/account/" + query + "apikey=" + (apiKey + ("&nonce=" + nonce))
  {
  }

  /** Equal texts that share a head and a tail agree in between. */
  lemma CancelSides(h: string, x: string, y: string, t: string)
    requires h + (x + t) == h + (y + t)
    ensures x == y
  {
    assert x + t == (h + (x + t))[|h|..];
    assert y + t == (h + (y + t))[|h|..];
    assert x == (x + t)[..|x|];
    assert y == (y + t)[..|y|];
  }

  /** A lone opening brace in the key throws before anything is signed. */
  lemma LoneBraceKeyThrows(baseUrl: string, query: string, nonce: string)
    ensures PrivateUrl(baseUrl, query, "{", nonce) == Failure(FormatError)
  {
    var rest := "&nonce=" + nonce;
    assert "{" + rest == [] + "{" + rest;
    CompositeFormat.FormatLoneOpen([], rest, [TrimEnd(baseUrl, '/'), query]);
  }

  /** The URL as intended: the key and the nonce passed as arguments of the
      format, which then lays the URL out for every key. */
  function IntendedPrivateUrl(baseUrl: string, query: string, apiKey: string, nonce: string): (url: Result<string, Fault>)
    ensures url == Success(AccountUrl(baseUrl, query, apiKey, nonce))
  {
    var rest := CompositeFormat.HoleOf(2) + "&nonce=" + CompositeFormat.HoleOf(3);
    var f := CompositeFormat.HoleOf(0) + "/api/v1.1/account/" + CompositeFormat.HoleOf(1) + "apikey=" + rest;
    var args := [TrimEnd(baseUrl, '/'), query, apiKey, nonce];
    IntendedFormat(f, rest, args);
    match CompositeFormat.Format(f, args)
    case None => Failure(FormatError)
    case Some(u) => Success(u)
  }

  lemma IntendedFormat(f: string, rest: string, args: seq<string>)
    requires |args| == 4
    requires rest == CompositeFormat.HoleOf(2) + "&nonce=" + CompositeFormat.HoleOf(3)
    requires f == CompositeFormat.HoleOf(0) + "/api/v1.1/account/" + CompositeFormat.HoleOf(1) + "apikey=" + rest
    ensures CompositeFormat.Format(f, args) ==
            Some(args[0] + "/api/v1.1/account/" + args[1] + "apikey=" + args[2] + "&nonce=" + args[3])
  {
    var a := args[0] + "/api/v1.1/account/" + args[1] + "apikey=";
    var b := args[2] + "&nonce=" + args[3];
    assert CompositeFormat.Format(rest, args) == Some(b) by {
      assert rest == CompositeFormat.HoleOf(2) + "&nonce=" + CompositeFormat.HoleOf(3) + "" + "";
      CompositeFormat.FormatTwoHoles(rest, args, 2, "&nonce=", 3, "", "");
      assert args[2] + "&nonce=" + args[3] + "" + "" == b;
    }
    CompositeFormat.FormatTwoHoles(f, args, 0, "/api/v1.1/account/", 1, "apikey=", rest);
    JoinTail(a, args[2], "&nonce=", args[3]);
  }

  /** The URL of a signed request and the `apisign` header value. */
  datatype SignedRequest = SignedRequest(url: string, apisign: string)

  /** Signs a private query: the nonce is the tick count in decimal, and the
      header is the HMAC-SHA512, keyed by the UTF-8 secret, of the UTF-8 URL,
      rendered as upper-case hexadecimal. A key the format cannot read
      throws before anything is signed. */
  function Sign(hmacSha512: (seq<byte>, seq<byte>) -> seq<byte>, utf8: string -> seq<byte>,
                baseUrl: string, apiKey: string, apiSecret: string, query: string, ticks: nat)
    : (s: Result<SignedRequest, Fault>)
    ensures var url := PrivateUrl(baseUrl, query, apiKey, DecimalString(ticks));
            (s.Success? <==> url.Success?) && (s.Success? ==> s.value.url == url.value)
    ensures s.Failure? ==> s.error == FormatError
    ensures s.Success? ==> |s.value.apisign| == 2 * |hmacSha512(utf8(apiSecret), utf8(s.value.url))|
    ensures s.Success? ==> HexDecode(s.value.apisign) == Some(hmacSha512(utf8(apiSecret), utf8(s.value.url)))
    ensures CompositeFormat.Braceless(apiKey) ==> s.Success?
  {
    DecimalBraceless(ticks);
    match PrivateUrl(baseUrl, query, apiKey, DecimalString(ticks))
    case Failure(e) => Failure(e)
    case Success(url) =>
      var hash := hmacSha512(utf8(apiSecret), utf8(url));
      HexDecodeUpperHex(hash);
      Success(SignedRequest(url, UpperHex(hash)))
  }

  /** Whenever a URL is signed, whatever the key, the nonce is read back from
      it as the text after its last `=`. */
  lemma NonceReadBack(hmacSha512: (seq<byte>, seq<byte>) -> seq<byte>, utf8: string -> seq<byte>,
                      baseUrl: string, apiKey: string, apiSecret: string, query: string, ticks: nat)
    ensures var s := Sign(hmacSha512, utf8, baseUrl, apiKey, apiSecret, query, ticks);
            s.Success? ==> ParseDecimal(AfterLast(s.value.url, '=')) == Some(ticks)
  {
    var nonce := DecimalString(ticks);
    DecimalBraceless(ticks);
    assert '=' !in nonce by {
      forall i | 0 <= i < |nonce| ensures nonce[i] != '=' {
        assert IsDecimalDigit(nonce[i]);
      }
    }
    PrivateUrlNonce(baseUrl, query, apiKey, nonce);
    ParseDecimalString(ticks);
  }

  /** Whatever the key, a URL that formats ends in the nonce after its last
      `=`, when the nonce holds neither a brace nor an `=`. */
  lemma PrivateUrlNonce(baseUrl: string, query: string, apiKey: string, nonce: string)
    requires CompositeFormat.Braceless(nonce) && '=' !in nonce
    ensures var u := PrivateUrl(baseUrl, query, apiKey, nonce);
            u.Success? ==> AfterLast(u.value, '=') == nonce
  {
    var u := PrivateUrl(baseUrl, query, apiKey, nonce);
    if u.Success? {
      var args := [TrimEnd(baseUrl, '/'), query];
      var head0 := TrimEnd(baseUrl, '/') + "/api/v1.1/account/" + query + "apikey=";
      PrivateUrlKeyFormatted(baseUrl, query, apiKey, nonce);
      var x := CompositeFormat.Format(apiKey, args).value;
      var head := head0 + x + "&nonce";
      assert u.value == head + ['='] + nonce by {
        NonceRegroup(head0, x, nonce);
      }
      AfterLastSeparator(head, '=', nonce);
    }
  }

  /** With a nonce free of braces, only the key is read as format text: the
      URL formats exactly when the key does, and then holds the formatted
      key followed by the nonce as it is. */
  lemma PrivateUrlKeyFormatted(baseUrl: string, query: string, apiKey: string, nonce: string)
    requires CompositeFormat.Braceless(nonce)
    ensures var u := PrivateUrl(baseUrl, query, apiKey, nonce);
            var k := CompositeFormat.Format(apiKey, [TrimEnd(baseUrl, '/'), query]);
            (u.Success? <==> k.Some?) &&
            (u.Success? ==> u.value == TrimEnd(baseUrl, '/') + "/api/v1.1/account/" + query + "apikey=" +
                                       (k.value + ("&nonce=" + nonce)))
  {
    var args := [TrimEnd(baseUrl, '/'), query];
    var tail := "&nonce=" + nonce;
    assert CompositeFormat.Braceless(tail);
    assert apiKey + "&nonce=" + nonce == apiKey + tail;
    CompositeFormat.FormatAppend(apiKey, tail, args);
  }

  lemma NonceRegroup(h: string, x: string, nonce: string)
    ensures h + (x + ("&nonce=" + nonce)) == h + x + "&nonce" + ['='] + nonce
  {
    assert "&nonce=" == "&nonce" + ['='];
  }

  // ---------------------------------------------------------------------------
  // Derived fields of private replies
  // ---------------------------------------------------------------------------

  /** One trade after `GetTradeHistory`: `Total` is `Amount * Rate + Fee`. */
  function WithTotal(t: TradeHistoryResult): (u: TradeHistoryResult)
    ensures u.(total := t.total) == t
    ensures u.total - u.fee == u.amount * u.rate
  {
    t.(total := t.amount * t.rate + t.fee)
  }

  function TotalAll(xs: seq<TradeHistoryResult>): (ys: seq<TradeHistoryResult>)
    ensures |ys| == |xs| && forall i :: 0 <= i < |xs| ==> ys[i] == WithTotal(xs[i])
  {
    if |xs| == 0 then [] else [WithTotal(xs[0])] + TotalAll(xs[1..])
  }

  /** Totalling the trades again changes nothing. */
  lemma TotalAllIdempotent(xs: seq<TradeHistoryResult>)
    ensures TotalAll(TotalAll(xs)) == TotalAll(xs)
  {
    var ys := TotalAll(xs);
    var zs := TotalAll(ys);
    forall i | 0 <= i < |ys|
      ensures zs[i] == ys[i]
    {
      assert ys[i].amount == xs[i].amount && ys[i].rate == xs[i].rate && ys[i].fee == xs[i].fee;
    }
  }

  /** `GetTradeHistory` after the reply is read. The reader gives no record
      at all for an empty reply; that, and a record without data, throw. */
  function TradeHistoryAfterRead(r: Option<Response<seq<TradeHistoryResult>>>)
    : (out: Result<Response<seq<TradeHistoryResult>>, Fault>)
    ensures out.Failure? <==> r.None? || r.value.data.None?
    ensures out.Failure? ==> out.error == NullReference
    ensures out.Success? ==> out.value == r.value.(data := Some(TotalAll(r.value.data.value)))
  {
    if r.None? || r.value.data.None? then Failure(NullReference)
    else Success(r.value.(data := Some(TotalAll(r.value.data.value))))
  }

  const WithdrawalType := "Withdrawl"
  const DepositType := "Deposit"

  function TagAll(xs: seq<TransactionResult>, tag: string): (ys: seq<TransactionResult>)
    ensures |ys| == |xs|
    ensures forall i :: 0 <= i < |xs| ==> ys[i] == xs[i].(transactionType := tag)
  {
    if |xs| == 0 then [] else [xs[0].(transactionType := tag)] + TagAll(xs[1..], tag)
  }

  /** `GetTransactions` after both replies are read: the withdrawals, in
      order and tagged `Withdrawl`, then the deposits, in order and tagged
      `Deposit`, in the withdrawal reply's record. */
  function MergeTransactions(w: Option<Response<seq<TransactionResult>>>,
                             d: Option<Response<seq<TransactionResult>>>)
    : (out: Result<Response<seq<TransactionResult>>, Fault>)
    ensures out.Failure? <==> w.None? || w.value.data.None? || d.None? || d.value.data.None?
    ensures out.Failure? ==> out.error == NullReference
    ensures out.Success? ==>
              out.value.success == w.value.success && out.value.error == w.value.error &&
              out.value.data.Some?
    ensures out.Success? ==>
              |out.value.data.value| == |w.value.data.value| + |d.value.data.value|
    ensures out.Success? ==> forall i :: 0 <= i < |w.value.data.value| ==>
              out.value.data.value[i] == w.value.data.value[i].(transactionType := WithdrawalType)
    ensures out.Success? ==> forall i :: 0 <= i < |d.value.data.value| ==>
              out.value.data.value[|w.value.data.value| + i] ==
              d.value.data.value[i].(transactionType := DepositType)
  {
    if w.None? || w.value.data.None? || d.None? || d.value.data.None? then Failure(NullReference)
    else
      Success(w.value.(data := Some(TagAll(w.value.data.value, WithdrawalType) +
                                    TagAll(d.value.data.value, DepositType))))
  }

  /** In the merged list an entry is a deposit exactly when it comes after
      every withdrawal. */
  lemma MergeSeparatesKinds(w: Response<seq<TransactionResult>>, d: Response<seq<TransactionResult>>)
    requires w.data.Some? && d.data.Some?
    ensures MergeTransactions(Some(w), Some(d)).Success?
    ensures var m := MergeTransactions(Some(w), Some(d)).value.data.value;
            forall i :: 0 <= i < |m| ==> (m[i].transactionType == DepositType <==> i >= |w.data.value|)
  {
    var m := MergeTransactions(Some(w), Some(d)).value.data.value;
    assert WithdrawalType != DepositType by {
      assert WithdrawalType[0] != DepositType[0];
    }
    forall i | 0 <= i < |m|
      ensures m[i].transactionType == DepositType <==> i >= |w.data.value|
    {
      if i >= |w.data.value| {
        assert m[|w.data.value| + (i - |w.data.value|)] == m[i];
      }
    }
  }

  // ---------------------------------------------------------------------------
  // Private replies
  // ---------------------------------------------------------------------------

  /** The shim leaves an empty reply empty. */
  lemma DoPrivateEmpty(call: PrivateCall)
    ensures DoPrivate(call, "") == ""
  {
  }

  /** Bittrex's private `GetResult` once the reply is read. Unlike the public
      one it has no short cut: every reply, the empty one included, goes
      through the shim to the JSON reader, which gives `None` where
      `DeserializeObject` returns null. So the "No Response." record only
      comes back when the reader itself builds it. */
  function PrivateResult<T>(call: PrivateCall, content: string, read: string -> Option<Response<T>>)
    : (r: Option<Response<T>>)
    ensures |content| == 0 ==> r == read("")
    ensures (forall t :: read(t) != Some(NoResponse<T>())) ==> r != Some(NoResponse())
  {
    DoPrivateEmpty(call);
    read(DoPrivate(call, content))
  }

  /** An empty reply comes back from `GetBalances` and `GetDepositAddress`
      as null, since the reader gives null for the empty text. */
  lemma EmptyPrivateReplyIsNull<T>(call: PrivateCall, read: string -> Option<Response<T>>)
    requires read("") == None
    ensures PrivateResult(call, "", read) == None
  {
  }

  /** An empty reply makes `GetTradeHistory` throw. */
  lemma EmptyReplyThrowsInGetTradeHistory(read: string -> Option<Response<seq<TradeHistoryResult>>>)
    requires read("") == None
    ensures TradeHistoryAfterRead(PrivateResult(GetTradeHistory, "", read)) == Failure(NullReference)
  {
  }

  /** An empty reply to either of its two queries makes `GetTransactions`
      throw. */
  lemma EmptyReplyThrowsInGetTransactions(read: string -> Option<Response<seq<TransactionResult>>>, other: string)
    requires read("") == None
    ensures MergeTransactions(PrivateResult(GetTransactions, "", read), PrivateResult(GetTransactions, other, read))
            == Failure(NullReference)
    ensures MergeTransactions(PrivateResult(GetTransactions, other, read), PrivateResult(GetTransactions, "", read))
            == Failure(NullReference)
  {
  }

  /** The private `GetResult` with the public one's guard: an empty reply is
      the "No Response." record and never reaches the reader. */
  function PrivateResultGuarded<T>(call: PrivateCall, content: string, read: string -> Option<Response<T>>)
    : (r: Option<Response<T>>)
    ensures |content| == 0 ==> r == Some(NoResponse())
    ensures |content| > 0 ==> r == PrivateResult(call, content, read)
  {
    if |content| == 0 then Some(NoResponse()) else PrivateResult(call, content, read)
  }

  /** With a reader that never gives null, the guarded private result is
      exactly what the public path's `Respond` makes of the same reply: the
      "No Response." record for an empty one, the reader's record of the
      shim's output for any other. */
  lemma GuardedPrivateLikePublic<T>(call: PrivateCall, content: string,
                                    read: string -> Option<Response<T>>, parse: string -> Response<T>)
    requires forall t :: read(t) == Some(parse(t))
    ensures PrivateResultGuarded(call, content, read) ==
            Some(Respond(if |content| == 0 then NoBody else ParseText(DoPrivate(call, content)), parse))
  {
  }

  /** With the guard an empty reply reaches the caller as "No Response.",
      whatever the reader does with the empty text. */
  lemma EmptyPrivateReplyReported<T>(call: PrivateCall, read: string -> Option<Response<T>>)
    ensures PrivateResultGuarded(call, "", read) == Some(NoResponse())
    ensures PrivateResultGuarded(call, "", read) != PrivateResult(call, "", read) <==> read("") != Some(NoResponse())
  {
  }
}
