/** The exchange-independent model shared by every adapter (`IExchange.cs`):
    trade pairs, requests, the response envelope, result records and the call
    kinds. Amounts are C# `decimal`s and are kept as exact `real`s; a
    `DateTime` is kept as its tick count. */
module Exchange {
  import opened Outcomes
  import opened Text

  // ---------------------------------------------------------------------------
  // Trade pairs
  // ---------------------------------------------------------------------------

  /** A market: the currency traded, priced in the base currency. */
  datatype TradePair = TradePair(id: Option<int>, baseLabel: string, currencyLabel: string)

  /** `TradePair.PairLabel`, the `BASE-CURRENCY` market name Bittrex uses. */
  function PairLabel(tp: TradePair): (name: string)
    ensures |name| == |tp.baseLabel| + 1 + |tp.currencyLabel|
    ensures StartsWith(name, tp.baseLabel) && EndsWith(name, tp.currencyLabel)
    ensures name[|tp.baseLabel|] == '-'
  {
    tp.baseLabel + "-" + tp.currencyLabel
  }

  /** Splitting a pair label on `-` gives back the two labels, when neither
      holds a `-` itself. */
  lemma PairLabelSplit(tp: TradePair)
    requires '-' !in tp.baseLabel && '-' !in tp.currencyLabel
    ensures Split(PairLabel(tp), '-') == [tp.baseLabel, tp.currencyLabel]
  {
    SplitAtFirst(tp.baseLabel, '-', tp.currencyLabel);
    SplitNoSeparator(tp.currencyLabel, '-');
  }

  /** Pair labels of dash-free labels determine the labels: two such pairs
      share a label exactly when they share both currency labels. */
  lemma PairLabelInjective(a: TradePair, b: TradePair)
    requires '-' !in a.baseLabel && '-' !in a.currencyLabel
    requires '-' !in b.baseLabel && '-' !in b.currencyLabel
    ensures PairLabel(a) == PairLabel(b) <==>
              a.baseLabel == b.baseLabel && a.currencyLabel == b.currencyLabel
  {
    PairLabelSplit(a);
    PairLabelSplit(b);
  }

  // ---------------------------------------------------------------------------
  // Cancel requests
  // ---------------------------------------------------------------------------

  datatype CancelTradeType = Trade | TradePair | All

  datatype CancelTradeRequest = CancelTradeRequest(
    orderId: Option<int>, tradePairId: Option<int>, cancelType: CancelTradeType)

  /** `new CancelTradeRequest()`: cancel every open order. */
  function CancelAll(): (r: CancelTradeRequest)
    ensures r.cancelType == All && r.orderId == None && r.tradePairId == None
  {
    CancelTradeRequest(None, None, All)
  }

  /** `new CancelTradeRequest(orderId)`: cancel one order. */
  function CancelOrder(orderId: int): (r: CancelTradeRequest)
    ensures r.cancelType == Trade && r.orderId == Some(orderId) && r.tradePairId == None
  {
    CancelTradeRequest(Some(orderId), None, Trade)
  }

  /** `new CancelTradeRequest(tradePairId, type)`: cancel every order of a
      pair. The `type` argument is accepted and never read. */
  function CancelPairOrders(tradePairId: int, cancelType: CancelTradeType): (r: CancelTradeRequest)
    ensures r.cancelType == CancelTradeType.TradePair
    ensures r.tradePairId == Some(tradePairId) && r.orderId == None
  {
    CancelTradeRequest(None, Some(tradePairId), CancelTradeType.TradePair)
  }

  /** The requests the three constructors can build: the one identifier that is
      set matches the type. */
  predicate WellFormedCancel(r: CancelTradeRequest) {
    match r.cancelType
    case All => r.orderId.None? && r.tradePairId.None?
    case Trade => r.orderId.Some? && r.tradePairId.None?
    case _ => r.orderId.None? && r.tradePairId.Some?
  }

  /** Every well-formed cancel request is built by exactly one constructor,
      and the per-pair constructor's result does not depend on its `type`. */
  lemma CancelConstructorsCover(r: CancelTradeRequest)
    ensures WellFormedCancel(r) <==>
              (r == CancelAll() ||
               (exists id :: r == CancelOrder(id)) ||
               (exists id :: r == CancelPairOrders(id, All)))
    ensures forall id, t1, t2 :: CancelPairOrders(id, t1) == CancelPairOrders(id, t2)
  {
    if WellFormedCancel(r) {
      if r.cancelType == Trade {
        assert r == CancelOrder(r.orderId.value);
      } else if r.cancelType == CancelTradeType.TradePair {
        assert r == CancelPairOrders(r.tradePairId.value, All);
      }
    }
  }

  // ---------------------------------------------------------------------------
  // Other requests (fields only; their constructors just assign them)
  // ---------------------------------------------------------------------------

  datatype MarketsRequest = MarketsRequest(hours: Option<int>)
  datatype MarketRequest = MarketRequest(tradePair: TradePair, hours: Option<int>)
  datatype MarketHistoryRequest = MarketHistoryRequest(tradePair: TradePair)
  datatype MarketOrdersRequest = MarketOrdersRequest(tradePair: TradePair, orderCount: Option<int>)
  datatype BalanceRequest = BalanceRequest(currency: Option<string>, currencyId: Option<int>)
  datatype DepositAddressRequest = DepositAddressRequest(currency: Option<string>, currencyId: Option<int>)
  datatype OpenOrdersRequest =
    OpenOrdersRequest(tradePairId: Option<int>, market: Option<string>, count: Option<int>)
  datatype TradeType = Buy | Sell
  datatype SubmitTradeRequest = SubmitTradeRequest(
    tradePairId: Option<int>, market: Option<string>, tradeType: TradeType, rate: real, amount: real)
  datatype SubmitWithdrawRequest = SubmitWithdrawRequest(
    amount: real, currency: Option<string>, currencyId: Option<int>, address: Option<string>)
  datatype TradeHistoryRequest =
    TradeHistoryRequest(tradePairId: Option<int>, market: Option<string>, count: Option<int>)
  datatype TransactionType = Deposit | Withdraw
  datatype TransactionRequest =
    TransactionRequest(transactionType: TransactionType, count: Option<int>, currency: Option<string>)

  // ---------------------------------------------------------------------------
  // The response envelope
  // ---------------------------------------------------------------------------

  /** `Response<T>`: a null `Error` or `Data` is `None`. */
  datatype Response<T> = Response(success: bool, error: Option<string>, data: Option<T>)

  const NoResponseText := "No Response."

  /** What both adapters return for an empty or missing reply body. */
  function NoResponse<T>(): (r: Response<T>)
    ensures !r.success && r.error == Some(NoResponseText) && r.data.None?
  {
    Response(false, Some(NoResponseText), None)
  }

  /** The exceptions an adapter operation can end in, as outcomes. */
  datatype Fault =
    | NullReference          // a member of a null `Data` or list is read
    | DuplicateKey(key: string) // `Dictionary.Add` with a key already present
    | DivideByZero           // a `decimal` division by zero
    | NotImplemented         // the operation throws `NotImplementedException`
    | FormatError            // `String.Format` throws `FormatException`

  // ---------------------------------------------------------------------------
  // Result records
  // ---------------------------------------------------------------------------

  datatype CurrencyResult = CurrencyResult(
    id: int, name: string, symbol: string, algorithm: string,
    withdrawFee: real, minWithdraw: real, maxWithdraw: real, minBaseTrade: real,
    depositConfirmations: int, status: string, statusMessage: string, listingStatus: string)

  datatype TradePairResult = TradePairResult(
    id: int, marketLabel: string, currency: string, symbol: string,
    baseCurrency: string, baseSymbol: string, status: string, statusMessage: string,
    tradeFee: real, minimumTrade: real, maximumTrade: real,
    minimumBaseTrade: real, maximumBaseTrade: real, minimumPrice: real, maximumPrice: real)

  datatype MarketResult = MarketResult(
    tradePairId: string, marketLabel: string, askPrice: real, bidPrice: real,
    low: real, high: real, volume: real, lastPrice: real, lastVolume: real,
    buyVolume: real, sellVolume: real, change: real, prevDay: real)

  datatype MarketHistoryResult = MarketHistoryResult(
    id: int, tradePairId: string, marketLabel: string, historyType: string,
    price: real, amount: real, total: real, timestamp: int)

  datatype MarketOrderResult = MarketOrderResult(
    tradePairId: string, marketLabel: string, price: real, volume: real, total: real)

  /** A null `Buy` or `Sell` list is `None`. */
  datatype MarketOrdersResult = MarketOrdersResult(
    buy: Option<seq<MarketOrderResult>>, sell: Option<seq<MarketOrderResult>>)

  datatype TradeHistoryResult = TradeHistoryResult(
    tradeId: int, tradePairId: string, market: string, tradeType: string,
    rate: real, amount: real, total: real, fee: real, timeStamp: int)

  datatype TransactionResult = TransactionResult(
    address: string, id: int, currency: string, txId: string, transactionType: string,
    amount: real, fee: real, status: string, confirmations: int, timestamp: int)

  // ---------------------------------------------------------------------------
  // Operations
  // ---------------------------------------------------------------------------

  /** A public operation with its request. */
  datatype PublicRequest =
    | Currencies
    | TradePairs
    | Markets(markets: MarketsRequest)
    | Market(market: MarketRequest)
    | MarketHistory(history: MarketHistoryRequest)
    | MarketOrders(orders: MarketOrdersRequest)

  /** The call kind each operation passes to `GetResult`. */
  function PublicCallOf(req: PublicRequest): PublicCall {
    match req
    case Currencies => GetCurrencies
    case TradePairs => GetTradePairs
    case Markets(_) => GetMarkets
    case Market(_) => GetMarket
    case MarketHistory(_) => GetMarketHistory
    case MarketOrders(_) => GetMarketOrders
  }

  /** The market a single-market operation is about. */
  function MarketOf(req: PublicRequest): Option<TradePair> {
    match req
    case Market(r) => Some(r.tradePair)
    case MarketHistory(r) => Some(r.tradePair)
    case MarketOrders(r) => Some(r.tradePair)
    case _ => None
  }

  /** A private operation with its request. */
  datatype PrivateRequest =
    | Balances(balance: BalanceRequest)
    | CancelTradeOp(cancel: CancelTradeRequest)
    | DepositAddress(deposit: DepositAddressRequest)
    | OpenOrders(open: OpenOrdersRequest)
    | TradeHistory(trades: TradeHistoryRequest)
    | Transactions(transactions: TransactionRequest)
    | SubmitTradeOp(submit: SubmitTradeRequest)
    | SubmitWithdrawOp(withdraw: SubmitWithdrawRequest)

  /** The call kind each private operation passes to `GetResult`. */
  function PrivateCallOf(req: PrivateRequest): PrivateCall {
    match req
    case Balances(_) => GetBalance
    case CancelTradeOp(_) => CancelTrade
    case DepositAddress(_) => GetDepositAddress
    case OpenOrders(_) => GetOpenOrders
    case TradeHistory(_) => GetTradeHistory
    case Transactions(_) => GetTransactions
    case SubmitTradeOp(_) => SubmitTrade
    case SubmitWithdrawOp(_) => SubmitWithdraw
  }

  /** What a public `GetResult` does with a reply body: an empty or missing
      body short-cuts to the "No Response." record; any other body is handed,
      possibly rewritten, to the JSON reader. */
  datatype Fetched = NoBody | ParseText(text: string)

  /** The record `GetResult` returns, given the reader. */
  function Respond<T>(f: Fetched, read: string -> Response<T>): (r: Response<T>)
    ensures f.NoBody? ==> !r.success && r.error == Some(NoResponseText) && r.data.None?
  {
    match f
    case NoBody => NoResponse()
    case ParseText(t) => read(t)
  }

  // ---------------------------------------------------------------------------
  // Call kinds
  // ---------------------------------------------------------------------------

  datatype PublicCall =
    GetCurrencies | GetTradePairs | GetMarkets | GetMarket | GetMarketHistory | GetMarketOrders

  datatype PrivateCall =
    CancelTrade | GetTradeHistory | GetOpenOrders | GetBalance | SubmitTrade
    | GetTransactions | SubmitTip | GetDepositAddress | SubmitWithdraw

  /** The enum member's name, which is what C# prints for it. */
  function PublicCallName(call: PublicCall): string {
    match call
    case GetCurrencies => "GetCurrencies"
    case GetTradePairs => "GetTradePairs"
    case GetMarkets => "GetMarkets"
    case GetMarket => "GetMarket"
    case GetMarketHistory => "GetMarketHistory"
    case GetMarketOrders => "GetMarketOrders"
  }

  function PrivateCallName(call: PrivateCall): string {
    match call
    case CancelTrade => "CancelTrade"
    case GetTradeHistory => "GetTradeHistory"
    case GetOpenOrders => "GetOpenOrders"
    case GetBalance => "GetBalance"
    case SubmitTrade => "SubmitTrade"
    case GetTransactions => "GetTransactions"
    case SubmitTip => "SubmitTip"
    case GetDepositAddress => "GetDepositAddress"
    case SubmitWithdraw => "SubmitWithdraw"
  }

  /** Distinct public call kinds print differently and never print a `/`, so
      the name is one path segment that identifies the call. */
  lemma PublicCallNameInjective(a: PublicCall, b: PublicCall)
    ensures PublicCallName(a) == PublicCallName(b) <==> a == b
    ensures '/' !in PublicCallName(a)
  {
  }

  lemma PrivateCallNameInjective(a: PrivateCall, b: PrivateCall)
    ensures PrivateCallName(a) == PrivateCallName(b) <==> a == b
    ensures '/' !in PrivateCallName(a)
  {
  }
}
