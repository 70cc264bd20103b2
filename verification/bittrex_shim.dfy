/** The Bittrex response shim (`Bittrex.DoPublic` and `Bittrex.DoPrivate`):
    before a Bittrex reply is handed to the JSON reader, its field names are
    rewritten into the library's own by an ordered list of `String.Replace`
    statements chosen by the call kind. Each list is kept here as data. */
module BittrexShim {
  import opened Text
  import opened Exchange

  // ---------------------------------------------------------------------------
  // Public calls
  // ---------------------------------------------------------------------------

  /** The envelope renames every public reply goes through first. */
  const PublicEnvelope: seq<Rule> := [
    Rule("\"result\":", "\"Data\":"),
    Rule("\"success\":", "\"Success\":"),
    Rule("\"message\":", "\"Message\":")
  ]

  const CurrenciesRules: seq<Rule> := [
    Rule("CurrencyLong", "Name"),
    Rule("Currency", "Symbol"),
    Rule("MinConfirmation", "DepositConfirmations"),
    Rule("TxFee", "WithdrawFee"),
    Rule("\"IsActive\":true", "\"Status\":\"OK\""),
    Rule("\"IsActive\":false", "\"Status\":\"Offline\""),
    Rule("CoinType", "Algorithm"),
    Rule("Notice", "StatusMessage")
  ]

  const TradePairsRules: seq<Rule> := [
    Rule("MarketCurrencyLong", "Currency"),
    Rule("MarketCurrency", "Symbol"),
    Rule("BaseCurrency", "BaseSymbol"),
    Rule("BaseSymbolLong", "BaseCurrency"),
    Rule("MinTradeSize", "MinimumBaseTrade"),
    Rule("MarketName", "Label"),
    Rule("\"IsActive\":true", "\"Status\":\"OK\""),
    Rule("\"IsActive\":false", "\"Status\":\"Offline\"")
  ]

  /** The single-market summary comes as a one-element list; the first two
      rules turn it into an object. */
  const MarketRules: seq<Rule> := [
    Rule("\"Data\":[{", "\"Data\":{"),
    Rule("}]}", "}}"),
    Rule("MarketName", "Label"),
    Rule("Last", "LastPrice"),
    Rule("Ask", "AskPrice"),
    Rule("Bid", "BidPrice")
  ]

  const MarketsRules: seq<Rule> := [
    Rule("MarketName", "Label"),
    Rule("Last", "LastPrice"),
    Rule("Ask", "AskPrice"),
    Rule("Bid", "BidPrice")
  ]

  const MarketHistoryRules: seq<Rule> := [
    Rule("Quantity", "Amount"),
    Rule("OrderType", "Type")
  ]

  const MarketOrdersRules: seq<Rule> := [
    Rule("buy", "Buy"),
    Rule("sell", "Sell"),
    Rule("Quantity", "Volume"),
    Rule("Rate", "Price")
  ]

  /** The rules of the `switch` arm for a public call kind. */
  function PublicKindRules(call: PublicCall): seq<Rule> {
    match call
    case GetCurrencies => CurrenciesRules
    case GetTradePairs => TradePairsRules
    case GetMarkets => MarketsRules
    case GetMarket => MarketRules
    case GetMarketHistory => MarketHistoryRules
    case GetMarketOrders => MarketOrdersRules
  }

  /** Everything `DoPublic` applies, in order. */
  function PublicRules(call: PublicCall): seq<Rule> {
    PublicEnvelope + PublicKindRules(call)
  }

  /** `Bittrex.DoPublic`. */
  function DoPublic(call: PublicCall, response: string): (ret: string)
    ensures NoneApply(PublicRules(call), response) ==> ret == response
  {
    ApplyRules(PublicRules(call), response)
  }

  // ---------------------------------------------------------------------------
  // Private calls
  // ---------------------------------------------------------------------------

  /** The envelope renames every private reply goes through first; unlike the
      public one it renames `"result":` only when a list follows. */
  const PrivateEnvelope: seq<Rule> := [
    Rule("\"result\":[", "\"Data\":["),
    Rule("\"success\":", "\"Success\":"),
    Rule("\"message\":", "\"Message\":")
  ]

  /** The probe that decides whether a single object is wrapped into a list. */
  const SingleObject: Pattern := "\"result\":{"

  /** Wraps a single result object into a one-element list. */
  const WrapRules: seq<Rule> := [
    Rule("\"result\":{", "\"Data\":[{"),
    Rule("}}", "}]}")
  ]

  const BalanceRules: seq<Rule> := [
    Rule("Currency", "Symbol"),
    Rule("Balance", "Total"),
    Rule("Pending", "Unconfirmed"),
    Rule("CryptoAddress", "Address"),
    Rule("UUID", "CurrencyId")
  ]

  const DepositAddressRules: seq<Rule> := [
    Rule("\"result\":", "\"Data\":")
  ]

  const TradeHistoryRules: seq<Rule> := [
    Rule("OrderUuid", "TradeId"),
    Rule("Exchange", "Market"),
    Rule("OrderType", "Type"),
    Rule("Quantity", "Amount"),
    Rule("Price", "Rate"),
    Rule("Commission", "Fee")
  ]

  const TransactionsRules: seq<Rule> := [
    Rule("\"result\":", "\"Data\":"),
    Rule("PaymentUuid", "Id"),
    Rule("LastUpdated", "Timestamp"),
    Rule("Authorized", "Status"),
    Rule("TxCost", "Fee")
  ]

  /** The rules a private call kind applies after the envelope, given whether
      the enveloped text still holds a single result object. */
  function PrivateKindRules(call: PrivateCall, single: bool): seq<Rule> {
    match call
    case GetBalance => (if single then WrapRules else []) + BalanceRules
    case GetDepositAddress => DepositAddressRules
    case GetTradeHistory => if single then WrapRules + TradeHistoryRules else []
    case GetTransactions => TransactionsRules
    case _ => []
  }

  /** `Bittrex.DoPrivate`: the envelope, then the `Contains` probe, then the
      kind's rules. */
  function DoPrivate(call: PrivateCall, response: string): (ret: string)
    ensures (NoneApply(PrivateEnvelope, response) &&
             NoneApply(PrivateKindRules(call, Contains(response, SingleObject)), response)) ==> ret == response
  {
    var ret := ApplyRules(PrivateEnvelope, response);
    match call
    case GetBalance =>
      NoneApplyParts(if Contains(ret, SingleObject) then WrapRules else [], BalanceRules, ret);
      var ret := if Contains(ret, SingleObject) then ApplyRules(WrapRules, ret) else ret;
      ApplyRules(BalanceRules, ret)
    case GetDepositAddress => ApplyRules(DepositAddressRules, ret)
    case GetTradeHistory =>
      if Contains(ret, SingleObject) then
        NoneApplyParts(WrapRules, TradeHistoryRules, ret);
        ApplyRules(TradeHistoryRules, ApplyRules(WrapRules, ret))
      else ret
    case GetTransactions => ApplyRules(TransactionsRules, ret)
    case _ => ret
  }

  /** `DoPrivate` as GetTradeHistory evidently means it: like GetBalance, the
      single object is wrapped when the probe fires, and the kind's renames
      apply to every reply, a list included. Every other call, and a trade
      history whose result is an object, is rewritten as `DoPrivate` does. */
  function DoPrivateIntended(call: PrivateCall, response: string): (ret: string)
    ensures call != GetTradeHistory ==> ret == DoPrivate(call, response)
    ensures Contains(ApplyRules(PrivateEnvelope, response), SingleObject) ==> ret == DoPrivate(call, response)
  {
    if call == GetTradeHistory then
      var ret := ApplyRules(PrivateEnvelope, response);
      var ret := if Contains(ret, SingleObject) then ApplyRules(WrapRules, ret) else ret;
      ApplyRules(TradeHistoryRules, ret)
    else DoPrivate(call, response)
  }
}
