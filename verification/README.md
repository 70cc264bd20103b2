# CryptoExchangeLib: the normalisation and authentication layer, in Dafny

CryptoExchangeLib gives several cryptocurrency exchanges one interface
(`IExchange`). Each adapter turns an operation into an HTTP request. Private
operations are signed. The adapter then brings the exchange's reply into the
shared `Response<T>` records. This project models that layer for the
Bittrex and Cryptopia adapters and proves properties of it.

Modules:

- `Outcomes`: `Option` and `Result`. The model uses them for the source's null
  values and exceptions.
- `Text`: the .NET string operations the adapters rely on. These are ordinal
  `String.Replace` (left to right, non-overlapping), `Contains`, `TrimEnd`,
  and a `Split`/`Join` pair used to read labels and headers back.
- `ReplaceFacts`: general facts about `Replace` and about a fixed sequence of
  replacements. They cover identity, length, how a rewrite distributes over a
  concatenation, keys a sequence can never reintroduce, and how a key is
  renamed through a chain of rules.
- `Exchange`: the shared vocabulary of `IExchange.cs`:
  - `TradePair` and its `PairLabel`
  - the `CancelTradeRequest` constructors
  - the request and result records
  - `Response<T>` and the "No Response." record
  - the `PublicApiCall` and `PrivateApiCall` enums and their names
- `Numbers`: `byte.ToString("X2")` as it is concatenated by `byteToString`,
  and `long.ToString()`. Each comes with the reader that parses it back.
- `Converter`: the three `Converter.ToDictionary` overloads, with
  `Dictionary.Add`'s duplicate-key exception.
- `CompositeFormat`: `String.Format` as the .NET Framework reads a composite
  format with string arguments: `{{` and `}}` escapes, holes with an index,
  an optional alignment and a format part, and `FormatException` for
  anything else.
- `BittrexShim`: `Bittrex.DoPublic` and `Bittrex.DoPrivate`. These rewrite the
  raw JSON text of a reply into the shared field names, each as a fixed table
  of replacements applied in order. `BittrexShimFacts` holds what is proved
  about them.
- `Bittrex`: the Bittrex adapter's queries and URLs, the HMAC-SHA512
  `apisign` signature, and the fix-ups each operation makes to the records it
  reads back.
- `Cryptopia`: the Cryptopia adapter's query paths and URLs, the `amx`
  authorization header built in `GetResult<T, U>`, and the one built by
  `AuthDelegatingHandler.SendAsync`.

Some inputs are parameters:

- The reply body is an input (`Option<string>`, with `None` for null).
- The JSON reader is a parameter: `string -> Response<T>` after the public
  `GetResult`, and `string -> Option<Response<T>>` after the private one,
  with `None` where `DeserializeObject` returns null.
- MD5, HMAC, Base64, UTF-8 and URI encoding are parameters: the
  `Cryptopia.Primitives` record, and the `hmacSha512`/`utf8` parameters of
  `Bittrex.Sign`.
- The clock's tick count and the `Guid` nonce are parameters.

A .NET exception becomes a `Fault` in a `Result`. `decimal` arithmetic is
modelled on `real`.

Where the code does not do what the adapters appear to intend (one
`Response` record per call, and the "No Response." record when the exchange
sends no body), the model follows the code:

- Bittrex tags withdrawals `"Withdrawl"`, not `"Withdrawal"`.
- An empty Bittrex body in `GetMarkets`, `GetMarketHistory` and
  `GetMarketOrders` ends in a `NullReferenceException`, not the "No Response."
  record. The fix-up loops dereference the record's null `Data`.
- The renames are global textual replacements over the whole reply, not
  renames of the fields of one nested object.
- A Bittrex trade-history reply whose `result` is a list keeps its native
  field names (see Findings).
- The private `GetResult` of both adapters has no empty-body check: an
  empty reply goes through the shim (Bittrex) to `DeserializeObject`, which
  gives null. So `GetBalances` and `GetDepositAddress` return null, and
  Bittrex's `GetTradeHistory` and `GetTransactions` throw
  `NullReferenceException` (see Findings).
- The Bittrex private URL is built by `String.Format` with the API key and
  the nonce spliced into the format itself, so a key holding a brace is read
  as format text (see Findings).
- Bittrex throws `NotImplementedException` for cancel, open orders, submit
  trade and submit withdraw. Cryptopia implements all of them.

## Model

| member | source | states |
|---|---|---|
| Text.ContainsIff | CryptoExchangeLib/Common/Bittrex.cs:409 | `Contains` holds exactly when the pattern occurs at some position |
| Text.Replace | CryptoExchangeLib/Common/Bittrex.cs:326-328 | ordinal `String.Replace` leaves a text without the pattern unchanged |
| Text.ApplyRules | CryptoExchangeLib/Common/Bittrex.cs:322-393 | a table of replacements leaves a text that none of its patterns occurs in unchanged |
| Text.TrimEnd | CryptoExchangeLib/Common/Bittrex.cs:190 | `TrimEnd(c)` gives a prefix that does not end in `c`, and every removed character is `c` |
| CompositeFormat.Format | CryptoExchangeLib/Common/Bittrex.cs:190 | `String.Format` copies a format without braces as it is |
| CompositeFormat.Pad | CryptoExchangeLib/Common/Bittrex.cs:190 | an aligned argument is padded with spaces to the width, on the right when left-justified and on the left otherwise, and is never cut |
| CompositeFormat.FormatLiteral | CryptoExchangeLib/Common/Bittrex.cs:190 | brace-free text in front of a format is copied in front of its result |
| CompositeFormat.FormatEscape | CryptoExchangeLib/Common/Bittrex.cs:190 | a text with every brace doubled formats back to the text, whatever the arguments |
| CompositeFormat.FormatHole | CryptoExchangeLib/Common/Bittrex.cs:190 | a one-digit hole `{i}` is replaced by argument `i` |
| CompositeFormat.FormatHoleLiteral | CryptoExchangeLib/Common/Bittrex.cs:190 | a one-digit hole followed by brace-free text gives the argument and the text, then the rest formatted |
| CompositeFormat.FormatTwoHoles | CryptoExchangeLib/Common/Bittrex.cs:190 | two one-digit holes, each followed by brace-free text, give both arguments and both texts in order |
| CompositeFormat.FormatHoleOutOfRange | CryptoExchangeLib/Common/Bittrex.cs:190 | a one-digit index past the arguments throws |
| CompositeFormat.FormatLoneClose | CryptoExchangeLib/Common/Bittrex.cs:190 | a `}` that is not doubled throws |
| CompositeFormat.FormatLoneOpen | CryptoExchangeLib/Common/Bittrex.cs:190 | a `{` that is neither doubled nor followed by a digit throws |
| CompositeFormat.FormatAppend | CryptoExchangeLib/Common/Bittrex.cs:190 | brace-free text at the end of a format is copied after the result, and a format that throws still throws |
| ReplaceFacts.ReplaceIdentityIff | CryptoExchangeLib/Common/Bittrex.cs:326-328 | a replacement leaves the text unchanged if and only if the pattern is absent or is replaced by itself |
| ReplaceFacts.ReplaceWithItself | CryptoExchangeLib/Common/Bittrex.cs:326-328 | replacing a pattern by itself is the identity |
| ReplaceFacts.ReplaceLengthBounds | CryptoExchangeLib/Common/Bittrex.cs:326-328 | a replacement by something no longer never lengthens the text, and one by something no shorter never shortens it |
| ReplaceFacts.ReplaceConcat | CryptoExchangeLib/Common/Bittrex.cs:326-328 | when no occurrence straddles the seam, replacing in a concatenation replaces in each part |
| ReplaceFacts.ReplaceTracesBack | CryptoExchangeLib/Common/Bittrex.cs:326-328 | a text found after a replacement overlaps the replacement text or was already there |
| ReplaceFacts.ReplaceKeepsOut | CryptoExchangeLib/Common/Bittrex.cs:326-328 | a replacement that cannot form a text does not introduce it |
| ReplaceFacts.ApplyRulesAppend | CryptoExchangeLib/Common/Bittrex.cs:322-393 | running two tables in a row is running their concatenation |
| ReplaceFacts.ApplyRulesConcat | CryptoExchangeLib/Common/Bittrex.cs:322-393 | a table rewrites a concatenation part by part when no pattern can straddle the seam |
| ReplaceFacts.ApplyRulesLeading | CryptoExchangeLib/Common/Bittrex.cs:322-393 | a character that begins no pattern passes through a table untouched at the head |
| ReplaceFacts.ApplyRulesBefore | CryptoExchangeLib/Common/Bittrex.cs:322-393 | a table rewrites both sides of such a character independently when the left side cannot reach across it |
| ReplaceFacts.ApplyRulesSeparator | CryptoExchangeLib/Common/Bittrex.cs:322-393 | a character that appears in no pattern splits the rewrite into independent halves |
| ReplaceFacts.ApplyRulesKeepsOut | CryptoExchangeLib/Common/Bittrex.cs:322-393 | a text absent from the input that no rule's replacement can help form is absent from the output |
| ReplaceFacts.ApplyRulesClearsFind | CryptoExchangeLib/Common/Bittrex.cs:326-328 | a pattern that neither its own nor any later replacement can re-form is absent from the output, whatever the input |
| ReplaceFacts.ApplyRulesMissed | CryptoExchangeLib/Common/Bittrex.cs:322-393 | a text no pattern occurs in passes through a table unchanged |
| ReplaceFacts.ApplyRulesForeign | CryptoExchangeLib/Common/Bittrex.cs:322-393 | a text over an alphabet every pattern leaves passes through a table unchanged |
| ReplaceFacts.ApplyRulesRenamesKey | CryptoExchangeLib/Common/Bittrex.cs:322-393 | a rule's key becomes its replacement when no earlier pattern fires on the key and no later one on the result |
| ReplaceFacts.ApplyRulesChain | CryptoExchangeLib/Common/Bittrex.cs:347-348 | two consecutive rules compose: one rule's output that is the next rule's key ends as the next rule's replacement |
| BittrexShim.DoPublic | CryptoExchangeLib/Common/Bittrex.cs:322-393 | a public reply that none of the call's patterns occurs in is returned unchanged |
| BittrexShim.DoPrivate | CryptoExchangeLib/Common/Bittrex.cs:395-450 | a reply that no envelope rename and no rule of the call's own table can match comes back unchanged |
| BittrexShim.DoPrivateIntended | CryptoExchangeLib/Common/Bittrex.cs:426-438 | the corrected private shim: it agrees with `DoPrivate` on every other call and on every single-object trade-history reply |
| BittrexShimFacts.DoPublicStages | CryptoExchangeLib/Common/Bittrex.cs:322-393 | the public shim is the envelope table followed by the call's own table |
| BittrexShimFacts.DoPublicSeparator | CryptoExchangeLib/Common/Bittrex.cs:322-393 | the public shim never rewrites across a comma: it rewrites the two sides of a comma independently |
| BittrexShimFacts.DoPrivateSeparator | CryptoExchangeLib/Common/Bittrex.cs:395-450 | the private shim rewrites the two sides of a comma independently for every call without the object probe |
| BittrexShimFacts.DoPrivateByKind | CryptoExchangeLib/Common/Bittrex.cs:395-450 | the private shim is the envelope, then the kind's table chosen by whether the envelope's output holds `"result":{` |
| BittrexShimFacts.KindRulesKeepKeys | CryptoExchangeLib/Common/Bittrex.cs:329-391 | a text written only with the letters of the renamed envelope keys `"Data":`, `"Success":` and `"Message":` passes through every public call's table unchanged, since each of its patterns has a character outside those letters |
| BittrexShimFacts.EnvelopeRenamesResult | CryptoExchangeLib/Common/Bittrex.cs:326 | the envelope renames the `result` key to `Data` |
| BittrexShimFacts.EnvelopeRenamesSuccess | CryptoExchangeLib/Common/Bittrex.cs:327 | the envelope renames the `success` key to `Success` |
| BittrexShimFacts.EnvelopeRenamesMessage | CryptoExchangeLib/Common/Bittrex.cs:328 | the envelope renames the `message` key to `Message` |
| BittrexShimFacts.EnvelopeClearsResult | CryptoExchangeLib/Common/Bittrex.cs:326-328 | no `"result":` key survives the public envelope, whatever the reply |
| BittrexShimFacts.EnvelopeClearsSuccess | CryptoExchangeLib/Common/Bittrex.cs:326-328 | no `"success":` key survives the public envelope, whatever the reply |
| BittrexShimFacts.EnvelopeClearsMessage | CryptoExchangeLib/Common/Bittrex.cs:326-328 | no `"message":` key survives the public envelope, whatever the reply |
| BittrexShimFacts.DoPublicRenamesEnvelope | CryptoExchangeLib/Common/Bittrex.cs:322-393 | for every public call, the three envelope keys come out as `Data`, `Success` and `Message` |
| BittrexShimFacts.EnvelopeQuoted | CryptoExchangeLib/Common/Bittrex.cs:326-328 | every envelope pattern begins with a quote |
| BittrexShimFacts.EnvelopeSkipsBare | CryptoExchangeLib/Common/Bittrex.cs:399-401 | a text without quotes passes through both envelopes unchanged |
| BittrexShimFacts.DoPublicRenamesKindKey | CryptoExchangeLib/Common/Bittrex.cs:329-391 | a per-call key without quotes becomes its replacement through the whole public shim, unless an earlier rule fires on it or a later rule fires on the result |
| BittrexShimFacts.DoPublicChain | CryptoExchangeLib/Common/Bittrex.cs:345-348 | a key rewritten into the next rule's key ends as that rule's replacement through the whole public shim |
| BittrexShimFacts.CurrencyLongBecomesName | CryptoExchangeLib/Common/Bittrex.cs:333-334 | `CurrencyLong` becomes `Name` and is not caught by the later `Currency` rule |
| BittrexShimFacts.CurrencyBecomesSymbol | CryptoExchangeLib/Common/Bittrex.cs:334 | a currency list's `Currency` key becomes `Symbol` |
| BittrexShimFacts.CurrencyRulesSwapped | CryptoExchangeLib/Common/Bittrex.cs:333-334 | the order of the two rules matters: swapped, `CurrencyLong` would become `SymbolLong` |
| BittrexShimFacts.BaseCurrencyLongBecomesBaseCurrency | CryptoExchangeLib/Common/Bittrex.cs:347-348 | `BaseCurrencyLong` passes through `BaseSymbolLong` and ends as `BaseCurrency` |
| BittrexShimFacts.BaseCurrencyBecomesBaseSymbol | CryptoExchangeLib/Common/Bittrex.cs:347 | `BaseCurrency` becomes `BaseSymbol` |
| BittrexShimFacts.MarketCurrencyLongBecomesCurrency | CryptoExchangeLib/Common/Bittrex.cs:345-346 | `MarketCurrencyLong` becomes `Currency` and is not caught by the later `MarketCurrency` rule |
| BittrexShimFacts.MarketCurrencyBecomesSymbol | CryptoExchangeLib/Common/Bittrex.cs:346 | `MarketCurrency` becomes `Symbol` |
| BittrexShimFacts.EnvelopeOpensDataList | CryptoExchangeLib/Common/Bittrex.cs:326 | a list-valued `result` opens as a `Data` list |
| BittrexShimFacts.GetMarketOpensObject | CryptoExchangeLib/Common/Bittrex.cs:357 | for a single market, the one-element `result` list opens as a `Data` object |
| BittrexShimFacts.GetMarketClosesObject | CryptoExchangeLib/Common/Bittrex.cs:358 | for a single market, the list's closing `}]}` becomes the object's `}}` |
| BittrexShimFacts.GetMarketsKeepsList | CryptoExchangeLib/Common/Bittrex.cs:367-370 | the market summaries stay a `Data` list, opening and closing unchanged |
| BittrexShimFacts.ProbeOnOpenings | CryptoExchangeLib/Common/Bittrex.cs:409 | the probe sees an object-valued `result` and does not see a renamed list |
| BittrexShimFacts.ObjectOpeningWrapped | CryptoExchangeLib/Common/Bittrex.cs:399-412 | an object-valued `result` survives the private envelope and is wrapped into a one-element `Data` list |
| BittrexShimFacts.DoPrivateWrapsObject | CryptoExchangeLib/Common/Bittrex.cs:407-438 | balance and trade-history replies with an object `result` open as a `Data` list |
| BittrexShimFacts.DoPrivateKeepsList | CryptoExchangeLib/Common/Bittrex.cs:399-438 | balance and trade-history replies with a list `result` open as a `Data` list |
| BittrexShimFacts.BalanceRenamesBareKey | CryptoExchangeLib/Common/Bittrex.cs:415-419 | a balance key without quotes becomes its replacement through the whole private shim, unless an earlier rule fires on it or a later rule fires on the result |
| BittrexShimFacts.BalanceRenamesCurrency | CryptoExchangeLib/Common/Bittrex.cs:415 | a balance reply's `Currency` key becomes `Symbol` |
| BittrexShimFacts.TradeHistoryRenamesQuantity | CryptoExchangeLib/Common/Bittrex.cs:431-436 | the trade-history table renames `Quantity` to `Amount` |
| BittrexShimFacts.WrappedRenamesQuantity | CryptoExchangeLib/Common/Bittrex.cs:429-436 | `Quantity` has no quote, survives the wrap and is renamed to `Amount` |
| BittrexShimFacts.ObjectOpeningThroughTradeHistory | CryptoExchangeLib/Common/Bittrex.cs:426-438 | an object `result` passes the envelope, trips the probe, is wrapped, and the renames leave the wrap alone |
| BittrexShimFacts.TradeHistoryObjectRenamesQuantity | CryptoExchangeLib/Common/Bittrex.cs:426-438 | in an object-valued trade-history reply, the `Quantity` key after the opening becomes `Amount` |
| BittrexShimFacts.TradeHistoryKeepsBare | CryptoExchangeLib/Common/Bittrex.cs:426-438 | a quote-free text reaches the trade-history shim's probe unchanged and, the probe failing, leaves it unchanged |
| BittrexShimFacts.QuantityNotObject | CryptoExchangeLib/Common/Bittrex.cs:427 | the probe does not fire on a `Quantity` key |
| BittrexShimFacts.OrderListEnveloped | CryptoExchangeLib/Common/Bittrex.cs:399-427 | a list of orders has its `result` key renamed by the envelope and does not fire the object probe |
| BittrexShimFacts.TradeHistoryListKeepsQuantity | CryptoExchangeLib/Common/Bittrex.cs:426-438 | as written, a trade-history reply whose `result` is a list of orders keeps its `Quantity` key |
| BittrexShimFacts.IntendedListRenamesQuantity | CryptoExchangeLib/Common/Bittrex.cs:431-436 | corrected, the same list of orders has `Quantity` renamed to `Amount` |
| BittrexShimFacts.ObjectJoin | CryptoExchangeLib/Common/Bittrex.cs:407-438 | for balances and trade history, once the object probe fires, the text on either side of a comma goes through the wrap and the call's renames on its own |
| BittrexShimFacts.ObjectCloseWrapped | CryptoExchangeLib/Common/Bittrex.cs:412-436 | the wrap turns `}}` into `}]}`, which no balance or trade-history rename matches |
| BittrexShimFacts.ObjectEndsThroughKind | CryptoExchangeLib/Common/Bittrex.cs:409-436 | the balance and trade-history object tables turn `"result":{` into `"Data":[{` and `}}` into `}]}` |
| BittrexShimFacts.DoPrivateClosesObject | CryptoExchangeLib/Common/Bittrex.cs:407-438 | an object-valued balance or trade-history reply is opened and closed as a one-element list: `"result":{` becomes `"Data":[{` and `}}` becomes `}]}` |
| BittrexShimFacts.DoPrivateClearsObject | CryptoExchangeLib/Common/Bittrex.cs:407-438 | no `"result":{` is ever left in a balance or trade-history reply after the private shim |
| BittrexShimFacts.ObjectApartFromWrapped | CryptoExchangeLib/Common/Bittrex.cs:411 | the object opening and its wrapped form cannot overlap so as to rebuild the opening |
| BittrexShimFacts.ObjectApartFromNames | CryptoExchangeLib/Common/Bittrex.cs:412-436 | no closing, balance or trade-history replacement can rebuild the object opening |
| BittrexShimFacts.ProbedObjectCleared | CryptoExchangeLib/Common/Bittrex.cs:409-436 | once the probe has fired, the balance or trade-history object table leaves no `"result":{` |
| Exchange.PairLabel | CryptoExchangeLib/Common/IExchange.cs:534 | the label is the base label, a dash, then the currency label |
| Exchange.PairLabelSplit | CryptoExchangeLib/Common/IExchange.cs:534 | splitting the label on the dash gives the two labels back, when neither holds a dash |
| Exchange.PairLabelInjective | CryptoExchangeLib/Common/IExchange.cs:534 | dash-free pairs share a label if and only if both labels agree |
| Exchange.CancelAll | CryptoExchangeLib/Common/IExchange.cs:151-154 | the parameterless constructor cancels all orders and names neither an order nor a pair |
| Exchange.CancelOrder | CryptoExchangeLib/Common/IExchange.cs:160-164 | the order-id constructor cancels one trade and names no pair |
| Exchange.CancelPairOrders | CryptoExchangeLib/Common/IExchange.cs:170-174 | the pair constructor always makes a per-pair cancel, whatever `type` it is given |
| Exchange.CancelConstructorsCover | CryptoExchangeLib/Common/IExchange.cs:146-190 | the well-formed requests are exactly those the three constructors build, and the `type` argument is ignored |
| Exchange.NoResponse | CryptoExchangeLib/Common/Bittrex.cs:88-91 | the "No Response." record is unsuccessful, carries that message and has no data |
| Exchange.Respond | CryptoExchangeLib/Common/Cryptopia.cs:88-92 | a missing or empty body yields the "No Response." record, never the reader's output |
| Exchange.PublicCallNameInjective | CryptoExchangeLib/Common/IExchange.cs:707-715 | distinct public calls have distinct names |
| Exchange.PrivateCallNameInjective | CryptoExchangeLib/Common/IExchange.cs:694-705 | distinct private calls have distinct names, and no name holds a slash |
| Numbers.HexDigit | CryptoExchangeLib/Common/Bittrex.cs:176-182 | a nibble's digit is an upper-case hexadecimal digit |
| Numbers.HexValue | CryptoExchangeLib/Common/Bittrex.cs:176-182 | a character has a value exactly when it is an upper-case hexadecimal digit, and the digit of that value is the character |
| Numbers.ByteHex | CryptoExchangeLib/Common/Bittrex.cs:180 | `X2` writes two digits whose values are the byte's high and low nibbles |
| Numbers.UpperHex | CryptoExchangeLib/Common/Bittrex.cs:176-182 | the rendering has two hexadecimal digits per byte |
| Numbers.UpperHexAt | CryptoExchangeLib/Common/Bittrex.cs:176-182 | byte `i` is rendered at positions `2i` and `2i+1` |
| Numbers.HexDecode | CryptoExchangeLib/Common/Bittrex.cs:176-182 | the reader yields half as many bytes as there are digits |
| Numbers.HexDecodeUpperHex | CryptoExchangeLib/Common/Bittrex.cs:176-182 | reading the rendering gives the bytes back |
| Numbers.UpperHexHexDecode | CryptoExchangeLib/Common/Bittrex.cs:176-182 | any text the reader accepts is the rendering of what it reads |
| Numbers.UpperHexInjective | CryptoExchangeLib/Common/Bittrex.cs:176-182 | distinct hashes give distinct signatures |
| Numbers.UpperHexSnoc | CryptoExchangeLib/Common/Bittrex.cs:178-180 | rendering one more byte appends its two digits |
| Numbers.ByteToString | CryptoExchangeLib/Common/Bittrex.cs:176-182 | the loop's text reads back to the input bytes, two digits per byte, in order |
| Numbers.DecimalString | CryptoExchangeLib/Common/Bittrex.cs:187 | `ToString()` of a tick count is non-empty, all digits, with no leading zero |
| Numbers.ParseDecimal | CryptoExchangeLib/Common/Bittrex.cs:187 | a text parses exactly when it is a non-empty string of digits |
| Numbers.ParseDecimalString | CryptoExchangeLib/Common/Bittrex.cs:187 | parsing the nonce gives the tick count back |
| Numbers.DecimalStringInjective | CryptoExchangeLib/Common/Bittrex.cs:187 | distinct tick counts give distinct nonces |
| Numbers.IntString | CryptoExchangeLib/Common/Cryptopia.cs:107-128 | an integer's text starts with a minus sign exactly when it is negative |
| Numbers.ParseIntString | CryptoExchangeLib/Common/Cryptopia.cs:107-128 | parsing an integer's text gives the integer back |
| Converter.ToDictionary | CryptoExchangeLib/Common/IExchange.cs:770-810 | the index is built exactly when the data is present with distinct keys, and holds each element under its key; otherwise the failure names the first repeated key, or is a null reference |
| Converter.CurrenciesToDictionary | CryptoExchangeLib/Common/IExchange.cs:773-783 | currencies are indexed by symbol, all of them, exactly when the symbols are distinct |
| Converter.TradePairsToDictionary | CryptoExchangeLib/Common/IExchange.cs:785-795 | trade pairs are indexed by label, all of them, exactly when the labels are distinct |
| Converter.MarketsToDictionary | CryptoExchangeLib/Common/IExchange.cs:798-808 | markets are indexed by label, all of them, exactly when the labels are distinct |
| Bittrex.PublicQuery | CryptoExchangeLib/Common/Bittrex.cs:98-146 | exactly the single-market operations (GetMarket, GetMarketHistory, GetMarketOrders) send a query with a `?` parameter part; GetCurrencies, GetTradePairs and GetMarkets send a bare endpoint |
| Bittrex.PublicQueryReadBack | CryptoExchangeLib/Common/Bittrex.cs:98-146 | each public operation's query reads back to its own endpoint: getcurrencies, getmarkets, getmarketsummaries, getmarketsummary, getmarkethistory, getorderbook; the order-book query ends in `&type=both`; the query has no `?` iff the operation names no market |
| Bittrex.BareQueryEndpoint | CryptoExchangeLib/Common/Bittrex.cs:98-112 | the three market-free operations send getcurrencies, getmarkets and getmarketsummaries as the whole query, with no `?` in it |
| Bittrex.MarketQueryEndpoint | CryptoExchangeLib/Common/Bittrex.cs:123-145 | the three single-market operations read back to getmarketsummary, getmarkethistory and getorderbook before the `?`, and the order-book query ends in `&type=both` |
| Bittrex.PublicQueryNamesMarket | CryptoExchangeLib/Common/Bittrex.cs:98-161 | a query's `market` parameter is the pair label exactly for the single-market operations, and `&type=both` does not leak into it |
| Bittrex.ParameterSplit | CryptoExchangeLib/Common/Bittrex.cs:125-145 | a query made of an endpoint, `?`, `name=value` and further `&` parameters reads back to that endpoint and that value |
| Bittrex.BareQuerySplit | CryptoExchangeLib/Common/Bittrex.cs:224 | a query made of an endpoint and a bare `?` reads back to that endpoint and to no parameter |
| Bittrex.PublicUrl | CryptoExchangeLib/Common/Bittrex.cs:83 | the public URL is the base URL and `/api/v1.1/public/`, ending in the query |
| Bittrex.PublicResult | CryptoExchangeLib/Common/Bittrex.cs:80-96 | a missing or empty body short-cuts; any other body goes to the reader after the public shim |
| Bittrex.EmptyBodySkipsShim | CryptoExchangeLib/Common/Bittrex.cs:88-91 | an empty body gives the same record for every call and every reader |
| Bittrex.WithChange | CryptoExchangeLib/Common/Bittrex.cs:117 | only `Change` is set, and last price equals previous day times one plus change over a hundred |
| Bittrex.ChangeAll | CryptoExchangeLib/Common/Bittrex.cs:115-118 | every market gets its change, in order |
| Bittrex.MarketsAfterRead | CryptoExchangeLib/Common/Bittrex.cs:110-121 | null data is a null reference, a zero previous day is a division by zero, and otherwise each market's last price is its previous day scaled by the change |
| Bittrex.LabelAll | CryptoExchangeLib/Common/Bittrex.cs:134-137 | every trade gets the pair label and nothing else changes |
| Bittrex.MarketHistoryAfterRead | CryptoExchangeLib/Common/Bittrex.cs:129-141 | null data is a null reference; otherwise only the labels change |
| Bittrex.PriceRow | CryptoExchangeLib/Common/Bittrex.cs:150-157 | an order row gets the pair label and total price times volume, and nothing else changes |
| Bittrex.PriceRows | CryptoExchangeLib/Common/Bittrex.cs:148-158 | every row of one side of the book is priced, in order |
| Bittrex.PriceRowsIdempotent | CryptoExchangeLib/Common/Bittrex.cs:148-158 | pricing a book twice is pricing it once |
| Bittrex.MarketOrdersAfterRead | CryptoExchangeLib/Common/Bittrex.cs:143-161 | a null book or a null side is a null reference; otherwise both sides are priced and the rest is kept |
| Bittrex.MarketsAfterReadGuarded | CryptoExchangeLib/Common/Bittrex.cs:88-91 | the corrected fix-up passes a record without data through and agrees with `MarketsAfterRead` otherwise |
| Bittrex.EmptyBodyThrowsInGetMarkets | CryptoExchangeLib/Common/Bittrex.cs:110-121 | as written, an empty body makes `GetMarkets` fail with a null reference |
| Bittrex.EmptyBodyReportedWhenGuarded | CryptoExchangeLib/Common/Bittrex.cs:88-91 | corrected, an empty body reaches the caller as the "No Response." record |
| Bittrex.Unsupported | CryptoExchangeLib/Common/Bittrex.cs:230-314 | the operations that throw `NotImplementedException` are exactly cancel trade, open orders, submit trade and submit withdraw; the other four are those with a query |
| Bittrex.PrivateQueries | CryptoExchangeLib/Common/Bittrex.cs:214-315 | exactly the four unsupported operations throw; transactions send two queries and the rest one; every query is ready for `apikey=` except a deposit address without a currency |
| Bittrex.PrivateQueriesReadBack | CryptoExchangeLib/Common/Bittrex.cs:214-305 | each query reads back to its operation's endpoint and to the request's currency or market; the withdrawal history is sent first and the deposit history second |
| Bittrex.BalanceQueryReadBack | CryptoExchangeLib/Common/Bittrex.cs:214-228 | the balance query names `getbalance` and the currency, or `getbalances` and no currency |
| Bittrex.DepositQueryReadBack | CryptoExchangeLib/Common/Bittrex.cs:235-245 | the deposit address query names `getdepositaddress` and the currency, or is empty |
| Bittrex.OrderQueryReadBack | CryptoExchangeLib/Common/Bittrex.cs:252-263 | the order history query names `getorderhistory` and the market when one is given |
| Bittrex.WithdrawalQueryReadBack | CryptoExchangeLib/Common/Bittrex.cs:280-290 | the first transaction query names `getwithdrawalhistory` and the currency when one is given |
| Bittrex.DepositHistoryQueryReadBack | CryptoExchangeLib/Common/Bittrex.cs:280-291 | the second transaction query names `getdeposithistory` and the currency when one is given |
| Bittrex.AccountUrl | CryptoExchangeLib/Common/Bittrex.cs:190 | the intended account URL layout: the trimmed base URL, `/api/v1.1/account/`, the query, `apikey=` and the key, then `&nonce=` and the nonce, with nothing else in between |
| Bittrex.PrivateUrl | CryptoExchangeLib/Common/Bittrex.cs:190 | the URL is the trimmed base URL, `/api/v1.1/account/`, the query and `apikey=`, followed by what `String.Format` makes of the key and the nonce with the base URL and the query as arguments; it throws `FormatException` exactly when that does, and it is the `AccountUrl` layout whenever neither key nor nonce holds a brace |
| Bittrex.PrivateFormatFacts | CryptoExchangeLib/Common/Bittrex.cs:190 | the format's two holes take the base URL and the query, so only the spliced key and nonce are left to format |
| Bittrex.PrivateUrlKeyFormatted | CryptoExchangeLib/Common/Bittrex.cs:187-190 | with a digit-only nonce, the URL formats exactly when the key does, and then ends in the formatted key, `&nonce=` and the nonce as it is |
| Bittrex.KeyHoleSubstituted | CryptoExchangeLib/Common/Bittrex.cs:190 | a key `{0}` is signed as the trimmed base URL |
| Bittrex.KeyHoleChangesUrl | CryptoExchangeLib/Common/Bittrex.cs:190 | for the key `{0}` the URL differs from the intended layout exactly when the trimmed base URL is not the text `{0}` |
| Bittrex.LoneBraceKeyThrows | CryptoExchangeLib/Common/Bittrex.cs:190 | a key `{` makes the URL throw `FormatException` |
| Bittrex.IntendedPrivateUrl | CryptoExchangeLib/Common/Bittrex.cs:190 | corrected, with the key and the nonce passed as arguments of the format, the URL is the `AccountUrl` layout for every key and nonce |
| Bittrex.Sign | CryptoExchangeLib/Common/Bittrex.cs:184-202 | signing succeeds exactly when the URL formats, always for a key without braces; `apisign` reads back as the HMAC-SHA512 of the URL under the secret, two digits per byte |
| Bittrex.NonceReadBack | CryptoExchangeLib/Common/Bittrex.cs:187-190 | whatever the key, the text after the last `=` of a signed URL parses back to the tick count |
| Bittrex.PrivateUrlNonce | CryptoExchangeLib/Common/Bittrex.cs:190 | a URL that formats ends in the nonce after its last `=`, for a nonce without braces or `=` |
| Bittrex.WithTotal | CryptoExchangeLib/Common/Bittrex.cs:269 | only `Total` is set, and total minus fee equals amount times rate |
| Bittrex.TotalAll | CryptoExchangeLib/Common/Bittrex.cs:267-270 | every trade gets its total, in order |
| Bittrex.TotalAllIdempotent | CryptoExchangeLib/Common/Bittrex.cs:267-270 | totalling twice is totalling once |
| Bittrex.TradeHistoryAfterRead | CryptoExchangeLib/Common/Bittrex.cs:252-273 | a null record or null data is a null reference; otherwise only the totals change |
| Bittrex.TagAll | CryptoExchangeLib/Common/Bittrex.cs:292-302 | every transaction gets the tag and nothing else changes |
| Bittrex.MergeTransactions | CryptoExchangeLib/Common/Bittrex.cs:275-305 | withdrawals tagged `Withdrawl` come first, then deposits tagged `Deposit`; a null record or null data is a null reference |
| Bittrex.MergeSeparatesKinds | CryptoExchangeLib/Common/Bittrex.cs:290-304 | an entry of the merged list is a deposit exactly when it comes after the withdrawals |
| Bittrex.PrivateResult | CryptoExchangeLib/Common/Bittrex.cs:204-211 | the private reply has no short cut: an empty reply reaches the reader as the empty text, and the "No Response." record comes back only if the reader builds it |
| Bittrex.EmptyPrivateReplyIsNull | CryptoExchangeLib/Common/Bittrex.cs:204-211 | as written, an empty reply comes back as null when the reader gives null for the empty text |
| Bittrex.EmptyReplyThrowsInGetTradeHistory | CryptoExchangeLib/Common/Bittrex.cs:252-273 | as written, an empty reply makes `GetTradeHistory` fail with a null reference |
| Bittrex.EmptyReplyThrowsInGetTransactions | CryptoExchangeLib/Common/Bittrex.cs:275-305 | as written, an empty reply to either transaction query makes `GetTransactions` fail with a null reference |
| Bittrex.PrivateResultGuarded | CryptoExchangeLib/Common/Bittrex.cs:88-91 | the corrected private result gives "No Response." for an empty reply and agrees with `PrivateResult` otherwise |
| Bittrex.GuardedPrivateLikePublic | CryptoExchangeLib/Common/Bittrex.cs:80-96 | with a reader that never gives null, the corrected private result is what the public path's `Respond` makes of the same reply after the private shim |
| Bittrex.EmptyPrivateReplyReported | CryptoExchangeLib/Common/Bittrex.cs:88-91 | corrected, an empty reply reaches the caller as "No Response.", which differs from the code's result unless the reader itself makes that record of the empty text |
| Cryptopia.TradePairLabel | CryptoExchangeLib/Common/Cryptopia.cs:248-251 | the label is the currency label, an underscore, then the base label |
| Cryptopia.TradePairLabelSplit | CryptoExchangeLib/Common/Cryptopia.cs:248-251 | splitting on the underscore gives the two labels back, when neither holds one |
| Cryptopia.TradePairLabelNotPairLabel | CryptoExchangeLib/Common/Cryptopia.cs:248-251 | Cryptopia's label never coincides with the shared dash label for dash-free pairs |
| Cryptopia.MarketKey | CryptoExchangeLib/Common/Cryptopia.cs:113 | a market is named by its id, which reads back, and otherwise by its trade pair label |
| Cryptopia.PublicQuery | CryptoExchangeLib/Common/Cryptopia.cs:95-129 | exactly currencies, trade pairs and markets without hours send no path, and any path starts with a slash |
| Cryptopia.IntStringNoSlash | CryptoExchangeLib/Common/Cryptopia.cs:107-128 | a number's text holds no slash |
| Cryptopia.TwoSegments | CryptoExchangeLib/Common/Cryptopia.cs:114 | a two-segment path splits back into its segments |
| Cryptopia.OneSegment | CryptoExchangeLib/Common/Cryptopia.cs:120 | a one-segment path splits back into its segment |
| Cryptopia.PublicQuerySegments | CryptoExchangeLib/Common/Cryptopia.cs:105-129 | each operation's path splits back into the id or label and the optional count it was built from |
| Cryptopia.PublicUrl | CryptoExchangeLib/Common/Cryptopia.cs:83 | the public URL is the base URL, `/Api/` and the call's name, followed by the path when there is one and by nothing else |
| Cryptopia.PublicResult | CryptoExchangeLib/Common/Cryptopia.cs:80-93 | a missing or empty body short-cuts; any other body goes to the reader untouched |
| Cryptopia.PrivateUrl | CryptoExchangeLib/Common/Cryptopia.cs:149 | the private URL is the trimmed base URL, `/Api/` and the call's name |
| Cryptopia.PrivateUrlInjective | CryptoExchangeLib/Common/Cryptopia.cs:149 | distinct private calls post to distinct URLs |
| Cryptopia.PrivateResult | CryptoExchangeLib/Common/Cryptopia.cs:189-195 | the private reply goes to the reader as it came: an empty reply reaches the reader as the empty text, and the "No Response." record comes back only if the reader builds it |
| Cryptopia.PrivateSkipsShortCut | CryptoExchangeLib/Common/Cryptopia.cs:80-93 | with a reader that never gives null, the private and the public path agree on a reply exactly when it is not empty, or when the reader makes "No Response." of the empty text |
| Cryptopia.EncodedUri | CryptoExchangeLib/Common/Cryptopia.cs:151 | the signed URI ignores case: every URL whose absolute form agrees once lower-cased gives the same text, and under an injective encoder only those do |
| Cryptopia.BodyHash | CryptoExchangeLib/Common/Cryptopia.cs:158-162 | the body hash decodes back to the MD5 digest of the body, whenever Base64 decoding inverts encoding |
| Cryptopia.Signature | CryptoExchangeLib/Common/Cryptopia.cs:171-176 | the signature decodes back to the HMAC-SHA256 of the UTF-8 payload under the decoded secret, whenever Base64 decoding inverts encoding |
| Cryptopia.SignaturePayload | CryptoExchangeLib/Common/Cryptopia.cs:170 | the signed text starts with key, `POST` and URI and ends with nonce and body hash |
| Cryptopia.Credential | CryptoExchangeLib/Common/Cryptopia.cs:181 | the credential starts with the key and a colon and ends with a colon and the nonce |
| Cryptopia.CredentialReadBack | CryptoExchangeLib/Common/Cryptopia.cs:181 | splitting the credential on colons gives key, signature and nonce back |
| Cryptopia.SignPost | CryptoExchangeLib/Common/Cryptopia.cs:143-198 | the request posts the JSON to the call's URL under an `amx` header that starts with the key and ends with the nonce |
| Cryptopia.SignPostReadBack | CryptoExchangeLib/Common/Cryptopia.cs:155-181 | the header reads back as the key, the signature of the payload that hashes the body sent, and the nonce |
| Cryptopia.HandlerAuthorization | CryptoExchangeLib/Common/Cryptopia.cs:270-304 | the handler uses scheme `amx` and, without content, signs a payload with an empty body hash |
| Cryptopia.SigningPathsAgree | CryptoExchangeLib/Common/Cryptopia.cs:143-198 | the handler and `GetResult` build the same header for the same URL, body and nonce |
| Cryptopia.Render | CryptoExchangeLib/Common/Cryptopia.cs:301 | the header line is the scheme, one space and the parameter, and a scheme without spaces is the line's first space-separated piece |
| Cryptopia.HandlerPayloadWithoutContent | CryptoExchangeLib/Common/Cryptopia.cs:272-292 | without content the payload is key, `POST`, URI and nonce, and a body hash is appended to that |

## Left out

- HTTP transport is a parameter or left out: `HttpClient`, `HttpWebRequest`, streams, headers other than the signature, and `async`/`await`. The reply body is an input.
- JSON reading and writing (`GetObject`, `JsonConvert`) is a reader parameter, or the JSON text is an input.
- MD5, HMAC-SHA256, HMAC-SHA512, Base64, UTF-8, `Uri.AbsoluteUri`, `ToLower` and `HttpUtility.UrlEncode` are parameters. They are foreign code.
- `DateTime.Now.Ticks` and `Guid.NewGuid()` are parameters. They are a clock and randomness.
- The 64-bit width of the tick count is not modelled. Tick counts are never negative and stay far below the limit.
- `decimal` is modelled on `real`: 28-digit rounding and overflow are not modelled. Only division by zero is.
- Cryptopia's `GetResultOld` (Cryptopia.cs:135-141) is not modelled. No operation calls it.
- The `DoPublic`/`DoPrivate` stubs returning null (Cryptopia.cs:244-246) and the generic `GetResult<T, U>` stub (Bittrex.cs:169-174) are not modelled. No operation calls them.
- The `bytes != null` test in Cryptopia's `GetResult` (Cryptopia.cs:157) is not modelled. `Encoding.GetBytes` never returns null, so the body hash is always computed.
- `jsonData` in the Bittrex private `GetResult` (Bittrex.cs:189) is not modelled. It is computed and never used.
- The Cryptopia private operations (Cryptopia.cs:200-238) only pass their request to `GetResult<T, U>` under their call. They are modelled through `Cryptopia.SignPost`, with the request's JSON as the input.
- A null currency, market or label inside a request, and `ArgumentNullException` from `Dictionary.Add` on a null key, are not modelled. Strings are never null here.
- The aliasing in Bittrex `GetTransactions` (the deposit rows are added to the withdrawal record's own list) is modelled as building a new list.
- The request and result classes' property setters are datatype fields. Only the `CancelTradeRequest` constructors, which make choices, are functions.
- The remaining adapters, the console programs and the user interface are not part of this model.
- Exchange.Respond: states only the no-body case; the body case is the reader's output, which is a parameter.
- BittrexShim.DoPublic: its ensures covers only the unchanged case; what each rename does is stated by the BittrexShimFacts lemmas about literal keys rather than by a general field-level description, because the shim is textual.
- Bittrex.PublicUrl: states the prefix, the suffix and the length, not the URL's parse; the query is an opaque string.
- Bittrex.PrivateQueriesReadBack: holds only for a currency or market free of `?` and `&`. The source does not escape them, so such a value would not read back as itself.
- Cryptopia.EncodedUri: states case-insensitivity only up to the parameters; what `ToLower`, `AbsoluteUri` and `UrlEncode` do to a URL is foreign code.
- Cryptopia.Signature and Cryptopia.BodyHash: state the decoded value only when Base64 decoding inverts encoding, because Base64 is a parameter.
- Bittrex.PrivateUrl: the `AccountUrl` layout is promised only for a key and a nonce without braces. The code reads the key as format text, so a key with braces gives a different URL or throws (see Findings).
- CompositeFormat.Format: models string arguments only. `IFormattable` arguments, custom format providers and the `{index:format}` part's effect on non-string arguments are not modelled; every argument here is a string, which ignores the format part.
- CompositeFormat.FormatHole, CompositeFormat.FormatTwoHoles and CompositeFormat.FormatHoleOutOfRange: state one-digit indices only. `Format` itself reads any index.
- Bittrex.EmptyPrivateReplyIsNull, Bittrex.EmptyReplyThrowsInGetTradeHistory and Bittrex.EmptyReplyThrowsInGetTransactions: assume, as a precondition, that the reader gives null for the empty text, as `JsonConvert.DeserializeObject` does; the reader is a parameter.
- Null elements inside a reply's lists are not modelled. The loops at Bittrex.cs:115, 134, 148, 154, 267, 293 and 298 would throw on one; the model's lists hold records, never null.
- The `FormatException` from `Convert.FromBase64String` on a malformed secret, and the `ArgumentNullException` on a null `ApiSecret` (Cryptopia.cs:171, 293), are not modelled. Base64 decoding is a total parameter.
- The `UriFormatException` from `new Uri(url)` on a malformed base URL (Bittrex.cs:191, Cryptopia.cs:150) is not modelled. URLs are strings, and `Uri.AbsoluteUri` is a parameter.

## Findings

| source | as written | input that shows it | evidently intended | confidence | as-written member | corrected member |
|---|---|---|---|---|---|---|
| CryptoExchangeLib/Common/Bittrex.cs:110-121 | `GetResult` returns a record with null `Data` for an empty body, and `GetMarkets` then iterates over `r.Data` | an empty reply body to `getmarketsummaries` | the caller receives the "No Response." record, as `GetResult` intends (Bittrex.cs:88-91) | high, not executed | Bittrex.EmptyBodyThrowsInGetMarkets | Bittrex.EmptyBodyReportedWhenGuarded |
| CryptoExchangeLib/Common/Bittrex.cs:190 | the API key and the nonce are concatenated into the composite format given to `string.Format`, so the key is read as format text | the key `{0}`: the URL carries `apikey=` and the trimmed base URL; the key `{` throws `FormatException` | the key is sent as it is, as when it is passed as an argument of the format | high that the key is read as format text; low that it matters, since Bittrex keys are hexadecimal; not executed | Bittrex.KeyHoleChangesUrl | Bittrex.IntendedPrivateUrl |
| CryptoExchangeLib/Common/Bittrex.cs:204-211 | the private `GetResult` passes every reply, the empty one included, through the shim to `DeserializeObject`, which gives null for the empty text | an empty reply to `getbalances` | the "No Response." record, as the public `GetResult` returns for an empty body (Bittrex.cs:88-91) | medium, not executed | Bittrex.EmptyPrivateReplyIsNull | Bittrex.EmptyPrivateReplyReported |
| CryptoExchangeLib/Common/Bittrex.cs:426-438 | the trade-history renames run only inside the `"result":{` branch | a reply whose `result` is a list of orders with a `Quantity` field | the renames apply to list replies as well, as the balance branch does (Bittrex.cs:407-420) | medium, not executed | BittrexShimFacts.TradeHistoryListKeepsQuantity | BittrexShimFacts.IntendedListRenamesQuantity |
