/** What the Bittrex shim does to the keys of a reply. Each rule list is a
    constant, so these theorems follow from small facts about the individual
    rules: which character they avoid, and which tokens they cannot match
    (`Misses`). */
module BittrexShimFacts {
  import opened Text
  import opened ReplaceFacts
  import opened Exchange
  import opened BittrexShim

  // ---------------------------------------------------------------------------
  // Splitting a list's run
  // ---------------------------------------------------------------------------

  /** The public shim is the envelope renames followed by the kind's renames. */
  lemma DoPublicStages(call: PublicCall, s: string)
    ensures DoPublic(call, s) == ApplyRules(PublicKindRules(call), ApplyRules(PublicEnvelope, s))
  {
    ApplyRulesAppend(PublicEnvelope, PublicKindRules(call), s);
  }

  /** Running the first `k` rules of a list, then the others. */
  lemma ApplyRulesAt(rules: seq<Rule>, k: nat, s: string)
    requires k <= |rules|
    ensures ApplyRules(rules, s) == ApplyRules(rules[k..], ApplyRules(rules[..k], s))
  {
    assert rules == rules[..k] + rules[k..];
    ApplyRulesAppend(rules[..k], rules[k..], s);
  }

  // ---------------------------------------------------------------------------
  // The comma that separates JSON members is in no search string
  // ---------------------------------------------------------------------------

  lemma AvoidsAppend(a: seq<Rule>, b: seq<Rule>, c: char)
    requires Avoids(a, c) && Avoids(b, c)
    ensures Avoids(a + b, c)
  {
    forall i | |a| <= i < |a + b|
      ensures (a + b)[i] == b[i - |a|]
    {
    }
  }

  lemma EnvelopeNoComma()
    ensures Avoids(PublicEnvelope, ',') && Avoids(PrivateEnvelope, ',')
  {
  }

  lemma CurrenciesHeadNoComma()
    ensures forall i, j :: 0 <= i < 4 && 0 <= j < |CurrenciesRules[i].find| ==>
              CurrenciesRules[i].find[j] != ','
  {
  }

  lemma CurrenciesTailNoComma()
    ensures forall i, j :: 4 <= i < 8 && 0 <= j < |CurrenciesRules[i].find| ==>
              CurrenciesRules[i].find[j] != ','
  {
  }

  lemma TradePairsHeadNoComma()
    ensures forall i, j :: 0 <= i < 4 && 0 <= j < |TradePairsRules[i].find| ==>
              TradePairsRules[i].find[j] != ','
  {
  }

  lemma TradePairsTailNoComma()
    ensures forall i, j :: 4 <= i < 8 && 0 <= j < |TradePairsRules[i].find| ==>
              TradePairsRules[i].find[j] != ','
  {
  }

  lemma MarketNoComma()
    ensures Avoids(MarketRules, ',') && Avoids(MarketsRules, ',')
  {
  }

  lemma MarketTradesNoComma()
    ensures Avoids(MarketHistoryRules, ',') && Avoids(MarketOrdersRules, ',')
  {
  }

  lemma PrivateListsNoComma()
    ensures Avoids(DepositAddressRules, ',') && Avoids(TransactionsRules, ',')
  {
  }

  lemma KindNoComma(call: PublicCall)
    ensures Avoids(PublicKindRules(call), ',')
  {
    match call
    case GetCurrencies =>
      CurrenciesHeadNoComma();
      CurrenciesTailNoComma();
    case GetTradePairs =>
      TradePairsHeadNoComma();
      TradePairsTailNoComma();
    case _ =>
      MarketNoComma();
      MarketTradesNoComma();
  }

  lemma PublicNoComma(call: PublicCall)
    ensures Avoids(PublicRules(call), ',')
  {
    EnvelopeNoComma();
    KindNoComma(call);
    AvoidsAppend(PublicEnvelope, PublicKindRules(call), ',');
  }

  /** Every public shim rewrites the text on either side of a comma on its own:
      the members of a reply are renamed independently of their neighbours. */
  lemma DoPublicSeparator(call: PublicCall, a: string, b: string)
    ensures DoPublic(call, a + "," + b) == DoPublic(call, a) + "," + DoPublic(call, b)
  {
    PublicNoComma(call);
    ApplyRulesSeparator(PublicRules(call), a, ',', b);
  }

  /** The private shims without a `Contains` probe split the same way. The two
      probing kinds do not: whether the text holds a single object decides the
      renames of the whole reply. */
  lemma DoPrivateSeparator(call: PrivateCall, a: string, b: string)
    requires call != GetBalance && call != GetTradeHistory
    ensures DoPrivate(call, a + "," + b) == DoPrivate(call, a) + "," + DoPrivate(call, b)
  {
    EnvelopeNoComma();
    PrivateListsNoComma();
    var s := a + "," + b;
    ApplyRulesSeparator(PrivateEnvelope, a, ',', b);
    var ea, eb := ApplyRules(PrivateEnvelope, a), ApplyRules(PrivateEnvelope, b);
    if call == GetDepositAddress {
      ApplyRulesSeparator(DepositAddressRules, ea, ',', eb);
    } else if call == GetTransactions {
      ApplyRulesSeparator(TransactionsRules, ea, ',', eb);
    }
  }

  // ---------------------------------------------------------------------------
  // Envelope renames, for every call kind
  // ---------------------------------------------------------------------------

  lemma PublicEnvelopeRules()
    ensures PublicEnvelope[0] == Rule("\"result\":", "\"Data\":")
    ensures PublicEnvelope[1] == Rule("\"success\":", "\"Success\":")
    ensures PublicEnvelope[2] == Rule("\"message\":", "\"Message\":")
    ensures |PublicEnvelope| == 3
  {
  }

  /** The characters of the three renamed envelope keys. */
  const KeyChars := "\"Data:SucesMg"

  lemma EnvelopeKeysWithin()
    ensures Within("\"Data\":", KeyChars)
    ensures Within("\"Success\":", KeyChars)
    ensures Within("\"Message\":", KeyChars)
  {
  }

  lemma CurrenciesHeadForeign()
    ensures forall i :: 0 <= i < 4 ==> Foreign(CurrenciesRules[i].find, KeyChars)
  {
  }

  lemma CurrenciesTailForeign()
    ensures forall i :: 4 <= i < 8 ==> Foreign(CurrenciesRules[i].find, KeyChars)
  {
  }

  lemma TradePairsHeadForeign()
    ensures forall i :: 0 <= i < 4 ==> Foreign(TradePairsRules[i].find, KeyChars)
  {
  }

  lemma TradePairsTailForeign()
    ensures forall i :: 4 <= i < 8 ==> Foreign(TradePairsRules[i].find, KeyChars)
  {
  }

  lemma MarketForeign()
    ensures forall i :: 0 <= i < |MarketRules| ==> Foreign(MarketRules[i].find, KeyChars)
  {
  }

  lemma MarketsForeign()
    ensures forall i :: 0 <= i < |MarketsRules| ==> Foreign(MarketsRules[i].find, KeyChars)
  {
  }

  lemma MarketTradesForeign()
    ensures forall i :: 0 <= i < |MarketHistoryRules| ==> Foreign(MarketHistoryRules[i].find, KeyChars)
    ensures forall i :: 0 <= i < |MarketOrdersRules| ==> Foreign(MarketOrdersRules[i].find, KeyChars)
  {
  }

  /** No rule of any kind matches inside a renamed envelope key. */
  lemma KindRulesKeepKeys(call: PublicCall, t: string)
    requires Within(t, KeyChars)
    ensures ApplyRules(PublicKindRules(call), t) == t
  {
    match call
    case GetCurrencies =>
      CurrenciesHeadForeign();
      CurrenciesTailForeign();
      assert |CurrenciesRules| == 8;
      ApplyRulesForeign(CurrenciesRules, t, KeyChars);
    case GetTradePairs =>
      TradePairsHeadForeign();
      TradePairsTailForeign();
      assert |TradePairsRules| == 8;
      ApplyRulesForeign(TradePairsRules, t, KeyChars);
    case GetMarket =>
      MarketForeign();
      ApplyRulesForeign(MarketRules, t, KeyChars);
    case GetMarkets =>
      MarketsForeign();
      ApplyRulesForeign(MarketsRules, t, KeyChars);
    case GetMarketHistory =>
      MarketTradesForeign();
      ApplyRulesForeign(MarketHistoryRules, t, KeyChars);
    case GetMarketOrders =>
      MarketTradesForeign();
      ApplyRulesForeign(MarketOrdersRules, t, KeyChars);
  }

  /** The envelope renames each of its keys. */
  lemma EnvelopeRenamesResult()
    ensures ApplyRules(PublicEnvelope, "\"result\":") == "\"Data\":"
  {
    PublicEnvelopeRules();
    ApplyRulesRenamesKey(PublicEnvelope, 0);
  }

  lemma EnvelopeRenamesSuccess()
    ensures ApplyRules(PublicEnvelope, "\"success\":") == "\"Success\":"
  {
    PublicEnvelopeRules();
    ApplyRulesRenamesKey(PublicEnvelope, 1);
  }

  lemma EnvelopeRenamesMessage()
    ensures ApplyRules(PublicEnvelope, "\"message\":") == "\"Message\":"
  {
    PublicEnvelopeRules();
    ApplyRulesRenamesKey(PublicEnvelope, 2);
  }

  // Each envelope key and each renamed key has its only colon at the end.

  lemma ResultKeyColon()
    ensures Absent(':', "\"result\":"[..8])
  {
    assert "\"result\":"[..8] == "\"result\"";
  }

  lemma SuccessKeyColon()
    ensures Absent(':', "\"success\":"[..9])
  {
    assert "\"success\":"[..9] == "\"success\"";
  }

  lemma MessageKeyColon()
    ensures Absent(':', "\"message\":"[..9])
  {
    assert "\"message\":"[..9] == "\"message\"";
  }

  lemma DataKeyColon()
    ensures Absent(':', "\"Data\":"[..6])
  {
    assert "\"Data\":"[..6] == "\"Data\"";
  }

  lemma RenamedSuccessColon()
    ensures Absent(':', "\"Success\":"[..9])
  {
    assert "\"Success\":"[..9] == "\"Success\"";
  }

  lemma RenamedMessageColon()
    ensures Absent(':', "\"Message\":"[..9])
  {
    assert "\"Message\":"[..9] == "\"Message\"";
  }

  // No renamed key can be pieced together into an envelope key it follows.

  lemma ResultApartFromData()
    ensures Disjoint("\"result\":", "\"Data\":")
  {
    ResultKeyColon();
    DataKeyColon();
    ColonKeysApart("\"result\":", "\"Data\":");
  }

  lemma ResultApartFromSuccess()
    ensures Disjoint("\"result\":", "\"Success\":")
  {
    ResultKeyColon();
    RenamedSuccessColon();
    ColonKeysApart("\"result\":", "\"Success\":");
  }

  lemma ResultApartFromMessage()
    ensures Disjoint("\"result\":", "\"Message\":")
  {
    ResultKeyColon();
    RenamedMessageColon();
    ColonKeysApart("\"result\":", "\"Message\":");
  }

  lemma SuccessApartFromSuccess()
    ensures Disjoint("\"success\":", "\"Success\":")
  {
    SuccessKeyColon();
    RenamedSuccessColon();
    ColonKeysApart("\"success\":", "\"Success\":");
  }

  lemma SuccessApartFromMessage()
    ensures Disjoint("\"success\":", "\"Message\":")
  {
    SuccessKeyColon();
    RenamedMessageColon();
    ColonKeysApart("\"success\":", "\"Message\":");
  }

  lemma MessageApartFromMessage()
    ensures Disjoint("\"message\":", "\"Message\":")
  {
    MessageKeyColon();
    RenamedMessageColon();
    ColonKeysApart("\"message\":", "\"Message\":");
  }

  /** Whatever the reply, no `"result":` key survives the envelope stage: it
      is renamed, and no later rename can rebuild one. */
  lemma EnvelopeClearsResult(s: string)
    ensures !Contains(ApplyRules(PublicEnvelope, s), "\"result\":")
  {
    PublicEnvelopeRules();
    ResultApartFromData();
    ResultApartFromSuccess();
    ResultApartFromMessage();
    ThreeRulesClearFirst(PublicEnvelope, s);
  }

  /** The first of three rules is cleared when no replacement can rebuild it. */
  lemma ThreeRulesClearFirst(rules: seq<Rule>, s: string)
    requires |rules| == 3
    requires Disjoint(rules[0].find, rules[0].with)
    requires Disjoint(rules[0].find, rules[1].with)
    requires Disjoint(rules[0].find, rules[2].with)
    ensures !Contains(ApplyRules(rules, s), rules[0].find)
  {
    ApplyRulesClearsFind(rules, 0, s);
  }

  /** Nor does a `"success":` key. */
  lemma EnvelopeClearsSuccess(s: string)
    ensures !Contains(ApplyRules(PublicEnvelope, s), "\"success\":")
  {
    PublicEnvelopeRules();
    SuccessApartFromSuccess();
    SuccessApartFromMessage();
    ApplyRulesClearsFind(PublicEnvelope, 1, s);
  }

  /** Nor does a `"message":` key. */
  lemma EnvelopeClearsMessage(s: string)
    ensures !Contains(ApplyRules(PublicEnvelope, s), "\"message\":")
  {
    PublicEnvelopeRules();
    MessageApartFromMessage();
    ApplyRulesClearsFind(PublicEnvelope, 2, s);
  }

  /** Every public call renames the three envelope keys. */
  lemma DoPublicRenamesEnvelope(call: PublicCall)
    ensures DoPublic(call, "\"result\":") == "\"Data\":"
    ensures DoPublic(call, "\"success\":") == "\"Success\":"
    ensures DoPublic(call, "\"message\":") == "\"Message\":"
  {
    EnvelopeRenamesResult();
    EnvelopeRenamesSuccess();
    EnvelopeRenamesMessage();
    EnvelopeKeysWithin();
    KindRulesKeepKeys(call, "\"Data\":");
    KindRulesKeepKeys(call, "\"Success\":");
    KindRulesKeepKeys(call, "\"Message\":");
    DoPublicStages(call, "\"result\":");
    DoPublicStages(call, "\"success\":");
    DoPublicStages(call, "\"message\":");
  }

  // ---------------------------------------------------------------------------
  // Names without quotes pass the envelope untouched
  // ---------------------------------------------------------------------------

  /** Every envelope key starts with a quote. */
  lemma EnvelopeQuoted()
    ensures forall i :: 0 <= i < |PublicEnvelope| ==> PublicEnvelope[i].find[0] == '"'
    ensures forall i :: 0 <= i < |PrivateEnvelope| ==> PrivateEnvelope[i].find[0] == '"'
  {
  }

  lemma EnvelopeSkipsBare(t: string)
    requires Absent('"', t)
    ensures ApplyRules(PublicEnvelope, t) == t
    ensures ApplyRules(PrivateEnvelope, t) == t
  {
    EnvelopeQuoted();
    ApplyRulesMissed(PublicEnvelope, t);
    ApplyRulesMissed(PrivateEnvelope, t);
  }

  // ---------------------------------------------------------------------------
  // GetCurrencies: `CurrencyLong` is renamed before `Currency`
  // ---------------------------------------------------------------------------

  lemma CurrenciesHead()
    ensures CurrenciesRules[0] == Rule("CurrencyLong", "Name")
    ensures CurrenciesRules[1] == Rule("Currency", "Symbol")
    ensures |CurrenciesRules| == 8
  {
  }

  /** No rule after the first two matches the new names. */
  lemma CurrenciesTailMissNames()
    ensures forall j :: 1 < j < 8 ==> Misses("Name", CurrenciesRules[j].find)
    ensures forall j :: 1 < j < 8 ==> Misses("Symbol", CurrenciesRules[j].find)
  {
  }

  /** A kind rule whose key has no quote renames that key, when no earlier
      rule of the kind matches the key and no later one the new name. */
  lemma DoPublicRenamesKindKey(call: PublicCall, k: nat)
    requires k < |PublicKindRules(call)|
    requires Absent('"', PublicKindRules(call)[k].find)
    requires forall j :: 0 <= j < k ==> Misses(PublicKindRules(call)[k].find, PublicKindRules(call)[j].find)
    requires forall j :: k < j < |PublicKindRules(call)| ==>
               Misses(PublicKindRules(call)[k].with, PublicKindRules(call)[j].find)
    ensures DoPublic(call, PublicKindRules(call)[k].find) == PublicKindRules(call)[k].with
  {
    var key := PublicKindRules(call)[k].find;
    EnvelopeSkipsBare(key);
    ApplyRulesRenamesKey(PublicKindRules(call), k);
    DoPublicStages(call, key);
  }

  /** `CurrencyLong` ends as `Name`. */
  lemma CurrencyLongBecomesName()
    ensures DoPublic(GetCurrencies, "CurrencyLong") == "Name"
  {
    CurrenciesHead();
    CurrenciesTailMissNames();
    assert Misses("Name", CurrenciesRules[1].find);
    DoPublicRenamesKindKey(GetCurrencies, 0);
  }

  /** `Currency` ends as `Symbol`. */
  lemma CurrencyBecomesSymbol()
    ensures DoPublic(GetCurrencies, "Currency") == "Symbol"
  {
    CurrenciesHead();
    CurrenciesTailMissNames();
    assert Misses("Currency", CurrenciesRules[0].find);
    DoPublicRenamesKindKey(GetCurrencies, 1);
  }

  /** With the first two rules the other way round, `CurrencyLong` would
      end as `SymbolLong`: the order of the list is what makes it work. */
  lemma CurrencyRulesSwapped()
    ensures ApplyRules([CurrenciesRules[1], CurrenciesRules[0]], "CurrencyLong") == "SymbolLong"
  {
    CurrenciesHead();
    var swapped := [CurrenciesRules[1], CurrenciesRules[0]];
    ReplaceHead("Currency", "Long", "Symbol");
    assert "Currency" + "Long" == "CurrencyLong";
    assert Misses("Long", "Currency");
    MissesNotContains("Long", "Currency");
    assert Replace("CurrencyLong", "Currency", "Symbol") == "SymbolLong";
    assert Misses("SymbolLong", "CurrencyLong");
    MissesNotContains("SymbolLong", "CurrencyLong");
    ApplyRulesFirst(swapped, "CurrencyLong");
    ApplyRulesFirst(swapped[1..], "SymbolLong");
  }

  // ---------------------------------------------------------------------------
  // GetTradePairs: the `Long` names are renamed before the short ones
  // ---------------------------------------------------------------------------

  /** A key made of a kind rule's search string and a tail is renamed by that
      rule into the next rule's search string, which the next rule renames in
      turn. */
  lemma DoPublicChain(call: PublicCall, k: nat, tail: string)
    requires k + 1 < |PublicKindRules(call)|
    requires Absent('"', PublicKindRules(call)[k].find + tail)
    requires forall j :: 0 <= j < k ==>
               Misses(PublicKindRules(call)[k].find + tail, PublicKindRules(call)[j].find)
    requires Misses(tail, PublicKindRules(call)[k].find)
    requires PublicKindRules(call)[k].with + tail == PublicKindRules(call)[k + 1].find
    requires forall j :: k + 1 < j < |PublicKindRules(call)| ==>
               Misses(PublicKindRules(call)[k + 1].with, PublicKindRules(call)[j].find)
    ensures DoPublic(call, PublicKindRules(call)[k].find + tail) == PublicKindRules(call)[k + 1].with
  {
    var key := PublicKindRules(call)[k].find + tail;
    EnvelopeSkipsBare(key);
    ApplyRulesChain(PublicKindRules(call), k, tail);
    DoPublicStages(call, key);
  }

  lemma TradePairsHead()
    ensures TradePairsRules[0] == Rule("MarketCurrencyLong", "Currency")
    ensures TradePairsRules[1] == Rule("MarketCurrency", "Symbol")
    ensures TradePairsRules[2] == Rule("BaseCurrency", "BaseSymbol")
    ensures TradePairsRules[3] == Rule("BaseSymbolLong", "BaseCurrency")
    ensures |TradePairsRules| == 8
  {
  }

  /** The last four rules match none of the new names. */
  lemma TradePairsTailMissNames()
    ensures forall j :: 3 < j < 8 ==> Misses("Currency", TradePairsRules[j].find)
    ensures forall j :: 3 < j < 8 ==> Misses("Symbol", TradePairsRules[j].find)
    ensures forall j :: 3 < j < 8 ==> Misses("BaseSymbol", TradePairsRules[j].find)
    ensures forall j :: 3 < j < 8 ==> Misses("BaseCurrency", TradePairsRules[j].find)
  {
  }

  /** `BaseCurrencyLong` ends as `BaseCurrency`: the third rule turns it into
      `BaseSymbolLong`, which the fourth renames. */
  lemma BaseCurrencyLongBecomesBaseCurrency()
    ensures DoPublic(GetTradePairs, "BaseCurrencyLong") == "BaseCurrency"
  {
    TradePairsHead();
    TradePairsTailMissNames();
    assert Misses("BaseCurrencyLong", TradePairsRules[0].find);
    assert Misses("BaseCurrencyLong", TradePairsRules[1].find);
    assert "BaseCurrency" + "Long" == "BaseCurrencyLong";
    assert "BaseSymbol" + "Long" == "BaseSymbolLong";
    DoPublicChain(GetTradePairs, 2, "Long");
  }

  /** `BaseCurrency` ends as `BaseSymbol`. */
  lemma BaseCurrencyBecomesBaseSymbol()
    ensures DoPublic(GetTradePairs, "BaseCurrency") == "BaseSymbol"
  {
    TradePairsHead();
    TradePairsTailMissNames();
    assert Misses("BaseCurrency", TradePairsRules[0].find);
    assert Misses("BaseCurrency", TradePairsRules[1].find);
    assert Misses("BaseSymbol", TradePairsRules[3].find);
    DoPublicRenamesKindKey(GetTradePairs, 2);
  }

  /** `MarketCurrencyLong` ends as `Currency`. */
  lemma MarketCurrencyLongBecomesCurrency()
    ensures DoPublic(GetTradePairs, "MarketCurrencyLong") == "Currency"
  {
    TradePairsHead();
    TradePairsTailMissNames();
    assert forall j :: 0 < j < 4 ==> Misses("Currency", TradePairsRules[j].find);
    DoPublicRenamesKindKey(GetTradePairs, 0);
  }

  /** `MarketCurrency` ends as `Symbol`. */
  lemma MarketCurrencyBecomesSymbol()
    ensures DoPublic(GetTradePairs, "MarketCurrency") == "Symbol"
  {
    TradePairsHead();
    TradePairsTailMissNames();
    assert Misses("MarketCurrency", TradePairsRules[0].find);
    assert forall j :: 1 < j < 4 ==> Misses("Symbol", TradePairsRules[j].find);
    DoPublicRenamesKindKey(GetTradePairs, 1);
  }

  // ---------------------------------------------------------------------------
  // GetMarket: the one-element list becomes an object
  // ---------------------------------------------------------------------------

  lemma MarketHead()
    ensures MarketRules[0] == Rule("\"Data\":[{", "\"Data\":{")
    ensures MarketRules[1] == Rule("}]}", "}}")
    ensures |MarketRules| == 6
  {
  }

  /** The envelope turns the opening of a result list into a data list. */
  lemma EnvelopeOpensDataList()
    ensures ApplyRules(PublicEnvelope, "\"result\":[{") == "\"Data\":[{"
  {
    PublicEnvelopeRules();
    var e := PublicEnvelope;
    ApplyRulesFirst(e, e[0].find + "[{");
    ReplaceHead(e[0].find, "[{", e[0].with);
    MissesNotContains("[{", e[0].find);
    assert e[0].with + "[{" == "\"Data\":[{";
    assert MissesAll(e[1..], "\"Data\":[{");
    ApplyRulesMissed(e[1..], "\"Data\":[{");
  }

  /** Which of the single-market rules can match the pieces of a list. */
  lemma MarketRulesMiss()
    ensures forall j :: 0 < j < 6 ==> Misses("\"Data\":{", MarketRules[j].find)
    ensures forall j :: 1 < j < 6 ==> Misses("}}", MarketRules[j].find)
    ensures Misses("}]}", MarketRules[0].find)
  {
  }

  /** The market-list rules and the envelope match neither piece of a list. */
  lemma MarketsRulesMiss()
    ensures MissesAll(MarketsRules, "\"Data\":[{") && MissesAll(MarketsRules, "}]}")
    ensures MissesAll(PublicEnvelope, "}]}")
  {
  }

  /** For GetMarket the opening `"result":[{` ends as `"Data":{`. */
  lemma GetMarketOpensObject()
    ensures DoPublic(GetMarket, "\"result\":[{") == "\"Data\":{"
  {
    MarketHead();
    MarketRulesMiss();
    EnvelopeOpensDataList();
    ApplyRulesRenamesKey(MarketRules, 0);
    DoPublicStages(GetMarket, "\"result\":[{");
  }

  /** For GetMarket the closing `}]}` ends as `}}`. */
  lemma GetMarketClosesObject()
    ensures DoPublic(GetMarket, "}]}") == "}}"
  {
    MarketHead();
    MarketRulesMiss();
    MarketsRulesMiss();
    ApplyRulesMissed(PublicEnvelope, "}]}");
    ApplyRulesRenamesKey(MarketRules, 1);
    DoPublicStages(GetMarket, "}]}");
  }

  /** GetMarkets keeps the list. */
  lemma GetMarketsKeepsList()
    ensures DoPublic(GetMarkets, "\"result\":[{") == "\"Data\":[{"
    ensures DoPublic(GetMarkets, "}]}") == "}]}"
  {
    MarketsRulesMiss();
    EnvelopeOpensDataList();
    ApplyRulesMissed(MarketsRules, "\"Data\":[{");
    DoPublicStages(GetMarkets, "\"result\":[{");
    ApplyRulesMissed(PublicEnvelope, "}]}");
    ApplyRulesMissed(MarketsRules, "}]}");
    DoPublicStages(GetMarkets, "}]}");
  }

  // ---------------------------------------------------------------------------
  // Private calls: wrapping a single object into a list
  // ---------------------------------------------------------------------------

  /** `DoPrivate` runs the envelope and then the kind's rules for the probe's
      answer on the enveloped text. */
  lemma DoPrivateByKind(call: PrivateCall, s: string)
    ensures var e := ApplyRules(PrivateEnvelope, s);
            DoPrivate(call, s) == ApplyRules(PrivateKindRules(call, Contains(e, SingleObject)), e)
  {
    var e := ApplyRules(PrivateEnvelope, s);
    ApplyRulesAppend(WrapRules, BalanceRules, e);
    ApplyRulesAppend(WrapRules, TradeHistoryRules, e);
    assert [] + BalanceRules == BalanceRules;
  }

  lemma PrivateHead()
    ensures PrivateEnvelope[0] == Rule("\"result\":[", "\"Data\":[")
    ensures WrapRules[0] == Rule("\"result\":{", "\"Data\":[{")
    ensures SingleObject == "\"result\":{"
    ensures |PrivateEnvelope| == 3 && |WrapRules| == 2
  {
  }

  /** Which private rules can match the list and object openings. */
  lemma PrivateRulesMiss()
    ensures MissesAll(PrivateEnvelope, "\"result\":{")
    ensures forall j :: 0 < j < 3 ==> Misses("\"Data\":[", PrivateEnvelope[j].find)
    ensures Misses("\"Data\":[{", WrapRules[1].find)
    ensures MissesAll(WrapRules, "\"Data\":[")
  {
  }

  lemma BalanceRulesMissObjectOpening()
    ensures MissesAll(BalanceRules, "\"Data\":[{")
  {
  }

  lemma BalanceRulesMissListOpening()
    ensures MissesAll(BalanceRules, "\"Data\":[")
  {
  }

  lemma BalanceRulesMissOpenings()
    ensures MissesAll(BalanceRules, "\"Data\":[{") && MissesAll(BalanceRules, "\"Data\":[")
  {
    BalanceRulesMissObjectOpening();
    BalanceRulesMissListOpening();
  }

  lemma TradeHistoryRulesMissOpening()
    ensures MissesAll(TradeHistoryRules, "\"Data\":[{")
  {
  }

  /** The probe sees the object opening and not the list opening. */
  lemma ProbeOnOpenings()
    ensures Contains("\"result\":{", SingleObject)
    ensures !Contains("\"Data\":[", SingleObject)
  {
    PrivateHead();
    ReplaceWhole(SingleObject, SingleObject);
    assert StartsWith(SingleObject, SingleObject);
    MissesNotContains("\"Data\":[", SingleObject);
  }

  /** The object opening passes the envelope, triggers the probe and is
      wrapped. */
  lemma ObjectOpeningWrapped()
    ensures ApplyRules(PrivateEnvelope, "\"result\":{") == "\"result\":{"
    ensures ApplyRules(WrapRules, "\"result\":{") == "\"Data\":[{"
  {
    PrivateHead();
    PrivateRulesMiss();
    ApplyRulesMissed(PrivateEnvelope, "\"result\":{");
    ApplyRulesRenamesKey(WrapRules, 0);
  }

  /** For GetBalance and GetTradeHistory an object result opening becomes the
      opening of a one-element list. */
  lemma DoPrivateWrapsObject(call: PrivateCall)
    requires call == GetBalance || call == GetTradeHistory
    ensures DoPrivate(call, "\"result\":{") == "\"Data\":[{"
  {
    ObjectOpeningWrapped();
    ProbeOnOpenings();
    BalanceRulesMissOpenings();
    TradeHistoryRulesMissOpening();
    ApplyRulesMissed(BalanceRules, "\"Data\":[{");
    ApplyRulesMissed(TradeHistoryRules, "\"Data\":[{");
  }

  /** A list result opening is only renamed, never wrapped. */
  lemma DoPrivateKeepsList(call: PrivateCall)
    requires call == GetBalance || call == GetTradeHistory
    ensures DoPrivate(call, "\"result\":[") == "\"Data\":["
  {
    PrivateHead();
    PrivateRulesMiss();
    ApplyRulesRenamesKey(PrivateEnvelope, 0);
    ProbeOnOpenings();
    BalanceRulesMissOpenings();
    ApplyRulesMissed(BalanceRules, "\"Data\":[");
  }

  // ---------------------------------------------------------------------------
  // GetTradeHistory renames fields only in the wrapped branch
  // ---------------------------------------------------------------------------

  lemma WrapAndTradeHistoryNoComma()
    ensures Avoids(WrapRules, ',') && Avoids(TradeHistoryRules, ',')
  {
  }

  lemma TradeHistoryQuantityRule()
    ensures TradeHistoryRules[3] == Rule("Quantity", "Amount") && |TradeHistoryRules| == 6
    ensures forall j :: 0 <= j < 3 ==> Misses("Quantity", TradeHistoryRules[j].find)
    ensures forall j :: 3 < j < 6 ==> Misses("Amount", TradeHistoryRules[j].find)
  {
  }

  /** The envelope rules leave `Quantity` alone. */
  lemma WrapKeepsQuantity()
    ensures ApplyRules(WrapRules, "Quantity") == "Quantity"
  {
    assert MissesAll(WrapRules, "Quantity");
    ApplyRulesMissed(WrapRules, "Quantity");
  }

  /** GetTradeHistory's own rules rename `Quantity` to `Amount`. */
  lemma TradeHistoryRenamesQuantity()
    ensures ApplyRules(TradeHistoryRules, "Quantity") == "Amount"
  {
    TradeHistoryQuantityRule();
    ApplyRulesRenamesKey(TradeHistoryRules, 3);
  }

  /** `Quantity` holds no quote. */
  lemma QuantityUnquoted()
    ensures Absent('"', "Quantity")
  {
    var q := "Quantity";
    forall j | 0 <= j < |q|
      ensures q[j] != '"'
    {
    }
  }

  /** Once the probe has fired, `Quantity` is renamed to `Amount`. */
  lemma WrappedRenamesQuantity()
    ensures Absent('"', "Quantity")
    ensures ApplyRules(WrapRules, "Quantity") == "Quantity"
    ensures ApplyRules(TradeHistoryRules, "Quantity") == "Amount"
  {
    QuantityUnquoted();
    WrapKeepsQuantity();
    TradeHistoryRenamesQuantity();
  }

  /** GetTradeHistory leaves text without quotes alone: the envelope keys all
      start with a quote, and so does the probe. */
  lemma TradeHistoryKeepsBare(t: string)
    requires Absent('"', t)
    ensures DoPrivate(GetTradeHistory, t) == t
  {
    EnvelopeSkipsBare(t);
    PrivateHead();
    MissesNotContains(t, SingleObject);
  }

  /** No private envelope rule holds an opening brace. */
  lemma PrivateEnvelopeNoBrace()
    ensures Avoids(PrivateEnvelope, '{')
  {
  }

  /** The envelope acts on either side of a brace on its own. */
  lemma EnvelopeAroundBrace(a: string, rest: string)
    requires Absent('"', rest)
    ensures ApplyRules(PrivateEnvelope, a + ['{'] + rest) == ApplyRules(PrivateEnvelope, a) + ['{'] + rest
  {
    PrivateEnvelopeNoBrace();
    ApplyRulesSeparator(PrivateEnvelope, a, '{', rest);
    EnvelopeSkipsBare(rest);
  }

  lemma ListOpeningEnveloped()
    ensures ApplyRules(PrivateEnvelope, "\"result\":[") == "\"Data\":["
  {
    PrivateHead();
    PrivateRulesMiss();
    ApplyRulesRenamesKey(PrivateEnvelope, 0);
  }

  lemma OrderListMissesProbe()
    ensures !Contains("\"Data\":[{" + "," + "Quantity", SingleObject)
  {
    var t := "\"Data\":[{" + "," + "Quantity";
    PrivateHead();
    assert SingleObject[1] == 'r' && Absent('r', t);
    MissesNotContains(t, SingleObject);
  }

  /** A list of orders passes the envelope with only its `result` key
      renamed, and does not fire the single-object probe. */
  lemma OrderListEnveloped()
    ensures ApplyRules(PrivateEnvelope, "\"result\":[{" + "," + "Quantity") == "\"Data\":[{" + "," + "Quantity"
    ensures !Contains("\"Data\":[{" + "," + "Quantity", SingleObject)
  {
    var rest := "," + "Quantity";
    assert Absent('"', rest);
    assert "\"result\":[{" + "," + "Quantity" == "\"result\":[" + ['{'] + rest;
    assert "\"Data\":[{" + "," + "Quantity" == "\"Data\":[" + ['{'] + rest;
    EnvelopeAroundBrace("\"result\":[", rest);
    ListOpeningEnveloped();
    OrderListMissesProbe();
  }

  /** A reply whose `result` is a list of orders keeps its `Quantity` key. */
  lemma TradeHistoryListKeepsQuantity()
    ensures DoPrivate(GetTradeHistory, "\"result\":[{" + "," + "Quantity") ==
            "\"Data\":[{" + "," + "Quantity"
  {
    OrderListEnveloped();
    DoPrivateByKind(GetTradeHistory, "\"result\":[{" + "," + "Quantity");
  }

  /** The private envelope passes a comma-joined text through when it leaves
      the left part alone and the right part has no quotes. */
  lemma PrivateEnvelopeKeepsJoin(a: string, b: string)
    requires ApplyRules(PrivateEnvelope, a) == a && Absent('"', b)
    ensures ApplyRules(PrivateEnvelope, a + "," + b) == a + "," + b
  {
    EnvelopeNoComma();
    ApplyRulesSeparator(PrivateEnvelope, a, ',', b);
    EnvelopeSkipsBare(b);
  }

  /** The wrap and the trade-history renames act on each side of a comma on
      their own. */
  lemma TradeHistoryRulesSplit(a: string, b: string)
    ensures ApplyRules(TradeHistoryRules, ApplyRules(WrapRules, a + "," + b)) ==
            ApplyRules(TradeHistoryRules, ApplyRules(WrapRules, a)) + "," +
            ApplyRules(TradeHistoryRules, ApplyRules(WrapRules, b))
  {
    WrapAndTradeHistoryNoComma();
    ApplyRulesSeparator(WrapRules, a, ',', b);
    ApplyRulesSeparator(TradeHistoryRules, ApplyRules(WrapRules, a), ',', ApplyRules(WrapRules, b));
  }

  /** A probe found left of a comma is found in the joined text. */
  lemma ContainsBeforeComma(a: string, b: string, p: string)
    requires Contains(a, p)
    ensures Contains(a + "," + b, p)
  {
    assert a + "," + b == a + ("," + b);
    ContainsInPrefix(a, "," + b, p);
  }

  /** GetTradeHistory wraps and renames exactly when the probe fires. */
  lemma TradeHistoryObjectBranch(s: string)
    requires Contains(ApplyRules(PrivateEnvelope, s), SingleObject)
    ensures DoPrivate(GetTradeHistory, s) ==
            ApplyRules(TradeHistoryRules, ApplyRules(WrapRules, ApplyRules(PrivateEnvelope, s)))
  {
  }

  /** When the enveloped text holds an object result, the members on either
      side of a comma are wrapped and renamed on their own. */
  lemma TradeHistoryObjectSplit(a: string, b: string)
    requires ApplyRules(PrivateEnvelope, a) == a && Contains(a, SingleObject)
    requires Absent('"', b)
    ensures DoPrivate(GetTradeHistory, a + "," + b) ==
            ApplyRules(TradeHistoryRules, ApplyRules(WrapRules, a)) + "," +
            ApplyRules(TradeHistoryRules, ApplyRules(WrapRules, b))
  {
    ContainsBeforeComma(a, b, SingleObject);
    PrivateEnvelopeKeepsJoin(a, b);
    TradeHistoryObjectBranch(a + "," + b);
    TradeHistoryRulesSplit(a, b);
  }

  /** The same split, with each half's wrapped and renamed forms given. */
  lemma TradeHistoryObjectJoin(a: string, b: string, wa: string, wb: string, x: string, y: string)
    requires ApplyRules(PrivateEnvelope, a) == a && Contains(a, SingleObject)
    requires Absent('"', b)
    requires ApplyRules(WrapRules, a) == wa && ApplyRules(TradeHistoryRules, wa) == x
    requires ApplyRules(WrapRules, b) == wb && ApplyRules(TradeHistoryRules, wb) == y
    ensures DoPrivate(GetTradeHistory, a + "," + b) == x + "," + y
  {
    TradeHistoryObjectSplit(a, b);
  }

  /** The object opening passes the envelope, fires the probe and comes out of
      the wrap and the renames as a list opening. */
  lemma ObjectOpeningThroughTradeHistory()
    ensures ApplyRules(PrivateEnvelope, "\"result\":{") == "\"result\":{"
    ensures Contains("\"result\":{", SingleObject)
    ensures ApplyRules(WrapRules, "\"result\":{") == "\"Data\":[{"
    ensures ApplyRules(TradeHistoryRules, "\"Data\":[{") == "\"Data\":[{"
  {
    ObjectOpeningWrapped();
    ProbeOnOpenings();
    TradeHistoryRulesMissOpening();
    ApplyRulesMissed(TradeHistoryRules, "\"Data\":[{");
  }

  /** In a reply whose result is an object, `Quantity` is renamed to `Amount`. */
  lemma TradeHistoryObjectRenamesQuantity()
    ensures DoPrivate(GetTradeHistory, "\"result\":{" + "," + "Quantity") ==
            "\"Data\":[{" + "," + "Amount"
  {
    ObjectOpeningThroughTradeHistory();
    WrappedRenamesQuantity();
    TradeHistoryObjectJoin("\"result\":{", "Quantity", "\"Data\":[{", "Quantity", "\"Data\":[{", "Amount");
  }

  /** GetBalance renames a key without quotes like a public kind does. */
  lemma BalanceRenamesBareKey(k: nat)
    requires k < |BalanceRules| && Absent('"', BalanceRules[k].find)
    requires forall j :: 0 <= j < k ==> Misses(BalanceRules[k].find, BalanceRules[j].find)
    requires forall j :: k < j < |BalanceRules| ==> Misses(BalanceRules[k].with, BalanceRules[j].find)
    ensures DoPrivate(GetBalance, BalanceRules[k].find) == BalanceRules[k].with
  {
    var key := BalanceRules[k].find;
    EnvelopeSkipsBare(key);
    PrivateHead();
    MissesNotContains(key, SingleObject);
    ApplyRulesRenamesKey(BalanceRules, k);
  }

  /** GetBalance renames its fields whatever the shape of the result. */
  lemma BalanceRenamesCurrency()
    ensures DoPrivate(GetBalance, "Currency") == "Symbol"
  {
    assert BalanceRules[0] == Rule("Currency", "Symbol");
    assert forall j :: 0 < j < |BalanceRules| ==> Misses("Symbol", BalanceRules[j].find);
    BalanceRenamesBareKey(0);
  }

  // ---------------------------------------------------------------------------
  // Trade-history renames for list replies
  // ---------------------------------------------------------------------------

  /** `Quantity` does not fire the single-object probe. */
  lemma QuantityNotObject()
    ensures !Contains("Quantity", SingleObject)
  {
    PrivateHead();
    if Contains("Quantity", SingleObject) {
      ContainsLength("Quantity", SingleObject);
    }
  }

  /** Where the probe does not fire, the intended shim renames GetTradeHistory's
      fields all the same: in a list of orders `Quantity` ends as `Amount`,
      where `DoPrivate` leaves it (`TradeHistoryListKeepsQuantity`). */
  lemma IntendedListRenamesQuantity()
    ensures DoPrivateIntended(GetTradeHistory, "\"result\":[{" + "," + "Quantity") ==
            "\"Data\":[{" + "," + "Amount"
  {
    OrderListEnveloped();
    WrapAndTradeHistoryNoComma();
    ApplyRulesSeparator(TradeHistoryRules, "\"Data\":[{", ',', "Quantity");
    TradeHistoryRulesMissOpening();
    ApplyRulesMissed(TradeHistoryRules, "\"Data\":[{");
    TradeHistoryRenamesQuantity();
  }

  // ---------------------------------------------------------------------------
  // The object branch of GetBalance and GetTradeHistory
  // ---------------------------------------------------------------------------

  lemma BalanceNoComma()
    ensures Avoids(BalanceRules, ',')
  {
  }

  /** The two object-branch tables contain no comma. */
  lemma ObjectKindsNoComma(call: PrivateCall)
    requires call == GetBalance || call == GetTradeHistory
    ensures Avoids(PrivateKindRules(call, true), ',')
  {
    BalanceNoComma();
    WrapAndTradeHistoryNoComma();
    AvoidsAppend(WrapRules, BalanceRules, ',');
    AvoidsAppend(WrapRules, TradeHistoryRules, ',');
  }

  /** When the reply holds an object result, the members on either side of a
      comma go through the wrap and the call's renames on their own. */
  lemma ObjectJoin(call: PrivateCall, a: string, b: string, x: string, y: string)
    requires call == GetBalance || call == GetTradeHistory
    requires ApplyRules(PrivateEnvelope, a) == a && Contains(a, SingleObject)
    requires Absent('"', b)
    requires ApplyRules(PrivateKindRules(call, true), a) == x
    requires ApplyRules(PrivateKindRules(call, true), b) == y
    ensures DoPrivate(call, a + "," + b) == x + "," + y
  {
    ContainsBeforeComma(a, b, SingleObject);
    PrivateEnvelopeKeepsJoin(a, b);
    DoPrivateByKind(call, a + "," + b);
    ObjectKindsNoComma(call);
    ApplyRulesSeparator(PrivateKindRules(call, true), a, ',', b);
  }

  /** The wrap closes an object result with `}]}`, which no field rename
      touches. */
  lemma ObjectCloseWrapped()
    ensures ApplyRules(WrapRules, "}}") == "}]}"
    ensures MissesAll(BalanceRules, "}]}") && MissesAll(TradeHistoryRules, "}]}")
  {
    assert Misses(WrapRules[1].find, WrapRules[0].find);
    ApplyRulesRenamesKey(WrapRules, 1);
  }

  /** Each object-branch table turns the opening and the closing of an object
      result into those of a one-element list. */
  lemma ObjectEndsThroughKind(call: PrivateCall)
    requires call == GetBalance || call == GetTradeHistory
    ensures ApplyRules(PrivateKindRules(call, true), "\"result\":{") == "\"Data\":[{"
    ensures ApplyRules(PrivateKindRules(call, true), "}}") == "}]}"
  {
    ObjectOpeningWrapped();
    ObjectCloseWrapped();
    BalanceRulesMissOpenings();
    TradeHistoryRulesMissOpening();
    var rest := if call == GetBalance then BalanceRules else TradeHistoryRules;
    assert PrivateKindRules(call, true) == WrapRules + rest;
    ApplyRulesAppend(WrapRules, rest, "\"result\":{");
    ApplyRulesAppend(WrapRules, rest, "}}");
    ApplyRulesMissed(rest, "\"Data\":[{");
    ApplyRulesMissed(rest, "}]}");
  }

  /** An object result is closed as a one-element list: `}}` becomes `}]}`
      once the probe has seen `"result":{`. */
  lemma DoPrivateClosesObject(call: PrivateCall)
    requires call == GetBalance || call == GetTradeHistory
    ensures DoPrivate(call, "\"result\":{" + "," + "}}") == "\"Data\":[{" + "," + "}]}"
  {
    ObjectOpeningWrapped();
    ProbeOnOpenings();
    ObjectEndsThroughKind(call);
    ObjectJoin(call, "\"result\":{", "}}", "\"Data\":[{", "}]}");
  }

  // ---------------------------------------------------------------------------
  // No object result survives GetBalance or GetTradeHistory
  // ---------------------------------------------------------------------------

  /** Where the object opening's only brace sits, and the same for its
      wrapped form. */
  lemma ObjectBraces()
    ensures var q, r := "\"result\":{", "\"Data\":[{";
            Absent('{', r[..|r| - 1]) && Absent('{', q[..|q| - 1])
  {
  }

  lemma WrappedNotEndOfObject()
    ensures PrefixNotSuffix("\"Data\":[{", "\"result\":{")
  {
    ObjectBraces();
    LastOnlyApart("\"Data\":[{", "\"result\":{");
  }

  lemma ObjectNotEndOfWrapped()
    ensures PrefixNotSuffix("\"result\":{", "\"Data\":[{")
  {
    ObjectBraces();
    LastOnlyApart("\"result\":{", "\"Data\":[{");
  }

  lemma WrappedNotInObject()
    ensures !Contains("\"result\":{", "\"Data\":[{")
  {
    assert Absent('D', "\"result\":{");
    MissesNotContains("\"result\":{", "\"Data\":[{");
  }

  lemma ObjectNotInWrapped()
    ensures !Contains("\"Data\":[{", "\"result\":{")
  {
    assert Absent('r', "\"Data\":[{");
    MissesNotContains("\"Data\":[{", "\"result\":{");
  }

  /** The object opening and its wrapped form cannot rebuild each other. */
  lemma ObjectApartFromWrapped()
    ensures Disjoint(SingleObject, "\"Data\":[{")
  {
    PrivateHead();
    WrappedNotEndOfObject();
    ObjectNotEndOfWrapped();
    WrappedNotInObject();
    ObjectNotInWrapped();
  }

  lemma CloseFirstChars()
    ensures forall j :: 0 <= j < |WrapRules[1..]| ==>
              |WrapRules[1..][j].with| > 0 && Absent(WrapRules[1..][j].with[0], "\"result\":{") &&
              Absent('"', WrapRules[1..][j].with)
  {
  }

  lemma BalanceFirstChars()
    ensures forall j :: 0 <= j < |BalanceRules| ==>
              |BalanceRules[j].with| > 0 && Absent(BalanceRules[j].with[0], "\"result\":{") &&
              Absent('"', BalanceRules[j].with)
  {
  }

  lemma TradeHistoryFirstChars()
    ensures forall j :: 0 <= j < |TradeHistoryRules| ==>
              |TradeHistoryRules[j].with| > 0 && Absent(TradeHistoryRules[j].with[0], "\"result\":{") &&
              Absent('"', TradeHistoryRules[j].with)
  {
  }

  /** No balance, trade-history or closing replacement can rebuild the object
      opening: each starts with a character the opening lacks. */
  lemma ObjectApartFromNames()
    ensures AllDisjoint(SingleObject, WrapRules[1..])
    ensures AllDisjoint(SingleObject, BalanceRules)
    ensures AllDisjoint(SingleObject, TradeHistoryRules)
  {
    PrivateHead();
    CloseFirstChars();
    BalanceFirstChars();
    TradeHistoryFirstChars();
    FirstCharsApartAll(SingleObject, WrapRules[1..]);
    FirstCharsApartAll(SingleObject, BalanceRules);
    FirstCharsApartAll(SingleObject, TradeHistoryRules);
  }

  /** The wrap followed by renames that cannot rebuild the object opening
      clears it. */
  lemma WrappedTableClearsObject(rest: seq<Rule>, e: string)
    requires AllDisjoint(SingleObject, rest)
    ensures !Contains(ApplyRules(WrapRules + rest, e), SingleObject)
  {
    PrivateHead();
    ObjectApartFromWrapped();
    ObjectApartFromNames();
    ApplyRulesClearsHeadOfAppend(WrapRules, rest, e);
  }

  /** Once the probe has fired, the object table clears the opening. */
  lemma ProbedObjectCleared(call: PrivateCall, e: string)
    requires call == GetBalance || call == GetTradeHistory
    ensures !Contains(ApplyRules(PrivateKindRules(call, true), e), SingleObject)
  {
    ObjectApartFromNames();
    if call == GetBalance {
      WrappedTableClearsObject(BalanceRules, e);
    } else {
      WrappedTableClearsObject(TradeHistoryRules, e);
    }
  }

  /** Whatever the reply, no `"result":{` is left by GetBalance or
      GetTradeHistory: the probe's string is wrapped when present, and
      nothing else can produce it. */
  lemma DoPrivateClearsObject(call: PrivateCall, s: string)
    requires call == GetBalance || call == GetTradeHistory
    ensures !Contains(DoPrivate(call, s), SingleObject)
  {
    var e := ApplyRules(PrivateEnvelope, s);
    DoPrivateByKind(call, s);
    if Contains(e, SingleObject) {
      ProbedObjectCleared(call, e);
    } else if call == GetBalance {
      ObjectApartFromNames();
      assert PrivateKindRules(call, false) == BalanceRules;
      ApplyRulesKeepsOut(BalanceRules, e, SingleObject);
    }
  }
}
