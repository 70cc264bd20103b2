/** The Cryptopia adapter (`Cryptopia.cs`): public calls are URLs whose
    arguments are path segments and whose replies go to the reader as they
    are; private calls are POSTs to a per-call URL, signed with an HMAC over a
    payload built from the key, the method, the encoded URL, a nonce and a
    hash of the body. The digest, encoding and case-mapping primitives are
    parameters: only how their results are put together is modelled. */
module Cryptopia {
  import opened Outcomes
  import opened Text
  import opened Numbers
  import opened Exchange

  const DefaultBaseUrl := "https://www.cryptopia.co.nz"

  // ---------------------------------------------------------------------------
  // Trade-pair label
  // ---------------------------------------------------------------------------

  /** `GetTradePairLabel`: `CURRENCY_BASE`, the reverse order of Bittrex's
      pair label and another separator. */
  function TradePairLabel(tp: TradePair): (name: string)
    ensures |name| == |tp.currencyLabel| + 1 + |tp.baseLabel|
    ensures StartsWith(name, tp.currencyLabel) && EndsWith(name, tp.baseLabel)
    ensures name[|tp.currencyLabel|] == '_'
  {
    tp.currencyLabel + "_" + tp.baseLabel
  }

  /** Splitting the label on `_` gives back the two labels, when neither
      holds an `_` itself. */
  lemma TradePairLabelSplit(tp: TradePair)
    requires '_' !in tp.baseLabel && '_' !in tp.currencyLabel
    ensures Split(TradePairLabel(tp), '_') == [tp.currencyLabel, tp.baseLabel]
  {
    SplitAtFirst(tp.currencyLabel, '_', tp.baseLabel);
    SplitNoSeparator(tp.baseLabel, '_');
  }

  /** For labels without `-`, Cryptopia's label is never Bittrex's. */
  lemma TradePairLabelNotPairLabel(tp: TradePair)
    requires '-' !in tp.baseLabel && '-' !in tp.currencyLabel
    ensures TradePairLabel(tp) != PairLabel(tp)
  {
    var p := PairLabel(tp);
    assert p[|tp.baseLabel|] == '-';
    assert '-' !in TradePairLabel(tp) by {
      assert TradePairLabel(tp) == tp.currencyLabel + "_" + tp.baseLabel;
    }
  }

  // ---------------------------------------------------------------------------
  // Public calls
  // ---------------------------------------------------------------------------

  /** How the single-market summary names its market: by the numeric id when
      the pair has one, otherwise by its label. */
  function MarketKey(tp: TradePair): (key: string)
    ensures tp.id.Some? ==> ParseInt(key) == Some(tp.id.value)
    ensures tp.id.None? ==> key == TradePairLabel(tp)
  {
    if tp.id.Some? then (ParseIntString(tp.id.value); IntString(tp.id.value)) else TradePairLabel(tp)
  }

  /** The path the public operations append to the call's URL: `None` where
      the source passes a null query. */
  function PublicQuery(req: PublicRequest): (q: Option<string>)
    ensures q.None? <==> req.Currencies? || req.TradePairs? || (req.Markets? && req.markets.hours.None?)
    ensures q.Some? ==> |q.value| > 0 && q.value[0] == '/'
  {
    match req
    case Currencies => None
    case TradePairs => None
    case Markets(r) => if r.hours.Some? then Some("/" + IntString(r.hours.value)) else None
    case Market(r) =>
      var key := MarketKey(r.tradePair);
      Some(if r.hours.Some? then "/" + key + "/" + IntString(r.hours.value) else "/" + key)
    case MarketHistory(r) => Some("/" + TradePairLabel(r.tradePair))
    case MarketOrders(r) =>
      var name := TradePairLabel(r.tradePair);
      Some(if r.orderCount.Some? then "/" + name + "/" + IntString(r.orderCount.value) else "/" + name)
  }

  /** The path segments a public operation is expected to send, in order:
      the market (by id or label) and then the optional number. The history
      always names the market by its label. */
  function Segments(req: PublicRequest): seq<string> {
    match req
    case Currencies => []
    case TradePairs => []
    case Markets(r) => if r.hours.Some? then [IntString(r.hours.value)] else []
    case Market(r) =>
      [MarketKey(r.tradePair)] + if r.hours.Some? then [IntString(r.hours.value)] else []
    case MarketHistory(r) => [TradePairLabel(r.tradePair)]
    case MarketOrders(r) =>
      [TradePairLabel(r.tradePair)] + if r.orderCount.Some? then [IntString(r.orderCount.value)] else []
  }

  /** A number's text never holds a `/`. */
  lemma IntStringNoSlash(n: int)
    ensures '/' !in IntString(n)
  {
    var s := IntString(n);
    forall i | 0 <= i < |s|
      ensures s[i] != '/'
    {
      if i > 0 {
        assert IsDecimalDigit(s[i]);
      }
    }
  }

  lemma TwoSegments(a: string, b: string)
    requires '/' !in a && '/' !in b
    ensures Split("/" + a + "/" + b, '/') == ["", a, b]
  {
    assert "/" + a + "/" + b == "" + ['/'] + (a + ['/'] + b);
    SplitAtFirst("", '/', a + ['/'] + b);
    SplitAtFirst(a, '/', b);
    SplitNoSeparator(b, '/');
  }

  lemma OneSegment(a: string)
    requires '/' !in a
    ensures Split("/" + a, '/') == ["", a]
  {
    assert "/" + a == "" + ['/'] + a;
    SplitAtFirst("", '/', a);
    SplitNoSeparator(a, '/');
  }

  /** Splitting a query on `/` gives an empty first piece and then exactly
      the expected segments, when the labels hold no `/`. */
  lemma PublicQuerySegments(req: PublicRequest)
    requires MarketOf(req).Some? ==>
               '/' !in MarketOf(req).value.currencyLabel && '/' !in MarketOf(req).value.baseLabel
    ensures PublicQuery(req).Some? ==> Split(PublicQuery(req).value, '/') == [""] + Segments(req)
    ensures PublicQuery(req).None? ==> Segments(req) == []
  {
    match req
    case Currencies =>
    case TradePairs =>
    case Markets(r) =>
      if r.hours.Some? {
        IntStringNoSlash(r.hours.value);
        OneSegment(IntString(r.hours.value));
      }
    case Market(r) =>
      var key := MarketKey(r.tradePair);
      assert '/' !in key by {
        if r.tradePair.id.Some? {
          IntStringNoSlash(r.tradePair.id.value);
        }
      }
      if r.hours.Some? {
        IntStringNoSlash(r.hours.value);
        TwoSegments(key, IntString(r.hours.value));
      } else {
        OneSegment(key);
      }
    case MarketHistory(r) =>
      OneSegment(TradePairLabel(r.tradePair));
    case MarketOrders(r) =>
      var name := TradePairLabel(r.tradePair);
      if r.orderCount.Some? {
        IntStringNoSlash(r.orderCount.value);
        TwoSegments(name, IntString(r.orderCount.value));
      } else {
        OneSegment(name);
      }
  }

  /** `GetResult`'s public URL: the base URL as given, `/Api/`, the call's
      name, and the query, a null one adding nothing. */
  function PublicUrl(baseUrl: string, call: PublicCall, query: Option<string>): (url: string)
    ensures StartsWith(url, baseUrl + "/Api/" + PublicCallName(call))
    ensures query.None? ==> url == baseUrl + "/Api/" + PublicCallName(call)
    ensures query.Some? ==> EndsWith(url, query.value)
    ensures |url| == |baseUrl| + 5 + |PublicCallName(call)| + |query.GetOr("")|
  {
    baseUrl + "/Api/" + PublicCallName(call) + query.GetOr("")
  }

  /** Cryptopia's public `GetResult`: no shim, so a body goes to the reader
      as it came. */
  function PublicResult(body: Option<string>): (f: Fetched)
    ensures f.NoBody? <==> body.None? || |body.value| == 0
    ensures f.ParseText? ==> f.text == body.value
  {
    if body.None? || |body.value| == 0 then NoBody else ParseText(body.value)
  }

  // ---------------------------------------------------------------------------
  // Private calls
  // ---------------------------------------------------------------------------

  /** Cryptopia's private `GetResult` once the reply is read: the reply goes
      to the JSON reader as it came, the empty one included, and the reader
      gives `None` where `DeserializeObject` returns null. */
  function PrivateResult<T>(content: string, read: string -> Option<Response<T>>): (r: Option<Response<T>>)
    ensures |content| == 0 ==> r == read("")
    ensures (forall t :: read(t) != Some(NoResponse<T>())) ==> r != Some(NoResponse())
  {
    read(content)
  }

  /** With a reader that never gives null, the private path agrees with the
      public one's `Respond` on a reply exactly when the reply is not empty,
      or when the reader happens to make the "No Response." record of the
      empty text. */
  lemma PrivateSkipsShortCut<T>(content: string, read: string -> Option<Response<T>>, parse: string -> Response<T>)
    requires forall t :: read(t) == Some(parse(t))
    ensures PrivateResult(content, read) == Some(Respond(PublicResult(Some(content)), parse))
            <==> |content| > 0 || parse("") == NoResponse()
  {
  }

  /** The foreign primitives the signature is built from. */
  datatype Primitives = Primitives(
    utf8: string -> seq<byte>,                          // Encoding.UTF8.GetBytes
    md5: seq<byte> -> seq<byte>,                        // MD5.ComputeHash
    toBase64: seq<byte> -> string,                      // Convert.ToBase64String
    fromBase64: string -> seq<byte>,                    // Convert.FromBase64String
    hmacSha256: (seq<byte>, seq<byte>) -> seq<byte>,    // HMACSHA256(key).ComputeHash(data)
    absoluteUri: string -> string,                      // new Uri(url).AbsoluteUri
    toLower: string -> string,                          // String.ToLower
    urlEncode: string -> string)                        // HttpUtility.UrlEncode

  /** `GetResult`'s private URL. Every private call, supported or not, is a
      POST to it. */
  function PrivateUrl(baseUrl: string, call: PrivateCall): (url: string)
    ensures StartsWith(url, TrimEnd(baseUrl, '/'))
    ensures EndsWith(url, "/Api/" + PrivateCallName(call))
    ensures |url| == |TrimEnd(baseUrl, '/')| + 5 + |PrivateCallName(call)|
  {
    TrimEnd(baseUrl, '/') + "/Api/" + PrivateCallName(call)
  }

  /** Two calls never share a private URL. */
  lemma PrivateUrlInjective(baseUrl: string, a: PrivateCall, b: PrivateCall)
    ensures PrivateUrl(baseUrl, a) == PrivateUrl(baseUrl, b) <==> a == b
  {
    var base := TrimEnd(baseUrl, '/') + "/Api/";
    if PrivateUrl(baseUrl, a) == PrivateUrl(baseUrl, b) {
      assert PrivateCallName(a) == PrivateUrl(baseUrl, a)[|base|..];
      assert PrivateCallName(b) == PrivateUrl(baseUrl, b)[|base|..];
      PrivateCallNameInjective(a, b);
    }
  }

  /** The request URI as it enters the signature: absolute, lower-cased,
      URL-encoded. */
  function EncodedUri(p: Primitives, url: string): (e: string)
    ensures forall u :: p.toLower(p.absoluteUri(u)) == p.toLower(p.absoluteUri(url)) ==>
              p.urlEncode(p.toLower(p.absoluteUri(u))) == e
    ensures (forall s, t :: p.urlEncode(s) == p.urlEncode(t) ==> s == t) ==>
              forall u :: p.urlEncode(p.toLower(p.absoluteUri(u))) == e ==>
                p.toLower(p.absoluteUri(u)) == p.toLower(p.absoluteUri(url))
  {
    p.urlEncode(p.toLower(p.absoluteUri(url)))
  }

  /** The Base64 MD5 digest of a body. */
  function BodyHash(p: Primitives, body: seq<byte>): (h: string)
    ensures (forall bs :: p.fromBase64(p.toBase64(bs)) == bs) ==> p.fromBase64(h) == p.md5(body)
  {
    p.toBase64(p.md5(body))
  }

  /** The text that is signed: key, method, URI, nonce and body hash, in that
      order and without separators. */
  function SignaturePayload(apiKey: string, uri: string, nonce: string, contentHash: string): (s: string)
    ensures StartsWith(s, apiKey + "POST" + uri) && EndsWith(s, nonce + contentHash)
    ensures |s| == |apiKey| + 4 + |uri| + |nonce| + |contentHash|
  {
    apiKey + "POST" + uri + nonce + contentHash
  }

  /** The Base64 HMAC-SHA256 of the payload, keyed by the decoded secret. */
  function Signature(p: Primitives, apiSecret: string, payload: string): (sig: string)
    ensures (forall bs :: p.fromBase64(p.toBase64(bs)) == bs) ==>
              p.fromBase64(sig) == p.hmacSha256(p.fromBase64(apiSecret), p.utf8(payload))
  {
    p.toBase64(p.hmacSha256(p.fromBase64(apiSecret), p.utf8(payload)))
  }

  /** The `amx` credential: key, signature and nonce joined by `:`. */
  function Credential(apiKey: string, signature: string, nonce: string): (c: string)
    ensures |c| == |apiKey| + |signature| + |nonce| + 2
    ensures StartsWith(c, apiKey + ":") && EndsWith(c, ":" + nonce)
  {
    apiKey + ":" + signature + ":" + nonce
  }

  /** `Guid.NewGuid().ToString("N")`: 32 lower-case hexadecimal digits. */
  predicate GuidN(nonce: string) {
    |nonce| == 32 && forall i :: 0 <= i < |nonce| ==> '0' <= nonce[i] <= '9' || 'a' <= nonce[i] <= 'f'
  }

  /** The characters `Convert.ToBase64String` writes. */
  predicate Base64Text(s: string) {
    forall i :: 0 <= i < |s| ==>
      'A' <= s[i] <= 'Z' || 'a' <= s[i] <= 'z' || '0' <= s[i] <= '9' || s[i] == '+' || s[i] == '/' ||
      s[i] == '='
  }

  /** A receiver splitting the credential on `:` gets the key, the signature
      and the nonce back, as long as the key holds no `:`. */
  lemma CredentialReadBack(apiKey: string, signature: string, nonce: string)
    requires ':' !in apiKey && Base64Text(signature) && GuidN(nonce)
    ensures Split(Credential(apiKey, signature, nonce), ':') == [apiKey, signature, nonce]
  {
    assert ':' !in signature by {
      forall i | 0 <= i < |signature| ensures signature[i] != ':' {
        assert Base64Text(signature);
      }
    }
    assert ':' !in nonce by {
      forall i | 0 <= i < |nonce| ensures nonce[i] != ':' {
        assert GuidN(nonce);
      }
    }
    assert Credential(apiKey, signature, nonce) == apiKey + [':'] + (signature + [':'] + nonce);
    SplitAtFirst(apiKey, ':', signature + [':'] + nonce);
    SplitAtFirst(signature, ':', nonce);
    SplitNoSeparator(nonce, ':');
  }

  /** What `GetResult` signs and sends for one private call. */
  datatype SignedPost = SignedPost(url: string, body: string, authorization: string)

  /** `GetResult<T, U>`: the body is the serialised request, and its hash is
      always part of the payload. The header value is `amx ` and the
      credential. */
  function SignPost(p: Primitives, baseUrl: string, apiKey: string, apiSecret: string,
                    call: PrivateCall, json: string, nonce: string): (post: SignedPost)
    ensures post.url == PrivateUrl(baseUrl, call) && post.body == json
    ensures StartsWith(post.authorization, "amx " + apiKey + ":")
    ensures EndsWith(post.authorization, ":" + nonce)
  {
    var url := PrivateUrl(baseUrl, call);
    var payload := SignaturePayload(apiKey, EncodedUri(p, url), nonce, BodyHash(p, p.utf8(json)));
    SignedPost(url, json, "amx " + Credential(apiKey, Signature(p, apiSecret, payload), nonce))
  }

  /** Reading the header back: after the `amx ` scheme, splitting on `:` gives
      the key, the signature of the payload that hashes the body that was
      sent, and the nonce, when the key holds no `:` and the nonce is a
      `Guid` in `N` format. */
  lemma SignPostReadBack(p: Primitives, baseUrl: string, apiKey: string, apiSecret: string,
                         call: PrivateCall, json: string, nonce: string)
    requires ':' !in apiKey && GuidN(nonce)
    requires forall bs :: Base64Text(p.toBase64(bs))
    ensures var post := SignPost(p, baseUrl, apiKey, apiSecret, call, json, nonce);
            var payload := SignaturePayload(apiKey, EncodedUri(p, post.url), nonce, BodyHash(p, p.utf8(post.body)));
            post.authorization[..4] == "amx " &&
            Split(post.authorization[4..], ':') == [apiKey, Signature(p, apiSecret, payload), nonce]
  {
    var post := SignPost(p, baseUrl, apiKey, apiSecret, call, json, nonce);
    var payload := SignaturePayload(apiKey, EncodedUri(p, post.url), nonce, BodyHash(p, p.utf8(json)));
    var signature := Signature(p, apiSecret, payload);
    assert post.authorization == "amx " + Credential(apiKey, signature, nonce);
    assert post.authorization[4..] == Credential(apiKey, signature, nonce);
    CredentialReadBack(apiKey, signature, nonce);
  }

  /** `AuthenticationHeaderValue(scheme, parameter)`, written as the scheme,
      a space and the parameter. */
  datatype Authorization = Authorization(scheme: string, parameter: string)

  /** The header line: the scheme, one space, the parameter. A scheme without
      spaces reads back as the first space-separated piece. */
  function Render(a: Authorization): (line: string)
    ensures |line| == |a.scheme| + 1 + |a.parameter|
    ensures line[..|a.scheme|] == a.scheme && line[|a.scheme|] == ' ' && line[|a.scheme| + 1..] == a.parameter
    ensures ' ' !in a.scheme ==> Split(line, ' ')[0] == a.scheme
  {
    FirstPieceReadBack(a.scheme, a.parameter);
    a.scheme + " " + a.parameter
  }

  lemma FirstPieceReadBack(head: string, tail: string)
    ensures ' ' !in head ==> Split(head + " " + tail, ' ')[0] == head
  {
    if ' ' !in head {
      SplitAtFirst(head, ' ', tail);
    }
  }

  /** `AuthDelegatingHandler.SendAsync`: the body hash is empty when the
      request has no content. */
  function HandlerAuthorization(p: Primitives, apiKey: string, apiSecret: string,
                                requestUrl: string, content: Option<seq<byte>>, nonce: string)
    : (a: Authorization)
    ensures a.scheme == "amx"
    ensures content.None? ==>
              a.parameter == Credential(apiKey,
                Signature(p, apiSecret, apiKey + "POST" + EncodedUri(p, requestUrl) + nonce), nonce)
  {
    var contentHash := if content.Some? then BodyHash(p, content.value) else "";
    HandlerPayloadWithoutContent(apiKey, EncodedUri(p, requestUrl), nonce, contentHash);
    var payload := SignaturePayload(apiKey, EncodedUri(p, requestUrl), nonce, contentHash);
    Authorization("amx", Credential(apiKey, Signature(p, apiSecret, payload), nonce))
  }

  /** The two signing paths agree: the handler, given the UTF-8 body that
      `GetResult` writes, produces the header `GetResult` adds itself. */
  lemma SigningPathsAgree(p: Primitives, baseUrl: string, apiKey: string, apiSecret: string,
                          call: PrivateCall, json: string, nonce: string)
    ensures Render(HandlerAuthorization(p, apiKey, apiSecret, PrivateUrl(baseUrl, call),
                                       Some(p.utf8(json)), nonce)) ==
            SignPost(p, baseUrl, apiKey, apiSecret, call, json, nonce).authorization
  {
  }

  /** The payloads of the two paths differ only by the body hash, which is
      absent from the handler's when there is no content. */
  lemma HandlerPayloadWithoutContent(apiKey: string, uri: string, nonce: string, hash: string)
    ensures SignaturePayload(apiKey, uri, nonce, "") == apiKey + "POST" + uri + nonce
    ensures SignaturePayload(apiKey, uri, nonce, hash) == SignaturePayload(apiKey, uri, nonce, "") + hash
  {
  }
}
