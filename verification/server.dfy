/**
 The server as a whole: any interleaving of payment callbacks, PDF requests
 and viewer requests, each applied in turn to the one `ebookTokens` store.
 Whatever the order, the store only ever holds minted hex tokens bound to
 the e-book, so a request without a token, or with a name inherited from
 Object.prototype, is refused on both routes.
 */
module Server {

  import opened Optional
  import opened JsValue
  import opened TokenStore
  import opened Callback

  /** One request reaching the server. `query` is the raw `token` query
      parameter, absent when the request has none. */
  datatype Request =
    | PaymentCallback(data: Body, token: string, now: int, mailSent: bool)
    | PdfRequest(query: Option<string>, filename: string, now: int, fileExists: bool)
    | ViewRequest(query: Option<string>, filename: string, now: int)

  /** A callback's token comes from `crypto.randomBytes(16)` in hex. */
  predicate Minted(req: Request) {
    req.PaymentCallback? ==> IsHexToken(req.token)
  }

  /** The store after one request. */
  function Step(store: Store, req: Request): (r: Store)
    requires Minted(req)
    ensures req.ViewRequest? ==> r == store
    ensures req.PdfRequest? ==> r.Keys <= store.Keys
    ensures forall k :: k in r && k !in store ==> req.PaymentCallback? && k == req.token
    ensures forall k :: k in r && k in store && r[k] != store[k] ==> req.PaymentCallback? && k == req.token
  {
    match req
    case PaymentCallback(data, token, now, mailSent) => HandleCallback(store, data, token, now, mailSent).store
    case PdfRequest(query, filename, now, fileExists) => SecurePdf(store, TokenKey(query), filename, now, fileExists).store
    case ViewRequest(query, filename, now) => View(store, TokenKey(query), filename, now).store
  }

  /** The store after a sequence of requests, in order. */
  function Run(store: Store, reqs: seq<Request>): Store
    requires forall i :: 0 <= i < |reqs| ==> Minted(reqs[i])
    decreases |reqs|
  {
    if |reqs| == 0 then store else Run(Step(store, reqs[0]), reqs[1..])
  }

  /** Every request keeps the store minted-only. */
  lemma StepKeepsMintedOnly(store: Store, req: Request)
    requires MintedOnly(store) && Minted(req)
    ensures MintedOnly(Step(store, req))
  {
    match req
    case PaymentCallback(data, token, now, mailSent) =>
      HandleCallbackKeepsMintedOnly(store, data, token, now, mailSent);
    case PdfRequest(query, filename, now, fileExists) =>
      SecurePdfKeepsMintedOnly(store, TokenKey(query), filename, now, fileExists);
    case ViewRequest(_, _, _) =>
  }

  /** Any sequence of requests keeps the store minted-only. */
  lemma {:induction false} RunKeepsMintedOnly(store: Store, reqs: seq<Request>)
    requires MintedOnly(store)
    requires forall i :: 0 <= i < |reqs| ==> Minted(reqs[i])
    ensures MintedOnly(Run(store, reqs))
    decreases |reqs|
  {
    if |reqs| > 0 {
      StepKeepsMintedOnly(store, reqs[0]);
      RunKeepsMintedOnly(Step(store, reqs[0]), reqs[1..]);
    }
  }

  /** Whatever happened since the server started with an empty store, a
      request without a token gets 403 "Invalid or missing token" from the
      PDF route and is denied by the viewer; a name inherited from
      Object.prototype is answered "Token mismatch" and denied; and no file
      other than the e-book is ever served. */
  lemma NothingButMintedTokensAdmitted(reqs: seq<Request>, key: string, filename: string,
                                       now: int, fileExists: bool)
    requires forall i :: 0 <= i < |reqs| ==> Minted(reqs[i])
    ensures var s := Run(map[], reqs);
            && SecurePdf(s, TokenKey(None), filename, now, fileExists).outcome == Missing
            && View(s, TokenKey(None), filename, now).outcome == Denied
            && (key in PrototypeKeys ==>
                  && SecurePdf(s, key, filename, now, fileExists).outcome == Mismatch
                  && View(s, key, filename, now).outcome == Denied)
            && (SecurePdf(s, key, filename, now, fileExists).outcome == ServePdf ==> filename == EbookFile)
            && (View(s, key, filename, now).outcome == ServeViewer ==> filename == EbookFile)
  {
    var s := Run(map[], reqs);
    RunKeepsMintedOnly(map[], reqs);
    NoTokenRefused(s, filename, now, fileExists);
    OnlyEbookServed(s, key, filename, now, fileExists);
    if key in PrototypeKeys {
      PrototypeKeyRefused(s, key, filename, now, fileExists);
    }
  }
}
