/**
 The in-memory e-book access-token store `ebookTokens` of server.js and the two
 routes that consult it: `/api/secure-pdf/:filename`, which streams the PDF,
 and `/api/view/:filename`, which serves the viewer page. The clock, the random
 token and the file system are parameters: `now` is `Date.now()` in
 milliseconds, `token` is the value of the `token` query parameter after
 JavaScript's property-key conversion, and `fileExists` is the result of the
 existence check on the requested file.
 */
module TokenStore {

  import opened Optional

  /** One record of the store: the file a token unlocks and the instant, in
      milliseconds since the epoch, after which it no longer does. */
  datatype Entry = Entry(file: string, expiresAt: int)

  /** Token -> entry. Only the store's own properties are in the map. */
  type Store = map<string, Entry>

  /** The one document the shop sells. */
  const EbookFile: string := "Born_Too_Soon.pdf"

  /** Thirty minutes, in milliseconds. */
  const TokenLifetimeMs: int := 30 * 60 * 1000

  /** The names every plain object inherits from Object.prototype. Looking one
      of them up in the store finds an inherited, truthy value that has neither
      a `file` nor an `expiresAt` property. */
  const PrototypeKeys: set<string> := {
    "constructor", "hasOwnProperty", "isPrototypeOf", "propertyIsEnumerable",
    "toLocaleString", "toString", "valueOf", "__proto__",
    "__defineGetter__", "__defineSetter__", "__lookupGetter__", "__lookupSetter__"
  }

  /** `crypto.randomBytes(16).toString("hex")`: 32 lower-case hex digits. */
  predicate IsHexToken(t: string) {
    |t| == 32 && forall i :: 0 <= i < |t| ==> t[i] in "0123456789abcdef"
  }

  /** The key a missing `token` query parameter turns into: indexing an object
      with `undefined` reads the property named "undefined". */
  function TokenKey(query: Option<string>): (key: string)
    ensures query.Some? ==> key == query.value
    ensures query.None? ==> !IsHexToken(key) && key !in PrototypeKeys
  {
    match query
    case Some(t) => t
    case None => "undefined"
  }

  /** What `ebookTokens[token]` evaluates to. */
  datatype Lookup = Own(entry: Entry) | Inherited | Absent

  function Find(store: Store, token: string): (r: Lookup)
    ensures r.Own? <==> token in store
    ensures r.Own? ==> r.entry == store[token]
    ensures r.Inherited? <==> token !in store && token in PrototypeKeys
  {
    if token in store then Own(store[token])
    else if token in PrototypeKeys then Inherited
    else Absent
  }

  /** The condition under which a token grants access to `filename` at `now`:
      the store holds it, it is bound to that file, and its expiry instant has
      not been passed (the comparison is strict, so `now == expiresAt` is still
      in time). */
  ghost predicate Valid(store: Store, token: string, filename: string, now: int) {
    token in store && store[token].file == filename && now <= store[token].expiresAt
  }

  /** Minting an access token after a payment: the token is bound to the
      e-book and expires thirty minutes after `now`. There is no collision
      check; an existing entry under the same key is replaced. */
  function Issue(store: Store, token: string, now: int): (r: Store)
    requires IsHexToken(token)
    ensures token in r && r[token] == Entry(EbookFile, now + TokenLifetimeMs)
    ensures forall k :: k != token ==> (k in r <==> k in store)
    ensures forall k :: k != token && k in store ==> r[k] == store[k]
    ensures |r| == if token in store then |store| else |store| + 1
  {
    var r := store[token := Entry(EbookFile, now + TokenLifetimeMs)];
    assert r.Keys == store.Keys + {token};
    r
  }

  /** What the server's own writes leave in the store: every key is a minted
      hex token and every entry is bound to the e-book. */
  ghost predicate MintedOnly(store: Store) {
    forall k :: k in store ==> IsHexToken(k) && store[k].file == EbookFile
  }

  lemma IssueKeepsMintedOnly(store: Store, token: string, now: int)
    requires MintedOnly(store) && IsHexToken(token)
    ensures MintedOnly(Issue(store, token, now))
  {
  }

  /** A gate's answer together with the store after the request. */
  datatype GateResult<+O> = GateResult(outcome: O, store: Store)

  datatype PdfOutcome = Missing | Expired | Mismatch | FileNotFound | ServePdf

  /** The HTTP status of each outcome of the PDF route, with its body text,
      or for a served file its content type. */
  function PdfResponse(o: PdfOutcome): (resp: (int, string))
    ensures resp.0 == 403 <==> o in {Missing, Expired, Mismatch}
    ensures resp.0 == 404 <==> o == FileNotFound
    ensures resp.0 == 200 <==> o == ServePdf
  {
    match o
    case Missing => (403, "Invalid or missing token")
    case Expired => (403, "Token expired")
    case Mismatch => (403, "Token mismatch")
    case FileNotFound => (404, "File not found")
    case ServePdf => (200, "application/pdf")
  }

  /** `/api/secure-pdf/:filename`. The checks run in order: no entry, expiry
      (which deletes the entry), wrong file, then the file's existence. An
      inherited prototype value counts as an entry, is never expired (`now >
      undefined` is false) and never names a file. */
  function SecurePdf(store: Store, token: string, filename: string, now: int, fileExists: bool)
    : (r: GateResult<PdfOutcome>)
    ensures r.outcome == Missing <==> token !in store && token !in PrototypeKeys
    ensures r.outcome == Expired <==> token in store && now > store[token].expiresAt
    ensures r.outcome == Mismatch <==>
              || (token in store && now <= store[token].expiresAt && store[token].file != filename)
              || (token !in store && token in PrototypeKeys)
    ensures r.outcome == FileNotFound <==> Valid(store, token, filename, now) && !fileExists
    ensures r.outcome == ServePdf <==> Valid(store, token, filename, now) && fileExists
    ensures r.outcome == Expired ==> r.store.Keys == store.Keys - {token}
    ensures r.outcome == Expired ==> forall k :: k in r.store ==> r.store[k] == store[k]
    ensures r.outcome != Expired ==> r.store == store
  {
    match Find(store, token)
    case Absent => GateResult(Missing, store)
    case Inherited => GateResult(Mismatch, store)
    case Own(e) =>
      if now > e.expiresAt then GateResult(Expired, store - {token})
      else if e.file != filename then GateResult(Mismatch, store)
      else if !fileExists then GateResult(FileNotFound, store)
      else GateResult(ServePdf, store)
  }

  datatype ViewOutcome = Denied | ServeViewer

  /** The HTTP status of each outcome of the viewer route, with its body text,
      or for a served viewer the page sent. */
  function ViewResponse(o: ViewOutcome): (resp: (int, string))
    ensures resp.0 == 200 <==> o == ServeViewer
    ensures resp.0 == 403 <==> o == Denied
  {
    match o
    case Denied => (403, "Invalid or expired token.")
    case ServeViewer => (200, "viewer.html")
  }

  /** `/api/view/:filename`: the same acceptance condition as the PDF route,
      checked in one disjunction, and the store is never modified. */
  function View(store: Store, token: string, filename: string, now: int): (r: GateResult<ViewOutcome>)
    ensures r.outcome == ServeViewer <==> Valid(store, token, filename, now)
    ensures r.store == store
  {
    match Find(store, token)
    case Absent => GateResult(Denied, store)
    case Inherited => GateResult(Denied, store)
    case Own(e) =>
      if e.file != filename || now > e.expiresAt then GateResult(Denied, store)
      else GateResult(ServeViewer, store)
  }

  /** The two routes accept exactly the same requests: the viewer is served
      precisely when the PDF route gets past all three token checks. */
  lemma GatesAgree(store: Store, token: string, filename: string, now: int, fileExists: bool)
    ensures View(store, token, filename, now).outcome == ServeViewer
        <==> SecurePdf(store, token, filename, now, fileExists).outcome in {ServePdf, FileNotFound}
  {
  }

  /** Every token rejection of the PDF route is a 403, and the three rejections
      are told apart by their body text. */
  lemma PdfRejectionsAreDistinct(a: PdfOutcome, b: PdfOutcome)
    requires a in {Missing, Expired, Mismatch} && b in {Missing, Expired, Mismatch}
    ensures PdfResponse(a).0 == 403
    ensures a != b ==> PdfResponse(a).1 != PdfResponse(b).1
  {
  }

  /** Issuing adds an entry for the e-book that both routes accept at every
      instant up to and including its expiry, and accepting changes nothing. */
  lemma IssuedTokenAccepted(store: Store, token: string, issuedAt: int, now: int, fileExists: bool)
    requires IsHexToken(token)
    requires now <= issuedAt + TokenLifetimeMs
    ensures var s := Issue(store, token, issuedAt);
            && View(s, token, EbookFile, now) == GateResult(ServeViewer, s)
            && SecurePdf(s, token, EbookFile, now, fileExists)
               == GateResult(if fileExists then ServePdf else FileNotFound, s)
  {
  }

  /** Once the window has passed, the PDF route answers "expired" and drops the
      token, the viewer route refuses but keeps it, and every later PDF
      request with that token, for any file, answers "missing". */
  lemma ExpiredTokenEvicted(store: Store, token: string, filename: string, now: int, later: int,
                            laterFile: string, fileExists: bool)
    requires token in store && token !in PrototypeKeys
    requires now > store[token].expiresAt
    ensures var r := SecurePdf(store, token, filename, now, fileExists);
            && r.outcome == Expired
            && token !in r.store
            && SecurePdf(r.store, token, laterFile, later, fileExists).outcome == Missing
            && View(r.store, token, laterFile, later).outcome == Denied
    ensures View(store, token, filename, now) == GateResult(Denied, store)
  {
  }

  /** A token bound to another file never opens `filename`; on the PDF route
      the expiry check comes first, so an expired token for another file is
      still evicted. */
  lemma MismatchNeverAccepted(store: Store, token: string, filename: string, now: int, fileExists: bool)
    requires token in store && store[token].file != filename
    ensures View(store, token, filename, now).outcome == Denied
    ensures var r := SecurePdf(store, token, filename, now, fileExists);
            && r.outcome in {Expired, Mismatch}
            && (now > store[token].expiresAt ==> r.outcome == Expired && token !in r.store)
  {
  }

  /** The PDF route only ever deletes, so it keeps the store minted-only. */
  lemma SecurePdfKeepsMintedOnly(store: Store, token: string, filename: string, now: int, fileExists: bool)
    requires MintedOnly(store)
    ensures MintedOnly(SecurePdf(store, token, filename, now, fileExists).store)
  {
  }

  /** A request without a `token` parameter looks up "undefined", which no
      minted token is, so the PDF route answers 403 "Invalid or missing token"
      and the viewer route denies. */
  lemma NoTokenRefused(store: Store, filename: string, now: int, fileExists: bool)
    requires MintedOnly(store)
    ensures var r := SecurePdf(store, TokenKey(None), filename, now, fileExists);
            r == GateResult(Missing, store) && PdfResponse(r.outcome) == (403, "Invalid or missing token")
    ensures View(store, TokenKey(None), filename, now) == GateResult(Denied, store)
  {
  }

  /** A name inherited from Object.prototype is never a minted token: the PDF
      route answers "Token mismatch" for it and the viewer route denies. */
  lemma PrototypeKeyRefused(store: Store, key: string, filename: string, now: int, fileExists: bool)
    requires MintedOnly(store) && key in PrototypeKeys
    ensures SecurePdf(store, key, filename, now, fileExists) == GateResult(Mismatch, store)
    ensures View(store, key, filename, now) == GateResult(Denied, store)
  {
  }

  /** Only the e-book is ever served, whatever file is asked for. */
  lemma OnlyEbookServed(store: Store, token: string, filename: string, now: int, fileExists: bool)
    requires MintedOnly(store)
    ensures SecurePdf(store, token, filename, now, fileExists).outcome in {ServePdf, FileNotFound}
            ==> filename == EbookFile
    ensures View(store, token, filename, now).outcome == ServeViewer ==> filename == EbookFile
  {
  }

  /** The outcomes of a sequence of PDF requests with one token and one file,
      made at the given instants, each seeing the store the previous one left. */
  function PdfSession(store: Store, token: string, filename: string, fileExists: bool, times: seq<int>)
    : (r: seq<PdfOutcome>)
    ensures |r| == |times|
    decreases |times|
  {
    if |times| == 0 then []
    else
      var g := SecurePdf(store, token, filename, times[0], fileExists);
      [g.outcome] + PdfSession(g.store, token, filename, fileExists, times[1..])
  }

  /** Access is not single-use: every request inside the validity window is
      accepted, however many come before it. */
  lemma {:induction false} AcceptedThroughoutWindow(store: Store, token: string, filename: string,
                                                    fileExists: bool, times: seq<int>)
    requires token in store && store[token].file == filename
    requires forall i :: 0 <= i < |times| ==> times[i] <= store[token].expiresAt
    ensures forall i :: 0 <= i < |times| ==>
              PdfSession(store, token, filename, fileExists, times)[i]
              == (if fileExists then ServePdf else FileNotFound)
    decreases |times|
  {
    if |times| > 0 {
      var r := PdfSession(store, token, filename, fileExists, times);
      var g := SecurePdf(store, token, filename, times[0], fileExists);
      assert g.store == store;
      AcceptedThroughoutWindow(store, token, filename, fileExists, times[1..]);
      assert r == [g.outcome] + PdfSession(store, token, filename, fileExists, times[1..]);
      forall i | 0 <= i < |times|
        ensures r[i] == (if fileExists then ServePdf else FileNotFound)
      {
        if i > 0 {
          assert times[1..][i - 1] == times[i];
        }
      }
    }
  }

  /** A token that is neither stored nor an inherited name is answered
      "missing" by every request. */
  lemma {:induction false} MissingStaysMissing(store: Store, token: string, filename: string,
                                               fileExists: bool, times: seq<int>)
    requires token !in store && token !in PrototypeKeys
    ensures forall i :: 0 <= i < |times| ==>
              PdfSession(store, token, filename, fileExists, times)[i] == Missing
    decreases |times|
  {
    if |times| > 0 {
      MissingStaysMissing(store, token, filename, fileExists, times[1..]);
    }
  }

  /** A request after the expiry instant answers "expired", and every request
      after it, at any time, answers "missing". */
  lemma EvictedAfterExpiry(store: Store, token: string, filename: string,
                           fileExists: bool, times: seq<int>)
    requires token in store && token !in PrototypeKeys
    requires |times| > 0 && times[0] > store[token].expiresAt
    ensures var r := PdfSession(store, token, filename, fileExists, times);
            && r[0] == Expired
            && forall i :: 1 <= i < |times| ==> r[i] == Missing
  {
    var g := SecurePdf(store, token, filename, times[0], fileExists);
    MissingStaysMissing(g.store, token, filename, fileExists, times[1..]);
  }
}
