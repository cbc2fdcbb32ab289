# Bookstore backend: e-book access tokens

A Dafny model of the entitlement logic of an M-PESA bookstore backend
(`server.js`). A payment callback mints a random access token. The token is
bound to the one e-book the shop sells, `Born_Too_Soon.pdf`, and expires
thirty minutes later. Two routes consult the in-memory token store
`ebookTokens` before they serve anything. `/api/secure-pdf/:filename` streams
the PDF and evicts a token it finds expired. `/api/view/:filename` serves the
viewer page and never evicts.

Modules:

- `Optional`: `Option`.
- `JsValue`: the JavaScript values a parsed JSON body can hold, truthiness,
  property access and optional chaining.
- `TokenStore`: the store as an immutable `map<string, Entry>`. It holds
  `Issue`, the two gates `SecurePdf` and `View`, and the lifecycle lemmas.
  The gates take the clock (`now`, milliseconds), the token and the result
  of the file-existence check as parameters.
- `Callback`: the two payload shapes of the payment callback, the
  phone-number guard, token minting and the viewer link.
- `Delivery`: the four-field guard of the delivery-payment route.
- `Server`: any sequence of requests applied to the one store, and the
  invariant that the store holds only minted tokens for the e-book.
- `Timestamp`: the `YYYYMMDDHHMMSS` timestamp both push routes derive from
  the ISO-8601 text of the current instant.

Behaviour of `server.js` the model keeps exactly:

- Expiry is decided by a strict `now > expiresAt`, so a token is still
  accepted at `now == expiresAt`.
- The three token failures of the PDF route all answer 403, each with its own
  message: "Invalid or missing token", "Token expired" and "Token mismatch".
- The PDF route checks expiry before the file binding. An expired token for
  another file is therefore reported as expired, and it is evicted.
- Tokens are `crypto.randomBytes(16)` in hex, which is 32 characters.
- The store is a plain object. A `token` equal to a name inherited from
  `Object.prototype` (`constructor`, `__proto__`, …) finds a truthy value
  with no `file` or `expiresAt`. The PDF route answers "Token mismatch" for
  it instead of "missing"; the viewer route denies it. A missing `token`
  parameter looks up the key `"undefined"`. Since every key the server
  itself writes is a 32-hex-digit token bound to the e-book, neither case
  ever grants access, whatever requests came before.

## Model

| member | source | states |
|---|---|---|
| TokenStore.TokenKey | server.js:186-189 | an absent `token` query parameter turns into a key that is neither a hex token nor an inherited name |
| TokenStore.Find | server.js:188 | `ebookTokens[token]` is an own entry exactly when the key is stored, an inherited value exactly for unstored prototype names, otherwise nothing |
| TokenStore.Issue | server.js:125-130 | after minting, the token maps to `Born_Too_Soon.pdf` expiring at `now + 1800000`; every other key keeps its entry; a colliding key is overwritten, so the store grows by one or stays the same size |
| TokenStore.SecurePdf | server.js:184-197 | each outcome in terms of the store: missing, expired (`now > expiresAt`, which deletes only that key), mismatch, 404 exactly when the token is valid but the file is absent, stream exactly when valid and present; outside expiry the store is unchanged |
| TokenStore.PdfResponse | server.js:189-208 | the PDF route answers 403 exactly for the three token rejections, 404 exactly for a missing file, and 200 exactly when it streams |
| TokenStore.View | server.js:211-219 | the viewer is served exactly when the token is stored, bound to the requested file and `now <= expiresAt`; the store is never changed |
| TokenStore.ViewResponse | server.js:217-223 | the viewer route answers 200 exactly when it serves the viewer, and 403 exactly when it denies |
| TokenStore.GatesAgree | server.js:188-219 | the viewer route accepts exactly the requests on which the PDF route passes all three token checks |
| TokenStore.PdfRejectionsAreDistinct | server.js:189-194 | the three token rejections are all 403, each with its own message |
| TokenStore.IssuedTokenAccepted | server.js:126-130 | a freshly issued token opens both routes for the e-book at every instant up to and including `issuedAt + 1800000`, and the store is left unchanged |
| TokenStore.ExpiredTokenEvicted | server.js:188-192 | past expiry the PDF route answers "expired" and removes the token, after which any later PDF request for any file answers "missing" and the viewer route denies it; before that the viewer route refuses the expired token and keeps it |
| TokenStore.MismatchNeverAccepted | server.js:190-194 | a token bound to another file is never accepted; on the PDF route an expired one is still evicted, since the expiry check comes first |
| TokenStore.IssueKeepsMintedOnly | server.js:126-130 | minting keeps every key of the store a 32-hex-digit token bound to the e-book |
| TokenStore.SecurePdfKeepsMintedOnly | server.js:188-197 | the PDF route only deletes, so it keeps the store minted-only |
| TokenStore.NoTokenRefused | server.js:186-189 | on a minted-only store a request without a `token` parameter gets 403 "Invalid or missing token" from the PDF route and is denied by the viewer route, store unchanged |
| TokenStore.PrototypeKeyRefused | server.js:188-218 | on a minted-only store a name inherited from Object.prototype gets "Token mismatch" from the PDF route and is denied by the viewer route |
| TokenStore.OnlyEbookServed | server.js:188-218 | on a minted-only store neither route gets past its token checks for any file but `Born_Too_Soon.pdf` |
| TokenStore.AcceptedThroughoutWindow | server.js:188-194 | access is not single-use: any number of successive PDF requests within the window are all accepted |
| TokenStore.MissingStaysMissing | server.js:188-189 | a key that is neither stored nor inherited is answered "missing" by every request of a sequence |
| TokenStore.EvictedAfterExpiry | server.js:189-192 | in a sequence of PDF requests starting after expiry, the first answers "expired" and all later ones "missing" |
| Callback.CallbackMetadata | server.js:113 | a non-nullish result is the value at `Body.stkCallback.CallbackMetadata`, all of whose containers are objects; when that path exists its value is the result |
| Callback.FindNamed | server.js:115-116 | `items.find(i => i.Name === name)` stops at the first element named `name`, with no `null` before it; it finds nothing only when no element is null or named; it throws only when a `null` comes before any match |
| Callback.ItemValue | server.js:114-116 | `.find` on a non-array throws; on an array with no `null` before the first element named `name` it yields that element's `Value`, and on a `null`-free array with no such element it yields undefined |
| Callback.ItemValueCompletes | server.js:114-116 | on an array, the search completes exactly when every `null` comes after the first element named `name` |
| Callback.ParsePayment | server.js:111-121 | without truthy `CallbackMetadata` the flat `phone`/`amount`/`email` are read; with it the e-mail is undefined and a non-array `Item` throws |
| Callback.NativePayloadReadsFirstItems | server.js:113-116 | an M-PESA payload with an `Item` array is read without throwing exactly when no `null` comes before the first "Amount" item nor before the first "PhoneNumber" item; then amount and phone are the `Value`s of those first items, undefined when absent, and e-mail is undefined |
| Callback.MpesaPayloadExample | server.js:113-116 | a three-item M-PESA payload yields amount 500 and phone 254712345678 |
| Callback.FlatPayloadExample | server.js:117-121 | a flat payload yields its own phone, amount and e-mail |
| Callback.NullItemFailsCallback | server.js:113-177 | a `null` item before "Amount" makes the callback answer 500 without minting |
| Callback.CallbackStatus | server.js:123-177 | 400 exactly for a payload without a phone, 500 exactly for a failed callback, 200 exactly for a processed one |
| Callback.HandleCallback | server.js:106-178 | a payload that throws gives 500 with the store unchanged; a falsy phone gives 400 with the store unchanged; otherwise the token is issued whatever happens to the e-mails, and the answer carries the viewer link exactly when the e-mails go out |
| Callback.NoPhoneMintsNothing | server.js:123 | a payload without a phone is refused with 400 and the store keeps its size and contents |
| Callback.ViewLinkLayout | server.js:131 | the link starts with the viewer route's base URL, followed by the file, then `?token=`, then the token, and holds nothing else |
| Callback.ViewLinkRoundTrip | server.js:131 | for a path-segment file and a minted 32-hex-digit token, the viewer route takes the built link apart into the same file and token |
| Callback.ParseViewLinkSound | server.js:131 | whatever the link parser takes out of a link is a path segment and raw token text that rebuild exactly that link |
| Callback.CallbackLinkOpensViewer | server.js:126-131 | the link of a successful callback names the e-book and the new token, and it opens the viewer exactly until thirty minutes after the callback |
| Callback.HandleCallbackKeepsMintedOnly | server.js:123-130 | the callback only adds a minted token for the e-book |
| Server.Step | server.js:106-219 | a viewer request leaves the store as it was, a PDF request only removes keys, and only a callback adds or changes an entry, under its own token |
| Server.RunKeepsMintedOnly | server.js:106-219 | every sequence of callbacks, PDF and viewer requests keeps the store minted-only |
| Server.NothingButMintedTokensAdmitted | server.js:186-219 | after any sequence of requests from an empty store, a missing token is "missing" and denied, an inherited name is "mismatch" and denied, and only the e-book is ever served |
| Delivery.CheckDelivery | server.js:228-232 | 400 exactly when one of phone, transactionCode, address, amount is falsy; otherwise the four body values pass on unchanged |
| Delivery.AbsentFieldRefused | server.js:230-232 | a body lacking any one of the four fields is refused with 400 |
| Timestamp.MpesaTimestamp | server.js:57 | the timestamp has at most 14 characters, none of `- : T Z .`, and is a prefix of the ISO text with those characters deleted |
| Timestamp.StripIdempotent | server.js:57 | deleting the separator characters a second time changes nothing |
| Timestamp.IsoTimestamp | server.js:236 | for an ISO text `YYYY-MM-DDTHH:mm:ss.sssZ` the timestamp is exactly the zero-padded year, month, day, hour, minute and second |
| Timestamp.TimestampRoundTrip | server.js:236 | the six fields read back from the 14-digit timestamp are those of the instant, milliseconds dropped |
| Timestamp.SameTimestampSameSecond | server.js:57 | two instants get the same timestamp exactly when they agree to the second |

## Left out

- Randomness: `crypto.randomBytes` (server.js:126). The token is a parameter, and minting requires it to be 32 lower-case hex characters.
- The clock: `Date.now()` is the parameter `now`. `new Date().toISOString()` is the calendar fields of a `DateTime`. Converting epoch milliseconds to calendar fields is not modelled. Neither are the six-digit signed years toISOString writes outside 0..9999.
- Base64 encoding of the OAuth credentials and of the STK password (server.js:40, 58, 237): library encoding.
- HTTP calls to M-PESA (server.js:39-46, 79-95, 257-273): the OAuth request and both STK-push requests. The `/api/mpesa/stkpush` route is modelled only through its timestamp. The delivery route is modelled only up to its field guard.
- E-mail (server.js:27-35, 61-75, 134-168, 240-254): the callback's sends are reduced to the boolean `mailSent`. It records that a failing send after minting gives 500 while the token stays valid. Message contents and recipients are not modelled.
- The file system (server.js:196-197, 207-208, 222-223): file existence is the boolean `fileExists`. Streaming and `sendFile` are not modelled.
- Response headers (server.js:199-205): constants with no logic.
- Express scaffolding: routing, CORS, dotenv, `listen` and the root route. Query parsing of repeated `token` parameters is left out, and so is percent-decoding of the path and query. Decoding is the identity on hex tokens and on `Born_Too_Soon.pdf`.
- Error details: the `details: err.message` text of 500 answers is not modelled; a thrown TypeError is just `TypeError`.
- JSON numbers are integers. `NaN`, fractions and `-0` are left out; `NaN` and `-0` would be falsy.
- Property reads on primitives and arrays yield `undefined`. That is exact for every property name the server reads, none of which is a built-in prototype property.
- Concurrency: Node's interleaving of requests. Each operation is one atomic step on the store.
- Callback.ParseViewLink: the link parser neither splits the token at `&`, nor drops a `#` fragment, nor decodes `+` or `%xx`. It agrees with Express's query parsing only for tokens free of those characters, which every minted hex token is, so `ViewLinkRoundTrip` is stated for minted tokens only.
