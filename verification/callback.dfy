/**
 The payment-callback route `/api/mpesa/callback`: it reads the payer out of
 either the M-PESA callback payload or a flat test payload, refuses a payload
 without a phone number, mints an access token and answers with the link to
 the viewer. Sending the notification e-mails is reduced to whether the mail
 transport accepted them (`mailSent`).
 */
module Callback {

  import opened Optional
  import opened JsValue
  import opened TokenStore

  /** The payer as the handler resolves it. The values are whatever the
      payload held; `email` is `undefined` for an M-PESA payload. */
  datatype PaymentEvent = PaymentEvent(phone: Value, amount: Value, email: Value)

  /** `i.Name === name` for an element `i` that is not `null`/`undefined`. */
  predicate Named(v: Value, name: string) {
    v.Obj? && "Name" in v.fields && v.fields["Name"] == Str(name)
  }

  /** The index `items.find((i) => i.Name === name)` stops at, if any. The
      search visits the elements in order; reading `.Name` of a `null` element
      throws before a match further on can be seen. */
  function FindNamed(items: seq<Value>, name: string): (r: Eval<Option<nat>>)
    ensures r.Done? && r.value.Some? ==>
              && r.value.value < |items|
              && Named(items[r.value.value], name)
              && forall j :: 0 <= j < r.value.value ==> !Nullish(items[j]) && !Named(items[j], name)
    ensures r == Done(None) ==>
              forall j :: 0 <= j < |items| ==> !Nullish(items[j]) && !Named(items[j], name)
    ensures r.TypeError? ==>
              exists k :: 0 <= k < |items| && Nullish(items[k])
                          && forall j :: 0 <= j < k ==> !Nullish(items[j]) && !Named(items[j], name)
    decreases |items|
  {
    if |items| == 0 then Done(None)
    else
      match Get(items[0], "Name")
      case TypeError => TypeError
      case Done(n) =>
        if n == Str(name) then Done(Some(0))
        else
          match FindNamed(items[1..], name)
          case TypeError =>
            ghost var k :| 0 <= k < |items[1..]| && Nullish(items[1..][k])
                           && forall j :: 0 <= j < k ==> !Nullish(items[1..][j]) && !Named(items[1..][j], name);
            assert Nullish(items[k + 1]);
            assert forall j :: 0 <= j < k + 1 ==> !Nullish(items[j]) && !Named(items[j], name) by {
              forall j | 0 <= j < k + 1
                ensures !Nullish(items[j]) && !Named(items[j], name)
              {
                if j > 0 {
                  assert items[j] == items[1..][j - 1];
                }
              }
            }
            TypeError
          case Done(None) => Done(None)
          case Done(Some(k)) => Done(Some(k + 1))
  }

  /** `items.find((i) => i.Name === name)?.Value`. Calling `.find` on anything
      but an array throws. */
  function ItemValue(items: Value, name: string): (r: Eval<Value>)
    ensures !items.Arr? ==> r.TypeError?
    ensures items.Arr? ==>
              forall k :: FirstNamedAt(items.elems, name, k) && (forall j :: 0 <= j < k ==> !Nullish(items.elems[j]))
                          ==> r == Done(OptGet(items.elems[k], "Value"))
    ensures items.Arr? && (forall j :: 0 <= j < |items.elems| ==> !Nullish(items.elems[j]) && !Named(items.elems[j], name))
            ==> r == Done(Undefined)
  {
    if !items.Arr? then TypeError
    else
      match FindNamed(items.elems, name)
      case TypeError => TypeError
      case Done(None) => Done(Undefined)
      case Done(Some(k)) => Done(OptGet(items.elems[k], "Value"))
  }

  /** `data.Body?.stkCallback?.CallbackMetadata`, whose truthiness selects the
      M-PESA shape. */
  function CallbackMetadata(data: Body): (r: Value)
    ensures !Nullish(r) ==>
              && "Body" in data && data["Body"].Obj?
              && "stkCallback" in data["Body"].fields && data["Body"].fields["stkCallback"].Obj?
              && "CallbackMetadata" in data["Body"].fields["stkCallback"].fields
              && r == data["Body"].fields["stkCallback"].fields["CallbackMetadata"]
    ensures ("Body" in data && data["Body"].Obj? && "stkCallback" in data["Body"].fields
             && data["Body"].fields["stkCallback"].Obj?
             && "CallbackMetadata" in data["Body"].fields["stkCallback"].fields)
            ==> r == data["Body"].fields["stkCallback"].fields["CallbackMetadata"]
  {
    OptGet(OptGet(Read(data, "Body"), "stkCallback"), "CallbackMetadata")
  }

  /** The payer of a callback payload. With truthy callback metadata, amount
      and phone come from the `Item` list, amount first; otherwise phone,
      amount and email are read from the top level. Once the optional chain
      has reached a truthy value, re-reading it without `?.` yields the same
      value, so `...CallbackMetadata.Item` is read off that value. */
  function ParsePayment(data: Body): (r: Eval<PaymentEvent>)
    ensures !Truthy(CallbackMetadata(data)) ==>
              r == Done(PaymentEvent(Read(data, "phone"), Read(data, "amount"), Read(data, "email")))
    ensures Truthy(CallbackMetadata(data)) && r.Done? ==> r.value.email == Undefined
    ensures Truthy(CallbackMetadata(data)) && !Get(CallbackMetadata(data), "Item").value.Arr? ==> r.TypeError?
  {
    var meta := CallbackMetadata(data);
    if Truthy(meta) then
      var items := Get(meta, "Item").value;
      match ItemValue(items, "Amount")
      case TypeError => TypeError
      case Done(amount) =>
        match ItemValue(items, "PhoneNumber")
        case TypeError => TypeError
        case Done(phone) => Done(PaymentEvent(phone, amount, Undefined))
    else
      Done(PaymentEvent(Read(data, "phone"), Read(data, "amount"), Read(data, "email")))
  }

  /** `k` is where the first element named `name` sits. */
  ghost predicate FirstNamedAt(items: seq<Value>, name: string, k: int) {
    0 <= k < |items| && Named(items[k], name) && forall j :: 0 <= j < k ==> !Named(items[j], name)
  }

  /** Every `null` in the list comes after an element named `name`, so the
      search for `name` stops before it can reach one. */
  ghost predicate NoNullBeforeMatch(items: seq<Value>, name: string) {
    forall k :: 0 <= k < |items| && Nullish(items[k]) ==> exists j :: 0 <= j < k && Named(items[j], name)
  }

  /** On an array, `find` completes exactly when every `null` in it comes
      after the first element named `name`. */
  lemma ItemValueCompletes(items: Value, name: string)
    requires items.Arr?
    ensures ItemValue(items, name).Done? <==> NoNullBeforeMatch(items.elems, name)
  {
  }

  /** For an M-PESA payload with an `Item` list, reading the payer completes
      exactly when no `null` comes before the first "Amount" item nor before
      the first "PhoneNumber" item. It then yields the `Value`s of those first
      items (undefined when there is none) and an undefined e-mail. */
  lemma NativePayloadReadsFirstItems(data: Body)
    requires Truthy(CallbackMetadata(data))
    requires Get(CallbackMetadata(data), "Item").value.Arr?
    ensures var items := Get(CallbackMetadata(data), "Item").value.elems;
            ParsePayment(data).Done?
            <==> NoNullBeforeMatch(items, "Amount") && NoNullBeforeMatch(items, "PhoneNumber")
    ensures var items := Get(CallbackMetadata(data), "Item").value.elems;
            var r := ParsePayment(data);
            r.Done? ==>
            && r.value.email == Undefined
            && (forall k :: FirstNamedAt(items, "Amount", k) ==> r.value.amount == OptGet(items[k], "Value"))
            && ((forall j :: 0 <= j < |items| ==> !Named(items[j], "Amount")) ==> r.value.amount == Undefined)
            && (forall k :: FirstNamedAt(items, "PhoneNumber", k) ==> r.value.phone == OptGet(items[k], "Value"))
            && ((forall j :: 0 <= j < |items| ==> !Named(items[j], "PhoneNumber")) ==> r.value.phone == Undefined)
  {
    var items := Get(CallbackMetadata(data), "Item").value;
    ItemValueCompletes(items, "Amount");
    ItemValueCompletes(items, "PhoneNumber");
  }

  /** An M-PESA body whose `Item` list is `items`. */
  function MpesaBody(items: seq<Value>): Body {
    map["Body" := Obj(map["stkCallback" := Obj(map["CallbackMetadata" := Obj(map["Item" := Arr(items)])])])]
  }

  function Item(name: string, value: Value): Value {
    Obj(map["Name" := Str(name), "Value" := value])
  }

  /** A successful M-PESA callback: amount and phone are picked out by name
      from among the other items, and there is no e-mail. */
  lemma MpesaPayloadExample()
    ensures ParsePayment(MpesaBody([Item("Amount", Num(500)), Item("MpesaReceiptNumber", Str("NLJ7RT61SV")),
                                    Item("PhoneNumber", Num(254712345678))]))
            == Done(PaymentEvent(Num(254712345678), Num(500), Undefined))
  {
    var items := [Item("Amount", Num(500)), Item("MpesaReceiptNumber", Str("NLJ7RT61SV")),
                  Item("PhoneNumber", Num(254712345678))];
    assert FindNamed(items, "Amount") == Done(Some(0));
    assert FindNamed(items, "PhoneNumber") == Done(Some(2));
  }

  /** A flat test payload is read as it stands. */
  lemma FlatPayloadExample()
    ensures ParsePayment(map["phone" := Str("254700000000"), "amount" := Num(300), "email" := Str("a@b.com")])
            == Done(PaymentEvent(Str("254700000000"), Num(300), Str("a@b.com")))
  {
  }

  /** A `null` ahead of the "Amount" item makes the search throw, so the
      callback answers 500 and mints nothing. */
  lemma NullItemFailsCallback(store: Store, token: string, now: int, mailSent: bool)
    requires IsHexToken(token)
    ensures var r := HandleCallback(store, MpesaBody([Null, Item("Amount", Num(500))]), token, now, mailSent);
            CallbackStatus(r.response) == 500 && r.store == store
  {
  }

  /** The link the buyer receives: the viewer route for `file` with the token
      in the query string. */
  const ViewBase: string := "http://localhost:5000/api/view/"

  function ViewLink(file: string, token: string): string {
    ViewBase + file + "?token=" + token
  }

  /** Where the parts of a link sit: the base URL, the file, `?token=`, the
      token, and nothing else. */
  lemma ViewLinkLayout(file: string, token: string)
    ensures var link := ViewLink(file, token);
            && ViewBase <= link
            && |link| == |ViewBase| + |file| + 7 + |token|
            && link[|ViewBase|..|ViewBase| + |file|] == file
            && link[|ViewBase| + |file|..|ViewBase| + |file| + 7] == "?token="
            && link[|link| - |token|..] == token
  {
  }

  /** The first position of `c` in `s`. */
  function IndexOf(s: string, c: char): (r: Option<nat>)
    ensures r.Some? ==> r.value < |s| && s[r.value] == c && c !in s[..r.value]
    ensures r.None? ==> c !in s
  {
    if |s| == 0 then None
    else if s[0] == c then Some(0)
    else
      match IndexOf(s[1..], c)
      case None => None
      case Some(i) =>
        assert s[..i + 1] == [s[0]] + s[1..][..i];
        Some(i + 1)
  }

  /** A `:filename` path parameter: one non-empty path segment, free of the
      query separator. */
  predicate IsPathSegment(file: string) {
    |file| > 0 && '/' !in file && '?' !in file
  }

  /** How the viewer route takes a link of that shape apart: the `:filename`
      segment up to the `?`, and the raw value of the `token` parameter. */
  function ParseViewLink(link: string): (r: Option<(string, string)>)
  {
    if |link| < |ViewBase| || link[..|ViewBase|] != ViewBase then None
    else SplitTarget(link[|ViewBase|..])
  }

  /** The part of a link after the route prefix: `<file>?token=<token>`. */
  function SplitTarget(rest: string): (r: Option<(string, string)>)
  {
    match IndexOf(rest, '?')
    case None => None
    case Some(i) =>
      var file := rest[..i];
      var query := rest[i + 1..];
      if !IsPathSegment(file) || |query| < 6 || query[..6] != "token=" then None
      else Some((file, query[6..]))
  }

  lemma SplitTargetSound(rest: string)
    requires SplitTarget(rest).Some?
    ensures var (file, token) := SplitTarget(rest).value;
            IsPathSegment(file) && rest == file + "?token=" + token
  {
  }

  /** Whatever the viewer route takes out of a link is a path segment and a
      token from which the handler would have built that very link. */
  lemma ParseViewLinkSound(link: string)
    requires ParseViewLink(link).Some?
    ensures var (file, token) := ParseViewLink(link).value;
            IsPathSegment(file) && ViewLink(file, token) == link
  {
    SplitTargetSound(link[|ViewBase|..]);
  }

  lemma {:induction false} IndexOfAfterPrefix(a: string, c: char, b: string)
    requires c !in a
    ensures IndexOf(a + [c] + b, c) == Some(|a|)
    decreases |a|
  {
    var s := a + [c] + b;
    if |a| > 0 {
      assert s[1..] == a[1..] + [c] + b;
      IndexOfAfterPrefix(a[1..], c, b);
    }
  }

  /** Every link the handler builds takes apart into the same file and token.
      The token is one the handler mints: hex digits need no decoding, and
      none of them is a `&` or `#` that would end the parameter early. */
  lemma ViewLinkRoundTrip(file: string, token: string)
    requires IsPathSegment(file) && IsHexToken(token)
    ensures ParseViewLink(ViewLink(file, token)) == Some((file, token))
  {
    SplitViewLink(file, token);
  }

  /** The split behind `ViewLinkRoundTrip`, for any token text. */
  lemma SplitViewLink(file: string, token: string)
    requires IsPathSegment(file)
    ensures ParseViewLink(ViewLink(file, token)) == Some((file, token))
  {
    var link := ViewLink(file, token);
    var rest := file + "?token=" + token;
    assert link == ViewBase + rest;
    assert link[..|ViewBase|] == ViewBase;
    assert link[|ViewBase|..] == rest;
    SplitTargetOf(file, token);
  }

  /** The part after the route prefix splits at the first `?`, which is the
      one the handler wrote, since the file holds none. */
  lemma SplitTargetOf(file: string, token: string)
    requires IsPathSegment(file)
    ensures SplitTarget(file + "?token=" + token) == Some((file, token))
  {
    var rest := file + "?token=" + token;
    assert rest == file + ['?'] + ("token=" + token);
    IndexOfAfterPrefix(file, '?', "token=" + token);
    assert rest[..|file|] == file;
    assert rest[|file| + 1..] == "token=" + token;
  }

  datatype CallbackResponse =
    | NoPhone                    // 400 "No phone in callback"
    | Failed                     // 500 "Callback failed"
    | Processed(ebookLink: string)

  function CallbackStatus(r: CallbackResponse): (status: int)
    ensures status == 200 <==> r.Processed?
    ensures status == 400 <==> r == NoPhone
    ensures status == 500 <==> r == Failed
  {
    match r
    case NoPhone => 400
    case Failed => 500
    case Processed(_) => 200
  }

  datatype CallbackResult = CallbackResult(response: CallbackResponse, store: Store)

  /** The callback handler. A payload that throws while being read, or that
      yields a falsy phone, leaves the store alone. Otherwise the token is
      minted before any e-mail is sent, so a failing mail transport turns the
      answer into a 500 but does not take the token back. */
  function HandleCallback(store: Store, data: Body, token: string, now: int, mailSent: bool)
    : (r: CallbackResult)
    requires IsHexToken(token)
    ensures ParsePayment(data).TypeError? ==> r == CallbackResult(Failed, store)
    ensures r.response == NoPhone <==> ParsePayment(data).Done? && !Truthy(ParsePayment(data).value.phone)
    ensures r.response == NoPhone ==> r.store == store
    ensures ParsePayment(data).Done? && Truthy(ParsePayment(data).value.phone) ==>
              r.store == Issue(store, token, now)
    ensures r.response.Processed? <==>
              ParsePayment(data).Done? && Truthy(ParsePayment(data).value.phone) && mailSent
    ensures r.response.Processed? ==> r.response.ebookLink == ViewLink(EbookFile, token)
  {
    match ParsePayment(data)
    case TypeError => CallbackResult(Failed, store)
    case Done(event) =>
      if !Truthy(event.phone) then CallbackResult(NoPhone, store)
      else
        var minted := Issue(store, token, now);
        var link := ViewLink(EbookFile, token);
        if mailSent then CallbackResult(Processed(link), minted)
        else CallbackResult(Failed, minted)
  }

  /** A payload without a phone number is refused with 400 and mints nothing. */
  lemma NoPhoneMintsNothing(store: Store, data: Body, token: string, now: int, mailSent: bool)
    requires IsHexToken(token)
    requires ParsePayment(data).Done? && !Truthy(ParsePayment(data).value.phone)
    ensures var r := HandleCallback(store, data, token, now, mailSent);
            && CallbackStatus(r.response) == 400
            && r.store == store
            && |r.store| == |store|
  {
  }

  /** The callback only ever adds a minted token for the e-book. */
  lemma HandleCallbackKeepsMintedOnly(store: Store, data: Body, token: string, now: int, mailSent: bool)
    requires MintedOnly(store) && IsHexToken(token)
    ensures MintedOnly(HandleCallback(store, data, token, now, mailSent).store)
  {
    IssueKeepsMintedOnly(store, token, now);
  }

  /** End to end: the link in a successful answer names the e-book and the new
      token, opens the viewer at any instant up to thirty minutes after the
      callback, and is refused after that. */
  lemma CallbackLinkOpensViewer(store: Store, data: Body, token: string, now: int, later: int)
    requires IsHexToken(token)
    requires HandleCallback(store, data, token, now, true).response.Processed?
    ensures var r := HandleCallback(store, data, token, now, true);
            && ParseViewLink(r.response.ebookLink) == Some((EbookFile, token))
            && (View(r.store, token, EbookFile, later).outcome == ServeViewer
                <==> later <= now + TokenLifetimeMs)
  {
    ViewLinkRoundTrip(EbookFile, token);
  }
}
