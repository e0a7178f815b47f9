/** Extraction of the subject and the text body from Gmail API messages (`format="full"`),
    and the listing loop that gathers message identifiers page by page. */
module GmailClient {
  import opened Wrappers
  import opened Bytes
  import opened Failures
  import Text
  import Base64Url
  import Utf8

  /** One entry of a payload's `headers`; an absent `name` or `value` reads as "". */
  datatype Header = Header(name: string, value: string)

  /** A MIME part: its `mimeType` ("" when absent), its `headers`, its `body.data` in
      base64url (None when absent) and its `parts`, which are either absent (None) or a
      list that may be empty. */
  datatype Part = Part(mimeType: string, headers: seq<Header>, data: Option<string>, parts: Option<PartList>)

  datatype PartList = PartList(items: seq<Part>)

  /** The `{}` that stands in for a missing payload. */
  const EmptyPart: Part := Part("", [], None, None)

  /** A message; `payload` is None when the key is absent. */
  datatype Message = Message(payload: Option<Part>)

  /** One fetched ticket email. */
  datatype Email = Email(id: string, subject: string, body: string)

  // ---------------------------------------------------------------------------------
  // Headers

  /** `msg.get("payload", {}).get("headers", [])`. */
  function Headers(msg: Message): seq<Header> {
    match msg.payload
    case None => []
    case Some(p) => p.headers
  }

  predicate NameMatches(h: Header, name: string) {
    Text.EqualsIgnoreCase(h.name, name)
  }

  /** The value that the header lookup yields: that of the first header whose name equals
      `name` up to case, or "" when there is none. */
  function HeaderValue(hs: seq<Header>, name: string): string {
    if hs == [] then ""
    else if NameMatches(hs[0], name) then hs[0].value
    else HeaderValue(hs[1..], name)
  }

  /** The lookup returns the value of the first matching header, and "" when no header
      matches (in particular when there are no headers). */
  lemma {:induction false} HeaderValueIsFirstMatch(hs: seq<Header>, name: string)
    ensures (forall k | 0 <= k < |hs| :: !NameMatches(hs[k], name)) ==> HeaderValue(hs, name) == ""
    ensures forall k | 0 <= k < |hs| && NameMatches(hs[k], name) &&
                       (forall j | 0 <= j < k :: !NameMatches(hs[j], name)) ::
              HeaderValue(hs, name) == hs[k].value
  {
    if hs != [] {
      HeaderValueIsFirstMatch(hs[1..], name);
      forall k | 0 < k < |hs| && NameMatches(hs[k], name) &&
                 (forall j | 0 <= j < k :: !NameMatches(hs[j], name))
        ensures HeaderValue(hs, name) == hs[k].value
      {
        assert !NameMatches(hs[0], name);
        assert hs[1..][k - 1] == hs[k];
        assert forall j | 0 <= j < k - 1 :: hs[1..][j] == hs[j + 1];
      }
    }
  }

  /** Names that differ only in ASCII case select the same header. */
  lemma {:induction false} HeaderValueIgnoresCase(hs: seq<Header>, a: string, b: string)
    requires Text.EqualsIgnoreCase(a, b)
    ensures HeaderValue(hs, a) == HeaderValue(hs, b)
  {
    if hs != [] {
      HeaderValueIgnoresCase(hs[1..], a, b);
    }
  }

  /** `_get_header`: scans the headers in order and returns at the first match. */
  method GetHeader(msg: Message, name: string) returns (v: string)
    ensures v == HeaderValue(Headers(msg), name)
  {
    var headers := Headers(msg);
    var i := 0;
    while i < |headers|
      invariant 0 <= i <= |headers|
      invariant HeaderValue(headers[i..], name) == HeaderValue(headers, name)
    {
      assert headers[i..][1..] == headers[i + 1..];
      if Text.Lower(headers[i].name) == Text.Lower(name) {
        return headers[i].value;
      }
      i := i + 1;
    }
    return "";
  }

  /** `_get_message_subject`. */
  method GetMessageSubject(msg: Message) returns (v: string)
    ensures v == HeaderValue(Headers(msg), "Subject")
  {
    v := GetHeader(msg, "Subject");
  }

  // ---------------------------------------------------------------------------------
  // Body data

  /** Python truthiness of an optional string: present and not empty. */
  predicate Truthy(data: Option<string>) {
    data.Some? && data.value != ""
  }

  /** `_decode_body_data`: "" for absent or empty data; otherwise the base64url-decoded
      bytes read as UTF-8, or as latin-1 when they are not well-formed UTF-8. Malformed
      base64url raises. */
  function DecodeBodyData(data: Option<string>): (r: Result<string, Error>)
    ensures !Truthy(data) ==> r == Success("")
    ensures r.Failure? <==> Truthy(data) && Base64Url.Decode(data.value).None?
    ensures r.Failure? ==> r.error == InvalidBase64
    ensures Truthy(data) && Base64Url.Decode(data.value).Some? ==>
              var bytes := Base64Url.Decode(data.value).value;
              r == Success(if Utf8.Decode(bytes).Some? then Utf8.Decode(bytes).value else Utf8.Latin1(bytes))
  {
    if !Truthy(data) then Success("")
    else
      match Base64Url.Decode(data.value)
      case None => Failure(InvalidBase64)
      case Some(bytes) =>
        match Utf8.Decode(bytes)
        case Some(text) => Success(text)
        case None => Success(Utf8.Latin1(bytes))
  }

  /** A body whose data is the base64url encoding of the UTF-8 bytes of a text decodes to
      that text. */
  lemma DecodeBodyDataOfText(t: string)
    ensures DecodeBodyData(Some(Base64Url.Encode(Utf8.Encode(t)))) == Success(t)
  {
    var bytes := Utf8.Encode(t);
    Base64Url.DecodeEncode(bytes);
    Utf8.DecodeEncode(t);
    if t == [] {
      assert bytes == [];
    }
  }

  /** Bytes that are not well-formed UTF-8 are read as latin-1, one character per byte. */
  lemma DecodeBodyDataFallsBackToLatin1(bytes: seq<Byte>)
    requires Utf8.Decode(bytes).None?
    ensures DecodeBodyData(Some(Base64Url.Encode(bytes))) == Success(Utf8.Latin1(bytes))
  {
    Base64Url.DecodeEncode(bytes);
  }

  // ---------------------------------------------------------------------------------
  // Text parts

  /** The texts gathered so far: the `text_plain` and `text_html` lists. */
  datatype Texts = Texts(plain: seq<string>, html: seq<string>)

  const NoTexts: Texts := Texts([], [])

  /** Where a decoded text goes: to the plain list when the MIME type starts with
      "text/plain", else to the html list when it starts with "text/html", else nowhere. */
  function Sort(mimeType: string, text: string): Texts {
    if Text.StartsWith(mimeType, "text/plain") then Texts([text], [])
    else if Text.StartsWith(mimeType, "text/html") then Texts([], [text])
    else NoTexts
  }

  /** Runs two collection steps in order: the first failure is the result, else the
      lists of both, concatenated. */
  function Then(r: Result<Texts, Error>, s: Result<Texts, Error>): Result<Texts, Error> {
    match r
    case Failure(e) => Failure(e)
    case Success(t) =>
      match s
      case Failure(e) => Failure(e)
      case Success(u) => Success(Texts(t.plain + u.plain, t.html + u.html))
  }

  lemma ThenAssociative(a: Result<Texts, Error>, b: Result<Texts, Error>, c: Result<Texts, Error>)
    ensures Then(Then(a, b), c) == Then(a, Then(b, c))
  {
    if a.Success? && b.Success? && c.Success? {
      var t, u, v := a.value, b.value, c.value;
      assert (t.plain + u.plain) + v.plain == t.plain + (u.plain + v.plain);
      assert (t.html + u.html) + v.html == t.html + (u.html + v.html);
    }
  }

  lemma ThenIdentity(r: Result<Texts, Error>)
    ensures Then(Success(NoTexts), r) == r && Then(r, Success(NoTexts)) == r
  {
    if r.Success? {
      assert [] + r.value.plain == r.value.plain && r.value.plain + [] == r.value.plain;
      assert [] + r.value.html == r.value.html && r.value.html + [] == r.value.html;
    }
  }

  /** What a part's own body contributes: nothing without data; otherwise its decoded data,
      sorted by MIME type. The data is decoded before the type is looked at, so malformed
      data raises even in a part that is neither plain text nor HTML. */
  function BodyTexts(p: Part): Result<Texts, Error> {
    if !Truthy(p.data) then Success(NoTexts)
    else
      match DecodeBodyData(p.data)
      case Failure(e) => Failure(e)
      case Success(text) => Success(Sort(p.mimeType, text))
  }

  /** What the nested `walk` collects from a part: a part that has `parts` contributes only
      through them, and its own body is ignored. */
  function WalkTexts(p: Part): Result<Texts, Error>
    decreases p
  {
    match p.parts
    case Some(pl) => WalkAllTexts(pl.items)
    case None => BodyTexts(p)
  }

  /** `walk` applied to each part of a list, in order. */
  function WalkAllTexts(ps: seq<Part>): Result<Texts, Error>
    decreases ps
  {
    if ps == [] then Success(NoTexts)
    else Then(WalkAllTexts(ps[..|ps| - 1]), WalkTexts(ps[|ps| - 1]))
  }

  /** The sub-parts of a part, `[]` when `parts` is absent. */
  function SubParts(p: Part): seq<Part> {
    match p.parts
    case None => []
    case Some(pl) => pl.items
  }

  /** What `_extract_text_from_payload` collects: the payload's own body first (looked at
      even when the payload also has parts), then every top-level part walked in order. */
  function PayloadTexts(payload: Part): Result<Texts, Error> {
    Then(BodyTexts(payload), WalkAllTexts(SubParts(payload)))
  }

  /** The `{"plain": ..., "html": ...}` result. */
  datatype Extracted = Extracted(plain: Option<string>, html: Option<string>)

  /** None for an empty list, otherwise the texts joined with newlines and stripped. */
  function Finish(texts: seq<string>): (r: Option<string>)
    ensures r.None? <==> texts == []
  {
    if texts == [] then None else Some(Text.Strip(Text.Join("\n", texts)))
  }

  function ExtractedText(payload: Part): Result<Extracted, Error> {
    match PayloadTexts(payload)
    case Failure(e) => Failure(e)
    case Success(t) => Success(Extracted(Finish(t.plain), Finish(t.html)))
  }

  // A reference description of the walk over the flattened tree.

  /** The parts without `parts` below p, in depth-first document order (p itself when it
      has no `parts`). */
  function Leaves(p: Part): seq<Part>
    decreases p
  {
    match p.parts
    case None => [p]
    case Some(pl) => LeavesAll(pl.items)
  }

  function LeavesAll(ps: seq<Part>): seq<Part>
    decreases ps
  {
    if ps == [] then [] else LeavesAll(ps[..|ps| - 1]) + Leaves(ps[|ps| - 1])
  }

  /** The bodies of a flat list of parts, read one after the other. */
  function ScanBodies(ls: seq<Part>): Result<Texts, Error> {
    if ls == [] then Success(NoTexts)
    else Then(ScanBodies(ls[..|ls| - 1]), BodyTexts(ls[|ls| - 1]))
  }

  lemma {:induction false} ScanBodiesAppend(a: seq<Part>, b: seq<Part>)
    ensures ScanBodies(a + b) == Then(ScanBodies(a), ScanBodies(b))
    decreases |b|
  {
    if b == [] {
      assert a + b == a;
      ThenIdentity(ScanBodies(a));
    } else {
      var b' := b[..|b| - 1];
      assert (a + b)[..|a + b| - 1] == a + b';
      assert (a + b)[|a + b| - 1] == b[|b| - 1];
      ScanBodiesAppend(a, b');
      ThenAssociative(ScanBodies(a), ScanBodies(b'), BodyTexts(b[|b| - 1]));
    }
  }

  /** The recursive walk collects exactly what reading the bodies of the leaves in
      document order collects. */
  lemma {:induction false} WalkIsLeafScan(p: Part)
    ensures WalkTexts(p) == ScanBodies(Leaves(p))
    decreases p
  {
    match p.parts
    case None =>
      assert [p][..0] == [];
      ThenIdentity(BodyTexts(p));
    case Some(pl) =>
      WalkAllIsLeafScan(pl.items);
  }

  lemma {:induction false} WalkAllIsLeafScan(ps: seq<Part>)
    ensures WalkAllTexts(ps) == ScanBodies(LeavesAll(ps))
    decreases ps
  {
    if ps != [] {
      var init, last := ps[..|ps| - 1], ps[|ps| - 1];
      WalkAllIsLeafScan(init);
      WalkIsLeafScan(last);
      ScanBodiesAppend(LeavesAll(init), Leaves(last));
    }
  }

  /** The parts whose bodies the extraction reads: the payload when it has data, then the
      leaves below its top-level parts. */
  function Sources(payload: Part): seq<Part> {
    (if Truthy(payload.data) then [payload] else []) + LeavesAll(SubParts(payload))
  }

  lemma PayloadIsSourceScan(payload: Part)
    ensures PayloadTexts(payload) == ScanBodies(Sources(payload))
  {
    var top := if Truthy(payload.data) then [payload] else [];
    WalkAllIsLeafScan(SubParts(payload));
    ScanBodiesAppend(top, LeavesAll(SubParts(payload)));
    if Truthy(payload.data) {
      assert top[..0] == [];
      ThenIdentity(BodyTexts(payload));
    } else {
      ThenIdentity(ScanBodies(LeavesAll(SubParts(payload))));
    }
  }

  predicate IsPlainSource(p: Part) {
    Truthy(p.data) && Text.StartsWith(p.mimeType, "text/plain")
  }

  predicate IsHtmlSource(p: Part) {
    Truthy(p.data) && !Text.StartsWith(p.mimeType, "text/plain") && Text.StartsWith(p.mimeType, "text/html")
  }

  /** After a successful scan the plain list is empty exactly when no part is a plain
      source, and the html list exactly when no part is an HTML source. */
  lemma {:induction false} ScanBodiesEmptyIff(ls: seq<Part>)
    requires ScanBodies(ls).Success?
    ensures ScanBodies(ls).value.plain == [] <==> forall i | 0 <= i < |ls| :: !IsPlainSource(ls[i])
    ensures ScanBodies(ls).value.html == [] <==> forall i | 0 <= i < |ls| :: !IsHtmlSource(ls[i])
  {
    if ls != [] {
      var n := |ls| - 1;
      var init := ls[..n];
      ScanBodiesEmptyIff(init);
      BodyTextsEmptyIff(ls[n]);
      SourcesSplitLast(ls);
      var t, u := ScanBodies(init).value, BodyTexts(ls[n]).value;
      assert ScanBodies(ls).value == Texts(t.plain + u.plain, t.html + u.html);
    }
  }

  /** A property holds of every part of a list exactly when it holds of every part but
      the last, and of the last. */
  lemma SourcesSplitLast(ls: seq<Part>)
    requires ls != []
    ensures var n := |ls| - 1;
            (forall i | 0 <= i < |ls| :: !IsPlainSource(ls[i])) <==>
              (forall i | 0 <= i < n :: !IsPlainSource(ls[..n][i])) && !IsPlainSource(ls[n])
    ensures var n := |ls| - 1;
            (forall i | 0 <= i < |ls| :: !IsHtmlSource(ls[i])) <==>
              (forall i | 0 <= i < n :: !IsHtmlSource(ls[..n][i])) && !IsHtmlSource(ls[n])
  {
    var n := |ls| - 1;
    assert forall i | 0 <= i < n :: ls[..n][i] == ls[i];
  }

  /** One part adds a plain text exactly when it is a plain source, and an HTML text
      exactly when it is an HTML source. */
  lemma BodyTextsEmptyIff(p: Part)
    requires BodyTexts(p).Success?
    ensures BodyTexts(p).value.plain == [] <==> !IsPlainSource(p)
    ensures BodyTexts(p).value.html == [] <==> !IsHtmlSource(p)
  {
  }

  /** `plain` is None exactly when no part with data is of type text/plain, and `html` is
      None exactly when no part with data is of type text/html (and not text/plain). */
  lemma ExtractedNoneIff(payload: Part)
    requires ExtractedText(payload).Success?
    ensures ExtractedText(payload).value.plain.None? <==>
              forall i | 0 <= i < |Sources(payload)| :: !IsPlainSource(Sources(payload)[i])
    ensures ExtractedText(payload).value.html.None? <==>
              forall i | 0 <= i < |Sources(payload)| :: !IsHtmlSource(Sources(payload)[i])
  {
    PayloadIsSourceScan(payload);
    ScanBodiesEmptyIff(Sources(payload));
  }

  // ---------------------------------------------------------------------------------
  // The walk, as the source runs it: two lists that grow as the tree is visited

  /** The `text_plain` and `text_html` lists that `walk` appends to. */
  class TextCollector {
    var plain: seq<string>
    var html: seq<string>

    constructor ()
      ensures plain == [] && html == []
    {
      plain := [];
      html := [];
    }

    /** Appends a decoded text to the list its MIME type selects, if any. */
    method Add(mimeType: string, text: string)
      modifies this
      ensures plain == old(plain) + Sort(mimeType, text).plain
      ensures html == old(html) + Sort(mimeType, text).html
    {
      if Text.StartsWith(mimeType, "text/plain") {
        plain := plain + [text];
      } else if Text.StartsWith(mimeType, "text/html") {
        html := html + [text];
      }
    }

    /** `walk(part)`: descends into `parts` when the key is present; otherwise decodes and
        sorts the part's own data, if it has any. A decoding error propagates at once. */
    method Walk(part: Part) returns (res: Outcome<Error>)
      modifies this
      decreases part
      ensures res.Pass? <==> WalkTexts(part).Success?
      ensures res.Fail? ==> res.error == WalkTexts(part).error
      ensures res.Pass? ==> plain == old(plain) + WalkTexts(part).value.plain
      ensures res.Pass? ==> html == old(html) + WalkTexts(part).value.html
    {
      match part.parts {
        case Some(pl) =>
          res := WalkEach(pl.items);
        case None =>
          if !Truthy(part.data) {
            return Pass;
          }
          var text := DecodeBodyData(part.data);
          if text.Failure? {
            return Fail(text.error);
          }
          Add(part.mimeType, text.value);
          res := Pass;
      }
    }

    /** `for sub in parts: walk(sub)`. */
    method WalkEach(ps: seq<Part>) returns (res: Outcome<Error>)
      modifies this
      decreases ps
      ensures res.Pass? <==> WalkAllTexts(ps).Success?
      ensures res.Fail? ==> res.error == WalkAllTexts(ps).error
      ensures res.Pass? ==> plain == old(plain) + WalkAllTexts(ps).value.plain
      ensures res.Pass? ==> html == old(html) + WalkAllTexts(ps).value.html
    {
      for i := 0 to |ps|
        invariant WalkAllTexts(ps[..i]).Success?
        invariant plain == old(plain) + WalkAllTexts(ps[..i]).value.plain
        invariant html == old(html) + WalkAllTexts(ps[..i]).value.html
      {
        WalkAllStep(ps, i);
        ghost var before := WalkAllTexts(ps[..i]).value;
        var r := Walk(ps[i]);
        if r.Fail? {
          WalkAllFailureStops(ps, i + 1);
          return r;
        }
        ghost var added := WalkTexts(ps[i]).value;
        assert plain == old(plain) + (before.plain + added.plain);
        assert html == old(html) + (before.html + added.html);
      }
      assert ps[..|ps|] == ps;
      res := Pass;
    }
  }

  /** Walking one more part continues the walk of the parts before it. */
  lemma WalkAllStep(ps: seq<Part>, i: nat)
    requires i < |ps|
    ensures WalkAllTexts(ps[..i + 1]) == Then(WalkAllTexts(ps[..i]), WalkTexts(ps[i]))
  {
    assert ps[..i + 1][..i] == ps[..i] && ps[..i + 1][i] == ps[i];
  }

  /** Once a prefix of the parts fails, the whole list fails with the same error. */
  lemma {:induction false} WalkAllFailureStops(ps: seq<Part>, k: nat)
    requires k <= |ps|
    requires WalkAllTexts(ps[..k]).Failure?
    ensures WalkAllTexts(ps) == WalkAllTexts(ps[..k])
    decreases |ps| - k
  {
    if k < |ps| {
      assert ps[..k + 1][..k] == ps[..k];
      WalkAllFailureStops(ps, k + 1);
    } else {
      assert ps[..k] == ps;
    }
  }

  /** `_extract_text_from_payload`. */
  method ExtractTextFromPayload(payload: Part) returns (r: Result<Extracted, Error>)
    ensures r == ExtractedText(payload)
  {
    var collector := new TextCollector();
    if Truthy(payload.data) {
      var text := DecodeBodyData(payload.data);
      if text.Failure? {
        return Failure(text.error);
      }
      collector.Add(payload.mimeType, text.value);
    }
    ghost var top := BodyTexts(payload).value;
    assert collector.plain == top.plain && collector.html == top.html;
    var res := collector.WalkEach(SubParts(payload));
    if res.Fail? {
      return Failure(res.error);
    }
    ghost var rest := WalkAllTexts(SubParts(payload)).value;
    assert PayloadTexts(payload) == Success(Texts(top.plain + rest.plain, top.html + rest.html));
    r := Success(Extracted(Finish(collector.plain), Finish(collector.html)));
  }

  // ---------------------------------------------------------------------------------
  // Body selection

  /** `msg.get("payload", {}) or {}`. */
  function PayloadOf(msg: Message): Part {
    msg.payload.GetOr(EmptyPart)
  }

  /** Non-empty plain text when there is some, else the HTML converted to text by
      `htmlToText` (the HTML itself when the converter raises, which None stands for),
      else "". */
  function SelectBody(x: Extracted, htmlToText: string -> Option<string>): (r: string)
    ensures x.plain.Some? && x.plain.value != "" ==> r == x.plain.value
    ensures !(x.plain.Some? && x.plain.value != "") && x.html.Some? && x.html.value != "" ==>
              r == htmlToText(x.html.value).GetOr(x.html.value)
    ensures r == "" <==> !(x.plain.Some? && x.plain.value != "") &&
                         (!(x.html.Some? && x.html.value != "") || htmlToText(x.html.value) == Some(""))
  {
    if x.plain.Some? && x.plain.value != "" then x.plain.value
    else if x.html.Some? && x.html.value != "" then htmlToText(x.html.value).GetOr(x.html.value)
    else ""
  }

  /** What `_get_message_body` returns for a message. */
  function MessageBody(msg: Message, htmlToText: string -> Option<string>): Result<string, Error> {
    match ExtractedText(PayloadOf(msg))
    case Failure(e) => Failure(e)
    case Success(x) => Success(SelectBody(x, htmlToText))
  }

  /** `_get_message_body`. It is a method because it runs the text collector, whose walk
      updates lists in place; MessageBody is the value it computes, which the listing
      functions and the lemmas use. */
  method GetMessageBody(msg: Message, htmlToText: string -> Option<string>) returns (r: Result<string, Error>)
    ensures r == MessageBody(msg, htmlToText)
  {
    var texts := ExtractTextFromPayload(PayloadOf(msg));
    if texts.Failure? {
      return Failure(texts.error);
    }
    r := Success(SelectBody(texts.value, htmlToText));
  }

  /** When the plain text is non-empty it is the body, whatever the HTML parts hold and
      whatever the HTML converter does; the converter is consulted only without it. */
  lemma PlainTextWins(msg: Message, h1: string -> Option<string>, h2: string -> Option<string>)
    requires ExtractedText(PayloadOf(msg)).Success?
    requires var x := ExtractedText(PayloadOf(msg)).value; x.plain.Some? && x.plain.value != ""
    ensures MessageBody(msg, h1) == MessageBody(msg, h2) == Success(ExtractedText(PayloadOf(msg)).value.plain.value)
  {
  }

  /** A message whose only part is a text/plain leaf carrying the base64url encoding of
      the UTF-8 bytes of `t` has the body `t` stripped; an empty `t` gives an empty body. */
  lemma SinglePlainPartBody(t: string, htmlToText: string -> Option<string>)
    ensures var part := Part("text/plain", [], Some(Base64Url.Encode(Utf8.Encode(t))), None);
            MessageBody(Message(Some(Part("multipart/alternative", [], None, Some(PartList([part]))))), htmlToText)
              == Success(Text.Strip(t))
  {
    var part := Part("text/plain", [], Some(Base64Url.Encode(Utf8.Encode(t))), None);
    var payload := Part("multipart/alternative", [], None, Some(PartList([part])));
    if t == "" {
      EmptyPlainPartTexts();
      assert ExtractedText(payload) == Success(Extracted(None, None));
    } else {
      SinglePlainPartTexts(t);
      assert Finish([t]) == Some(Text.Strip(t));
      assert ExtractedText(payload) == Success(Extracted(Some(Text.Strip(t)), None));
    }
  }

  lemma EmptyPlainPartTexts()
    ensures var part := Part("text/plain", [], Some(Base64Url.Encode(Utf8.Encode(""))), None);
            PayloadTexts(Part("multipart/alternative", [], None, Some(PartList([part])))) == Success(NoTexts)
  {
    var part := Part("text/plain", [], Some(Base64Url.Encode(Utf8.Encode(""))), None);
    var payload := Part("multipart/alternative", [], None, Some(PartList([part])));
    assert Base64Url.Encode(Utf8.Encode("")) == "";
    assert BodyTexts(part) == Success(NoTexts);
    assert WalkTexts(part) == Success(NoTexts);
    assert [part][..0] == [];
    ThenIdentity(WalkTexts(part));
    assert WalkAllTexts([part]) == Success(NoTexts);
    assert BodyTexts(payload) == Success(NoTexts);
    ThenIdentity(WalkAllTexts([part]));
  }

  lemma SinglePlainPartTexts(t: string)
    requires t != ""
    ensures var part := Part("text/plain", [], Some(Base64Url.Encode(Utf8.Encode(t))), None);
            PayloadTexts(Part("multipart/alternative", [], None, Some(PartList([part])))) == Success(Texts([t], []))
  {
    var part := Part("text/plain", [], Some(Base64Url.Encode(Utf8.Encode(t))), None);
    var payload := Part("multipart/alternative", [], None, Some(PartList([part])));
    DecodeBodyDataOfText(t);
    assert Text.StartsWith("text/plain", "text/plain");
    assert Sort("text/plain", t) == Texts([t], []);
    assert BodyTexts(part) == Success(Texts([t], []));
    assert WalkTexts(part) == Success(Texts([t], []));
    assert [part][..0] == [];
    ThenIdentity(WalkTexts(part));
    assert WalkAllTexts([part]) == Success(Texts([t], []));
    assert BodyTexts(payload) == Success(NoTexts);
    ThenIdentity(WalkAllTexts([part]));
  }

  // ---------------------------------------------------------------------------------
  // Listing and fetching

  /** One response of `messages().list`: the identifiers on the page and the token of
      the next page. */
  datatype ListPage = ListPage(ids: seq<string>, nextPageToken: Option<string>)

  predicate HasNext(page: ListPage) {
    Truthy(page.nextPageToken)
  }

  /** Python truthiness of the optional `limit`: given and not zero. */
  predicate LimitSet(limit: Option<int>) {
    limit.Some? && limit.value != 0
  }

  /** The list responses the listing loop receives, in order: a finite listing whose last
      page has no next-page token. */
  predicate ListingEnds(pages: seq<ListPage>) {
    |pages| > 0 && !HasNext(pages[|pages| - 1])
  }

  /** All identifiers of all pages, in order. */
  function Flatten(pages: seq<ListPage>): seq<string> {
    if pages == [] then [] else pages[0].ids + Flatten(pages[1..])
  }

  /** What the `while True` loop has gathered when it stops, given `acc` gathered before
      reading `pages[0]`: it stops after a page without a next-page token, or once a
      truthy limit is reached. */
  function Gathered(pages: seq<ListPage>, limit: Option<int>, acc: seq<string>): seq<string>
    requires ListingEnds(pages)
    decreases |pages|
  {
    var acc' := acc + pages[0].ids;
    if !HasNext(pages[0]) || (LimitSet(limit) && |acc'| >= limit.value) then acc'
    else Gathered(pages[1..], limit, acc')
  }

  /** Python's `xs[:n]`: a negative `n` counts from the end. */
  function PyPrefix<T>(xs: seq<T>, n: int): (r: seq<T>)
    ensures r <= xs
    ensures 0 <= n <= |xs| ==> |r| == n
    ensures n > |xs| ==> r == xs
    ensures n < 0 ==> |r| == (if -n <= |xs| then |xs| + n else 0)
  {
    if n >= 0 then (if n <= |xs| then xs[..n] else xs)
    else if -n <= |xs| then xs[..|xs| + n] else []
  }

  /** `if limit: all_messages_meta = all_messages_meta[:limit]`. */
  function Truncate<T>(xs: seq<T>, limit: Option<int>): seq<T> {
    if LimitSet(limit) then PyPrefix(xs, limit.value) else xs
  }

  /** The identifiers `get_all_emails` goes on to fetch. */
  function ListedIds(pages: seq<ListPage>, limit: Option<int>): seq<string>
    requires ListingEnds(pages)
  {
    Truncate(Gathered(pages, limit, []), limit)
  }

  /** The paging loop of `get_all_emails`, followed by the truncation to `limit`. */
  method ListMessageIds(pages: seq<ListPage>, limit: Option<int>) returns (ids: seq<string>)
    requires ListingEnds(pages)
    ensures ids == ListedIds(pages, limit)
  {
    var all: seq<string> := [];
    var i := 0;
    while true
      invariant 0 <= i < |pages|
      invariant Gathered(pages[i..], limit, all) == Gathered(pages, limit, [])
      decreases |pages| - i
    {
      all := all + pages[i].ids;
      if !HasNext(pages[i]) {
        break;
      }
      if LimitSet(limit) && |all| >= limit.value {
        break;
      }
      assert pages[i..][1..] == pages[i + 1..];
      i := i + 1;
    }
    if LimitSet(limit) {
      all := PyPrefix(all, limit.value);
    }
    ids := all;
  }

  lemma {:induction false} GatheredIsPrefix(pages: seq<ListPage>, limit: Option<int>, acc: seq<string>)
    requires ListingEnds(pages)
    ensures acc <= Gathered(pages, limit, acc) <= acc + Flatten(pages)
    decreases |pages|
  {
    var acc' := acc + pages[0].ids;
    assert acc + Flatten(pages) == acc' + Flatten(pages[1..]);
    if !(!HasNext(pages[0]) || (LimitSet(limit) && |acc'| >= limit.value)) {
      GatheredIsPrefix(pages[1..], limit, acc');
    }
  }

  /** The fetched identifiers come in listing order, and a positive limit bounds their
      number. */
  lemma ListedIdsIsBoundedPrefix(pages: seq<ListPage>, limit: Option<int>)
    requires ListingEnds(pages)
    ensures ListedIds(pages, limit) <= Flatten(pages)
    ensures limit.Some? && limit.value > 0 ==> |ListedIds(pages, limit)| <= limit.value
  {
    GatheredIsPrefix(pages, limit, []);
  }

  /** Every page but the last announces a next page. */
  predicate Paged(pages: seq<ListPage>) {
    forall i | 0 <= i < |pages| - 1 :: HasNext(pages[i])
  }

  lemma {:induction false} GatheredAll(pages: seq<ListPage>, limit: Option<int>, acc: seq<string>)
    requires ListingEnds(pages) && Paged(pages)
    ensures !LimitSet(limit) ==> Gathered(pages, limit, acc) == acc + Flatten(pages)
    ensures limit.Some? && limit.value > 0 ==>
              |Gathered(pages, limit, acc)| >= (if |acc + Flatten(pages)| < limit.value then |acc + Flatten(pages)| else limit.value)
    decreases |pages|
  {
    var acc' := acc + pages[0].ids;
    assert acc + Flatten(pages) == acc' + Flatten(pages[1..]);
    if |pages| == 1 {
      assert Flatten(pages[1..]) == [];
    } else {
      assert forall i | 0 <= i < |pages[1..]| - 1 :: pages[1..][i] == pages[i + 1];
      GatheredAll(pages[1..], limit, acc');
    }
  }

  /** Without a limit every listed page is read; with a positive limit exactly that many
      identifiers are kept when the listing holds at least that many. */
  lemma ListedIdsCount(pages: seq<ListPage>, limit: Option<int>)
    requires ListingEnds(pages) && Paged(pages)
    ensures !LimitSet(limit) ==> ListedIds(pages, limit) == Flatten(pages)
    ensures limit.Some? && 0 < limit.value <= |Flatten(pages)| ==> |ListedIds(pages, limit)| == limit.value
  {
    GatheredAll(pages, limit, []);
    assert [] + Flatten(pages) == Flatten(pages);
  }

  /** The email record built for one listed identifier. */
  function EmailOf(id: string, fetch: string -> Result<Message, Error>,
                   htmlToText: string -> Option<string>): Result<Email, Error>
  {
    match fetch(id)
    case Failure(e) => Failure(e)
    case Success(msg) =>
      match MessageBody(msg, htmlToText)
      case Failure(e) => Failure(e)
      case Success(body) => Success(Email(id, HeaderValue(Headers(msg), "Subject"), body))
  }

  /** One turn of the fetching loop: fetch the message, then read its subject and body.
      It is a method because it runs the header loop and GetMessageBody; EmailOf is the
      value it computes, which the listing functions and the lemmas use. */
  method FetchEmail(id: string, fetch: string -> Result<Message, Error>,
                    htmlToText: string -> Option<string>) returns (r: Result<Email, Error>)
    ensures r == EmailOf(id, fetch, htmlToText)
  {
    var msg := fetch(id);
    if msg.Failure? {
      return Failure(msg.error);
    }
    var subject := GetMessageSubject(msg.value);
    var body := GetMessageBody(msg.value, htmlToText);
    if body.Failure? {
      return Failure(body.error);
    }
    r := Success(Email(id, subject, body.value));
  }

  /** The fetching loop of `get_all_emails`, over the listed identifiers in order: the
      first message that cannot be fetched or decoded aborts it. */
  method FetchAll(ids: seq<string>, fetch: string -> Result<Message, Error>,
                  htmlToText: string -> Option<string>) returns (r: Result<seq<Email>, Error>)
    ensures r.Success? <==> forall i | 0 <= i < |ids| :: EmailOf(ids[i], fetch, htmlToText).Success?
    ensures r.Success? ==> |r.value| == |ids| &&
                           forall i | 0 <= i < |ids| :: EmailOf(ids[i], fetch, htmlToText) == Success(r.value[i])
    ensures r.Failure? ==> exists i | 0 <= i < |ids| :: && EmailOf(ids[i], fetch, htmlToText) == Failure(r.error)
                                                       && forall j | 0 <= j < i :: EmailOf(ids[j], fetch, htmlToText).Success?
  {
    var emails: seq<Email> := [];
    for i := 0 to |ids|
      invariant |emails| == i
      invariant forall j | 0 <= j < i :: EmailOf(ids[j], fetch, htmlToText) == Success(emails[j])
    {
      var email := FetchEmail(ids[i], fetch, htmlToText);
      if email.Failure? {
        assert forall j | 0 <= j < i :: EmailOf(ids[j], fetch, htmlToText).Success?;
        assert !EmailOf(ids[i], fetch, htmlToText).Success?;
        return Failure(email.error);
      }
      emails := emails + [email.value];
    }
    r := Success(emails);
  }

  /** `get_all_emails`: lists the identifiers, then fetches each and extracts its subject
      and body, in listing order. The list responses are `pages`, and `fetch` stands for
      `messages().get(...).execute()`. */
  method GetAllEmails(pages: seq<ListPage>, limit: Option<int>, fetch: string -> Result<Message, Error>,
                      htmlToText: string -> Option<string>) returns (r: Result<seq<Email>, Error>)
    requires ListingEnds(pages)
    ensures var ids := ListedIds(pages, limit);
            r.Success? <==> forall i | 0 <= i < |ids| :: EmailOf(ids[i], fetch, htmlToText).Success?
    ensures var ids := ListedIds(pages, limit);
            r.Success? ==> |r.value| == |ids| &&
                           forall i | 0 <= i < |ids| :: EmailOf(ids[i], fetch, htmlToText) == Success(r.value[i])
    ensures var ids := ListedIds(pages, limit);
            r.Failure? ==> exists i | 0 <= i < |ids| :: && EmailOf(ids[i], fetch, htmlToText) == Failure(r.error)
                                                       && forall j | 0 <= j < i :: EmailOf(ids[j], fetch, htmlToText).Success?
  {
    var ids := ListMessageIds(pages, limit);
    r := FetchAll(ids, fetch, htmlToText);
  }
}
