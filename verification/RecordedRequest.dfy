/** Whole requests as record and replay see them (scripts/gcp/common.ts): normalization, and the comparison that decides
    whether a replayed request is the recorded one. */
module RecordedRequest {
  import opened Options
  import opened Sorting
  import opened Json
  import opened Canonical
  import opened RecordedHttp
  import opened RecordedForm

  /** A parsed URL: everything but query and fragment, the decoded query entries, the fragment. */
  datatype Url = Url(base: string, query: seq<Entry>, hash: string)

  /** `contentType` is the Content-Type header. */
  datatype Request = Request(
    method_: Option<string>, url: Url, headers: seq<Entry>, body: Option<string>, contentType: Option<string>)

  /** What the code takes from the platform. */
  datatype Codec = Codec(
    parseJson: string -> Option<Value>,         // JSON.parse; None throws
    parseForm: string -> seq<Entry>,            // URLSearchParams
    href: (string, seq<Entry>) -> string,       // the URL with this query and no fragment
    upper: string -> string,                    // toUpperCase
    slug: Recorded -> string)                   // method, host, path and digest in a fixture's file name

  datatype Recorded = Recorded(body: Option<Value>, headers: seq<Entry>, method_: string, url: string)

  ghost predicate Sound(c: Codec) {
    && (forall text :: c.parseJson(text).Some? ==> WellFormed(c.parseJson(text).value))
    && (forall base, query, base', query' ::
          c.href(base, query) == c.href(base', query') <==> base == base' && query == query')
  }

  // ---- Bodies: what the content type makes of the text ----

  datatype Content = Nothing | JsonContent(v: Value) | FormContent(entries: seq<Entry>) | TextContent(text: string)

  predicate Contains(s: string, part: string) {
    |s| >= |part| && (s[..|part|] == part || (s != [] && Contains(s[1..], part)))
  }

  function ContentOf(c: Codec, body: Option<string>, contentType: Option<string>): Content {
    var kind := if contentType.Some? then Lower(contentType.value) else "";
    if body.None? || body.value == "" then Nothing
    else if Contains(kind, "application/json") then
      match c.parseJson(body.value)
      case Some(v) => JsonContent(v)
      case None => TextContent(body.value)
    else if Contains(kind, "application/x-www-form-urlencoded") then FormContent(c.parseForm(body.value))
    else TextContent(body.value)
  }

  function NormalBody(x: Content): Option<Value> {
    match x
    case Nothing => None
    case JsonContent(v) => Some(Sanitize(SortKeys(v), None))
    case FormContent(entries) => Some(FormBody(entries))
    case TextContent(text) => Some(Str(text))
  }

  method NormalizeRecordedBody(c: Codec, body: Option<string>, contentType: Option<string>) returns (r: Option<Value>)
    ensures r == NormalBody(ContentOf(c, body, contentType))
  {
    if body.None? || body.value == "" { return None; }
    var normalizedContentType := if contentType.Some? then Lower(contentType.value) else "";
    if Contains(normalizedContentType, "application/json") {
      var parsed := c.parseJson(body.value);
      if parsed.None? { return Some(Str(SanitizeScalar(body.value, None))); }
      var sanitized := SanitizeJsonValue(SortKeys(parsed.value), None);
      return Some(sanitized);
    }
    if Contains(normalizedContentType, "application/x-www-form-urlencoded") {
      var normalized := NormalizeForm(c.parseForm(body.value));
      return Some(normalized);
    }
    r := Some(Str(SanitizeScalar(body.value, None)));
  }

  method NormalizeRecordedUrl(c: Codec, url: Url) returns (r: string)
    ensures r == c.href(url.base, Sort(EntryLeq, url.query))
  {
    var entries := Sort(EntryLeq, url.query);
    var search: seq<Entry> := [];
    for i := 0 to |entries|
      invariant search == entries[..i]
    {
      search := search + [entries[i]];
    }
    assert entries[..|entries|] == entries;
    r := c.href(url.base, search);
  }

  function NormalHeader(e: Entry): Entry { Entry(Lower(e.key), SanitizeScalar(e.value, Some(e.key))) }

  function NormalHeaders(headers: seq<Entry>): seq<Entry> { Map(NormalHeader, Sort(EntryLeq, headers)) }

  function MethodOf(c: Codec, r: Request): string { c.upper(if r.method_.Some? then r.method_.value else "GET") }

  function Normalized(c: Codec, r: Request): Recorded {
    Recorded(NormalBody(ContentOf(c, r.body, r.contentType)), NormalHeaders(r.headers), MethodOf(c, r),
             c.href(r.url.base, Sort(EntryLeq, r.url.query)))
  }

  method NormalizeRecordedRequest(c: Codec, r: Request) returns (recorded: Recorded)
    ensures recorded == Normalized(c, r)
  {
    var body := NormalizeRecordedBody(c, r.body, r.contentType);
    var url := NormalizeRecordedUrl(c, r.url);
    var method_ := c.upper(if r.method_.Some? then r.method_.value else "GET");
    recorded := Recorded(body, NormalHeaders(r.headers), method_, url);
  }

  // ---- recordedRequestsEqual ----

  function ComparedBody(body: Option<Value>): Value {
    match body
    case None => Null
    case Some(v) => if v.Arr? || v.Obj? then SortKeys(v) else v
  }

  function Compared(r: Recorded): Value {
    Obj([Member("body", ComparedBody(r.body)), Member("method", Str(r.method_)), Member("url", Str(r.url))])
  }

  predicate RecordedRequestsEqual(left: Recorded, right: Recorded) { Print(Compared(left)) == Print(Compared(right)) }

  // ---- When two requests are the same request ----

  /** The JSON value a body stands for. */
  function Meaning(x: Content): Value {
    match x
    case Nothing => Null
    case JsonContent(v) => v
    case FormContent(entries) => FormBody(entries)
    case TextContent(text) => Str(text)
  }

  /** Forms: the same redacted entries in any order. Otherwise: the same value up to key order and secrets. */
  ghost predicate SameContent(x: Content, y: Content) {
    if x.FormContent? && y.FormContent? then multiset(Map(Redact, x.entries)) == multiset(Map(Redact, y.entries))
    else SameButSecrets(Meaning(x), Meaning(y), None)
  }

  /** Query parameters in any order; fragment and headers do not matter. */
  ghost predicate SameRequest(c: Codec, a: Request, b: Request) {
    && MethodOf(c, a) == MethodOf(c, b)
    && a.url.base == b.url.base && multiset(a.url.query) == multiset(b.url.query)
    && SameContent(ContentOf(c, a.body, a.contentType), ContentOf(c, b.body, b.contentType))
  }

  ghost predicate ContentOk(x: Content) { x.JsonContent? ==> WellFormed(x.v) }

  lemma MeaningOk(x: Content)
    requires ContentOk(x)
    ensures WellFormed(Meaning(x))
  {
    if x.FormContent? { FormBodyNormal(x.entries); }
  }

  /** Sorting and redacting a body once, in the recorder's order, is the normal form of what it means. */
  lemma ComparedIsNormal(x: Content)
    requires ContentOk(x)
    ensures ComparedBody(NormalBody(x)) == SortKeys(Sanitize(Meaning(x), None))
  {
    match x
    case JsonContent(v) =>
      SortSanitizeCommute(v, None);
      SanitizeWellFormed(v, None);
      SortKeysIdempotent(Sanitize(v, None));
    case FormContent(entries) =>
      FormBodyNormal(entries);
      FormBodyRedacted(entries, None);
    case _ =>
  }

  lemma BodiesComparedIff(x: Content, y: Content)
    requires ContentOk(x) && ContentOk(y)
    ensures ComparedBody(NormalBody(x)) == ComparedBody(NormalBody(y)) <==> SameContent(x, y)
  {
    if x.FormContent? && y.FormContent? {
      FormBodyNormal(x.entries);
      FormBodyNormal(y.entries);
      FormBodyDecides(x.entries, y.entries);
    } else {
      var a, b := Meaning(x), Meaning(y);
      ComparedIsNormal(x);
      ComparedIsNormal(y);
      MeaningOk(x);
      MeaningOk(y);
      SanitizeWellFormed(a, None);
      SanitizeWellFormed(b, None);
      SortKeysDecides(Sanitize(a, None), Sanitize(b, None));
      SanitizeDecides(a, b, None);
    }
  }

  lemma ComparedOk(r: Recorded, x: Content)
    requires ContentOk(x) && r.body == NormalBody(x)
    ensures WellFormed(Compared(r))
  {
    ComparedIsNormal(x);
    MeaningOk(x);
    SanitizeWellFormed(Meaning(x), None);
    SortKeysWellFormed(Sanitize(Meaning(x), None));
    var ms := Compared(r).members;
    forall m | m in ms ensures WellFormed(m.value) { }
  }

  lemma ComparedFields(left: Recorded, right: Recorded)
    ensures Compared(left) == Compared(right) <==>
            && ComparedBody(left.body) == ComparedBody(right.body)
            && left.method_ == right.method_ && left.url == right.url
  {
    var l, r := Compared(left).members, Compared(right).members;
    if l == r { assert l[0] == r[0] && l[1] == r[1] && l[2] == r[2]; }
  }

  lemma UrlsComparedIff(c: Codec, a: Url, b: Url)
    requires Sound(c)
    ensures c.href(a.base, Sort(EntryLeq, a.query)) == c.href(b.base, Sort(EntryLeq, b.query))
       <==> a.base == b.base && multiset(a.query) == multiset(b.query)
  {
    EntryOrder();
    SortIsNormalForm(EntryLeq, a.query, b.query);
    var s, t := Sort(EntryLeq, a.query), Sort(EntryLeq, b.query);
    assert c.href(a.base, s) == c.href(b.base, t) <==> a.base == b.base && s == t;
  }

  lemma RecordedComparedIff(l: Recorded, r: Recorded, x: Content, y: Content)
    requires ContentOk(x) && ContentOk(y) && l.body == NormalBody(x) && r.body == NormalBody(y)
    ensures RecordedRequestsEqual(l, r) <==> SameContent(x, y) && l.method_ == r.method_ && l.url == r.url
  {
    ComparedOk(l, x);
    ComparedOk(r, y);
    PrintInjective(Compared(l), Compared(r));
    ComparedFields(l, r);
    BodiesComparedIff(x, y);
  }

  lemma ContentIsOk(c: Codec, body: Option<string>, contentType: Option<string>)
    requires Sound(c)
    ensures ContentOk(ContentOf(c, body, contentType))
  {
  }

  /** `n` is the normal form of a request with this content, URL and method. */
  ghost predicate Normalizes(c: Codec, n: Recorded, x: Content, url: Url, method_: string) {
    n.body == NormalBody(x) && n.url == c.href(url.base, Sort(EntryLeq, url.query)) && n.method_ == method_
  }

  lemma NormalFormsEqualIff(
    c: Codec, l: Recorded, x: Content, urlL: Url, methodL: string, r: Recorded, y: Content, urlR: Url, methodR: string)
    requires Sound(c) && ContentOk(x) && ContentOk(y)
    requires Normalizes(c, l, x, urlL, methodL) && Normalizes(c, r, y, urlR, methodR)
    ensures RecordedRequestsEqual(l, r) <==>
            && methodL == methodR && urlL.base == urlR.base
            && multiset(urlL.query) == multiset(urlR.query) && SameContent(x, y)
  {
    RecordedComparedIff(l, r, x, y);
    UrlsComparedIff(c, urlL, urlR);
  }

  /** recordedRequestsEqual accepts a normalized request for another exactly when they are the same request. */
  lemma RecordedEqualIff(c: Codec, a: Request, b: Request)
    requires Sound(c)
    ensures RecordedRequestsEqual(Normalized(c, a), Normalized(c, b)) <==> SameRequest(c, a, b)
  {
    ContentIsOk(c, a.body, a.contentType);
    ContentIsOk(c, b.body, b.contentType);
    NormalFormsEqualIff(c, Normalized(c, a), ContentOf(c, a.body, a.contentType), a.url, MethodOf(c, a),
                        Normalized(c, b), ContentOf(c, b.body, b.contentType), b.url, MethodOf(c, b));
  }

  // ---- Responses ----

  datatype Response = Response(
    body: string, contentType: Option<string>, headers: seq<Entry>, status: int, statusText: string)

  datatype RecordedResponse = RecordedResponse(body: Value, headers: seq<Entry>, status: int, statusText: string)

  function NormalizedResponse(c: Codec, r: Response): RecordedResponse {
    var body := NormalBody(ContentOf(c, Some(r.body), r.contentType));
    RecordedResponse(if body.Some? then body.value else Null, NormalHeaders(r.headers), r.status, r.statusText)
  }

  /** serializeRecordedBody; None is no body. */
  function SerializedBody(body: Value): Option<string> {
    match body
    case Null => None
    case Str(s) => Some(s)
    case _ => Some(Print(body))
  }

  datatype Reply = Reply(body: Option<string>, headers: seq<Entry>, status: int, statusText: string)

  function ReplyOf(r: RecordedResponse): Reply { Reply(SerializedBody(r.body), r.headers, r.status, r.statusText) }

  /** A replayed JSON body prints the original up to key order and secrets, unless it is a bare string or null, which
      lose their JSON text. */
  lemma ReplayedJson(c: Codec, r: Response, v: Value)
    requires Sound(c) && ContentOf(c, Some(r.body), r.contentType) == JsonContent(v)
    ensures var replayed := Sanitize(SortKeys(v), None);
            && Same(Sanitize(v, None), replayed)
            && (ReplyOf(NormalizedResponse(c, r)).body == Some(Print(replayed)) <==> !v.Null? && !v.Str?)
  {
    SanitizeWellFormed(v, None);
    SortSanitizeCommute(v, None);
    SortKeysSame(Sanitize(v, None));
    if v.Str? { assert |Print(v)| >= |v.s| + 2 by { EscapeLonger(v.s); } }
  }

  lemma {:induction false} EscapeLonger(s: string)
    ensures |Escape(s)| >= |s|
  {
    if s != [] { EscapeLonger(s[1..]); }
  }
}
