/** What recording stores, told field by field: a literal table of the secret names, and the order, grouping and content
    types spelled out (scripts/gcp/common.ts). */
module RecordedFields {
  import opened Options
  import opened Sorting
  import opened Json
  import opened Canonical
  import opened RecordedHttp
  import opened RecordedForm
  import opened RecordedRequest
  import Sql = SqlSplitter
  import Text

  // ---- Secrets ----

  /** The names whose strings are redacted, and what each is redacted to. */
  const SECRETS: seq<(string, string)> := [
    ("authorization", "<redacted-authorization>"),
    ("assertion", "<redacted-jwt>"),
    ("access_token", "<redacted-access-token>"),
    ("refresh_token", "<redacted-refresh-token>"),
    ("client_secret", "<redacted-client-secret>"),
    ("private_key", "<redacted-private-key>"),
    ("password", "<redacted-password>"),
    ("ipaddress", "<redacted-ip>"),
    ("natip", "<redacted-ip>"),
    ("client_email", "<redacted-email>")]

  const UPPER := "ABCDEFGHIJKLMNOPQRSTUVWXYZ"
  const LOWER := "abcdefghijklmnopqrstuvwxyz"

  /** toLowerCase on ASCII, letter by letter. */
  lemma {:induction false} LowerSpelled(s: string, i: nat)
    requires i < |s|
    ensures forall k | 0 <= k < 26 :: s[i] == UPPER[k] ==> Lower(s)[i] == LOWER[k]
    ensures s[i] !in UPPER ==> Lower(s)[i] == s[i]
  {
    if i > 0 { LowerSpelled(s[1..], i - 1); } else { LowerChar(s[0]); }
  }

  lemma LowerChar(c: char)
    ensures forall k | 0 <= k < 26 :: c == UPPER[k] ==> 'A' <= c <= 'Z' && c + 32 as char == LOWER[k]
    ensures 'A' <= c <= 'Z' ==> c in UPPER
  {
    if 'A' <= c <= 'Z' { assert UPPER[(c - 'A') as int] == c; }
  }

  /** The name a key is looked up by. */
  function NameOf(key: string): string { Lower(Sql.Trim(key)) }

  /** Under this key `stored` replaces `original`: the listed text if its name is in the table, the original
      otherwise. */
  ghost predicate Stores(key: Option<string>, original: string, stored: string) {
    && (key.Some? ==> forall i | 0 <= i < |SECRETS| && NameOf(key.value) == SECRETS[i].0 :: stored == SECRETS[i].1)
    && (key.None? || (forall i | 0 <= i < |SECRETS| :: NameOf(key.value) != SECRETS[i].0) ==> stored == original)
  }

  lemma ListedPlaceholder(key: string, i: nat)
    requires i < |SECRETS| && NameOf(key) == SECRETS[i].0
    ensures Placeholder(key) == Some(SECRETS[i].1)
  {
  }

  lemma UnlistedPlaceholder(key: string)
    requires forall i | 0 <= i < |SECRETS| :: NameOf(key) != SECRETS[i].0
    ensures Placeholder(key) == None
  {
    assert NameOf(key) != SECRETS[0].0 && NameOf(key) != SECRETS[1].0 && NameOf(key) != SECRETS[2].0;
    assert NameOf(key) != SECRETS[3].0 && NameOf(key) != SECRETS[4].0 && NameOf(key) != SECRETS[5].0;
    assert NameOf(key) != SECRETS[6].0 && NameOf(key) != SECRETS[7].0 && NameOf(key) != SECRETS[8].0;
    assert NameOf(key) != SECRETS[9].0;
  }

  /** A string is stored as the table says. */
  lemma ScalarStored(value: string, key: Option<string>)
    ensures Stores(key, value, SanitizeScalar(value, key))
  {
    if key.Some? {
      forall i | 0 <= i < |SECRETS| && NameOf(key.value) == SECRETS[i].0
        ensures SanitizeScalar(value, key) == SECRETS[i].1
      {
        ListedPlaceholder(key.value, i);
      }
      if forall i | 0 <= i < |SECRETS| :: NameOf(key.value) != SECRETS[i].0 { UnlistedPlaceholder(key.value); }
    }
  }

  // ---- Every string of a value ----

  /** The value at this path of positions, and the key in force there: array elements inherit it, members have their
      own. */
  function At(v: Value, path: seq<nat>, key: Option<string>): Option<(Value, Option<string>)>
    decreases |path|
  {
    if path == [] then Some((v, key))
    else
      match v
      case Arr(items) => if path[0] < |items| then At(items[path[0]], path[1..], key) else None
      case Obj(ms) => if path[0] < |ms| then At(ms[path[0]].value, path[1..], Some(ms[path[0]].key)) else None
      case _ => None
  }

  /** One level of a value as it is stored: strings by the table, everything else as it was. */
  ghost predicate StoredAs(v: Value, key: Option<string>, stored: Value) {
    match v
    case Str(s) => stored.Str? && Stores(key, s, stored.s)
    case Arr(items) => stored.Arr? && |stored.items| == |items|
    case Obj(ms) =>
      && stored.Obj? && |stored.members| == |ms|
      && forall i | 0 <= i < |ms| :: stored.members[i].key == ms[i].key
    case _ => stored == v
  }

  lemma LevelStored(v: Value, key: Option<string>)
    ensures StoredAs(v, key, Sanitize(v, key))
  {
    if v.Str? { ScalarStored(v.s, key); }
  }

  /** Anywhere in a sanitized value, each string under a key whose name is in the table is the text listed for it, every
      other string is the original, and nothing else has changed. */
  lemma {:induction false} RedactsExactly(v: Value, key: Option<string>, path: seq<nat>)
    ensures At(v, path, key).None? <==> At(Sanitize(v, key), path, key).None?
    ensures At(v, path, key).Some? ==>
              var (original, k) := At(v, path, key).value;
              var (stored, k') := At(Sanitize(v, key), path, key).value;
              k' == k && StoredAs(original, k, stored)
    decreases |path|
  {
    if path == [] {
      LevelStored(v, key);
    } else {
      match v
      case Arr(items) => if path[0] < |items| { RedactsExactly(items[path[0]], key, path[1..]); }
      case Obj(ms) =>
        if path[0] < |ms| { RedactsExactly(ms[path[0]].value, Some(ms[path[0]].key), path[1..]); }
      case _ =>
    }
  }

  // ---- Entries: order, redaction, grouping ----

  /** Every entry of `form`, by key and then by value. */
  ghost predicate InEntryOrder(es: seq<Entry>, form: seq<Entry>) {
    && multiset(es) == multiset(form)
    && forall i, j | 0 <= i < j < |es| ::
         if es[i].key == es[j].key then Text.Leq(es[i].value, es[j].value) else Text.Leq(es[i].key, es[j].key)
  }

  lemma SortedEntries(form: seq<Entry>)
    ensures InEntryOrder(Sort(EntryLeq, form), form)
  {
    EntryOrder();
    SortSorts(EntryLeq, form);
    var es := Sort(EntryLeq, form);
    forall i, j | 0 <= i < j < |es|
      ensures if es[i].key == es[j].key then Text.Leq(es[i].value, es[j].value) else Text.Leq(es[i].key, es[j].key)
    {
      assert EntryLeq(es[i], es[j]);
    }
  }

  /** The values under `key`, in order. */
  function ValuesOf(es: seq<Entry>, key: string): seq<string> {
    if es == [] then []
    else
      var n := |es| - 1;
      ValuesOf(es[..n], key) + if es[n].key == key then [es[n].value] else []
  }

  function Strings(values: seq<string>): seq<Value> { seq(|values|, i requires 0 <= i < |values| => Str(values[i])) }

  /** No value: no member. One: a string. More: an array of strings. */
  function GroupOf(values: seq<string>): Option<Value> {
    if |values| == 0 then None else if |values| == 1 then Some(Str(values[0])) else Some(Arr(Strings(values)))
  }

  lemma GroupSnoc(values: seq<string>, value: string)
    ensures GroupOf(values + [value]) == Some(Extend(GroupOf(values), value))
  {
    if |values| == 1 {
      assert Strings(values + [value]) == [Str(values[0]), Str(value)];
    } else if |values| > 1 {
      assert Strings(values + [value]) == Strings(values) + [Str(value)];
    }
  }

  lemma {:induction false} GroupedField(es: seq<Entry>, key: string)
    ensures Get(Grouped(es), key) == GroupOf(ValuesOf(es, key))
  {
    if es != [] {
      var n := |es| - 1;
      var before, e := Grouped(es[..n]), es[n];
      GroupedField(es[..n], key);
      GetPut(before, e.key, Extend(Get(before, e.key), e.value), key);
      if e.key == key {
        GroupSnoc(ValuesOf(es[..n], key), e.value);
      } else {
        assert ValuesOf(es, key) == ValuesOf(es[..n], key);
      }
    }
  }

  lemma {:induction false} RedactedValues(es: seq<Entry>, key: string)
    ensures var (vs, stored) := (ValuesOf(es, key), ValuesOf(Map(Redact, es), key));
            |stored| == |vs| && forall i | 0 <= i < |vs| :: Stores(Some(key), vs[i], stored[i])
  {
    if es != [] {
      var n := |es| - 1;
      RedactedValues(es[..n], key);
      ScalarStored(es[n].value, Some(es[n].key));
      assert Map(Redact, es)[..n] == Map(Redact, es[..n]);
    }
  }

  /** What a form body stores under each key: the values of its entries in order, each by the table; a single one as a
      string, several as an array, and nothing under any other key. */
  lemma FormStored(form: seq<Entry>, key: string) returns (es: seq<Entry>, stored: seq<string>)
    ensures InEntryOrder(es, form) && FormBody(form).Obj?
    ensures Get(FormBody(form).members, key) == GroupOf(stored) && |stored| == |ValuesOf(es, key)|
    ensures forall i | 0 <= i < |stored| :: Stores(Some(key), ValuesOf(es, key)[i], stored[i])
  {
    es := Sort(EntryLeq, form);
    SortedEntries(form);
    stored := ValuesOf(Map(Redact, es), key);
    RedactedValues(es, key);
    GroupedField(Map(Redact, es), key);
  }

  /** Headers are stored in order, with lower-case names, each value by the table. */
  lemma HeadersStored(headers: seq<Entry>) returns (es: seq<Entry>)
    ensures InEntryOrder(es, headers) && |NormalHeaders(headers)| == |es|
    ensures forall i | 0 <= i < |es| ::
              var h := NormalHeaders(headers)[i];
              h.key == Lower(es[i].key) && Stores(Some(es[i].key), es[i].value, h.value)
  {
    es := Sort(EntryLeq, headers);
    SortedEntries(headers);
    forall i | 0 <= i < |es| ensures Stores(Some(es[i].key), es[i].value, NormalHeaders(headers)[i].value) {
      ScalarStored(es[i].value, Some(es[i].key));
    }
  }

  // ---- Bodies and requests ----

  ghost predicate Holds(s: string, part: string) { exists before, after :: s == before + (part + after) }

  /** The content type, in lower case, holds this part. */
  ghost predicate Mentions(contentType: Option<string>, part: string) {
    contentType.Some? && Holds(Lower(contentType.value), part)
  }

  lemma {:induction false} ContainsHolds(s: string, part: string)
    requires Contains(s, part)
    ensures Holds(s, part)
  {
    if s[..|part|] == part {
      assert s == "" + (part + s[|part|..]);
    } else {
      ContainsHolds(s[1..], part);
      var before, after :| s[1..] == before + (part + after);
      assert s == ([s[0]] + before) + (part + after);
    }
  }

  lemma {:induction false} HeldIsContained(before: string, part: string, after: string)
    ensures Contains(before + (part + after), part)
  {
    var s := before + (part + after);
    if before == [] {
      assert s == part + after && s[..|part|] == part;
    } else {
      assert s[1..] == before[1..] + (part + after);
      HeldIsContained(before[1..], part, after);
    }
  }

  lemma MentionsIff(contentType: Option<string>, part: string)
    requires part != []
    ensures Mentions(contentType, part) <==>
            Contains(if contentType.Some? then Lower(contentType.value) else "", part)
  {
    if contentType.Some? {
      var kind := Lower(contentType.value);
      if Contains(kind, part) { ContainsHolds(kind, part); }
      if Holds(kind, part) {
        var before, after :| kind == before + (part + after);
        HeldIsContained(before, part, after);
      }
    }
  }

  /** What a body is stored as, by its content type. */
  lemma BodyStored(c: Codec, body: Option<string>, contentType: Option<string>)
    ensures var stored := NormalBody(ContentOf(c, body, contentType));
            && (body == None || body == Some("") ==> stored == None)
            && (body.Some? && body.value != "" ==>
                  if Mentions(contentType, "application/json") then
                    match c.parseJson(body.value)
                    case Some(v) => stored == Some(Sanitize(SortKeys(v), None))
                    case None => stored == Some(Str(body.value))
                  else if Mentions(contentType, "application/x-www-form-urlencoded") then
                    stored == Some(FormBody(c.parseForm(body.value)))
                  else stored == Some(Str(body.value)))
  {
    MentionsIff(contentType, "application/json");
    MentionsIff(contentType, "application/x-www-form-urlencoded");
  }

  /** A request is stored with its method in upper case, GET if it names none, and its URL without fragment and with the
      query entries in order. */
  lemma RequestStored(c: Codec, r: Request) returns (query: seq<Entry>)
    ensures InEntryOrder(query, r.url.query)
    ensures var n := Normalized(c, r);
            && n.url == c.href(r.url.base, query)
            && n.method_ == (match r.method_ case Some(m) => c.upper(m) case None => c.upper("GET"))
            && n.headers == NormalHeaders(r.headers)
            && n.body == NormalBody(ContentOf(c, r.body, r.contentType))
  {
    query := Sort(EntryLeq, r.url.query);
    SortedEntries(r.url.query);
  }

  /** What a replayed response carries: status, status text and stored headers of the recorded one, and its stored body
      as text: none for an empty or null body, a string as it is, and JSON text otherwise. */
  lemma ReplyCarries(c: Codec, r: Response)
    ensures var reply := ReplyOf(NormalizedResponse(c, r));
            && reply.status == r.status && reply.statusText == r.statusText && reply.headers == NormalHeaders(r.headers)
            && match NormalBody(ContentOf(c, Some(r.body), r.contentType))
               case None => reply.body == None
               case Some(Null) => reply.body == None
               case Some(Str(text)) => reply.body == Some(text)
               case Some(v) => reply.body == Some(Print(v))
  {
  }
}
