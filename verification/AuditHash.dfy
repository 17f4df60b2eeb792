/** The text that computeAuditHash digests (packages/core/audit.ts). */
module AuditHash {
  import opened Json
  import opened Canonical

  /** The seven hashed fields. `before` and `after` are objects or null, `ts` is the ISO 8601 text. */
  datatype Payload = Payload(
    actorId: string, action: string, entityType: string, entityId: string, before: Value, after: Value, ts: string)

  ghost predicate WellFormedPayload(p: Payload) { WellFormed(p.before) && WellFormed(p.after) }

  /** Equal fields, `before` and `after` up to key order. */
  ghost predicate SamePayload(p: Payload, q: Payload) {
    && p.actorId == q.actorId && p.action == q.action && p.entityType == q.entityType && p.entityId == q.entityId
    && Same(p.before, q.before) && Same(p.after, q.after) && p.ts == q.ts
  }

  predicate HasBrace(s: string) { '{' in s }

  function Fields(p: Payload): string { "\"actor_id\":" + (Quote(p.actorId) + FromAction(p)) }

  function FromAction(p: Payload): string { ",\"action\":" + (Quote(p.action) + FromType(p)) }

  function FromType(p: Payload): string { ",\"entity_type\":" + (Quote(p.entityType) + FromId(p)) }

  function FromId(p: Payload): string { ",\"entity_id\":" + (Quote(p.entityId) + Details(p)) }

  function Details(p: Payload): string { ",\"before\":" + (CanonicalJson(p.before) + FromAfter(p)) }

  function FromAfter(p: Payload): string { ",\"after\":" + (CanonicalJson(p.after) + FromTime(p)) }

  function FromTime(p: Payload): string { ",\"ts\":" + (Quote(p.ts) + "}") }

  function PreImage(prevHash: string, p: Payload): string { prevHash + ("{" + Fields(p)) }

  lemma {:induction false} BraceSplits(a: string, b: string, s: string, t: string)
    requires !HasBrace(a) && !HasBrace(b) && a + ("{" + s) == b + ("{" + t)
    ensures a == b && s == t
  {
    var l, r := a + ("{" + s), b + ("{" + t);
    assert l[0] == if a == [] then '{' else a[0];
    assert r[0] == if b == [] then '{' else b[0];
    if a != [] { assert a[0] in a; }
    if b != [] { assert b[0] in b; }
    assert (a == []) == (b == []);
    if a == [] {
      assert l == "{" + s && r == "{" + t;
      CancelPrefix("{", s, t);
    } else {
      assert l[1..] == a[1..] + ("{" + s) && r[1..] == b[1..] + ("{" + t);
      BraceSplits(a[1..], b[1..], s, t);
      assert a == [a[0]] + a[1..] && b == [b[0]] + b[1..];
    }
  }

  lemma QuotedField(prefix: string, a: string, b: string, s: string, t: string)
    requires prefix + (Quote(a) + s) == prefix + (Quote(b) + t)
    ensures a == b && s == t
  {
    CancelPrefix(prefix, Quote(a) + s, Quote(b) + t);
    QuoteSelfDelimiting(a, b, s, t);
  }

  lemma JsonField(prefix: string, a: Value, b: Value, s: string, t: string)
    requires WellFormed(a) && WellFormed(b) && s != [] && t != [] && s[0] == ',' && t[0] == ','
    requires prefix + (CanonicalJson(a) + s) == prefix + (CanonicalJson(b) + t)
    ensures Same(a, b) && s == t
  {
    CancelPrefix(prefix, CanonicalJson(a) + s, CanonicalJson(b) + t);
    CanonicalSelfDelimiting(a, b, s, t);
  }

  lemma FieldsDetermine(p: Payload, q: Payload)
    requires WellFormedPayload(p) && WellFormedPayload(q) && Fields(p) == Fields(q)
    ensures SamePayload(p, q)
  {
    QuotedField("\"actor_id\":", p.actorId, q.actorId, FromAction(p), FromAction(q));
    QuotedField(",\"action\":", p.action, q.action, FromType(p), FromType(q));
    QuotedField(",\"entity_type\":", p.entityType, q.entityType, FromId(p), FromId(q));
    QuotedField(",\"entity_id\":", p.entityId, q.entityId, Details(p), Details(q));
    DetailsDetermine(p, q);
  }

  lemma DetailsDetermine(p: Payload, q: Payload)
    requires WellFormedPayload(p) && WellFormedPayload(q) && Details(p) == Details(q)
    ensures Same(p.before, q.before) && Same(p.after, q.after) && p.ts == q.ts
  {
    JsonField(",\"before\":", p.before, q.before, FromAfter(p), FromAfter(q));
    JsonField(",\"after\":", p.after, q.after, FromTime(p), FromTime(q));
    QuotedField(",\"ts\":", p.ts, q.ts, "}", "}");
  }

  /** The pre-image determines the previous hash and all seven fields, and nothing else enters it. */
  lemma PreImageDetermines(prevA: string, p: Payload, prevB: string, q: Payload)
    requires !HasBrace(prevA) && !HasBrace(prevB) && WellFormedPayload(p) && WellFormedPayload(q)
    ensures PreImage(prevA, p) == PreImage(prevB, q) <==> prevA == prevB && SamePayload(p, q)
  {
    if PreImage(prevA, p) == PreImage(prevB, q) {
      BraceSplits(prevA, prevB, Fields(p), Fields(q));
      FieldsDetermine(p, q);
    }
    CanonicalDecides(p.before, q.before);
    CanonicalDecides(p.after, q.after);
  }

  // ---- The text is the previous hash and a JSON object ----

  /** The payload as object members under these seven keys, `before` and `after` with sorted keys. */
  function PayloadMembers(keys: seq<string>, p: Payload): seq<Member>
    requires |keys| == 7
  {
    [Member(keys[0], Str(p.actorId))] + ([Member(keys[1], Str(p.action))] + ([Member(keys[2], Str(p.entityType))]
    + ([Member(keys[3], Str(p.entityId))] + DetailMembers(keys, p))))
  }

  function DetailMembers(keys: seq<string>, p: Payload): seq<Member>
    requires |keys| == 7
  {
    [Member(keys[4], SortKeys(p.before))] + ([Member(keys[5], SortKeys(p.after))] + ([Member(keys[6], Str(p.ts))] + []))
  }

  predicate Plain(key: string) { forall i | 0 <= i < |key| :: 'a' <= key[i] <= 'z' || key[i] == '_' }

  lemma {:induction false} PlainEscape(key: string)
    requires Plain(key)
    ensures Escape(key) == key
  {
    if key != [] {
      PlainEscape(key[1..]);
      assert EscapeChar(key[0]) == [key[0]];
      assert key == [key[0]] + key[1..];
    }
  }

  function Label(key: string): string { "\"" + key + "\":" }

  /** The members that follow, up to the closing brace. */
  function Rest(ms: seq<Member>): string { CommaTail(PrintMembers(ms)) + "}" }

  lemma PrintedMember(m: Member, text: string)
    requires Plain(m.key)
    ensures (Quote(m.key) + ":" + Print(m.value)) + text == Label(m.key) + (Print(m.value) + text)
  {
    PlainEscape(m.key);
    BracketFirst(Quote(m.key), ":", Print(m.value), text);
  }

  lemma PrintMembersCons(m: Member, ms: seq<Member>)
    ensures PrintMembers([m] + ms) == [Quote(m.key) + ":" + Print(m.value)] + PrintMembers(ms)
  {
    assert ([m] + ms)[1..] == ms;
  }

  lemma RestStep(m: Member, ms: seq<Member>)
    requires Plain(m.key)
    ensures Rest([m] + ms) == "," + (Label(m.key) + (Print(m.value) + Rest(ms)))
  {
    PrintMembersCons(m, ms);
    CommasStep(PrintMembers([m] + ms), "}");
    PrintedMember(m, Rest(ms));
  }

  lemma FirstStep(m: Member, ms: seq<Member>)
    requires Plain(m.key)
    ensures Print(Obj([m] + ms)) == "{" + (Label(m.key) + (Print(m.value) + Rest(ms)))
  {
    PrintMembersCons(m, ms);
    CommasStep(PrintMembers([m] + ms), "}");
    PrintedMember(m, Rest(ms));
    Assoc("{", Commas(PrintMembers([m] + ms)), "}");
  }

  lemma DetailsPrinted(keys: seq<string>, p: Payload)
    requires |keys| == 7 && forall i | 0 <= i < 7 :: Plain(keys[i])
    ensures Rest(DetailMembers(keys, p)) ==
            "," + (Label(keys[4]) + (Print(SortKeys(p.before))
            + ("," + (Label(keys[5]) + (Print(SortKeys(p.after))
            + ("," + (Label(keys[6]) + (Quote(p.ts) + "}"))))))))
  {
    var ts: seq<Member> := [Member(keys[6], Str(p.ts))] + [];
    RestStep(Member(keys[6], Str(p.ts)), []);
    RestStep(Member(keys[5], SortKeys(p.after)), ts);
    RestStep(Member(keys[4], SortKeys(p.before)), [Member(keys[5], SortKeys(p.after))] + ts);
  }

  lemma PayloadPrinted(keys: seq<string>, p: Payload)
    requires |keys| == 7 && forall i | 0 <= i < 7 :: Plain(keys[i])
    ensures Print(Obj(PayloadMembers(keys, p))) ==
            "{" + (Label(keys[0]) + (Quote(p.actorId)
            + ("," + (Label(keys[1]) + (Quote(p.action)
            + ("," + (Label(keys[2]) + (Quote(p.entityType)
            + ("," + (Label(keys[3]) + (Quote(p.entityId) + Rest(DetailMembers(keys, p)))))))))))))
  {
    var id := [Member(keys[3], Str(p.entityId))] + DetailMembers(keys, p);
    var entity := [Member(keys[2], Str(p.entityType))] + id;
    RestStep(Member(keys[3], Str(p.entityId)), DetailMembers(keys, p));
    RestStep(Member(keys[2], Str(p.entityType)), id);
    RestStep(Member(keys[1], Str(p.action)), entity);
    FirstStep(Member(keys[0], Str(p.actorId)), [Member(keys[1], Str(p.action))] + entity);
  }

  const PAYLOAD_KEYS := ["actor_id", "action", "entity_type", "entity_id", "before", "after", "ts"]

  lemma KeysArePlain()
    ensures |PAYLOAD_KEYS| == 7 && forall i | 0 <= i < 7 :: Plain(PAYLOAD_KEYS[i])
  {
  }

  /** The labels as the template spells them. */
  lemma Spelled(key: string, spelled: string, x: string)
    requires spelled == ",\"" + key + "\":"
    ensures "," + (Label(key) + x) == spelled + x
  {
    assert "," + Label(key) == spelled;
    Assoc(",", Label(key), x);
  }

  lemma TimeSpelled(p: Payload)
    ensures "," + (Label("ts") + (Quote(p.ts) + "}")) == FromTime(p)
  {
    Spelled("ts", ",\"ts\":", Quote(p.ts) + "}");
  }

  lemma AfterSpelled(p: Payload)
    ensures "," + (Label("after") + (CanonicalJson(p.after) + FromTime(p))) == FromAfter(p)
  {
    Spelled("after", ",\"after\":", CanonicalJson(p.after) + FromTime(p));
  }

  lemma BeforeSpelled(p: Payload)
    ensures "," + (Label("before") + (CanonicalJson(p.before) + FromAfter(p))) == Details(p)
  {
    Spelled("before", ",\"before\":", CanonicalJson(p.before) + FromAfter(p));
  }

  lemma DetailsPrintedAs(keys: seq<string>, p: Payload, time: string, after: string)
    requires |keys| == 7 && WellFormedPayload(p) && forall i | 0 <= i < 7 :: Plain(keys[i])
    requires time == "," + (Label(keys[6]) + (Quote(p.ts) + "}"))
    requires after == "," + (Label(keys[5]) + (CanonicalJson(p.after) + time))
    ensures Rest(DetailMembers(keys, p)) == "," + (Label(keys[4]) + (CanonicalJson(p.before) + after))
  {
    DetailsPrinted(keys, p);
    CanonicalIsSortedPrint(p.before);
    CanonicalIsSortedPrint(p.after);
  }

  lemma DetailsSpelled(p: Payload)
    requires WellFormedPayload(p)
    ensures Rest(DetailMembers(PAYLOAD_KEYS, p)) == Details(p)
  {
    KeysArePlain();
    TimeSpelled(p);
    AfterSpelled(p);
    BeforeSpelled(p);
    DetailsPrintedAs(PAYLOAD_KEYS, p, FromTime(p), FromAfter(p));
  }

  lemma IdSpelled(p: Payload)
    ensures "," + (Label("entity_id") + (Quote(p.entityId) + Details(p))) == FromId(p)
  {
    Spelled("entity_id", ",\"entity_id\":", Quote(p.entityId) + Details(p));
  }

  lemma TypeSpelled(p: Payload)
    ensures "," + (Label("entity_type") + (Quote(p.entityType) + FromId(p))) == FromType(p)
  {
    Spelled("entity_type", ",\"entity_type\":", Quote(p.entityType) + FromId(p));
  }

  lemma ActionSpelled(p: Payload)
    ensures "," + (Label("action") + (Quote(p.action) + FromType(p))) == FromAction(p)
    ensures Label("actor_id") == "\"actor_id\":"
  {
    Spelled("action", ",\"action\":", Quote(p.action) + FromType(p));
  }

  lemma PayloadPrintedAs(keys: seq<string>, p: Payload, details: string, id: string, type_: string, action: string)
    requires |keys| == 7 && forall i | 0 <= i < 7 :: Plain(keys[i])
    requires details == Rest(DetailMembers(keys, p)) && id == "," + (Label(keys[3]) + (Quote(p.entityId) + details))
    requires type_ == "," + (Label(keys[2]) + (Quote(p.entityType) + id))
    requires action == "," + (Label(keys[1]) + (Quote(p.action) + type_))
    ensures Print(Obj(PayloadMembers(keys, p))) == "{" + (Label(keys[0]) + (Quote(p.actorId) + action))
  {
    PayloadPrinted(keys, p);
  }

  /** The digested text is the previous hash followed by JSON.stringify of the payload object, its fields in this
      order. */
  lemma PreImageIsJson(prevHash: string, p: Payload)
    requires WellFormedPayload(p)
    ensures PreImage(prevHash, p) == prevHash + Print(Obj(PayloadMembers(PAYLOAD_KEYS, p)))
  {
    KeysArePlain();
    DetailsSpelled(p);
    IdSpelled(p);
    TypeSpelled(p);
    ActionSpelled(p);
    PayloadPrintedAs(PAYLOAD_KEYS, p, Details(p), FromId(p), FromType(p), FromAction(p));
  }
}
