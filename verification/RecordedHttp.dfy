/** Normal forms, redaction and comparison of recorded cloud requests (scripts/gcp/common.ts). */
module RecordedHttp {
  import opened Sorting
  import opened Json
  import opened Canonical
  import opened Options
  import Sql = SqlSplitter

  // ---- sanitizeScalarValue ----

  function Lower(s: string): (r: string)
    ensures |r| == |s|
  {
    if s == [] then [] else [if 'A' <= s[0] <= 'Z' then s[0] + 32 as char else s[0]] + Lower(s[1..])
  }

  /** What a string under this key is replaced by. */
  function Placeholder(key: string): Option<string> {
    var k := Lower(Sql.Trim(key));
    if k == "authorization" then Some("<redacted-authorization>")
    else if k == "assertion" then Some("<redacted-jwt>")
    else if k == "access_token" then Some("<redacted-access-token>")
    else if k == "refresh_token" then Some("<redacted-refresh-token>")
    else if k == "client_secret" then Some("<redacted-client-secret>")
    else if k == "private_key" then Some("<redacted-private-key>")
    else if k == "password" then Some("<redacted-password>")
    else if k == "ipaddress" || k == "natip" then Some("<redacted-ip>")
    else if k == "client_email" then Some("<redacted-email>")
    else None
  }

  predicate Secret(key: Option<string>) { key.Some? && Placeholder(key.value).Some? }

  function SanitizeScalar(value: string, key: Option<string>): string {
    if Secret(key) then Placeholder(key.value).value else value
  }

  // ---- sanitizeJsonValue: array elements inherit the key, members have their own ----

  function Sanitize(v: Value, key: Option<string>): Value {
    match v
    case Str(s) => Str(SanitizeScalar(s, key))
    case Arr(items) => Arr(SanitizeItems(items, key))
    case Obj(ms) => Obj(SanitizeMembers(ms))
    case _ => v
  }

  function SanitizeItems(items: seq<Value>, key: Option<string>): (r: seq<Value>)
    ensures |r| == |items| && forall i | 0 <= i < |r| :: r[i] == Sanitize(items[i], key)
  {
    if items == [] then [] else [Sanitize(items[0], key)] + SanitizeItems(items[1..], key)
  }

  function SanitizeMembers(ms: seq<Member>): (r: seq<Member>)
    ensures |r| == |ms| && forall i | 0 <= i < |r| :: r[i] == Member(ms[i].key, Sanitize(ms[i].value, Some(ms[i].key)))
  {
    if ms == [] then [] else [Member(ms[0].key, Sanitize(ms[0].value, Some(ms[0].key)))] + SanitizeMembers(ms[1..])
  }

  method SanitizeJsonValue(value: Value, key: Option<string>) returns (r: Value)
    ensures r == Sanitize(value, key)
    decreases value
  {
    match value
    case Arr(items) =>
      var sanitized := [];
      for i := 0 to |items|
        invariant |sanitized| == i && forall j | 0 <= j < i :: sanitized[j] == Sanitize(items[j], key)
      {
        var entry := SanitizeJsonValue(items[i], key);
        sanitized := sanitized + [entry];
      }
      r := Arr(sanitized);
    case Obj(ms) =>
      var sanitized := [];
      for i := 0 to |ms|
        invariant |sanitized| == i
        invariant forall j | 0 <= j < i :: sanitized[j] == Member(ms[j].key, Sanitize(ms[j].value, Some(ms[j].key)))
      {
        var entry := SanitizeJsonValue(ms[i].value, Some(ms[i].key));
        sanitized := sanitized + [Member(ms[i].key, entry)];
      }
      r := Obj(sanitized);
    case Str(s) => r := Str(SanitizeScalar(s, key));
    case _ => r := value;
  }

  /** Equal but for key order and for the strings under secret keys. */
  ghost predicate SameButSecrets(a: Value, b: Value, key: Option<string>) {
    match a
    case Str(s) => b.Str? && (Secret(key) || s == b.s)
    case Arr(xs) => b.Arr? && |xs| == |b.items| && forall i | 0 <= i < |xs| :: SameButSecrets(xs[i], b.items[i], key)
    case Obj(ms) =>
      && b.Obj?
      && (forall k :: k in Keys(ms) <==> k in Keys(b.members))
      && (forall k | k in Keys(ms) :: SameButSecrets(Find(ms, k), Find(b.members, k), Some(k)))
    case _ => a == b
  }

  lemma SanitizedKeys(ms: seq<Member>)
    ensures Keys(SanitizeMembers(ms)) == Keys(ms)
    ensures DistinctKeys(ms) ==> DistinctKeys(SanitizeMembers(ms))
  {
  }

  lemma {:induction false} FindSanitized(ms: seq<Member>, k: string)
    requires DistinctKeys(ms) && k in Keys(ms)
    ensures k in Keys(SanitizeMembers(ms)) && Find(SanitizeMembers(ms), k) == Sanitize(Find(ms, k), Some(k))
  {
    SanitizedKeys(ms);
    var i :| 0 <= i < |Keys(ms)| && Keys(ms)[i] == k;
    FindMember(ms, ms[i]);
    FindMember(SanitizeMembers(ms), SanitizeMembers(ms)[i]);
  }

  lemma {:induction false} SanitizeWellFormed(v: Value, key: Option<string>)
    requires WellFormed(v)
    ensures WellFormed(Sanitize(v, key))
  {
    match v
    case Arr(items) =>
      forall i | 0 <= i < |items| ensures WellFormed(Sanitize(items[i], key)) { SanitizeWellFormed(items[i], key); }
    case Obj(ms) =>
      SanitizedKeys(ms);
      forall i | 0 <= i < |ms| ensures WellFormed(Sanitize(ms[i].value, Some(ms[i].key))) {
        SanitizeWellFormed(ms[i].value, Some(ms[i].key));
      }
    case _ =>
  }

  ghost predicate Decided(a: Value, b: Value, key: Option<string>) {
    Same(Sanitize(a, key), Sanitize(b, key)) <==> SameButSecrets(a, b, key)
  }

  lemma ArraysDecided(xs: seq<Value>, ys: seq<Value>, key: Option<string>)
    requires |xs| == |ys| && forall i | 0 <= i < |xs| :: Decided(xs[i], ys[i], key)
    ensures Decided(Arr(xs), Arr(ys), key)
  {
    var l, r := SanitizeItems(xs, key), SanitizeItems(ys, key);
    forall i | 0 <= i < |xs| ensures Same(l[i], r[i]) <==> SameButSecrets(xs[i], ys[i], key) {
      assert Decided(xs[i], ys[i], key);
    }
  }

  lemma FieldDecided(ms: seq<Member>, ns: seq<Member>, k: string)
    requires DistinctKeys(ms) && DistinctKeys(ns) && k in Keys(ms) && k in Keys(ns)
    requires Decided(Find(ms, k), Find(ns, k), Some(k))
    ensures k in Keys(SanitizeMembers(ms)) && k in Keys(SanitizeMembers(ns))
    ensures Same(Find(SanitizeMembers(ms), k), Find(SanitizeMembers(ns), k))
            <==> SameButSecrets(Find(ms, k), Find(ns, k), Some(k))
  {
    FindSanitized(ms, k);
    FindSanitized(ns, k);
  }

  ghost predicate FieldsDecided(ms: seq<Member>, ns: seq<Member>) {
    forall k | k in Keys(ms) && k in Keys(ns) :: Decided(Find(ms, k), Find(ns, k), Some(k))
  }

  lemma SameAfterRedaction(a: Value, b: Value, key: Option<string>)
    requires a.Obj? && b.Obj? && DistinctKeys(a.members) && DistinctKeys(b.members)
    requires FieldsDecided(a.members, b.members)
    requires SameButSecrets(a, b, key)
    ensures Same(Sanitize(a, key), Sanitize(b, key))
  {
    var ms, ns := a.members, b.members;
    var l, r := SanitizeMembers(ms), SanitizeMembers(ns);
    assert Keys(l) == Keys(ms) && Keys(r) == Keys(ns) by { SanitizedKeys(ms); SanitizedKeys(ns); }
    forall k | k in Keys(l) ensures k in Keys(r) && Same(Find(l, k), Find(r, k)) {
      assert Decided(Find(ms, k), Find(ns, k), Some(k));
      FieldDecided(ms, ns, k);
    }
  }

  lemma SameBeforeRedaction(a: Value, b: Value, key: Option<string>)
    requires a.Obj? && b.Obj? && DistinctKeys(a.members) && DistinctKeys(b.members)
    requires FieldsDecided(a.members, b.members)
    requires Same(Sanitize(a, key), Sanitize(b, key))
    ensures SameButSecrets(a, b, key)
  {
    var ms, ns := a.members, b.members;
    var l, r := SanitizeMembers(ms), SanitizeMembers(ns);
    assert Keys(l) == Keys(ms) && Keys(r) == Keys(ns) by { SanitizedKeys(ms); SanitizedKeys(ns); }
    assert Sanitize(a, key) == Obj(l) && Sanitize(b, key) == Obj(r);
    forall k | k in Keys(ms) ensures k in Keys(ns) && SameButSecrets(Find(ms, k), Find(ns, k), Some(k)) {
      assert k in Keys(l) && k in Keys(r);
      assert Same(Find(l, k), Find(r, k));
      assert Decided(Find(ms, k), Find(ns, k), Some(k));
      FieldDecided(ms, ns, k);
    }
  }

  /** Redaction removes exactly the strings under secret keys. */
  lemma {:induction false} SanitizeDecides(a: Value, b: Value, key: Option<string>)
    requires WellFormed(a) && WellFormed(b)
    ensures Same(Sanitize(a, key), Sanitize(b, key)) <==> SameButSecrets(a, b, key)
    decreases a
  {
    if a.Arr? && b.Arr? && |a.items| == |b.items| {
      forall i | 0 <= i < |a.items| ensures Decided(a.items[i], b.items[i], key) {
        SanitizeDecides(a.items[i], b.items[i], key);
      }
      ArraysDecided(a.items, b.items, key);
    } else if a.Obj? && b.Obj? {
      forall k | k in Keys(a.members) && k in Keys(b.members)
        ensures Decided(Find(a.members, k), Find(b.members, k), Some(k))
      {
        assert Member(k, Find(a.members, k)) in a.members && Member(k, Find(b.members, k)) in b.members;
        SanitizeDecides(Find(a.members, k), Find(b.members, k), Some(k));
      }
      if SameButSecrets(a, b, key) { SameAfterRedaction(a, b, key); }
      if Same(Sanitize(a, key), Sanitize(b, key)) { SameBeforeRedaction(a, b, key); }
    }
  }

  /** Redacting twice is redacting once. */
  lemma {:induction false} SanitizeIdempotent(v: Value, key: Option<string>)
    ensures Sanitize(Sanitize(v, key), key) == Sanitize(v, key)
  {
    match v
    case Arr(items) =>
      var once := SanitizeItems(items, key);
      forall i | 0 <= i < |items| ensures Sanitize(once[i], key) == once[i] { SanitizeIdempotent(items[i], key); }
      assert SanitizeItems(once, key) == once;
    case Obj(ms) =>
      var once := SanitizeMembers(ms);
      forall i | 0 <= i < |ms| ensures Sanitize(once[i].value, Some(once[i].key)) == once[i].value {
        SanitizeIdempotent(ms[i].value, Some(ms[i].key));
      }
      assert SanitizeMembers(once) == once;
    case _ =>
  }

  function SanitizeMember(m: Member): Member { Member(m.key, Sanitize(m.value, Some(m.key))) }

  lemma SortedSanitized(ms: seq<Member>)
    ensures Sort(KeyLeq, SanitizeMembers(ms)) == SanitizeMembers(Sort(KeyLeq, ms))
  {
    assert SanitizeMembers(ms) == Map(SanitizeMember, ms);
    assert SanitizeMembers(Sort(KeyLeq, ms)) == Map(SanitizeMember, Sort(KeyLeq, ms));
    SortMap(KeyLeq, KeyLeq, SanitizeMember, ms);
  }

  ghost predicate Commutes(v: Value, key: Option<string>) { SortKeys(Sanitize(v, key)) == Sanitize(SortKeys(v), key) }

  lemma CommutesAt(ms: seq<Member>, i: nat)
    requires i < |ms| && var m := Sort(KeyLeq, ms)[i]; Commutes(m.value, Some(m.key))
    ensures SortKeys(Obj(SanitizeMembers(ms))).members[i] == SanitizeMembers(SortKeys(Obj(ms)).members)[i]
  {
    SortKeysAt(ms, i);
    SortKeysAt(SanitizeMembers(ms), i);
    SortedSanitized(ms);
  }

  lemma ArrayCommutes(items: seq<Value>, key: Option<string>)
    requires forall i | 0 <= i < |items| :: Commutes(items[i], key)
    ensures Commutes(Arr(items), key)
  {
    var l, r := SortKeys(Sanitize(Arr(items), key)).items, Sanitize(SortKeys(Arr(items)), key).items;
    forall i | 0 <= i < |items| ensures l[i] == r[i] { assert Commutes(items[i], key); }
    assert l == r;
  }

  /** Sorting keys and redacting commute. */
  lemma {:induction false} SortSanitizeCommute(v: Value, key: Option<string>)
    ensures SortKeys(Sanitize(v, key)) == Sanitize(SortKeys(v), key)
    decreases v
  {
    match v
    case Arr(items) =>
      forall i | 0 <= i < |items| ensures Commutes(items[i], key) { SortSanitizeCommute(items[i], key); }
      ArrayCommutes(items, key);
    case Obj(ms) =>
      var l, r := SortKeys(Sanitize(v, key)).members, Sanitize(SortKeys(v), key).members;
      assert |l| == |r| == |ms|;
      forall i | 0 <= i < |ms| ensures l[i] == r[i] {
        var m := Sort(KeyLeq, ms)[i];
        MemberOfPermutation(ms, Sort(KeyLeq, ms), m);
        SortSanitizeCommute(m.value, Some(m.key));
        CommutesAt(ms, i);
      }
      assert l == r;
    case _ =>
  }
}
