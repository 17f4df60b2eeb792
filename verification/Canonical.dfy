/** Equality of JSON values up to key order, and the two normal forms the repository computes for it:
    the sorted value (scripts/gcp/common.ts) and the canonical text (packages/core/audit.ts). */
module Canonical {
  import opened Sorting
  import opened Json
  import Text

  // ---- The reference relation ----

  function Find(ms: seq<Member>, key: string): (v: Value)
    requires key in Keys(ms)
    ensures Member(key, v) in ms
  {
    if ms[0].key == key then ms[0].value
    else
      assert exists i | 1 <= i < |ms| :: ms[i].key == key by {
        var i :| 0 <= i < |Keys(ms)| && Keys(ms)[i] == key;
        assert i >= 1;
      }
      assert key in Keys(ms[1..]) by {
        var i :| 1 <= i < |ms| && ms[i].key == key;
        assert Keys(ms[1..])[i - 1] == key;
      }
      Find(ms[1..], key)
  }

  lemma FindMember(ms: seq<Member>, m: Member)
    requires m in ms && DistinctKeys(ms)
    ensures m.key in Keys(ms) && Find(ms, m.key) == m.value
  {
    var i :| 0 <= i < |ms| && ms[i] == m;
    assert Keys(ms)[i] == m.key;
    var j :| 0 <= j < |ms| && ms[j] == Member(m.key, Find(ms, m.key));
    assert i == j;
  }

  /** Equal but for the order of object members, at every depth. */
  ghost predicate Same(a: Value, b: Value) {
    match a
    case Arr(xs) => b.Arr? && |xs| == |b.items| && forall i | 0 <= i < |xs| :: Same(xs[i], b.items[i])
    case Obj(ms) =>
      && b.Obj?
      && (forall k :: k in Keys(ms) <==> k in Keys(b.members))
      && (forall k | k in Keys(ms) :: Same(Find(ms, k), Find(b.members, k)))
    case _ => a == b
  }

  // ---- sortJsonValue ----

  predicate KeyLeq(a: Member, b: Member) { Text.Leq(a.key, b.key) }

  function SortKeys(v: Value): Value {
    match v
    case Arr(items) => Arr(seq(|items|, i requires 0 <= i < |items| => SortKeys(items[i])))
    case Obj(ms) =>
      var s := Sort(KeyLeq, ms);
      assert forall i | 0 <= i < |s| :: s[i].value < v by {
        forall i | 0 <= i < |s| ensures s[i].value < v { MemberOfPermutation(ms, s, s[i]); }
      }
      Obj(seq(|s|, i requires 0 <= i < |s| => Member(s[i].key, SortKeys(s[i].value))))
    case _ => v
  }

  lemma KeyOrder(ms: seq<Member>)
    ensures Order(KeyLeq)
    ensures Keys(Sort(KeyLeq, ms)) == Sort(Text.Leq, Keys(ms))
    ensures DistinctKeys(ms) ==> Distinguishes(KeyLeq, ms)
  {
    Text.Linear();
    forall a, b ensures KeyLeq(a, b) || KeyLeq(b, a) { assert Text.Leq(a.key, b.key) || Text.Leq(b.key, a.key); }
    forall a, b, c | KeyLeq(a, b) && KeyLeq(b, c)
      ensures KeyLeq(a, c)
    {
      assert Text.Leq(a.key, b.key) && Text.Leq(b.key, c.key);
    }
    SortMap(KeyLeq, Text.Leq, KeyOf, ms);
    if DistinctKeys(ms) {
      forall a, b | a in ms && b in ms && KeyLeq(a, b) && KeyLeq(b, a) ensures a == b {
        Text.LeqTotal(a.key, b.key);
        FindMember(ms, a);
        FindMember(ms, b);
      }
    }
  }

  /** Distinct keys sort to distinct keys, over the same set of members. */
  lemma SortedMembers(ms: seq<Member>)
    ensures var s := Sort(KeyLeq, ms);
            && (forall m :: m in s <==> m in ms)
            && (forall k :: k in Keys(s) <==> k in Keys(ms))
            && (DistinctKeys(ms) ==> DistinctKeys(s))
  {
    var s := Sort(KeyLeq, ms);
    KeyOrder(ms);
    forall m ensures m in s <==> m in ms { MemberOfPermutation(s, ms, m); }
    forall k ensures k in Keys(s) <==> k in Keys(ms) { MemberOfPermutation(Keys(s), Keys(ms), k); }
    if DistinctKeys(ms) {
      DistinctIsSet(Keys(ms));
      assert multiset(Keys(s)) == multiset(Keys(ms));
      SetIsDistinct(Keys(s));
      forall i, j | 0 <= i < j < |s| ensures s[i].key != s[j].key { assert Keys(s)[i] != Keys(s)[j]; }
    }
  }

  lemma SetIsDistinct(ks: seq<string>)
    requires forall k :: multiset(ks)[k] <= 1
    ensures forall i, j | 0 <= i < j < |ks| :: ks[i] != ks[j]
  {
    forall i, j | 0 <= i < j < |ks| ensures ks[i] != ks[j] {
      Repeats(ks, i, j);
    }
  }

  /** A sequence without repeats holds each element once. */
  lemma {:induction false} DistinctIsSet(ks: seq<string>)
    requires forall i, j | 0 <= i < j < |ks| :: ks[i] != ks[j]
    ensures forall k :: multiset(ks)[k] <= 1
  {
    if ks != [] {
      DistinctIsSet(ks[1..]);
      assert ks == [ks[0]] + ks[1..];
      assert ks[0] !in ks[1..];
    }
  }

  lemma {:induction false} SortKeysWellFormed(v: Value)
    requires WellFormed(v)
    ensures WellFormed(SortKeys(v))
    decreases v
  {
    match v
    case Arr(items) =>
      forall i | 0 <= i < |items| ensures WellFormed(SortKeys(items[i])) { SortKeysWellFormed(items[i]); }
    case Obj(ms) =>
      SortedMembers(ms);
      var s := Sort(KeyLeq, ms);
      forall i | 0 <= i < |s| ensures WellFormed(SortKeys(s[i].value)) {
        assert s[i] in ms;
        SortKeysWellFormed(s[i].value);
      }
    case _ =>
  }

  /** Two sequences without repeats over the same elements sort alike. */
  lemma SameKeysSortAlike(ms: seq<Member>, ns: seq<Member>)
    requires DistinctKeys(ms) && DistinctKeys(ns)
    requires forall k :: k in Keys(ms) <==> k in Keys(ns)
    ensures Keys(Sort(KeyLeq, ms)) == Keys(Sort(KeyLeq, ns))
  {
    DistinctIsSet(Keys(ms));
    DistinctIsSet(Keys(ns));
    assert multiset(Keys(ms)) == multiset(Keys(ns)) by {
      forall k ensures multiset(Keys(ms))[k] == multiset(Keys(ns))[k] {
        assert k in multiset(Keys(ms)) <==> k in Keys(ms);
        assert k in multiset(Keys(ns)) <==> k in Keys(ns);
      }
    }
    Text.Linear();
    KeyOrder(ms);
    KeyOrder(ns);
    SortIsNormalForm(Text.Leq, Keys(ms), Keys(ns));
  }

  /** Sorting keys at every depth is a normal form for equality up to key order. */
  lemma {:induction false} SortKeysDecides(a: Value, b: Value)
    requires WellFormed(a) && WellFormed(b)
    ensures SortKeys(a) == SortKeys(b) <==> Same(a, b)
    decreases a
  {
    match a
    case Arr(xs) =>
      if b.Arr? { assert |SortKeys(a).items| == |xs| && |SortKeys(b).items| == |b.items|; }
      if b.Arr? && |xs| == |b.items| {
        forall i | 0 <= i < |xs| ensures SortKeys(xs[i]) == SortKeys(b.items[i]) <==> Same(xs[i], b.items[i]) {
          SortKeysDecides(xs[i], b.items[i]);
        }
        var s, t := SortKeys(a).items, SortKeys(b).items;
        assert forall i | 0 <= i < |xs| :: s[i] == SortKeys(xs[i]) && t[i] == SortKeys(b.items[i]);
        if Same(a, b) { assert s == t; }
        if s == t { forall i | 0 <= i < |xs| ensures Same(xs[i], b.items[i]) { assert s[i] == t[i]; } }
      }
    case Obj(ms) =>
      if b.Obj? {
        forall m, n | m in ms && n in b.members
          ensures SortKeys(m.value) == SortKeys(n.value) <==> Same(m.value, n.value)
        {
          SortKeysDecides(m.value, n.value);
        }
        if Same(a, b) { SameObjectsSortAlike(a, b); }
        if SortKeys(a) == SortKeys(b) { SortedAlikeIsSame(a, b); }
      }
    case _ =>
  }

  ghost predicate ValuesDecided(ms: seq<Member>, ns: seq<Member>) {
    forall m, n | m in ms && n in ns :: SortKeys(m.value) == SortKeys(n.value) <==> Same(m.value, n.value)
  }

  lemma SameObjectsSortAlike(a: Value, b: Value)
    requires a.Obj? && b.Obj? && WellFormed(a) && WellFormed(b)
    requires ValuesDecided(a.members, b.members)
    requires Same(a, b)
    ensures SortKeys(a) == SortKeys(b)
  {
    var ms, ns := a.members, b.members;
    var s, t := Sort(KeyLeq, ms), Sort(KeyLeq, ns);
    SameKeysSortAlike(ms, ns);
    assert |Keys(s)| == |Keys(t)|;
    SortedMembers(ms);
    SortedMembers(ns);
    forall i | 0 <= i < |s| ensures SortKeys(a).members[i] == SortKeys(b).members[i] {
      assert Keys(s)[i] == Keys(t)[i];
      assert s[i] in ms && t[i] in ns;
      FindMember(ms, s[i]);
      FindMember(ns, t[i]);
      assert Same(Find(ms, s[i].key), Find(ns, s[i].key));
    }
    assert SortKeys(a).members == SortKeys(b).members;
  }

  lemma SortedAlikeIsSame(a: Value, b: Value)
    requires a.Obj? && b.Obj? && WellFormed(a) && WellFormed(b)
    requires ValuesDecided(a.members, b.members)
    requires SortKeys(a) == SortKeys(b)
    ensures Same(a, b)
  {
    var ms, ns := a.members, b.members;
    SortedAlike(a, b);
    forall k | k in Keys(ms) ensures Same(Find(ms, k), Find(ns, k)) {
      var i := SortedPosition(ms, k);
      var m, n := Sort(KeyLeq, ms)[i], Sort(KeyLeq, ns)[i];
      assert m in ms && n in ns by { SortedMembers(ms); SortedMembers(ns); }
      FindMember(ms, m);
      FindMember(ns, n);
    }
  }

  /** Sorted objects that agree have the same keys, and the same value at each. */
  lemma SortedAlike(a: Value, b: Value)
    requires a.Obj? && b.Obj? && SortKeys(a) == SortKeys(b)
    ensures forall k :: k in Keys(a.members) <==> k in Keys(b.members)
    ensures var s, t := Sort(KeyLeq, a.members), Sort(KeyLeq, b.members);
            && |s| == |t|
            && forall i | 0 <= i < |s| :: s[i].key == t[i].key && SortKeys(s[i].value) == SortKeys(t[i].value)
  {
    var s, t := Sort(KeyLeq, a.members), Sort(KeyLeq, b.members);
    var u, w := SortKeys(a).members, SortKeys(b).members;
    assert |s| == |u| == |w| == |t|;
    forall i | 0 <= i < |s|
      ensures s[i].key == t[i].key && SortKeys(s[i].value) == SortKeys(t[i].value)
    {
      assert u[i] == w[i];
    }
    SameSortedKeys(a.members, b.members);
  }

  lemma SameSortedKeys(ms: seq<Member>, ns: seq<Member>)
    requires var s, t := Sort(KeyLeq, ms), Sort(KeyLeq, ns);
             |s| == |t| && forall i | 0 <= i < |s| :: s[i].key == t[i].key
    ensures forall k :: k in Keys(ms) <==> k in Keys(ns)
  {
    var s, t := Sort(KeyLeq, ms), Sort(KeyLeq, ns);
    assert Keys(s) == Keys(t);
    SortedMembers(ms);
    SortedMembers(ns);
  }

  lemma SortedPosition(ms: seq<Member>, k: string) returns (i: nat)
    requires k in Keys(ms)
    ensures i < |Sort(KeyLeq, ms)| && Sort(KeyLeq, ms)[i].key == k
  {
    SortedMembers(ms);
    var s := Sort(KeyLeq, ms);
    i :| 0 <= i < |Keys(s)| && Keys(s)[i] == k;
  }

  lemma {:induction false} SameReflexive(v: Value)
    ensures Same(v, v)
  {
    match v
    case Arr(items) => forall i | 0 <= i < |items| ensures Same(items[i], items[i]) { SameReflexive(items[i]); }
    case Obj(ms) => forall k | k in Keys(ms) ensures Same(Find(ms, k), Find(ms, k)) { SameReflexive(Find(ms, k)); }
    case _ =>
  }

  /** Sorting the keys changes nothing but key order. */
  lemma {:induction false} SortKeysSame(v: Value)
    requires WellFormed(v)
    ensures Same(v, SortKeys(v))
    decreases v
  {
    match v
    case Arr(items) =>
      forall i | 0 <= i < |items| ensures Same(items[i], SortKeys(items[i])) { SortKeysSame(items[i]); }
    case Obj(ms) =>
      SortedMembers(ms);
      SortKeysWellFormed(v);
      var s, r := Sort(KeyLeq, ms), SortKeys(v).members;
      assert Keys(r) == Keys(s);
      forall k | k in Keys(ms) ensures Same(Find(ms, k), Find(r, k)) {
        var i :| 0 <= i < |Keys(s)| && Keys(s)[i] == k;
        assert s[i] in ms && r[i] in r;
        FindMember(ms, s[i]);
        FindMember(r, r[i]);
        SortKeysSame(s[i].value);
      }
    case _ =>
  }

  /** Every object in `v`, at any depth, has its members in the order of their keys. */
  ghost predicate KeysAscend(v: Value) {
    match v
    case Arr(items) => forall x | x in items :: KeysAscend(x)
    case Obj(ms) =>
      && (forall i, j | 0 <= i < j < |ms| :: Text.Leq(ms[i].key, ms[j].key))
      && (forall m | m in ms :: KeysAscend(m.value))
    case _ => true
  }

  lemma ObjectAscends(ms: seq<Member>)
    requires forall m | m in ms :: KeysAscend(SortKeys(m.value))
    ensures KeysAscend(SortKeys(Obj(ms)))
  {
    var s, r := Sort(KeyLeq, ms), SortKeys(Obj(ms)).members;
    KeyOrder(ms);
    SortSorts(KeyLeq, ms);
    forall i, j | 0 <= i < j < |r| ensures Text.Leq(r[i].key, r[j].key) { assert KeyLeq(s[i], s[j]); }
    forall i | 0 <= i < |r| ensures KeysAscend(r[i].value) { MemberOfPermutation(ms, s, s[i]); }
  }

  lemma {:induction false} SortKeysAscend(v: Value)
    ensures KeysAscend(SortKeys(v))
    decreases v
  {
    match v
    case Arr(items) =>
      forall i | 0 <= i < |items| ensures KeysAscend(SortKeys(items[i])) { SortKeysAscend(items[i]); }
    case Obj(ms) =>
      forall m | m in ms ensures KeysAscend(SortKeys(m.value)) { SortKeysAscend(m.value); }
      ObjectAscends(ms);
    case _ =>
  }

  /** Sorting twice is sorting once. */
  lemma SortKeysIdempotent(v: Value)
    requires WellFormed(v)
    ensures SortKeys(SortKeys(v)) == SortKeys(v)
  {
    SortKeysSame(v);
    SortKeysWellFormed(v);
    SortKeysDecides(v, SortKeys(v));
  }

  // ---- canonicalJson ----

  function CanonicalJson(v: Value): string {
    match v
    case Arr(items) => "[" + Commas(seq(|items|, i requires 0 <= i < |items| => CanonicalJson(items[i]))) + "]"
    case Obj(ms) =>
      var keys := Sort(Text.Leq, Keys(ms));
      assert forall i | 0 <= i < |keys| :: keys[i] in Keys(ms) by {
        forall i | 0 <= i < |keys| ensures keys[i] in Keys(ms) { MemberOfPermutation(Keys(ms), keys, keys[i]); }
      }
      "{" + Commas(CanonicalFields(v, keys)) + "}"
    case _ => Scalar(v)
  }

  function CanonicalFields(v: Value, keys: seq<string>): (r: seq<string>)
    requires v.Obj? && forall i | 0 <= i < |keys| :: keys[i] in Keys(v.members)
    ensures |r| == |keys|
    ensures forall i | 0 <= i < |keys| :: r[i] == Quote(keys[i]) + ":" + CanonicalJson(Find(v.members, keys[i]))
    decreases v, |keys|
  {
    if keys == [] then []
    else
      var value := Find(v.members, keys[0]);
      assert Member(keys[0], value) in v.members;
      [Quote(keys[0]) + ":" + CanonicalJson(value)] + CanonicalFields(v, keys[1..])
  }

  lemma {:induction false} PrintAllAt(items: seq<Value>, i: nat)
    requires i < |items|
    ensures PrintAll(items)[i] == Print(items[i])
  {
    if i > 0 { PrintAllAt(items[1..], i - 1); }
  }

  lemma {:induction false} PrintMembersAt(ms: seq<Member>, i: nat)
    requires i < |ms|
    ensures PrintMembers(ms)[i] == Quote(ms[i].key) + ":" + Print(ms[i].value)
  {
    if i > 0 { PrintMembersAt(ms[1..], i - 1); }
  }

  /** The canonical text is JSON.stringify of the key-sorted value. */
  lemma {:induction false} CanonicalIsSortedPrint(v: Value)
    requires WellFormed(v)
    ensures CanonicalJson(v) == Print(SortKeys(v))
    decreases v
  {
    match v
    case Arr(items) =>
      var r := SortKeys(v).items;
      var texts := seq(|items|, i requires 0 <= i < |items| => CanonicalJson(items[i]));
      forall i | 0 <= i < |items| ensures texts[i] == PrintAll(r)[i] {
        CanonicalIsSortedPrint(items[i]);
        PrintAllAt(r, i);
      }
      assert texts == PrintAll(r);
    case Obj(ms) =>
      forall m | m in ms ensures CanonicalJson(m.value) == Print(SortKeys(m.value)) { CanonicalIsSortedPrint(m.value); }
      CanonicalObject(ms);
    case _ =>
  }

  lemma CanonicalObject(ms: seq<Member>)
    requires DistinctKeys(ms)
    requires forall m | m in ms :: CanonicalJson(m.value) == Print(SortKeys(m.value))
    ensures CanonicalJson(Obj(ms)) == Print(SortKeys(Obj(ms)))
  {
    var v := Obj(ms);
    KeyOrder(ms);
    var r := SortKeys(v).members;
    var keys := Sort(Text.Leq, Keys(ms));
    forall i | 0 <= i < |keys| ensures keys[i] in Keys(ms) { MemberOfPermutation(Keys(ms), keys, keys[i]); }
    var fields := CanonicalFields(v, keys);
    var printed := PrintMembers(r);
    assert |fields| == |keys| == |ms| == |r| == |printed|;
    forall i | 0 <= i < |keys| ensures fields[i] == printed[i] {
      SortedField(ms, i);
      PrintMembersAt(r, i);
    }
    assert fields == printed;
  }

  /** The i-th member of the sorted object, as canonicalJson finds it. */
  lemma SortKeysAt(ms: seq<Member>, i: nat)
    requires i < |ms|
    ensures |SortKeys(Obj(ms)).members| == |ms|
    ensures var m := Sort(KeyLeq, ms)[i]; SortKeys(Obj(ms)).members[i] == Member(m.key, SortKeys(m.value))
  {
  }

  lemma SortedKeyAt(ms: seq<Member>, i: nat)
    requires i < |ms|
    ensures Sort(KeyLeq, ms)[i] in ms && Sort(Text.Leq, Keys(ms))[i] == Sort(KeyLeq, ms)[i].key
  {
    var s := Sort(KeyLeq, ms);
    KeyOrder(ms);
    MemberOfPermutation(ms, s, s[i]);
    assert Keys(s)[i] == s[i].key;
  }

  lemma SortedField(ms: seq<Member>, i: nat)
    requires DistinctKeys(ms) && i < |ms|
    requires forall m | m in ms :: CanonicalJson(m.value) == Print(SortKeys(m.value))
    ensures var key := Sort(Text.Leq, Keys(ms))[i];
            && key in Keys(ms) && SortKeys(Obj(ms)).members[i].key == key
            && CanonicalJson(Find(ms, key)) == Print(SortKeys(Obj(ms)).members[i].value)
  {
    var m := Sort(KeyLeq, ms)[i];
    SortedKeyAt(ms, i);
    FindMember(ms, m);
    SortKeysAt(ms, i);
  }

  /** canonicalJson prints two values alike exactly when they are equal up to key order. */
  lemma CanonicalDecides(a: Value, b: Value)
    requires WellFormed(a) && WellFormed(b)
    ensures CanonicalJson(a) == CanonicalJson(b) <==> Same(a, b)
  {
    CanonicalIsSortedPrint(a);
    CanonicalIsSortedPrint(b);
    SortKeysWellFormed(a);
    SortKeysWellFormed(b);
    PrintInjective(SortKeys(a), SortKeys(b));
    SortKeysDecides(a, b);
  }

  /** ... and what follows a canonical text can be told apart from it. */
  lemma CanonicalSelfDelimiting(a: Value, b: Value, s: string, t: string)
    requires WellFormed(a) && WellFormed(b) && Ends(s) && Ends(t)
    requires CanonicalJson(a) + s == CanonicalJson(b) + t
    ensures Same(a, b) && s == t
  {
    CanonicalIsSortedPrint(a);
    CanonicalIsSortedPrint(b);
    SortKeysWellFormed(a);
    SortKeysWellFormed(b);
    PrintSelfDelimiting(SortKeys(a), SortKeys(b), s, t);
    SortKeysDecides(a, b);
  }
}
