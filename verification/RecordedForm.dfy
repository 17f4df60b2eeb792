/** Form-encoded bodies as normalizeRecordedBody stores them (scripts/gcp/common.ts): sorted, redacted, grouped by
    name. */
module RecordedForm {
  import opened Options
  import opened Sorting
  import opened Json
  import opened Canonical
  import opened RecordedHttp
  import Text

  datatype Entry = Entry(key: string, value: string)

  /** By key, then by value. */
  predicate EntryLeq(a: Entry, b: Entry) {
    if a.key == b.key then Text.Leq(a.value, b.value) else Text.Leq(a.key, b.key)
  }

  lemma EntryOrder()
    ensures Order(EntryLeq)
    ensures forall xs: seq<Entry> :: Distinguishes(EntryLeq, xs)
  {
    forall a, b ensures (EntryLeq(a, b) || EntryLeq(b, a)) && (EntryLeq(a, b) && EntryLeq(b, a) ==> a == b) {
      Text.LeqTotal(a.key, b.key);
      Text.LeqTotal(a.value, b.value);
    }
    forall a, b, c | EntryLeq(a, b) && EntryLeq(b, c) ensures EntryLeq(a, c) { EntryTransitive(a, b, c); }
  }

  lemma EntryTransitive(a: Entry, b: Entry, c: Entry)
    requires EntryLeq(a, b) && EntryLeq(b, c)
    ensures EntryLeq(a, c)
  {
    if a.key == b.key == c.key {
      Text.LeqTransitive(a.value, b.value, c.value);
    } else if a.key != b.key && b.key != c.key {
      Text.LeqTransitive(a.key, b.key, c.key);
      if a.key == c.key { Text.LeqTotal(a.key, b.key); }
    }
  }

  function Redact(e: Entry): Entry { Entry(e.key, SanitizeScalar(e.value, Some(e.key))) }

  // ---- Grouping: one value is a string, several are an array ----

  function Extend(current: Option<Value>, value: string): Value {
    match current
    case None => Str(value)
    case Some(Arr(items)) => Arr(items + [Str(value)])
    case Some(v) => Arr([v, Str(value)])
  }

  function Grouped(entries: seq<Entry>): seq<Member> {
    if entries == [] then []
    else
      var ms, e := Grouped(entries[..|entries| - 1]), entries[|entries| - 1];
      Put(ms, e.key, Extend(Get(ms, e.key), e.value))
  }

  /** The normalized form body. */
  function FormBody(entries: seq<Entry>): Value { Obj(Grouped(Map(Redact, Sort(EntryLeq, entries)))) }

  lemma GroupedStep(entries: seq<Entry>, i: nat)
    requires i < |entries|
    ensures var ms, e := Grouped(Map(Redact, entries[..i])), Redact(entries[i]);
            Grouped(Map(Redact, entries[..i + 1])) == Put(ms, e.key, Extend(Get(ms, e.key), e.value))
  {
    var more := Map(Redact, entries[..i + 1]);
    assert more[..i] == Map(Redact, entries[..i]);
  }

  /** The loop over the sorted entries. */
  method NormalizeForm(form: seq<Entry>) returns (body: Value)
    ensures body == FormBody(form)
  {
    var entries := Sort(EntryLeq, form);
    var normalized: seq<Member> := [];
    for i := 0 to |entries|
      invariant normalized == Grouped(Map(Redact, entries[..i]))
    {
      GroupedStep(entries, i);
      var key := entries[i].key;
      var sanitizedValue := SanitizeScalar(entries[i].value, Some(key));
      var current := Get(normalized, key);
      if current.None? {
        normalized := Put(normalized, key, Str(sanitizedValue));
      } else if current.value.Arr? {
        normalized := Put(normalized, key, Arr(current.value.items + [Str(sanitizedValue)]));
      } else {
        normalized := Put(normalized, key, Arr([current.value, Str(sanitizedValue)]));
      }
    }
    assert entries[..|entries|] == entries;
    body := Obj(normalized);
  }

  // ---- Nothing is lost: a grouped body holds exactly its entries ----

  function StringOf(v: Value): string { if v.Str? then v.s else "" }

  function EntriesOf(key: string, v: Option<Value>): seq<Entry> {
    match v
    case Some(Str(s)) => [Entry(key, s)]
    case Some(Arr(items)) => seq(|items|, i requires 0 <= i < |items| => Entry(key, StringOf(items[i])))
    case _ => []
  }

  /** The entries of a form object. */
  ghost function Bag(ms: seq<Member>): multiset<Entry> {
    if ms == [] then multiset{} else multiset(EntriesOf(ms[0].key, Some(ms[0].value))) + Bag(ms[1..])
  }

  predicate FormShaped(v: Value) { v.Str? || (v.Arr? && forall x | x in v.items :: x.Str?) }

  ghost predicate FormObject(ms: seq<Member>) { DistinctKeys(ms) && forall m | m in ms :: FormShaped(m.value) }

  lemma KeysCons(m: Member, ms: seq<Member>)
    ensures Keys([m] + ms) == [m.key] + Keys(ms)
  {
    MapCons(KeyOf, m, ms);
  }

  lemma {:induction false} GetIsMember(ms: seq<Member>, key: string)
    ensures Get(ms, key).Some? ==> Member(key, Get(ms, key).value) in ms
    ensures Get(ms, key).Some? <==> key in Keys(ms)
  {
    if ms != [] {
      KeysCons(ms[0], ms[1..]);
      assert ms == [ms[0]] + ms[1..];
      if ms[0].key != key { GetIsMember(ms[1..], key); }
    }
  }

  lemma ExtendEntries(current: Option<Value>, key: string, value: string)
    requires current.Some? ==> FormShaped(current.value)
    ensures FormShaped(Extend(current, value))
    ensures EntriesOf(key, Some(Extend(current, value))) == EntriesOf(key, current) + [Entry(key, value)]
  {
  }

  lemma AddFirst(first: multiset<Entry>, b: multiset<Entry>, x: multiset<Entry>, b': multiset<Entry>,
                 y: multiset<Entry>)
    requires b + x == b' + y
    ensures (first + b) + x == (first + b') + y
  {
    assert (first + b) + x == first + (b + x);
    assert (first + b') + y == first + (b' + y);
  }

  lemma SwapFirst(x: multiset<Entry>, y: multiset<Entry>, b: multiset<Entry>)
    ensures (x + b) + y == (y + b) + x
  {
  }

  lemma {:induction false} BagPut(ms: seq<Member>, key: string, v: Value)
    ensures Bag(Put(ms, key, v)) + multiset(EntriesOf(key, Get(ms, key))) == Bag(ms) + multiset(EntriesOf(key, Some(v)))
  {
    var here, there := EntriesOf(key, Get(ms, key)), EntriesOf(key, Some(v));
    if ms == [] {
      BagCons(Member(key, v), []);
    } else if ms[0].key == key {
      BagCons(Member(key, v), ms[1..]);
      SwapFirst(multiset(there), multiset(here), Bag(ms[1..]));
    } else {
      BagPut(ms[1..], key, v);
      BagCons(ms[0], Put(ms[1..], key, v));
      var first := multiset(EntriesOf(ms[0].key, Some(ms[0].value)));
      AddFirst(first, Bag(Put(ms[1..], key, v)), multiset(here), Bag(ms[1..]), multiset(there));
    }
  }

  lemma BagCons(m: Member, ms: seq<Member>)
    ensures Bag([m] + ms) == multiset(EntriesOf(m.key, Some(m.value))) + Bag(ms)
  {
    assert ([m] + ms)[1..] == ms;
  }

  lemma ExtendBag(ms: seq<Member>, key: string, value: string)
    requires FormObject(ms)
    ensures FormObject(Put(ms, key, Extend(Get(ms, key), value)))
    ensures Bag(Put(ms, key, Extend(Get(ms, key), value))) == Bag(ms) + multiset{Entry(key, value)}
  {
    var current := Get(ms, key);
    var more := Extend(current, value);
    GetIsMember(ms, key);
    ExtendEntries(current, key, value);
    PutMembers(ms, key, more);
    BagPut(ms, key, more);
    Cancel(Bag(Put(ms, key, more)), Bag(ms), multiset(EntriesOf(key, current)), multiset{Entry(key, value)});
  }

  lemma Cancel(r: multiset<Entry>, b: multiset<Entry>, x: multiset<Entry>, y: multiset<Entry>)
    requires r + x == b + (x + y)
    ensures r == b + y
  {
    assert r == (r + x) - x;
    assert b + y == (b + (x + y)) - x;
  }

  /** Grouping keeps every entry. */
  lemma {:induction false} BagOfGrouped(entries: seq<Entry>)
    ensures FormObject(Grouped(entries)) && Bag(Grouped(entries)) == multiset(entries)
  {
    if entries != [] {
      var n := |entries| - 1;
      BagOfGrouped(entries[..n]);
      ExtendBag(Grouped(entries[..n]), entries[n].key, entries[n].value);
      assert entries == entries[..n] + [entries[n]];
    }
  }

  // ---- The grouped keys are in order, so sorting them again changes nothing ----

  lemma {:induction false} PutKeys(ms: seq<Member>, key: string, v: Value)
    ensures Keys(Put(ms, key, v)) == if key in Keys(ms) then Keys(ms) else Keys(ms) + [key]
  {
    if ms == [] {
      KeysCons(Member(key, v), []);
    } else {
      assert ms == [ms[0]] + ms[1..];
      KeysCons(ms[0], ms[1..]);
      if ms[0].key == key {
        KeysCons(Member(key, v), ms[1..]);
      } else {
        PutKeys(ms[1..], key, v);
        KeysCons(ms[0], Put(ms[1..], key, v));
      }
    }
  }

  ghost predicate AscendUpTo(keys: seq<string>, last: string) {
    Sorted(Text.Leq, keys) && forall k | k in keys :: Text.Leq(k, last)
  }

  lemma PutAscends(ms: seq<Member>, key: string, v: Value)
    requires AscendUpTo(Keys(ms), key)
    ensures AscendUpTo(Keys(Put(ms, key, v)), key)
  {
    PutKeys(ms, key, v);
    AppendKey(Keys(ms), key);
  }

  lemma {:induction false} GroupedKeys(entries: seq<Entry>)
    requires Sorted(EntryLeq, entries)
    ensures AscendUpTo(Keys(Grouped(entries)), if entries == [] then "" else entries[|entries| - 1].key)
  {
    if entries != [] {
      var n := |entries| - 1;
      var ms, e := Grouped(entries[..n]), entries[n];
      GroupedKeys(entries[..n]);
      if n > 0 { KeysUpTo(Keys(ms), entries[n - 1], e); }
      PutAscends(ms, e.key, Extend(Get(ms, e.key), e.value));
    }
  }

  lemma KeysUpTo(keys: seq<string>, before: Entry, last: Entry)
    requires EntryLeq(before, last) && forall k | k in keys :: Text.Leq(k, before.key)
    ensures forall k | k in keys :: Text.Leq(k, last.key)
  {
    Text.LeqTotal(last.key, last.key);
    forall k | k in keys ensures Text.Leq(k, last.key) { Text.LeqTransitive(k, before.key, last.key); }
  }

  lemma AppendKey(keys: seq<string>, last: string)
    requires Sorted(Text.Leq, keys) && forall k | k in keys :: Text.Leq(k, last)
    ensures Sorted(Text.Leq, keys + [last]) && forall k | k in keys + [last] :: Text.Leq(k, last)
  {
    Text.LeqTotal(last, last);
  }

  lemma FormValueSorted(v: Value)
    requires FormShaped(v)
    ensures SortKeys(v) == v && WellFormed(v)
  {
    if v.Arr? { assert SortKeys(v).items == v.items; }
  }

  /** A form object whose keys are in order is well formed and a normal form. */
  lemma FormObjectSorted(ms: seq<Member>)
    requires FormObject(ms) && Sorted(Text.Leq, Keys(ms))
    ensures WellFormed(Obj(ms)) && SortKeys(Obj(ms)) == Obj(ms)
  {
    forall i, j | 0 <= i < j < |ms| ensures KeyLeq(ms[i], ms[j]) { assert Text.Leq(Keys(ms)[i], Keys(ms)[j]); }
    SortOfSorted(KeyLeq, ms);
    forall i | 0 <= i < |ms|
      ensures SortKeys(ms[i].value) == ms[i].value && WellFormed(ms[i].value)
    {
      FormValueSorted(ms[i].value);
    }
    assert SortKeys(Obj(ms)).members == ms;
  }

  lemma GroupedIsSorted(entries: seq<Entry>)
    requires Sorted(EntryLeq, entries)
    ensures WellFormed(Obj(Grouped(entries))) && SortKeys(Obj(Grouped(entries))) == Obj(Grouped(entries))
  {
    BagOfGrouped(entries);
    GroupedKeys(entries);
    FormObjectSorted(Grouped(entries));
  }

  // ---- Redacting a sorted form leaves it sorted ----

  lemma RedactMonotone(a: Entry, b: Entry)
    requires EntryLeq(a, b)
    ensures EntryLeq(Redact(a), Redact(b))
  {
    Text.LeqTotal(Redact(a).value, Redact(a).value);
  }

  /** Sorting before or after redaction gives the same entries. */
  lemma RedactSorted(entries: seq<Entry>)
    ensures Map(Redact, Sort(EntryLeq, entries)) == Sort(EntryLeq, Map(Redact, entries))
  {
    EntryOrder();
    var s := Sort(EntryLeq, entries);
    SortSorts(EntryLeq, entries);
    SortSorts(EntryLeq, Map(Redact, entries));
    forall i, j | 0 <= i < j < |s| ensures EntryLeq(Redact(s[i]), Redact(s[j])) { RedactMonotone(s[i], s[j]); }
    MapSort(EntryLeq, Redact, entries);
    SortedUnique(EntryLeq, Map(Redact, s), Sort(EntryLeq, Map(Redact, entries)));
  }

  lemma FormBodyNormal(entries: seq<Entry>)
    ensures WellFormed(FormBody(entries)) && SortKeys(FormBody(entries)) == FormBody(entries)
  {
    RedactSorted(entries);
    EntryOrder();
    SortSorts(EntryLeq, Map(Redact, entries));
    GroupedIsSorted(Sort(EntryLeq, Map(Redact, entries)));
  }

  /** Two forms normalize alike exactly when they have the same redacted entries, in whatever order. */
  lemma FormBodyDecides(a: seq<Entry>, b: seq<Entry>)
    ensures FormBody(a) == FormBody(b) <==> multiset(Map(Redact, a)) == multiset(Map(Redact, b))
  {
    EntryOrder();
    RedactSorted(a);
    RedactSorted(b);
    SortIsNormalForm(EntryLeq, Map(Redact, a), Map(Redact, b));
    BagOfGrouped(Sort(EntryLeq, Map(Redact, a)));
    BagOfGrouped(Sort(EntryLeq, Map(Redact, b)));
  }

  // ---- A form body is already redacted ----

  lemma ValueRedacted(key: string, v: Value)
    requires FormShaped(v) && forall e | e in EntriesOf(key, Some(v)) :: Redact(e) == e
    ensures Sanitize(v, Some(key)) == v
  {
    var es := EntriesOf(key, Some(v));
    if v.Arr? {
      forall i | 0 <= i < |v.items| ensures Sanitize(v.items[i], Some(key)) == v.items[i] {
        assert es[i] in es && v.items[i] in v.items;
      }
      assert SanitizeItems(v.items, Some(key)) == v.items;
    } else {
      assert es[0] in es;
    }
  }

  /** Every entry of the bag is redacted already. */
  ghost predicate BagRedacted(ms: seq<Member>) { forall e | e in Bag(ms) :: Redact(e) == e }

  lemma BagRedactedCons(ms: seq<Member>)
    requires ms != [] && BagRedacted(ms)
    ensures forall e | e in EntriesOf(ms[0].key, Some(ms[0].value)) :: Redact(e) == e
    ensures BagRedacted(ms[1..])
  {
    var first := EntriesOf(ms[0].key, Some(ms[0].value));
    forall e | e in first ensures Redact(e) == e { assert e in multiset(first); }
    forall e | e in Bag(ms[1..]) ensures Redact(e) == e { assert e in Bag(ms); }
  }

  lemma {:induction false} ObjectRedacted(ms: seq<Member>)
    requires FormObject(ms) && BagRedacted(ms)
    ensures SanitizeMembers(ms) == ms
  {
    if ms != [] {
      BagRedactedCons(ms);
      assert FormShaped(ms[0].value) && FormObject(ms[1..]);
      ObjectRedacted(ms[1..]);
      ValueRedacted(ms[0].key, ms[0].value);
      assert ms == [ms[0]] + ms[1..];
    }
  }

  lemma GroupedRedacted(entries: seq<Entry>)
    requires forall e | e in entries :: Redact(e) == e
    ensures SanitizeMembers(Grouped(entries)) == Grouped(entries)
  {
    BagOfGrouped(entries);
    assert BagRedacted(Grouped(entries));
    ObjectRedacted(Grouped(entries));
  }

  lemma RedactTwice(entries: seq<Entry>)
    ensures forall e | e in Map(Redact, entries) :: Redact(e) == e
  {
    var redacted := Map(Redact, entries);
    forall e | e in redacted ensures Redact(e) == e {
      var i :| 0 <= i < |redacted| && redacted[i] == e;
      assert e == Redact(entries[i]);
    }
  }

  lemma FormBodyRedacted(entries: seq<Entry>, key: Option<string>)
    ensures Sanitize(FormBody(entries), key) == FormBody(entries)
  {
    RedactTwice(Sort(EntryLeq, entries));
    GroupedRedacted(Map(Redact, Sort(EntryLeq, entries)));
  }
}
