/** Stable insertion sort over an arbitrary order, and the fact that makes it a normal form:
    two sorted arrangements of the same multiset are the same sequence. */
module Sorting {

  /** `leq` is total and transitive. */
  ghost predicate Order<T(!new)>(leq: (T, T) -> bool) {
    && (forall a, b :: leq(a, b) || leq(b, a))
    && (forall a, b, c :: leq(a, b) && leq(b, c) ==> leq(a, c))
  }

  /** Elements of `xs` that `leq` cannot tell apart are equal. */
  ghost predicate Distinguishes<T>(leq: (T, T) -> bool, xs: seq<T>) {
    forall a, b | a in xs && b in xs :: leq(a, b) && leq(b, a) ==> a == b
  }

  ghost predicate Sorted<T>(leq: (T, T) -> bool, xs: seq<T>) {
    forall i, j | 0 <= i < j < |xs| :: leq(xs[i], xs[j])
  }

  function Insert<T>(leq: (T, T) -> bool, x: T, xs: seq<T>): (r: seq<T>)
    ensures multiset(r) == multiset([x]) + multiset(xs)
    ensures |r| == |xs| + 1
  {
    if xs == [] then [x]
    else if leq(x, xs[0]) then
      [x] + xs
    else
      assert xs == [xs[0]] + xs[1..];
      [xs[0]] + Insert(leq, x, xs[1..])
  }

  function Sort<T>(leq: (T, T) -> bool, xs: seq<T>): (r: seq<T>)
    ensures multiset(r) == multiset(xs)
    ensures |r| == |xs|
  {
    if xs == [] then []
    else
      assert xs == [xs[0]] + xs[1..];
      Insert(leq, xs[0], Sort(leq, xs[1..]))
  }

  lemma MemberOfPermutation<T>(xs: seq<T>, ys: seq<T>, x: T)
    requires multiset(xs) == multiset(ys)
    ensures x in xs <==> x in ys
  {
    assert x in multiset(xs) <==> x in multiset(ys);
  }

  lemma {:induction false} InsertSorts<T(!new)>(leq: (T, T) -> bool, x: T, xs: seq<T>)
    requires Order(leq) && Sorted(leq, xs)
    ensures Sorted(leq, Insert(leq, x, xs))
  {
    if xs != [] && !leq(x, xs[0]) {
      InsertSorts(leq, x, xs[1..]);
      var rest := Insert(leq, x, xs[1..]);
      forall j | 0 <= j < |rest| ensures leq(xs[0], rest[j]) {
        MemberOfPermutation([x] + xs[1..], rest, rest[j]);
      }
    }
  }

  lemma {:induction false} SortSorts<T(!new)>(leq: (T, T) -> bool, xs: seq<T>)
    requires Order(leq)
    ensures Sorted(leq, Sort(leq, xs))
  {
    if xs != [] {
      SortSorts(leq, xs[1..]);
      InsertSorts(leq, xs[0], Sort(leq, xs[1..]));
    }
  }

  /** The head of a sorted sequence is at most each of its elements. */
  lemma HeadIsLeast<T>(leq: (T, T) -> bool, xs: seq<T>, x: T)
    requires Sorted(leq, xs) && x in xs
    ensures x == xs[0] || leq(xs[0], x)
  {
    var i :| 0 <= i < |xs| && xs[i] == x;
    if i != 0 { assert leq(xs[0], xs[i]); }
  }

  lemma Tail<T>(leq: (T, T) -> bool, xs: seq<T>)
    requires xs != [] && Sorted(leq, xs) && Distinguishes(leq, xs)
    ensures Sorted(leq, xs[1..]) && Distinguishes(leq, xs[1..])
    ensures multiset(xs[1..]) == multiset(xs) - multiset{xs[0]}
    ensures xs == [xs[0]] + xs[1..]
  {
    assert xs == [xs[0]] + xs[1..];
    forall a, b | a in xs[1..] && b in xs[1..] && leq(a, b) && leq(b, a) ensures a == b {
      assert a in xs && b in xs;
    }
  }

  lemma HeadsAgree<T>(leq: (T, T) -> bool, xs: seq<T>, ys: seq<T>)
    requires xs != [] && ys != [] && Sorted(leq, xs) && Sorted(leq, ys) && Distinguishes(leq, xs)
    requires multiset(xs) == multiset(ys)
    ensures xs[0] == ys[0]
  {
    var x, y := xs[0], ys[0];
    MemberOfPermutation(xs, ys, x);
    MemberOfPermutation(xs, ys, y);
    HeadIsLeast(leq, xs, y);
    HeadIsLeast(leq, ys, x);
  }

  lemma SamePermutationSize<T>(xs: seq<T>, ys: seq<T>)
    requires multiset(xs) == multiset(ys)
    ensures |xs| == |ys|
  {
    assert |xs| == |multiset(xs)| == |multiset(ys)| == |ys|;
  }

  lemma DistinguishesPermutation<T>(leq: (T, T) -> bool, xs: seq<T>, ys: seq<T>)
    requires Distinguishes(leq, xs) && multiset(xs) == multiset(ys)
    ensures Distinguishes(leq, ys)
  {
    forall a, b | a in ys && b in ys && leq(a, b) && leq(b, a) ensures a == b {
      MemberOfPermutation(xs, ys, a);
      MemberOfPermutation(xs, ys, b);
    }
  }

  /** A sorted arrangement is determined by the multiset it arranges. */
  lemma {:induction false} SortedUnique<T>(leq: (T, T) -> bool, xs: seq<T>, ys: seq<T>)
    requires Sorted(leq, xs) && Sorted(leq, ys)
    requires Distinguishes(leq, xs)
    requires multiset(xs) == multiset(ys)
    ensures xs == ys
  {
    SamePermutationSize(xs, ys);
    if xs != [] {
      HeadsAgree(leq, xs, ys);
      DistinguishesPermutation(leq, xs, ys);
      Tail(leq, xs);
      Tail(leq, ys);
      SortedUnique(leq, xs[1..], ys[1..]);
    }
  }

  /** Sorting forgets the order of the input, and nothing else. */
  lemma SortIsNormalForm<T(!new)>(leq: (T, T) -> bool, xs: seq<T>, ys: seq<T>)
    requires Order(leq) && Distinguishes(leq, xs)
    ensures Sort(leq, xs) == Sort(leq, ys) <==> multiset(xs) == multiset(ys)
  {
    if multiset(xs) == multiset(ys) {
      SortSorts(leq, xs);
      SortSorts(leq, ys);
      DistinguishesPermutation(leq, xs, Sort(leq, xs));
      SortedUnique(leq, Sort(leq, xs), Sort(leq, ys));
    }
  }

  /** Sorting what is already sorted changes nothing. */
  lemma {:induction false} SortOfSorted<T>(leq: (T, T) -> bool, xs: seq<T>)
    requires Sorted(leq, xs)
    ensures Sort(leq, xs) == xs
  {
    if xs != [] {
      assert Sorted(leq, xs[1..]);
      SortOfSorted(leq, xs[1..]);
      if |xs| > 1 { assert leq(xs[0], xs[1..][0]); }
    }
  }

  lemma RemoveAt<T>(leq: (T, T) -> bool, s: seq<T>, p: nat)
    requires p < |s| && Sorted(leq, s)
    ensures Sorted(leq, s[..p] + s[p + 1..])
    ensures multiset(s[..p] + s[p + 1..]) + multiset{s[p]} == multiset(s)
  {
    assert s == s[..p] + ([s[p]] + s[p + 1..]);
    var t := s[..p] + s[p + 1..];
    forall i, j | 0 <= i < j < |t| ensures leq(t[i], t[j]) {
      assert t[i] == s[if i < p then i else i + 1] && t[j] == s[if j < p then j else j + 1];
    }
  }

  lemma CancelMultiset<T>(a: multiset<T>, b: multiset<T>, x: T)
    requires a + multiset{x} == b + multiset{x}
    ensures a == b
  {
    assert a == (a + multiset{x}) - multiset{x};
    assert b == (b + multiset{x}) - multiset{x};
  }

  lemma Rejoin<T>(s: seq<T>, p: nat, t: seq<T>)
    requires p < |s| && t == s[..p] + s[p + 1..]
    ensures s == t[..p] + [s[p]] + t[p..]
  {
    assert t[..p] == s[..p] && t[p..] == s[p + 1..];
  }

  /** Taking `x` out of the sorted `xs + [x]` leaves the sorted `xs`. */
  lemma SortWithout<T(!new)>(leq: (T, T) -> bool, xs: seq<T>, x: T, p: nat)
    requires Order(leq) && Distinguishes(leq, xs + [x])
    requires p < |Sort(leq, xs + [x])| && Sort(leq, xs + [x])[p] == x
    ensures Sort(leq, xs + [x])[..p] + Sort(leq, xs + [x])[p + 1..] == Sort(leq, xs)
  {
    var s := Sort(leq, xs + [x]);
    var t := s[..p] + s[p + 1..];
    SortSorts(leq, xs + [x]);
    SortSorts(leq, xs);
    RemoveAt(leq, s, p);
    CancelMultiset(multiset(t), multiset(xs), x);
    DistinguishesPermutation(leq, xs + [x], s);
    DistinguishesPart(leq, s, p);
    SortedUnique(leq, t, Sort(leq, xs));
  }

  /** Sorting in one more element inserts it somewhere into the sorted elements. */
  lemma SortSnoc<T(!new)>(leq: (T, T) -> bool, xs: seq<T>, x: T) returns (p: nat)
    requires Order(leq) && Distinguishes(leq, xs + [x])
    ensures p <= |xs|
    ensures Sort(leq, xs + [x]) == Sort(leq, xs)[..p] + [x] + Sort(leq, xs)[p..]
  {
    var s := Sort(leq, xs + [x]);
    MemberOfPermutation(xs + [x], s, x);
    p :| 0 <= p < |s| && s[p] == x;
    SortWithout(leq, xs, x, p);
    Rejoin(s, p, Sort(leq, xs));
  }

  /** No element of `s` comes after `top`. */
  ghost predicate Greatest<T>(leq: (T, T) -> bool, s: seq<T>, top: T) {
    top in s && forall x | x in s :: leq(x, top)
  }

  /** The greatest element of a sorted sequence is its last. */
  lemma GreatestIsLast<T>(leq: (T, T) -> bool, s: seq<T>, top: T)
    requires Sorted(leq, s) && Distinguishes(leq, s) && Greatest(leq, s, top)
    ensures s[|s| - 1] == top
  {
    var i :| 0 <= i < |s| && s[i] == top;
    if i < |s| - 1 { assert leq(s[i], s[|s| - 1]); }
  }

  lemma DistinguishesPart<T>(leq: (T, T) -> bool, s: seq<T>, p: nat)
    requires Distinguishes(leq, s) && p < |s|
    ensures Distinguishes(leq, s[..p] + s[p + 1..])
  {
  }

  /** An element met at two places counts twice. */
  lemma Repeats<T>(s: seq<T>, lo: nat, hi: nat)
    requires lo < hi < |s|
    ensures s[lo] == s[hi] ==> multiset(s)[s[hi]] >= 2
  {
    var x := s[hi];
    assert s == s[..hi] + ([x] + s[hi + 1..]);
    assert s[lo] == s[..hi][lo];
    assert multiset(s)[x] == multiset(s[..hi])[x] + multiset([x] + s[hi + 1..])[x];
  }

  function Map<T, U>(f: T -> U, xs: seq<T>): (r: seq<U>)
    ensures |r| == |xs| && forall i | 0 <= i < |xs| :: r[i] == f(xs[i])
  {
    seq(|xs|, i requires 0 <= i < |xs| => f(xs[i]))
  }

  lemma MapCons<T, U>(f: T -> U, x: T, xs: seq<T>)
    ensures Map(f, [x] + xs) == [f(x)] + Map(f, xs)
  {
  }

  lemma {:induction false} InsertMap<T, U>(leqT: (T, T) -> bool, leqU: (U, U) -> bool, f: T -> U, x: T, xs: seq<T>)
    requires forall y | y in xs :: leqT(x, y) == leqU(f(x), f(y))
    ensures Map(f, Insert(leqT, x, xs)) == Insert(leqU, f(x), Map(f, xs))
  {
    MapCons(f, x, xs);
    if xs != [] {
      assert xs == [xs[0]] + xs[1..];
      MapCons(f, xs[0], xs[1..]);
      assert xs[0] in xs;
      if !leqT(x, xs[0]) {
        forall y | y in xs[1..] ensures leqT(x, y) == leqU(f(x), f(y)) { assert y in xs; }
        InsertMap(leqT, leqU, f, x, xs[1..]);
        MapCons(f, xs[0], Insert(leqT, x, xs[1..]));
        assert Map(f, xs)[1..] == Map(f, xs[1..]);
      }
    }
  }

  lemma {:induction false} MapInsert<T, U>(leq: (T, T) -> bool, f: T -> U, x: T, xs: seq<T>)
    ensures multiset(Map(f, Insert(leq, x, xs))) == multiset([f(x)]) + multiset(Map(f, xs))
  {
    if xs == [] || leq(x, xs[0]) {
      MapCons(f, x, xs);
      assert [x] + xs == if xs == [] then [x] else [x] + xs;
    } else {
      MapInsert(leq, f, x, xs[1..]);
      MapCons(f, xs[0], Insert(leq, x, xs[1..]));
      MapCons(f, xs[0], xs[1..]);
      assert xs == [xs[0]] + xs[1..];
    }
  }

  /** A map takes permutations to permutations. */
  lemma {:induction false} MapSort<T, U>(leq: (T, T) -> bool, f: T -> U, xs: seq<T>)
    ensures multiset(Map(f, Sort(leq, xs))) == multiset(Map(f, xs))
  {
    if xs != [] {
      MapSort(leq, f, xs[1..]);
      MapInsert(leq, f, xs[0], Sort(leq, xs[1..]));
      MapUncons(f, xs);
    }
  }

  lemma MapUncons<T, U>(f: T -> U, xs: seq<T>)
    requires xs != []
    ensures Map(f, xs) == [f(xs[0])] + Map(f, xs[1..])
  {
    assert xs == [xs[0]] + xs[1..];
    MapCons(f, xs[0], xs[1..]);
  }

  /** A map that respects the orders commutes with sorting. */
  lemma {:induction false} SortMap<T, U>(leqT: (T, T) -> bool, leqU: (U, U) -> bool, f: T -> U, xs: seq<T>)
    requires forall x, y | x in xs && y in xs :: leqT(x, y) == leqU(f(x), f(y))
    ensures Map(f, Sort(leqT, xs)) == Sort(leqU, Map(f, xs))
  {
    if xs != [] {
      SortMap(leqT, leqU, f, xs[1..]);
      assert Map(f, xs) == [f(xs[0])] + Map(f, xs[1..]);
      forall y | y in Sort(leqT, xs[1..]) ensures leqT(xs[0], y) == leqU(f(xs[0]), f(y)) {
        MemberOfPermutation(xs[1..], Sort(leqT, xs[1..]), y);
      }
      InsertMap(leqT, leqU, f, xs[0], Sort(leqT, xs[1..]));
    }
  }
}

/** Strings in code-point order, the strict total order that stands for JavaScript's string order. */
module Text {
  import Sorting

  predicate Leq(a: string, b: string) {
    if a == [] then true
    else if b == [] then false
    else if a[0] == b[0] then Leq(a[1..], b[1..])
    else a[0] < b[0]
  }

  lemma {:induction false} LeqTotal(a: string, b: string)
    ensures Leq(a, b) || Leq(b, a)
    ensures Leq(a, b) && Leq(b, a) ==> a == b
  {
    if a != [] && b != [] && a[0] == b[0] {
      LeqTotal(a[1..], b[1..]);
      assert a == [a[0]] + a[1..] && b == [b[0]] + b[1..];
    }
  }

  lemma {:induction false} LeqTransitive(a: string, b: string, c: string)
    requires Leq(a, b) && Leq(b, c)
    ensures Leq(a, c)
  {
    if a != [] && b != [] && c != [] && a[0] == b[0] == c[0] {
      LeqTransitive(a[1..], b[1..], c[1..]);
    }
  }

  /** String order is a linear order, so sorting strings is a normal form on every input. */
  lemma Linear()
    ensures Sorting.Order(Leq)
    ensures forall xs: seq<string> :: Sorting.Distinguishes(Leq, xs)
  {
    forall a, b ensures (Leq(a, b) || Leq(b, a)) && (Leq(a, b) && Leq(b, a) ==> a == b) { LeqTotal(a, b); }
    forall a, b, c | Leq(a, b) && Leq(b, c) ensures Leq(a, c) { LeqTransitive(a, b, c); }
  }

  /** A common prefix does not matter to the order. */
  lemma {:induction false} LeqSamePrefix(p: string, a: string, b: string)
    ensures Leq(p + a, p + b) <==> Leq(a, b)
  {
    if p == [] {
      assert p + a == a && p + b == b;
    } else {
      assert (p + a)[1..] == p[1..] + a && (p + b)[1..] == p[1..] + b;
      LeqSamePrefix(p[1..], a, b);
    }
  }

  /** A text comes before its extensions. */
  lemma {:induction false} LeqExtension(a: string, more: string)
    ensures Leq(a, a + more) && (more != [] ==> !Leq(a + more, a))
  {
    if a == [] {
      assert a + more == more;
    } else {
      assert (a + more)[1..] == a[1..] + more;
      LeqExtension(a[1..], more);
    }
  }

  /** Strings that differ first at position `i` compare as those two characters do. */
  lemma {:induction false} LeqAtFirstDifference(a: string, b: string, i: nat)
    requires i < |a| && i < |b| && a[..i] == b[..i] && a[i] != b[i]
    ensures Leq(a, b) <==> a[i] < b[i]
  {
    assert a == a[..i] + a[i..] && b == a[..i] + b[i..];
    LeqSamePrefix(a[..i], a[i..], b[i..]);
  }
}
