/** The hash-chained rows of audit_events, over any digest: what the appender writes (policies/audit-service.ts),
    what the verifier checks (api/audit.ts), and what acceptance means. */
module AuditChain {
  import opened Sorting
  import opened Json
  import opened Canonical
  import opened AuditHash

  /** One row of audit_events. `instant` is the stored timestamptz. */
  datatype Row = Row(
    id: nat, actorId: string, action: string, entityType: string, entityId: string, before: Value, after: Value,
    instant: int, prevHash: string, hash: string)

  /** What the code takes from outside: computeAuditHash, the genesis value, and the two timestamp conversions
      (timestamptz input, Date.toISOString). */
  datatype System = System(
    digest: (string, Payload) -> string, genesis: string, parse: string -> int, iso: int -> string)

  function PayloadOf(sys: System, r: Row): Payload {
    Payload(r.actorId, r.action, r.entityType, r.entityId, r.before, r.after, sys.iso(r.instant))
  }

  /** What the verifier digests for a stored row. */
  function InputOf(sys: System, r: Row): (string, Payload) { (r.prevHash, PayloadOf(sys, r)) }

  function Recomputed(sys: System, r: Row): string { sys.digest(r.prevHash, PayloadOf(sys, r)) }

  /** `ORDER BY ts ASC, id ASC` */
  predicate RowLeq(a: Row, b: Row) { a.instant < b.instant || (a.instant == b.instant && a.id <= b.id) }

  ghost predicate DistinctIds(rows: seq<Row>) { forall i, j | 0 <= i < j < |rows| :: rows[i].id != rows[j].id }

  function InOrder(rows: seq<Row>): seq<Row> { Sort(RowLeq, rows) }

  /** `ORDER BY ts DESC, id DESC LIMIT 1` */
  function Latest(rows: seq<Row>): (r: Row)
    requires rows != []
    ensures r in rows
  {
    var n := |rows| - 1;
    if n == 0 then rows[0]
    else
      var best := Latest(rows[..n]);
      if RowLeq(best, rows[n]) then rows[n] else best
  }

  function LatestHash(sys: System, rows: seq<Row>): string {
    if rows == [] then sys.genesis else Latest(rows).hash
  }

  // ---- The chain ----

  function Expected(sys: System, rows: seq<Row>, k: nat): string
    requires k <= |rows|
  {
    if k == 0 then sys.genesis else rows[k - 1].hash
  }

  predicate Links(sys: System, rows: seq<Row>, k: nat)
    requires k < |rows|
  {
    rows[k].prevHash == Expected(sys, rows, k) && rows[k].hash == Recomputed(sys, rows[k])
  }

  ghost predicate IsChain(sys: System, rows: seq<Row>) { forall k | 0 <= k < |rows| :: Links(sys, rows, k) }

  ghost predicate FirstBreak(sys: System, rows: seq<Row>, k: nat) {
    k < |rows| && !Links(sys, rows, k) && forall j | 0 <= j < k :: Links(sys, rows, j)
  }

  lemma BreakIsNoChain(sys: System, rows: seq<Row>, k: nat)
    requires k < |rows| && !Links(sys, rows, k) && forall j | 0 <= j < k :: Links(sys, rows, j)
    ensures FirstBreak(sys, rows, k) && !IsChain(sys, rows)
  {
  }

  /** One call of emitAuditEvent. The database chooses `id` and stores JSONB forms of `before` and `after`. */
  datatype Emission = Emission(event: Payload, id: nat, before: Value, after: Value)

  ghost predicate FaithfulStorage(e: Emission) {
    && WellFormedPayload(e.event) && WellFormed(e.before) && WellFormed(e.after)
    && Same(e.before, e.event.before) && Same(e.after, e.event.after)
  }

  function EmittedRow(sys: System, rows: seq<Row>, e: Emission): Row {
    var prevHash := LatestHash(sys, rows);
    Row(e.id, e.event.actorId, e.event.action, e.event.entityType, e.event.entityId, e.before, e.after,
        sys.parse(e.event.ts), prevHash, sys.digest(prevHash, e.event))
  }

  /** The event's timestamp is spelled the way the verifier will spell it back. */
  predicate CanonicalTimestamp(sys: System, e: Emission) { sys.iso(sys.parse(e.event.ts)) == e.event.ts }

  datatype Verdict = Valid | FirstInvalid(id: nat)

  /** The verification loop over the selected rows. */
  method VerifyRows(sys: System, rows: seq<Row>) returns (verdict: Verdict)
    ensures verdict == Valid <==> IsChain(sys, rows)
    ensures verdict != Valid ==> exists k: nat :: FirstBreak(sys, rows, k) && verdict == FirstInvalid(rows[k].id)
  {
    if |rows| == 0 {
      return Valid;
    }
    var expectedPrevHash := sys.genesis;
    for k := 0 to |rows|
      invariant forall j | 0 <= j < k :: Links(sys, rows, j)
      invariant expectedPrevHash == Expected(sys, rows, k)
    {
      var row := rows[k];
      if row.prevHash != expectedPrevHash {
        BreakIsNoChain(sys, rows, k);
        return FirstInvalid(row.id);
      }
      var computed := sys.digest(row.prevHash, PayloadOf(sys, row));
      if computed != row.hash {
        BreakIsNoChain(sys, rows, k);
        return FirstInvalid(row.id);
      }
      expectedPrevHash := row.hash;
    }
    verdict := Valid;
  }

  /** The row that emitAuditEvent reads: none is later, and none of the same instant has a greater id. */
  lemma {:induction false} LatestSpelled(rows: seq<Row>)
    ensures rows != [] ==>
              && Latest(rows) in rows
              && forall r | r in rows ::
                   r.instant < Latest(rows).instant || (r.instant == Latest(rows).instant && r.id <= Latest(rows).id)
  {
    var n := |rows| - 1;
    if n >= 0 {
      assert rows == rows[..n] + [rows[n]];
      LatestSpelled(rows[..n]);
    }
  }

  class AuditTable {
    const sys: System
    var rows: seq<Row>

    constructor (sys: System)
      ensures this.sys == sys && rows == []
    {
      this.sys := sys;
      rows := [];
    }

    method EmitAuditEvent(e: Emission) returns (row: Row)
      modifies this
      ensures row == EmittedRow(sys, old(rows), e)
      ensures rows == old(rows) + [row]
      ensures old(rows) == [] ==> row.prevHash == sys.genesis
      ensures old(rows) != [] ==> exists latest | latest in old(rows) ::
                && row.prevHash == latest.hash
                && forall r | r in old(rows) ::
                     r.instant < latest.instant || (r.instant == latest.instant && r.id <= latest.id)
    {
      LatestSpelled(rows);
      var prevHash := if rows == [] then sys.genesis else Latest(rows).hash;
      var hash := sys.digest(prevHash, e.event);
      row := Row(e.id, e.event.actorId, e.event.action, e.event.entityType, e.event.entityId, e.before, e.after,
                 sys.parse(e.event.ts), prevHash, hash);
      rows := rows + [row];
    }

    /** The endpoint answers valid exactly when the rows in `(ts, id)` order are a chain, and otherwise names its first
        break. */
    method Verify() returns (verdict: Verdict)
      ensures verdict == Valid <==> IsChain(sys, InOrder(rows))
      ensures verdict != Valid
              ==> exists k: nat :: FirstBreak(sys, InOrder(rows), k) && verdict == FirstInvalid(InOrder(rows)[k].id)
    {
      verdict := VerifyRows(sys, InOrder(rows));
    }
  }

  // ---- Digests that bind, on given inputs only ----

  ghost function Inputs(sys: System, rows: seq<Row>): set<(string, Payload)> { set r | r in rows :: InputOf(sys, r) }

  /** The digest tells these inputs apart (up to key order), and none of them digests to the genesis value. */
  ghost predicate Binding(sys: System, inputs: set<(string, Payload)>) {
    && (forall x, y | x in inputs && y in inputs && sys.digest(x.0, x.1) == sys.digest(y.0, y.1) ::
          x.0 == y.0 && SamePayload(x.1, y.1))
    && (forall x | x in inputs :: sys.digest(x.0, x.1) != sys.genesis)
  }

  /** The digest does not depend on key order. */
  ghost predicate IgnoresKeyOrder(sys: System) {
    forall prev, x, y | WellFormedPayload(x) && WellFormedPayload(y) && SamePayload(x, y) ::
      sys.digest(prev, x) == sys.digest(prev, y)
  }

  /** Equal hashes of chained rows mean equal inputs. */
  lemma SameHashSameRow(sys: System, r: Row, q: Row, inputs: set<(string, Payload)>)
    requires Binding(sys, inputs) && InputOf(sys, r) in inputs && InputOf(sys, q) in inputs
    requires r.hash == Recomputed(sys, r) && q.hash == Recomputed(sys, q)
    ensures r.hash == q.hash ==> r.prevHash == q.prevHash && SamePayload(PayloadOf(sys, r), PayloadOf(sys, q))
    ensures r.hash != sys.genesis
  {
  }

  lemma {:induction false} SameHashSamePosition(sys: System, a: seq<Row>, b: seq<Row>, i: nat, j: nat,
                                                inputs: set<(string, Payload)>)
    requires IsChain(sys, a) && IsChain(sys, b) && i <= |a| && j <= |b|
    requires Binding(sys, inputs) && Inputs(sys, a) <= inputs && Inputs(sys, b) <= inputs
    requires Expected(sys, a, i) == Expected(sys, b, j)
    ensures i == j
    ensures forall k | 0 <= k < i :: a[k].hash == b[k].hash
    decreases i
  {
    if i > 0 {
      assert Links(sys, a, i - 1) && InputOf(sys, a[i - 1]) in Inputs(sys, a);
      SameHashSameRow(sys, a[i - 1], a[i - 1], inputs);
    }
    if j > 0 {
      assert Links(sys, b, j - 1) && InputOf(sys, b[j - 1]) in Inputs(sys, b);
      SameHashSameRow(sys, b[j - 1], b[j - 1], inputs);
    }
    if i > 0 && j > 0 {
      SameHashSameRow(sys, a[i - 1], b[j - 1], inputs);
      SameHashSamePosition(sys, a, b, i - 1, j - 1, inputs);
    }
  }

  ghost predicate Agree(sys: System, a: seq<Row>, b: seq<Row>) {
    && |a| == |b|
    && forall k | 0 <= k < |a| :: SamePayload(PayloadOf(sys, a[k]), PayloadOf(sys, b[k]))
                                  && a[k].prevHash == b[k].prevHash && a[k].hash == b[k].hash
  }

  lemma ChainsAgree(sys: System, a: seq<Row>, b: seq<Row>)
    requires IsChain(sys, a) && IsChain(sys, b) && Binding(sys, Inputs(sys, a) + Inputs(sys, b))
    requires Expected(sys, a, |a|) == Expected(sys, b, |b|)
    ensures Agree(sys, a, b)
  {
    var inputs := Inputs(sys, a) + Inputs(sys, b);
    SameHashSamePosition(sys, a, b, |a|, |b|, inputs);
    forall k | 0 <= k < |a|
      ensures SamePayload(PayloadOf(sys, a[k]), PayloadOf(sys, b[k])) && a[k].prevHash == b[k].prevHash
    {
      assert Links(sys, a, k) && Links(sys, b, k);
      assert InputOf(sys, a[k]) in Inputs(sys, a) && InputOf(sys, b[k]) in Inputs(sys, b);
      SameHashSameRow(sys, a[k], b[k], inputs);
    }
  }

  // ---- Order of rows ----

  lemma RowOrder(rows: seq<Row>)
    ensures Order(RowLeq)
    ensures DistinctIds(rows) ==> Distinguishes(RowLeq, rows)
  {
    if DistinctIds(rows) {
      forall a, b | a in rows && b in rows && RowLeq(a, b) && RowLeq(b, a) ensures a == b {
        var i :| 0 <= i < |rows| && rows[i] == a;
        var j :| 0 <= j < |rows| && rows[j] == b;
        assert i == j;
      }
    }
  }

  /** The rows that the verifier reads: all of them, by instant and then by id. */
  lemma InOrderSpelled(rows: seq<Row>)
    ensures multiset(InOrder(rows)) == multiset(rows)
    ensures var s := InOrder(rows);
            forall i, j | 0 <= i < j < |s| ::
              s[i].instant < s[j].instant || (s[i].instant == s[j].instant && s[i].id <= s[j].id)
  {
    RowOrder(rows);
    SortSorts(RowLeq, rows);
    var s := InOrder(rows);
    forall i, j | 0 <= i < j < |s|
      ensures s[i].instant < s[j].instant || (s[i].instant == s[j].instant && s[i].id <= s[j].id)
    {
      assert RowLeq(s[i], s[j]);
    }
  }

  lemma SameMembers(rows: seq<Row>)
    ensures forall r :: r in InOrder(rows) <==> r in rows
  {
    forall r ensures r in InOrder(rows) <==> r in rows { MemberOfPermutation(rows, InOrder(rows), r); }
  }

  lemma SameInputs(sys: System, rows: seq<Row>)
    ensures Inputs(sys, InOrder(rows)) == Inputs(sys, rows)
  {
    SameMembers(rows);
  }

  lemma {:induction false} LatestIsGreatest(rows: seq<Row>, r: Row)
    requires r in rows
    ensures RowLeq(r, Latest(rows))
  {
    var n := |rows| - 1;
    if n > 0 {
      assert rows == rows[..n] + [rows[n]];
      if r in rows[..n] { LatestIsGreatest(rows[..n], r); }
    }
  }

  lemma NoneAfterLatest(rows: seq<Row>)
    requires rows != []
    ensures Greatest(RowLeq, InOrder(rows), Latest(rows))
  {
    SameMembers(rows);
    forall r | r in InOrder(rows) ensures RowLeq(r, Latest(rows)) { LatestIsGreatest(rows, r); }
  }

  lemma InOrderIsSorted(rows: seq<Row>)
    requires DistinctIds(rows)
    ensures Sorted(RowLeq, InOrder(rows)) && Distinguishes(RowLeq, InOrder(rows))
  {
    RowOrder(rows);
    SortSorts(RowLeq, rows);
    DistinguishesPermutation(RowLeq, rows, InOrder(rows));
  }

  /** The row the appender extends is the last one the verifier reads. */
  lemma LatestIsLast(rows: seq<Row>, s: seq<Row>, top: Row)
    requires rows != [] && DistinctIds(rows) && s == InOrder(rows) && top == Latest(rows)
    ensures |s| == |rows| && s[|s| - 1] == top
  {
    NoneAfterLatest(rows);
    InOrderIsSorted(rows);
    GreatestIsLast(RowLeq, s, top);
  }

  lemma ExpectedAtEnd(sys: System, rows: seq<Row>)
    requires DistinctIds(rows)
    ensures LatestHash(sys, rows) == Expected(sys, InOrder(rows), |rows|)
  {
    if rows != [] { LatestIsLast(rows, InOrder(rows), Latest(rows)); }
  }

  lemma DistinctIdsPrefix(rows: seq<Row>, n: nat)
    requires DistinctIds(rows) && n <= |rows|
    ensures DistinctIds(rows[..n])
  {
  }

  // ---- One emission ----

  /** The hash stored at emission is the one the verifier recomputes exactly when the timestamp text is canonical. */
  lemma HashSurvives(sys: System, rows: seq<Row>, e: Emission)
    requires FaithfulStorage(e) && IgnoresKeyOrder(sys)
    requires var r := EmittedRow(sys, rows, e); Binding(sys, {InputOf(sys, r), (r.prevHash, e.event)})
    ensures var r := EmittedRow(sys, rows, e); r.hash == Recomputed(sys, r) <==> CanonicalTimestamp(sys, e)
  {
    var r := EmittedRow(sys, rows, e);
    var x, y := InputOf(sys, r), (r.prevHash, e.event);
    assert x in {x, y} && y in {x, y};
    if CanonicalTimestamp(sys, e) { assert SamePayload(x.1, y.1); }
  }

  /** What an emission digests, at emission and at verification. */
  ghost function EmissionInputs(sys: System, rows: seq<Row>, e: Emission): set<(string, Payload)> {
    var r := EmittedRow(sys, rows, e);
    Inputs(sys, rows) + {InputOf(sys, r), (r.prevHash, e.event)}
  }

  lemma BindingSubset(sys: System, few: set<(string, Payload)>, many: set<(string, Payload)>)
    requires Binding(sys, many) && few <= many
    ensures Binding(sys, few)
  {
  }

  lemma PrefixLinks(sys: System, a: seq<Row>, b: seq<Row>, p: nat)
    requires p <= |a| && p <= |b| && a[..p] == b[..p] && IsChain(sys, a)
    ensures Expected(sys, a, p) == Expected(sys, b, p)
    ensures forall j | 0 <= j < p :: Links(sys, b, j)
  {
    forall j | 0 <= j < p ensures a[j] == b[j] { assert a[..p][j] == b[..p][j]; }
    forall j | 0 <= j < p ensures Links(sys, b, j) { assert Links(sys, a, j); }
  }

  /** Emitting onto an accepted log: it is accepted again exactly when the new row sorts last and its timestamp
      is canonical; otherwise the verifier's first break is the new row. */
  lemma EmitOutcome(sys: System, rows: seq<Row>, e: Emission)
    requires FaithfulStorage(e) && IgnoresKeyOrder(sys) && DistinctIds(rows + [EmittedRow(sys, rows, e)])
    requires IsChain(sys, InOrder(rows)) && Binding(sys, EmissionInputs(sys, rows, e))
    ensures var r := EmittedRow(sys, rows, e);
            var s := InOrder(rows + [r]);
            && (IsChain(sys, s) <==> s[|rows|] == r && CanonicalTimestamp(sys, e))
            && (!IsChain(sys, s) ==> exists k: nat :: FirstBreak(sys, s, k) && s[k] == r)
  {
    var r := EmittedRow(sys, rows, e);
    var before, s := InOrder(rows), InOrder(rows + [r]);
    RowOrder(rows + [r]);
    var p := SortSnoc(RowLeq, rows, r);
    assert s[p] == r && s[..p] == before[..p];
    PrefixLinks(sys, before, s, p);
    NewRowLinks(sys, rows, e, p);
    SamePlace(rows + [r], p, |rows|);
    if p == |rows| && Links(sys, s, p) {
      forall k | 0 <= k < |s| ensures Links(sys, s, k) { assert k < p || k == p; }
    } else {
      assert FirstBreak(sys, s, p);
    }
  }

  /** At its place `p` in the sorted table, the new row links exactly when `p` is the end and its timestamp is
      canonical. */
  lemma NewRowLinks(sys: System, rows: seq<Row>, e: Emission, p: nat)
    requires FaithfulStorage(e) && IgnoresKeyOrder(sys) && DistinctIds(rows + [EmittedRow(sys, rows, e)])
    requires IsChain(sys, InOrder(rows)) && Binding(sys, EmissionInputs(sys, rows, e))
    requires var r := EmittedRow(sys, rows, e);
             var s := InOrder(rows + [r]);
             p <= |rows| && s[p] == r && Expected(sys, s, p) == Expected(sys, InOrder(rows), p)
    ensures Links(sys, InOrder(rows + [EmittedRow(sys, rows, e)]), p) <==> p == |rows| && CanonicalTimestamp(sys, e)
  {
    var r := EmittedRow(sys, rows, e);
    DistinctIdsPrefix(rows + [r], |rows|);
    assert (rows + [r])[..|rows|] == rows;
    ExpectedAtEnd(sys, rows);
    BindingSubset(sys, {InputOf(sys, r), (r.prevHash, e.event)}, EmissionInputs(sys, rows, e));
    HashSurvives(sys, rows, e);
    if r.prevHash == Expected(sys, InOrder(rows), p) {
      SameInputs(sys, rows);
      SameHashSamePosition(sys, InOrder(rows), InOrder(rows), |rows|, p, EmissionInputs(sys, rows, e));
    }
  }

  lemma SamePlace(rows: seq<Row>, i: nat, j: nat)
    requires DistinctIds(rows) && i < |rows| && j < |rows|
    ensures InOrder(rows)[i] == InOrder(rows)[j] ==> i == j
  {
    var s := InOrder(rows);
    OnceEach(rows, s[i]);
    if i < j { Repeats(s, i, j); }
    if j < i { Repeats(s, j, i); }
  }

  lemma {:induction false} OnceEach(rows: seq<Row>, r: Row)
    requires DistinctIds(rows)
    ensures multiset(rows)[r] <= 1
  {
    if rows != [] {
      var n := |rows| - 1;
      assert rows == rows[..n] + [rows[n]];
      OnceEach(rows[..n], r);
      assert rows[n] !in rows[..n];
    }
  }

  // ---- Whole runs ----

  /** The table after a run of emissions from the empty table. */
  function Emitted(sys: System, run: seq<Emission>): (rows: seq<Row>)
    ensures |rows| == |run|
  {
    if run == [] then []
    else
      var n := |run| - 1;
      Emitted(sys, run[..n]) + [EmittedRow(sys, Emitted(sys, run[..n]), run[n])]
  }

  lemma {:induction false} EmittedPrefix(sys: System, run: seq<Emission>, n: nat)
    requires n <= |run|
    ensures Emitted(sys, run)[..n] == Emitted(sys, run[..n])
  {
    if n < |run| {
      var m := |run| - 1;
      EmittedPrefix(sys, run[..m], n);
      assert run[..m][..n] == run[..n];
      assert Emitted(sys, run)[..n] == Emitted(sys, run[..m])[..n];
    } else {
      assert run[..n] == run;
    }
  }

  lemma EmittedAt(sys: System, run: seq<Emission>, i: nat)
    requires i < |run|
    ensures Emitted(sys, run)[i] == EmittedRow(sys, Emitted(sys, run)[..i], run[i])
  {
    EmittedPrefix(sys, run, i);
    EmittedPrefix(sys, run, i + 1);
    assert run[..i + 1][..i] == run[..i];
    assert Emitted(sys, run)[i] == Emitted(sys, run)[..i + 1][i];
  }

  /** Everything digested in the run, by the appender or by the verifier. */
  ghost function RunInputs(sys: System, run: seq<Emission>): set<(string, Payload)> {
    Inputs(sys, Emitted(sys, run)) + set i | 0 <= i < |run| :: (Emitted(sys, run)[i].prevHash, run[i].event)
  }

  ghost predicate RunOk(sys: System, run: seq<Emission>) {
    && (forall i, j | 0 <= i < j < |run| :: run[i].id != run[j].id)
    && (forall e | e in run :: FaithfulStorage(e))
    && IgnoresKeyOrder(sys)
    && Binding(sys, RunInputs(sys, run))
  }

  lemma RunRows(sys: System, run: seq<Emission>)
    requires forall i, j | 0 <= i < j < |run| :: run[i].id != run[j].id
    ensures DistinctIds(Emitted(sys, run))
  {
    forall i | 0 <= i < |run| ensures Emitted(sys, run)[i].id == run[i].id { EmittedAt(sys, run, i); }
  }

  /** In an accepted log no row was ever emitted out of order. */
  lemma {:induction false} AcceptedRunIsInOrder(sys: System, run: seq<Emission>, n: nat)
    requires RunOk(sys, run) && n <= |run|
    requires IsChain(sys, InOrder(Emitted(sys, run)))
    ensures Emitted(sys, run)[..n] == InOrder(Emitted(sys, run))[..n]
  {
    if n > 0 {
      var rows := Emitted(sys, run);
      var s := InOrder(rows);
      var i := n - 1;
      AcceptedRunIsInOrder(sys, run, i);
      AcceptedRunNext(sys, run, i);
      ExtendAgreement(rows, s, i);
    }
  }

  lemma ExtendAgreement(a: seq<Row>, b: seq<Row>, i: nat)
    requires i < |a| && i < |b| && a[..i] == b[..i] && a[i] == b[i]
    ensures a[..i + 1] == b[..i + 1]
  {
    assert a[..i + 1] == a[..i] + [a[i]] && b[..i + 1] == b[..i] + [b[i]];
  }

  lemma AcceptedRunNext(sys: System, run: seq<Emission>, i: nat)
    requires RunOk(sys, run) && i < |run|
    requires IsChain(sys, InOrder(Emitted(sys, run)))
    requires Emitted(sys, run)[..i] == InOrder(Emitted(sys, run))[..i]
    ensures Emitted(sys, run)[i] == InOrder(Emitted(sys, run))[i]
  {
    var rows := Emitted(sys, run);
    var s := InOrder(rows);
    RunRows(sys, run);
    SameMembers(rows);
    SameInputs(sys, rows);
    assert rows[i].prevHash == Expected(sys, s, i) by {
      EmittedAt(sys, run, i);
      SortedPrefixLatest(sys, rows, i);
    }
    assert rows[i] in rows;
    var p :| 0 <= p < |s| && s[p] == rows[i];
    assert Links(sys, s, p);
    SameHashSamePosition(sys, s, s, i, p, RunInputs(sys, run));
  }

  /** Where the table's prefix is the sorted table's prefix, the appender extends what the verifier expects. */
  lemma SortedPrefixLatest(sys: System, rows: seq<Row>, i: nat)
    requires DistinctIds(rows) && i <= |rows| && rows[..i] == InOrder(rows)[..i]
    ensures LatestHash(sys, rows[..i]) == Expected(sys, InOrder(rows), i)
  {
    DistinctIdsPrefix(rows, i);
    ExpectedAtEnd(sys, rows[..i]);
    RowOrder(rows);
    SortSorts(RowLeq, rows);
    assert Sorted(RowLeq, InOrder(rows)[..i]);
    SortOfSorted(RowLeq, rows[..i]);
  }

  lemma SortedRunAt(sys: System, run: seq<Emission>, i: nat)
    requires RunOk(sys, run) && i < |run| && Sorted(RowLeq, Emitted(sys, run))
    ensures var rows := Emitted(sys, run);
            && rows[i].prevHash == Expected(sys, rows, i)
            && (rows[i].hash == Recomputed(sys, rows[i]) <==> CanonicalTimestamp(sys, run[i]))
  {
    var rows := Emitted(sys, run);
    RunRows(sys, run);
    EmittedAt(sys, run, i);
    SortOfSorted(RowLeq, rows);
    SortedPrefixLatest(sys, rows, i);
    assert rows[i] in rows && run[i] in run;
    assert InputOf(sys, rows[i]) in Inputs(sys, rows);
    assert (rows[i].prevHash, run[i].event) in RunInputs(sys, run);
    BindingSubset(sys, {InputOf(sys, rows[i]), (rows[i].prevHash, run[i].event)}, RunInputs(sys, run));
    HashSurvives(sys, rows[..i], run[i]);
  }

  /** The verifier accepts the log of a whole run exactly when every emission sorted last when it was made
      (the insertion order is the `(ts, id)` order) and every timestamp was canonical. */
  lemma RunAcceptedIff(sys: System, run: seq<Emission>)
    requires RunOk(sys, run)
    ensures IsChain(sys, InOrder(Emitted(sys, run)))
       <==> Sorted(RowLeq, Emitted(sys, run)) && forall e | e in run :: CanonicalTimestamp(sys, e)
  {
    var rows := Emitted(sys, run);
    if IsChain(sys, InOrder(rows)) { AcceptedRunSorted(sys, run); }
    if Sorted(RowLeq, rows) { SortedRunAccepted(sys, run); }
  }

  lemma AcceptedRunSorted(sys: System, run: seq<Emission>)
    requires RunOk(sys, run) && IsChain(sys, InOrder(Emitted(sys, run)))
    ensures Sorted(RowLeq, Emitted(sys, run))
  {
    var rows := Emitted(sys, run);
    RowOrder(rows);
    SortSorts(RowLeq, rows);
    AcceptedRunIsInOrder(sys, run, |run|);
    assert rows == rows[..|run|] && InOrder(rows) == InOrder(rows)[..|run|];
  }

  lemma SortedRunAccepted(sys: System, run: seq<Emission>)
    requires RunOk(sys, run) && Sorted(RowLeq, Emitted(sys, run))
    ensures IsChain(sys, InOrder(Emitted(sys, run))) <==> forall e | e in run :: CanonicalTimestamp(sys, e)
  {
    var rows := Emitted(sys, run);
    assert InOrder(rows) == rows by { SortOfSorted(RowLeq, rows); }
    forall i | 0 <= i < |rows| ensures Links(sys, rows, i) <==> CanonicalTimestamp(sys, run[i]) {
      SortedRunAt(sys, run, i);
    }
    ChainIffCanonical(sys, rows, run);
  }

  lemma ChainIffCanonical(sys: System, rows: seq<Row>, run: seq<Emission>)
    requires |rows| == |run| && forall i | 0 <= i < |rows| :: Links(sys, rows, i) <==> CanonicalTimestamp(sys, run[i])
    ensures IsChain(sys, rows) <==> forall e | e in run :: CanonicalTimestamp(sys, e)
  {
    if IsChain(sys, rows) {
      forall e | e in run ensures CanonicalTimestamp(sys, e) {
        var i :| 0 <= i < |run| && run[i] == e;
        assert Links(sys, rows, i);
      }
    } else {
      var i :| 0 <= i < |rows| && !Links(sys, rows, i);
      assert run[i] in run;
    }
  }

  // ---- A batch under one timestamp ----

  predicate EmissionLeq(sys: System, a: Emission, b: Emission) {
    sys.parse(a.event.ts) < sys.parse(b.event.ts) || (sys.parse(a.event.ts) == sys.parse(b.event.ts) && a.id <= b.id)
  }

  /** Every emission comes after the earlier ones by `(ts, id)`. */
  ghost predicate Ascends(sys: System, run: seq<Emission>) {
    forall i, j | 0 <= i < j < |run| :: EmissionLeq(sys, run[i], run[j])
  }

  lemma AscendsIsSorted(sys: System, run: seq<Emission>)
    ensures Sorted(RowLeq, Emitted(sys, run)) <==> Ascends(sys, run)
  {
    var rows := Emitted(sys, run);
    forall i, j | 0 <= i < j < |run| ensures RowLeq(rows[i], rows[j]) <==> EmissionLeq(sys, run[i], run[j]) {
      EmittedAt(sys, run, i);
      EmittedAt(sys, run, j);
    }
  }

  ghost predicate IdsAscend(run: seq<Emission>) { forall i, j | 0 <= i < j < |run| :: run[i].id < run[j].id }

  ghost predicate Stamped(sys: System, batch: seq<Emission>, ts: string) {
    forall e | e in batch :: e.event.ts == ts && CanonicalTimestamp(sys, e)
  }

  /** Every earlier emission carries an earlier instant. */
  ghost predicate Earlier(sys: System, before: seq<Emission>, ts: string) {
    forall e | e in before :: sys.parse(e.event.ts) < sys.parse(ts)
  }

  lemma BatchAscends(sys: System, before: seq<Emission>, batch: seq<Emission>, ts: string)
    requires forall i, j | 0 <= i < j < |batch| :: batch[i].id != batch[j].id
    requires Earlier(sys, before, ts) && Stamped(sys, batch, ts)
    ensures Ascends(sys, before + batch) <==> Ascends(sys, before) && IdsAscend(batch)
  {
    var run, n := before + batch, |before|;
    if Ascends(sys, run) {
      forall i, j | 0 <= i < j < n
        ensures EmissionLeq(sys, before[i], before[j])
      {
        assert run[i] == before[i] && run[j] == before[j];
      }
      forall i, j | 0 <= i < j < |batch| ensures batch[i].id < batch[j].id {
        assert EmissionLeq(sys, run[n + i], run[n + j]);
        assert batch[i] in batch && batch[j] in batch;
      }
    }
    if Ascends(sys, before) && IdsAscend(batch) {
      forall i, j | 0 <= i < j < |run| ensures EmissionLeq(sys, run[i], run[j]) {
        if j >= n { assert run[j] == batch[j - n] && batch[j - n] in batch; }
        if i >= n {
          assert run[i] == batch[i - n] && batch[i - n] in batch;
        } else {
          assert run[i] == before[i] && before[i] in before;
        }
      }
    }
  }

  lemma EmittedBefore(sys: System, before: seq<Emission>, batch: seq<Emission>, i: nat)
    requires i < |before|
    ensures Emitted(sys, before)[i] == Emitted(sys, before + batch)[i] && (before + batch)[i] == before[i]
  {
    var run := before + batch;
    assert run[..|before|] == before;
    EmittedPrefix(sys, run, |before|);
    assert Emitted(sys, run)[..|before|][i] == Emitted(sys, run)[i];
  }

  lemma RunInputsPrefix(sys: System, before: seq<Emission>, batch: seq<Emission>)
    ensures RunInputs(sys, before) <= RunInputs(sys, before + batch)
  {
    var run := before + batch;
    forall x | x in RunInputs(sys, before) ensures x in RunInputs(sys, run) {
      if x in Inputs(sys, Emitted(sys, before)) {
        var r :| r in Emitted(sys, before) && x == InputOf(sys, r);
        var i :| 0 <= i < |before| && Emitted(sys, before)[i] == r;
        EmittedBefore(sys, before, batch, i);
        assert Emitted(sys, run)[i] in Emitted(sys, run);
      } else {
        var i :| 0 <= i < |before| && x == (Emitted(sys, before)[i].prevHash, before[i].event);
        EmittedBefore(sys, before, batch, i);
      }
    }
  }

  lemma RunOkPrefix(sys: System, before: seq<Emission>, batch: seq<Emission>)
    requires RunOk(sys, before + batch)
    ensures RunOk(sys, before)
  {
    var run := before + batch;
    RunInputsPrefix(sys, before, batch);
    BindingSubset(sys, RunInputs(sys, before), RunInputs(sys, run));
    forall i, j | 0 <= i < j < |before| ensures before[i].id != before[j].id { assert run[i].id != run[j].id; }
    forall e | e in before ensures FaithfulStorage(e) { assert e in run; }
  }

  /** A batch stamped with one timestamp, after earlier emissions, leaves the log accepted exactly when it was accepted
      before the batch and the ids the database drew for the batch happen to ascend in emission order. */
  lemma SharedTimestampBatch(sys: System, before: seq<Emission>, batch: seq<Emission>, ts: string)
    requires RunOk(sys, before + batch) && Earlier(sys, before, ts) && Stamped(sys, batch, ts)
    ensures IsChain(sys, InOrder(Emitted(sys, before + batch)))
            <==> IsChain(sys, InOrder(Emitted(sys, before))) && IdsAscend(batch)
  {
    var run := before + batch;
    RunOkPrefix(sys, before, batch);
    RunAcceptedIff(sys, run);
    RunAcceptedIff(sys, before);
    AscendsIsSorted(sys, run);
    AscendsIsSorted(sys, before);
    forall i, j | 0 <= i < j < |batch| ensures batch[i].id != batch[j].id {
      assert run[|before| + i] == batch[i] && run[|before| + j] == batch[j];
    }
    BatchAscends(sys, before, batch, ts);
  }
}
