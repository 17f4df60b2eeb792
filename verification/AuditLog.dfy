/** The audit log with the repository's own hash: SHA-256 over the pre-image text. SHA-256 stays abstract;
    "collision free" is asked only of the texts that the appender and the verifier digest. */
module AuditLog {
  import opened Json
  import opened Canonical
  import opened AuditHash
  import opened AuditChain
  import opened Sorting

  datatype Deployment = Deployment(sha: string -> string, genesis: string, parse: string -> int, iso: int -> string)

  /** computeAuditHash */
  function ComputeAuditHash(sha: string -> string): (string, Payload) -> string {
    (prev: string, p: Payload) => sha(PreImage(prev, p))
  }

  function Running(d: Deployment): System {
    System(ComputeAuditHash(d.sha), d.genesis, d.parse, d.iso)
  }

  /** Digests are printed in hexadecimal, and the genesis value has no brace either. */
  ghost predicate HexDigests(d: Deployment) { !HasBrace(d.genesis) && forall s :: !HasBrace(d.sha(s)) }

  ghost function Texts(inputs: set<(string, Payload)>): set<string> { set x | x in inputs :: PreImage(x.0, x.1) }

  ghost predicate CollisionFree(d: Deployment, texts: set<string>) {
    && (forall s, t | s in texts && t in texts && d.sha(s) == d.sha(t) :: s == t)
    && (forall s | s in texts :: d.sha(s) != d.genesis)
  }

  ghost predicate Printable(inputs: set<(string, Payload)>) {
    forall x | x in inputs :: !HasBrace(x.0) && WellFormedPayload(x.1)
  }

  ghost predicate WellFormedRows(rows: seq<Row>) { forall r | r in rows :: WellFormed(r.before) && WellFormed(r.after) }

  /** SHA-256 over the canonical text ignores key order. */
  lemma HashIgnoresKeyOrder(d: Deployment)
    ensures IgnoresKeyOrder(Running(d))
  {
    forall prev, x, y | WellFormedPayload(x) && WellFormedPayload(y) && SamePayload(x, y)
      ensures PreImage(prev, x) == PreImage(prev, y)
    {
      CanonicalDecides(x.before, y.before);
      CanonicalDecides(x.after, y.after);
    }
  }

  /** A hash that tells the pre-images apart binds the inputs. */
  lemma HashBinds(d: Deployment, inputs: set<(string, Payload)>)
    requires Printable(inputs) && CollisionFree(d, Texts(inputs))
    ensures Binding(Running(d), inputs)
  {
    var sys := Running(d);
    forall x, y | x in inputs && y in inputs && sys.digest(x.0, x.1) == sys.digest(y.0, y.1)
      ensures x.0 == y.0 && SamePayload(x.1, y.1)
    {
      assert PreImage(x.0, x.1) in Texts(inputs) && PreImage(y.0, y.1) in Texts(inputs);
      PreImageDetermines(x.0, x.1, y.0, y.1);
    }
    forall x | x in inputs ensures sys.digest(x.0, x.1) != sys.genesis {
      assert PreImage(x.0, x.1) in Texts(inputs);
    }
  }

  lemma DigestHasNoBrace(d: Deployment, prev: string, p: Payload)
    requires HexDigests(d)
    ensures !HasBrace(Running(d).digest(prev, p))
  {
    assert Running(d).digest(prev, p) == d.sha(PreImage(prev, p));
  }

  lemma ChainIsPrintable(d: Deployment, rows: seq<Row>)
    requires HexDigests(d) && IsChain(Running(d), rows) && WellFormedRows(rows)
    ensures Printable(Inputs(Running(d), rows))
  {
    var sys := Running(d);
    forall x | x in Inputs(sys, rows) ensures !HasBrace(x.0) && WellFormedPayload(x.1) {
      var r :| r in rows && x == InputOf(sys, r);
      var k :| 0 <= k < |rows| && rows[k] == r;
      assert Links(sys, rows, k);
      if k > 0 {
        assert Links(sys, rows, k - 1);
        DigestHasNoBrace(d, rows[k - 1].prevHash, PayloadOf(sys, rows[k - 1]));
      }
    }
  }

  /** Tamper evidence: two accepted logs that end in the same hash have the same length and agree row by row on
      every hashed field, unless their own texts exhibit a SHA-256 collision. */
  lemma TamperEvident(d: Deployment, a: seq<Row>, b: seq<Row>)
    requires HexDigests(d) && WellFormedRows(a) && WellFormedRows(b)
    requires IsChain(Running(d), a) && IsChain(Running(d), b)
    requires CollisionFree(d, Texts(Inputs(Running(d), a) + Inputs(Running(d), b)))
    requires Expected(Running(d), a, |a|) == Expected(Running(d), b, |b|)
    ensures Agree(Running(d), a, b)
  {
    ChainIsPrintable(d, a);
    ChainIsPrintable(d, b);
    HashBinds(d, Inputs(Running(d), a) + Inputs(Running(d), b));
    ChainsAgree(Running(d), a, b);
  }

  lemma LatestHashHasNoBrace(d: Deployment, rows: seq<Row>)
    requires HexDigests(d) && forall r | r in rows :: !HasBrace(r.hash)
    ensures !HasBrace(LatestHash(Running(d), rows))
  {
  }

  /** Emitting onto an accepted log: it is accepted again exactly when the new row sorts last by `(ts, id)` and its
      timestamp text is the canonical one; otherwise the verifier names the new row. */
  lemma VerifyAfterEmit(d: Deployment, rows: seq<Row>, e: Emission)
    requires HexDigests(d) && FaithfulStorage(e) && WellFormedRows(rows)
    requires DistinctIds(rows + [EmittedRow(Running(d), rows, e)]) && IsChain(Running(d), InOrder(rows))
    requires CollisionFree(d, Texts(EmissionInputs(Running(d), rows, e)))
    ensures var r := EmittedRow(Running(d), rows, e);
            var s := InOrder(rows + [r]);
            && (IsChain(Running(d), s) <==> s[|rows|] == r && CanonicalTimestamp(Running(d), e))
            && (!IsChain(Running(d), s) ==> exists k: nat :: FirstBreak(Running(d), s, k) && s[k] == r)
  {
    EmissionIsPrintable(d, rows, e);
    HashBinds(d, EmissionInputs(Running(d), rows, e));
    HashIgnoresKeyOrder(d);
    EmitOutcome(Running(d), rows, e);
  }

  lemma EmissionIsPrintable(d: Deployment, rows: seq<Row>, e: Emission)
    requires HexDigests(d) && FaithfulStorage(e) && WellFormedRows(rows) && IsChain(Running(d), InOrder(rows))
    ensures Printable(EmissionInputs(Running(d), rows, e))
  {
    var sys := Running(d);
    SameMembers(rows);
    SameInputs(sys, rows);
    ChainIsPrintable(d, InOrder(rows));
    forall r | r in rows ensures !HasBrace(r.hash) {
      var k :| 0 <= k < |InOrder(rows)| && InOrder(rows)[k] == r;
      assert Links(sys, InOrder(rows), k);
      DigestHasNoBrace(d, r.prevHash, PayloadOf(sys, r));
    }
    LatestHashHasNoBrace(d, rows);
  }

  /** A run of emissions from the empty table, with ids drawn once each and JSONB storage. */
  ghost predicate HonestRun(d: Deployment, run: seq<Emission>) {
    && HexDigests(d)
    && (forall i, j | 0 <= i < j < |run| :: run[i].id != run[j].id)
    && (forall e | e in run :: FaithfulStorage(e))
    && CollisionFree(d, Texts(RunInputs(Running(d), run)))
  }

  lemma EmittedIsPrintable(d: Deployment, run: seq<Emission>, i: nat)
    requires HexDigests(d) && i < |run| && FaithfulStorage(run[i])
    ensures var r := Emitted(Running(d), run)[i];
            !HasBrace(r.prevHash) && !HasBrace(r.hash) && WellFormed(r.before) && WellFormed(r.after)
  {
    var sys := Running(d);
    var rows := Emitted(sys, run);
    EmittedAt(sys, run, i);
    forall r | r in rows[..i] ensures !HasBrace(r.hash) {
      var k :| 0 <= k < i && rows[k] == r;
      EmittedAt(sys, run, k);
      DigestHasNoBrace(d, r.prevHash, run[k].event);
    }
    LatestHashHasNoBrace(d, rows[..i]);
    DigestHasNoBrace(d, rows[i].prevHash, run[i].event);
  }

  lemma RunIsPrintable(d: Deployment, run: seq<Emission>)
    requires HexDigests(d) && forall e | e in run :: FaithfulStorage(e)
    ensures Printable(RunInputs(Running(d), run))
  {
    forall i | 0 <= i < |run|
      ensures var r := Emitted(Running(d), run)[i];
              !HasBrace(r.prevHash) && WellFormed(r.before) && WellFormed(r.after) && WellFormedPayload(run[i].event)
    {
      assert run[i] in run;
      EmittedIsPrintable(d, run, i);
    }
  }

  lemma HonestRunBinds(d: Deployment, run: seq<Emission>)
    requires HonestRun(d, run)
    ensures RunOk(Running(d), run)
  {
    RunIsPrintable(d, run);
    HashBinds(d, RunInputs(Running(d), run));
    HashIgnoresKeyOrder(d);
  }

  /** The verifier accepts the log of a whole run exactly when the insertion order is the `(ts, id)` order and
      every timestamp text is canonical. */
  lemma RunVerifiesIff(d: Deployment, run: seq<Emission>)
    requires HonestRun(d, run)
    ensures IsChain(Running(d), InOrder(Emitted(Running(d), run)))
       <==> Ascends(Running(d), run) && forall e | e in run :: CanonicalTimestamp(Running(d), e)
  {
    HonestRunBinds(d, run);
    RunAcceptedIff(Running(d), run);
    AscendsIsSorted(Running(d), run);
  }

  /** Stale-claim recovery stamps a whole batch with one timestamp: after earlier emissions such a log verifies exactly
      when it did before the batch and the ids of the batch happen to ascend in emission order. */
  lemma RecoveryBatchVerifiesIff(d: Deployment, before: seq<Emission>, batch: seq<Emission>, ts: string)
    requires HonestRun(d, before + batch) && Earlier(Running(d), before, ts) && Stamped(Running(d), batch, ts)
    ensures IsChain(Running(d), InOrder(Emitted(Running(d), before + batch)))
       <==> IsChain(Running(d), InOrder(Emitted(Running(d), before))) && IdsAscend(batch)
  {
    HonestRunBinds(d, before + batch);
    SharedTimestampBatch(Running(d), before, batch, ts);
  }
}
