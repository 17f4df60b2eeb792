/** What the columns of a row say about the run: each holds what the last step that writes it wrote. */
module TaskHistory {
  import opened Options
  import opened TaskQueue

  /** Some enqueue returned row `id`. */
  predicate Created(run: seq<Event>, id: nat) {
    run != [] && var e := run[|run| - 1]; (e.Enqueued? && e.id == id) || Created(run[..|run| - 1], id)
  }

  /** What the first enqueue that returned row `id` asked for, and when. */
  function FirstRequest(run: seq<Event>, id: nat): Option<(Request, int)> {
    if run == [] then None
    else
      var e, earlier := run[|run| - 1], FirstRequest(run[..|run| - 1], id);
      if earlier.None? && e.Enqueued? && e.id == id then Some((e.request, e.now)) else earlier
  }

  /** The last result submitted for row `id`. */
  function LastResult(run: seq<Event>, id: nat): Option<string> {
    if run == [] then None
    else
      var before, e := run[..|run| - 1], run[|run| - 1];
      if e.Submitted? && e.id == id && Created(before, id) then Some(e.result) else LastResult(before, id)
  }

  /** The error of the last report on row `id`. */
  function LastError(run: seq<Event>, id: nat): Option<string> {
    if run == [] then None
    else
      var before, e := run[..|run| - 1], run[|run| - 1];
      if e.Reported? && e.id == id && Created(before, id) then e.error else LastError(before, id)
  }

  /** The last claim statement of this transaction, and its NOW(). */
  function LastLocked(run: seq<Event>, txn: nat): Option<(Claim, int)> {
    if run == [] then None
    else
      var e := run[|run| - 1];
      if e.Locked? && e.txn == txn then Some((e.claim, e.now)) else LastLocked(run[..|run| - 1], txn)
  }

  /** The claim had expired by then. */
  predicate ExpiredBy(table: Table, id: nat, now: int) {
    && id in table && table[id].status == Claimed
    && table[id].claimExpiresAt.Some? && table[id].claimExpiresAt.value < now
  }

  /** The last claim granted on row `id`, unless a sweep found it expired since. */
  function LastGrant(run: seq<Event>, id: nat): Option<(Claim, int)> {
    if run == [] then None
    else
      var before, e := run[..|run| - 1], run[|run| - 1];
      if e.Granted? && e.id == id then LastLocked(before, e.txn)
      else if e.Recovered? && ExpiredBy(After(before).table, id, e.now) then None
      else LastGrant(before, id)
  }

  ghost predicate ClaimColumns(t: Task, grant: Option<(Claim, int)>) {
    match grant
    case None => t.claimedBy == t.delegatedToken == None && t.claimedAt == t.claimExpiresAt == None
    case Some(g) =>
      && t.claimedBy == Some(g.0.claimedBy) && t.delegatedToken == g.0.delegatedToken
      && t.claimedAt == Some(g.1) && t.claimExpiresAt == Some(g.1 + g.0.ttlSeconds * 1_000_000)
  }

  ghost predicate Tells(run: seq<Event>, t: Task, id: nat) {
    && FirstRequest(run, id) == Some((t.request, t.createdAt))
    && t.result == LastResult(run, id) && t.errorMessage == LastError(run, id)
    && ClaimColumns(t, LastGrant(run, id))
  }

  /** Nothing has been said about a row that was not created. */
  lemma {:induction false} NotCreated(run: seq<Event>, id: nat)
    requires Legal(run) && !Created(run, id)
    ensures id !in After(run).table
    ensures FirstRequest(run, id).None? && LastResult(run, id) == LastError(run, id) == None && LastGrant(run, id).None?
  {
    if run != [] { NotCreated(run[..|run| - 1], id); }
  }

  lemma {:induction false} CreatedStays(run: seq<Event>, id: nat)
    requires Legal(run) && Created(run, id)
    ensures id in After(run).table
  {
    var n := |run| - 1;
    if Created(run[..n], id) { CreatedStays(run[..n], id); }
  }

  lemma {:induction false} LocksTell(run: seq<Event>, txn: nat)
    requires Legal(run) && txn in After(run).locks
    ensures LastLocked(run, txn) == Some((After(run).locks[txn].claim, After(run).locks[txn].now))
  {
    var n := |run| - 1;
    if !(run[n].Locked? && run[n].txn == txn) { LocksTell(run[..n], txn); }
  }

  /** A row begins with the enqueue's columns and no others. */
  lemma NewColumns(s: State, e: Event, id: nat)
    requires Enabled(s, e) && id !in s.table && id in Apply(s, e).table
    ensures e.Enqueued? && e.id == id
    ensures var t := Apply(s, e).table[id];
            && t.request == e.request && t.createdAt == e.now && t.result == t.errorMessage == None
            && ClaimColumns(t, None)
  {
  }

  lemma NewRowTells(run: seq<Event>, id: nat)
    requires run != [] && Legal(run) && id in After(run).table && id !in After(run[..|run| - 1]).table
    ensures Tells(run, After(run).table[id], id)
  {
    var before := run[..|run| - 1];
    if Created(before, id) { CreatedStays(before, id); }
    NotCreated(before, id);
    NewColumns(After(before), run[|run| - 1], id);
  }

  /** What one step does to the caller's columns of an existing row. */
  lemma StepColumns(s: State, e: Event, id: nat)
    requires Enabled(s, e) && id in s.table
    ensures id in Apply(s, e).table
    ensures var t, u := s.table[id], Apply(s, e).table[id];
            && u.request == t.request && u.createdAt == t.createdAt
            && u.result == (if e.Submitted? && e.id == id then Some(e.result) else t.result)
            && u.errorMessage == if e.Reported? && e.id == id then e.error else t.errorMessage
  {
  }

  /** What one step does to its claim columns. */
  lemma StepClaim(s: State, e: Event, id: nat, grant: Option<(Claim, int)>)
    requires Enabled(s, e) && id in s.table && ClaimColumns(s.table[id], grant)
    ensures id in Apply(s, e).table
    ensures var lock := if e.Granted? && e.id == id then Some((s.locks[e.txn].claim, s.locks[e.txn].now)) else grant;
            ClaimColumns(Apply(s, e).table[id], if e.Recovered? && ExpiredBy(s.table, id, e.now) then None else lock)
  {
  }

  lemma StepTells(run: seq<Event>, s: State, id: nat)
    requires run != [] && Legal(run) && After(run[..|run| - 1]) == s && id in s.table
    requires Tells(run[..|run| - 1], s.table[id], id)
    ensures id in Apply(s, run[|run| - 1]).table && Tells(run, Apply(s, run[|run| - 1]).table[id], id)
  {
    var before, e := run[..|run| - 1], run[|run| - 1];
    assert Created(before, id) by { if !Created(before, id) { NotCreated(before, id); } }
    if e.Granted? && e.id == id { LocksTell(before, e.txn); }
    StepColumns(s, e, id);
    StepClaim(s, e, id, LastGrant(before, id));
  }

  /** In every legal run, request and creation time are those of the first enqueue, the result is that of the last
      submission, the error message that of the last report, and the claim columns are those of the last claim granted,
      or empty since the sweep that found it expired. */
  lemma {:induction false} ColumnsTellRun(run: seq<Event>, id: nat)
    requires Legal(run) && id in After(run).table
    ensures Tells(run, After(run).table[id], id)
  {
    var before := run[..|run| - 1];
    if id in After(before).table {
      ColumnsTellRun(before, id);
      StepTells(run, After(before), id);
    } else {
      NewRowTells(run, id);
    }
  }
}
