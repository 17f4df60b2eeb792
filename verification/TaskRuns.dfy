/** What the queue promises over whole runs: bounded attempts, exponential backoff, one winner per row. */
module TaskRuns {
  import opened Microseconds
  import opened Options
  import opened TaskQueue

  datatype Grant = Grant(now: int, ttlSeconds: int)

  function GrantOf(e: Event, id: nat): seq<Grant> {
    if e.Granted? && e.id == id then [Grant(e.now, e.ttlSeconds)] else []
  }

  /** The claims granted on row `id`, in order. */
  function ClaimLog(run: seq<Event>, id: nat): seq<Grant> {
    if run == [] then []
    else
      var n := |run| - 1;
      ClaimLog(run[..n], id) + GrantOf(run[n], id)
  }

  predicate Honest(e: Event) {
    match e
    case Reported(_, status, _, _, _) => status !in {Pending, Claimed, Dead}
    case Enqueued(_, r, _) => r.maxAttempts >= 1
    case _ => true
  }

  /** Workers report progress and outcomes only, and every task may be tried at least once. */
  ghost predicate WorkerProtocol(run: seq<Event>) {
    forall e | e in run :: Honest(e)
  }

  // ---- Attempts and backoff ----

  /** When the claim granted as `log[i]` has expired and the backoff after it is over. */
  function Released(log: seq<Grant>, i: nat): int
    requires i < |log|
  {
    log[i].now + log[i].ttlSeconds * SECOND + Pow2(i + 1) * SECOND
  }

  ghost predicate Spaced(log: seq<Grant>) { forall i | 0 <= i < |log| - 1 :: log[i + 1].now > Released(log, i) }

  /** The invariant of a row against its claims so far. */
  ghost predicate RowOk(t: Task, log: seq<Grant>) {
    && t.attempt == |log| <= t.request.maxAttempts
    && (t.status == Pending ==> t.attempt < t.request.maxAttempts)
    && (t.status == Dead ==> t.attempt == t.request.maxAttempts)
    && (t.status == Claimed ==>
          log != [] && t.claimExpiresAt == Some(log[|log| - 1].now + log[|log| - 1].ttlSeconds * SECOND))
    && (t.status == Pending && log != [] ==> t.nextRetryAt.Some? && t.nextRetryAt.value > Released(log, |log| - 1))
    && Spaced(log)
  }

  ghost predicate QueueOk(run: seq<Event>) {
    forall id :: RowOkIn(After(run).table, id, ClaimLog(run, id))
  }

  lemma GrantKeepsRow(t: Task, log: seq<Grant>, c: Claim, now: int)
    requires RowOk(t, log) && t.status == Pending && (t.nextRetryAt.None? || t.nextRetryAt.value <= now)
    ensures RowOk(ClaimRow(t, c, now), log + [Grant(now, c.ttlSeconds)])
  {
    var log' := log + [Grant(now, c.ttlSeconds)];
    forall i | 0 <= i < |log'| - 1 ensures log'[i + 1].now > Released(log', i) {
      assert Released(log', i) == Released(log, i);
    }
  }

  lemma RecoveryKeepsRow(t: Task, log: seq<Grant>, now: int)
    requires RowOk(t, log) && Stale(t, now)
    ensures RowOk(RecoverRow(t, now), log)
  {
  }

  ghost predicate RowOkIn(table: Table, id: nat, log: seq<Grant>) {
    if id in table then RowOk(table[id], log) else log == []
  }

  lemma StepKeepsRow(s: State, e: Event, id: nat, log: seq<Grant>)
    requires LocksOk(s) && Enabled(s, e) && Honest(e) && RowOkIn(s.table, id, log)
    ensures RowOkIn(Apply(s, e).table, id, log + GrantOf(e, id))
  {
    if e.Granted? && e.id == id {
      GrantKeepsRow(s.table[id], log, s.locks[e.txn].claim, e.now);
    } else {
      assert log + GrantOf(e, id) == log;
      if e.Recovered? && id in s.table && Stale(s.table[id], e.now) { RecoveryKeepsRow(s.table[id], log, e.now); }
    }
  }

  lemma StepKeepsRows(run: seq<Event>)
    requires run != [] && Legal(run) && WorkerProtocol(run) && QueueOk(run[..|run| - 1])
    ensures QueueOk(run)
  {
    var n := |run| - 1;
    RunInvariant(run[..n]);
    forall id ensures RowOkIn(After(run).table, id, ClaimLog(run, id)) {
      assert RowOkIn(After(run[..n]).table, id, ClaimLog(run[..n], id));
      StepKeepsRow(After(run[..n]), run[n], id, ClaimLog(run[..n], id));
    }
  }

  lemma {:induction false} RunKeepsRows(run: seq<Event>)
    requires Legal(run) && WorkerProtocol(run)
    ensures QueueOk(run)
  {
    if run != [] {
      RunKeepsRows(run[..|run| - 1]);
      StepKeepsRows(run);
    }
  }

  /** In every worker-protocol run `attempt` counts the claims ever granted and never exceeds `max_attempts`;
      pending tasks have attempts left, dead tasks have none. */
  lemma AttemptsAreClaims(run: seq<Event>, id: nat)
    requires Legal(run) && WorkerProtocol(run) && id in After(run).table
    ensures var t := After(run).table[id];
            && t.attempt == |ClaimLog(run, id)| <= t.request.maxAttempts
            && (t.status == Pending ==> t.attempt < t.request.maxAttempts)
            && (t.status == Dead ==> t.attempt == t.request.maxAttempts)
  {
    RunKeepsRows(run);
  }

  function TtlSum(log: seq<Grant>): int {
    if log == [] then 0 else TtlSum(log[..|log| - 1]) + log[|log| - 1].ttlSeconds
  }

  lemma {:induction false} SpacedSum(log: seq<Grant>, k: nat)
    requires Spaced(log) && 2 <= k <= |log|
    ensures log[k - 1].now - log[0].now > (TtlSum(log[..k - 1]) + Pow2(k) - 2) * SECOND
  {
    assert log[(k - 2) + 1].now > Released(log, k - 2);
    assert log[..k - 1][..k - 2] == log[..k - 2];
    if k == 2 {
      assert TtlSum(log[..1]) == log[0].ttlSeconds;
    } else {
      SpacedSum(log, k - 1);
    }
  }

  /** Backoff over a whole run: the k-th claim comes later than the first by more than the earlier claims' time to
      live plus 2^k - 2 seconds. */
  lemma Backoff(run: seq<Event>, id: nat, k: nat)
    requires Legal(run) && WorkerProtocol(run) && 2 <= k <= |ClaimLog(run, id)|
    ensures var log := ClaimLog(run, id);
            log[k - 1].now - log[0].now > (TtlSum(log[..k - 1]) + Pow2(k) - 2) * SECOND
  {
    RunKeepsRows(run);
    SpacedSum(ClaimLog(run, id), k);
  }

  // ---- One winner per row ----

  /** This step made row `id` pending again: a sweep recovered it, or a report wrote `pending`. */
  predicate RevivedBy(s: State, e: Event, id: nat) {
    && id in s.table
    && match e
       case Recovered(now) => Stale(s.table[id], now) && RecoverRow(s.table[id], now).status == Pending
       case Reported(x, status, _, _, _) => x == id && status == Pending
       case _ => false
  }

  predicate Revived(run: seq<Event>, m: nat, id: nat) { m < |run| && RevivedBy(After(run[..m]), run[m], id) }

  lemma StepRevives(s: State, e: Event, id: nat)
    requires Enabled(s, e) && id in s.table && s.table[id].status != Pending && Apply(s, e).table[id].status == Pending
    ensures RevivedBy(s, e, id)
  {
  }

  lemma RowsStay(s: State, e: Event, id: nat)
    requires id in s.table
    ensures id in Apply(s, e).table
  {
  }

  lemma {:induction false} GrantedRowExists(run: seq<Event>, i: nat, n: nat, id: nat)
    requires Legal(run) && i < n <= |run| && run[i].Granted? && run[i].id == id
    ensures id in After(run[..n]).table
    ensures n == i + 1 ==> After(run[..n]).table[id].status == Claimed
  {
    StepAt(run, n - 1);
    if i < n - 1 {
      GrantedRowExists(run, i, n - 1, id);
      RowsStay(After(run[..n - 1]), run[n - 1], id);
    }
  }

  /** A granted row that is pending later was revived in between. */
  lemma {:induction false} RevivalBetween(run: seq<Event>, i: nat, n: nat, id: nat) returns (m: nat)
    requires Legal(run) && i < n <= |run| && run[i].Granted? && run[i].id == id
    requires id in After(run[..n]).table && After(run[..n]).table[id].status == Pending
    ensures i < m < n && Revived(run, m, id)
  {
    m := n - 1;
    GrantedRowExists(run, i, n, id);
    GrantedRowExists(run, i, m, id);
    StepAt(run, m);
    if After(run[..m]).table[id].status == Pending {
      m := RevivalBetween(run, i, m, id);
    } else {
      StepRevives(After(run[..m]), run[m], id);
    }
  }

  /** No row is granted twice without a revival in between; under the worker protocol the revival is a recovery. */
  lemma GrantedOncePerRecovery(run: seq<Event>, i: nat, j: nat) returns (m: nat)
    requires Legal(run) && i < j < |run| && run[i].Granted? && run[j].Granted? && run[i].id == run[j].id
    ensures i < m < j && Revived(run, m, run[i].id)
    ensures WorkerProtocol(run) ==> run[m].Recovered?
  {
    GrantedWasPending(run, j);
    m := RevivalBetween(run, i, j, run[i].id);
    assert run[m] in run;
  }

  lemma GrantedWasPending(run: seq<Event>, j: nat)
    requires Legal(run) && j < |run| && run[j].Granted?
    ensures run[j].id in After(run[..j]).table && After(run[..j]).table[run[j].id].status == Pending
  {
    StepAt(run, j);
    LegalPrefix(run, j);
    RunInvariant(run[..j]);
  }

  // ---- Concurrent claims ----

  function ApplyAll(s: State, steps: seq<Event>): State {
    if steps == [] then s else Apply(ApplyAll(s, steps[..|steps| - 1]), steps[|steps| - 1])
  }

  /** A step of a claim of this agent type, whose NOW() lies between these instants. A claim that rolls back is one of
      these claims: its row was free at the start. */
  ghost predicate ClaimStep(s: State, mid: State, e: Event, agentType: string, from: int, to: int) {
    && Enabled(mid, e)
    && match e
       case Locked(_, _, c, t) => c.agentType == agentType && from <= t <= to
       case NothingToLock(_, c, t) => c.agentType == agentType && from <= t <= to
       case Granted(_, _, _, _) => true
       case RolledBack(txn) => txn in mid.locks && mid.locks[txn].id in Candidates(s, agentType, from)
       case _ => false
  }

  /** Claims of one agent type between two instants, locking, committing and rolling back in any interleaving. */
  ghost predicate Claims(s: State, steps: seq<Event>, agentType: string, from: int, to: int) {
    steps == [] ||
      var n := |steps| - 1;
      Claims(s, steps[..n], agentType, from, to) && ClaimStep(s, ApplyAll(s, steps[..n]), steps[n], agentType, from, to)
  }

  /** No retry of this agent type falls due between the two instants. */
  ghost predicate Steady(table: Table, agentType: string, from: int, to: int) {
    forall id | id in table :: Eligible(table[id], agentType, to) ==> Eligible(table[id], agentType, from)
  }

  lemma SteadyCandidates(s: State, agentType: string, from: int, to: int, t: int)
    requires Steady(s.table, agentType, from, to) && from <= t <= to
    ensures Candidates(s, agentType, t) == Candidates(s, agentType, from)
  {
  }

  function StartedBy(e: Event): nat { if e.Locked? || e.NothingToLock? then 1 else 0 }

  /** The number of claim statements started. */
  function Started(steps: seq<Event>): nat {
    if steps == [] then 0 else Started(steps[..|steps| - 1]) + StartedBy(steps[|steps| - 1])
  }

  function EndedBy(e: Event): nat { if e.RolledBack? then 1 else 0 }

  /** The number of claims that rolled back. */
  function RolledBackCount(steps: seq<Event>): nat {
    if steps == [] then 0 else RolledBackCount(steps[..|steps| - 1]) + EndedBy(steps[|steps| - 1])
  }

  function ReturnedBy(s: State, e: Event): set<nat> {
    if e.RolledBack? && e.txn in s.locks then {s.locks[e.txn].id} else {}
  }

  /** The rows that claims locked and gave back. */
  function Returned(s: State, steps: seq<Event>): set<nat> {
    if steps == [] then {}
    else
      var n := |steps| - 1;
      Returned(s, steps[..n]) + ReturnedBy(ApplyAll(s, steps[..n]), steps[n])
  }

  function LockOf(e: Event, id: nat, earlier: Option<Event>): Option<Event> {
    if e.Locked? && e.id == id then Some(e) else earlier
  }

  /** The last claim that locked row `id`. */
  function LastLock(steps: seq<Event>, id: nat): Option<Event> {
    if steps == [] then None else LockOf(steps[|steps| - 1], id, LastLock(steps[..|steps| - 1], id))
  }

  /** Of the rows `all`, `left` are left after `k` claims started and `r` rolled back. */
  ghost predicate Counted(all: set<nat>, left: set<nat>, k: nat, r: nat) {
    && left <= all
    && |all - left| + r <= k
    && (|all - left| + r == k || |all - left| + r >= |all|)
  }

  /** A row left over that comes before a row that was taken has been given back. */
  ghost predicate TakenInOrder(table: Table, all: set<nat>, left: set<nat>, returned: set<nat>) {
    forall c, u | c in all - left && u in left && c in table && u in table && u !in returned ::
      || table[c].request.priority < table[u].request.priority
      || (table[c].request.priority == table[u].request.priority && table[c].createdAt <= table[u].createdAt)
  }

  /** Same position in the claim order. */
  ghost predicate SameRank(a: Table, b: Table) {
    forall id | id in a :: id in b && b[id].request == a[id].request && b[id].createdAt == a[id].createdAt
  }

  /** Row `id` is as it was. */
  ghost predicate Same(s: State, s': State, id: nat) { id in s.table && id in s'.table && s'.table[id] == s.table[id] }

  /** Rows left over or still locked are as they were. */
  ghost predicate Untouched(s: State, s': State, all: set<nat>, left: set<nat>) {
    forall id | id in all && (id in left || LockedRow(s', id)) :: Same(s, s', id)
  }

  /** This claim holds the lock of its row, which is as it was, or has committed and claimed the row. */
  ghost predicate Served(s: State, s': State, e: Event)
    requires e.Locked?
  {
    && e.id in s.table && e.id in s'.table
    && if LockedRow(s', e.id) then
         e.txn in s'.locks && s'.locks[e.txn] == Lock(e.id, e.claim, e.now) && Same(s, s', e.id)
       else s'.table[e.id] == ClaimRow(s.table[e.id], e.claim, e.now)
  }

  ghost predicate ServedLock(s: State, s': State, lock: Option<Event>, id: nat) {
    lock.Some? && lock.value.Locked? && lock.value.id == id && Served(s, s', lock.value)
  }

  /** Every row that was taken belongs to the last claim that locked it. */
  ghost predicate AllServed(s: State, s': State, steps: seq<Event>, all: set<nat>, left: set<nat>) {
    forall id | id in all - left :: ServedLock(s, s', LastLock(steps, id), id)
  }

  /** What a claim's step does to the set of locked rows. */
  predicate LockedNext(mid: State, e: Event, id: nat) {
    if e.Locked? then LockedRow(mid, id) || id == e.id
    else LockedRow(mid, id) && ((e.Granted? || e.RolledBack?) && e.txn in mid.locks ==> id != mid.locks[e.txn].id)
  }

  lemma LockedAfter(mid: State, e: Event, id: nat)
    requires LocksOk(mid) && Enabled(mid, e) && (e.Locked? || e.NothingToLock? || e.Granted? || e.RolledBack?)
    ensures LockedRow(Apply(mid, e), id) <==> LockedNext(mid, e, id)
  {
    var s' := Apply(mid, e);
    if LockedRow(mid, id) {
      var x :| x in mid.locks && mid.locks[x].id == id;
      assert LockedNext(mid, e, id) ==> x in s'.locks && s'.locks[x].id == id;
    }
    if e.Locked? { assert s'.locks[e.txn].id == e.id; }
  }

  lemma LockTakes(mid: State, e: Event, agentType: string, from: int)
    requires LocksOk(mid) && Enabled(mid, e) && e.Locked?
    ensures Candidates(Apply(mid, e), agentType, from) == Candidates(mid, agentType, from) - {e.id}
  {
    forall id ensures LockedRow(Apply(mid, e), id) <==> LockedRow(mid, id) || id == e.id { LockedAfter(mid, e, id); }
  }

  lemma GrantTakes(mid: State, e: Event, agentType: string, from: int)
    requires LocksOk(mid) && Enabled(mid, e) && e.Granted?
    ensures Candidates(Apply(mid, e), agentType, from) == Candidates(mid, agentType, from)
  {
    assert LockedRow(mid, e.id);
    forall id | id != e.id ensures LockedRow(Apply(mid, e), id) <==> LockedRow(mid, id) { LockedAfter(mid, e, id); }
  }

  lemma RollbackReturns(mid: State, e: Event, agentType: string, from: int)
    requires LocksOk(mid) && Enabled(mid, e) && e.RolledBack?
    requires var id := mid.locks[e.txn].id; id in mid.table && Eligible(mid.table[id], agentType, from)
    ensures Candidates(Apply(mid, e), agentType, from) == Candidates(mid, agentType, from) + {mid.locks[e.txn].id}
  {
    forall id ensures LockedRow(Apply(mid, e), id) <==> LockedRow(mid, id) && id != mid.locks[e.txn].id {
      LockedAfter(mid, e, id);
    }
  }

  // ---- One step, on the sets ----

  lemma CountLock(all: set<nat>, left: set<nat>, k: nat, r: nat, id: nat)
    requires Counted(all, left, k, r) && id in left
    ensures Counted(all, left - {id}, k + 1, r)
  {
    assert all - (left - {id}) == (all - left) + {id};
  }

  lemma CountNothing(all: set<nat>, left: set<nat>, k: nat, r: nat)
    requires Counted(all, left, k, r) && left == {}
    ensures Counted(all, left, k + 1, r)
  {
    assert all - left == all;
  }

  lemma CountRollback(all: set<nat>, left: set<nat>, k: nat, r: nat, id: nat)
    requires Counted(all, left, k, r) && id in all && id !in left
    ensures Counted(all, left + {id}, k, r + 1)
  {
    assert all - left == (all - (left + {id})) + {id};
  }

  lemma OrderLock(table: Table, mid: State, all: set<nat>, agentType: string, now: int, returned: set<nat>, id: nat)
    requires SameRank(table, mid.table) && IsNext(mid, agentType, now, id)
    requires TakenInOrder(table, all, Candidates(mid, agentType, now), returned)
    ensures TakenInOrder(table, all, Candidates(mid, agentType, now) - {id}, returned)
  {
    var left := Candidates(mid, agentType, now);
    forall c, u | c in all - (left - {id}) && u in left - {id} && c in table && u in table && u !in returned
      ensures !Before(table[u], table[c])
    {
      assert u in left && !Before(mid.table[u], mid.table[id]);
      assert c in all - left || c == id;
    }
  }

  lemma OrderRollback(table: Table, all: set<nat>, left: set<nat>, returned: set<nat>, id: nat)
    requires TakenInOrder(table, all, left, returned)
    ensures TakenInOrder(table, all, left + {id}, returned + {id})
  {
  }

  /** What a claim's step does to the rows left over. */
  function LeftAfter(mid: State, e: Event, left: set<nat>): set<nat> {
    if e.Locked? then left - {e.id} else left + ReturnedBy(mid, e)
  }

  /** Everything the claims so far have done. */
  ghost predicate ClaimsDone(s: State, mid: State, steps: seq<Event>, agentType: string, from: int, to: int,
                             returned: set<nat>) {
    var all, left := Candidates(s, agentType, from), Candidates(mid, agentType, from);
    && LocksOk(mid) && SameRank(s.table, mid.table) && Steady(mid.table, agentType, from, to)
    && Counted(all, left, Started(steps), RolledBackCount(steps))
    && TakenInOrder(s.table, all, left, returned)
    && Untouched(s, mid, all, left)
    && AllServed(s, mid, steps, all, left)
  }

  lemma StepLeft(s: State, mid: State, steps: seq<Event>, e: Event, agentType: string, from: int, to: int,
                 returned: set<nat>)
    requires ClaimsDone(s, mid, steps, agentType, from, to, returned) && ClaimStep(s, mid, e, agentType, from, to)
    ensures var left := Candidates(mid, agentType, from);
            && Candidates(Apply(mid, e), agentType, from) == LeftAfter(mid, e, left)
            && (e.Locked? ==> IsNext(mid, agentType, from, e.id))
            && (e.NothingToLock? ==> left == {})
            && (e.RolledBack? ==> mid.locks[e.txn].id !in left)
  {
    match e
    case Locked(_, _, _, t) =>
      SteadyCandidates(mid, agentType, from, to, t);
      LockTakes(mid, e, agentType, from);
    case NothingToLock(_, _, t) => SteadyCandidates(mid, agentType, from, to, t);
    case Granted(_, _, _, _) => GrantTakes(mid, e, agentType, from);
    case RolledBack(txn) =>
      assert LockedRow(mid, mid.locks[txn].id);
      assert Same(s, mid, mid.locks[txn].id);
      RollbackReturns(mid, e, agentType, from);
  }

  lemma StepCounted(mid: State, e: Event, all: set<nat>, left: set<nat>, k: nat, r: nat)
    requires Counted(all, left, k, r) && (e.Locked? || e.NothingToLock? || e.Granted? || e.RolledBack?)
    requires e.Locked? ==> e.id in left
    requires e.NothingToLock? ==> left == {}
    requires e.RolledBack? ==> e.txn in mid.locks && mid.locks[e.txn].id in all - left
    ensures Counted(all, LeftAfter(mid, e, left), k + StartedBy(e), r + EndedBy(e))
  {
    match e
    case Locked(_, id, _, _) => CountLock(all, left, k, r, id);
    case NothingToLock(_, _, _) =>
      CountNothing(all, left, k, r);
      assert left + {} == left;
    case Granted(_, _, _, _) => assert left + {} == left;
    case RolledBack(txn) => CountRollback(all, left, k, r, mid.locks[txn].id);
  }

  lemma StepOrder(table: Table, mid: State, e: Event, all: set<nat>, agentType: string, from: int, returned: set<nat>)
    requires SameRank(table, mid.table) && TakenInOrder(table, all, Candidates(mid, agentType, from), returned)
    requires e.Locked? ==> IsNext(mid, agentType, from, e.id)
    ensures var left := LeftAfter(mid, e, Candidates(mid, agentType, from));
            TakenInOrder(table, all, left, returned + ReturnedBy(mid, e))
  {
    var left := Candidates(mid, agentType, from);
    if e.Locked? {
      OrderLock(table, mid, all, agentType, from, returned, e.id);
      assert returned + {} == returned;
    } else if ReturnedBy(mid, e) == {} {
      assert returned + {} == returned && left + {} == left;
    } else {
      OrderRollback(table, all, left, returned, mid.locks[e.txn].id);
    }
  }

  // ---- One step, on the rows ----

  /** The only row a claim's step can change is the one whose claim commits. */
  lemma StepSame(s: State, mid: State, e: Event, agentType: string, from: int, to: int, id: nat)
    requires ClaimStep(s, mid, e, agentType, from, to) && Same(s, mid, id) && (e.Granted? ==> id != e.id)
    ensures Same(s, Apply(mid, e), id)
  {
  }

  lemma StepUntouched(s: State, mid: State, e: Event, agentType: string, from: int, to: int, all: set<nat>)
    requires LocksOk(mid) && ClaimStep(s, mid, e, agentType, from, to)
    requires e.Locked? ==> IsNext(mid, agentType, from, e.id)
    requires var left := Candidates(mid, agentType, from);
             && Untouched(s, mid, all, left) && Candidates(Apply(mid, e), agentType, from) == LeftAfter(mid, e, left)
    ensures Untouched(s, Apply(mid, e), all, Candidates(Apply(mid, e), agentType, from))
  {
    var left, s' := Candidates(mid, agentType, from), Apply(mid, e);
    forall id | id in all && (id in LeftAfter(mid, e, left) || LockedRow(s', id)) ensures Same(s, s', id) {
      LockedAfter(mid, e, id);
      if e.RolledBack? { assert LockedRow(mid, mid.locks[e.txn].id); }
      if e.Granted? { assert LockedRow(mid, e.id); }
      StepSame(s, mid, e, agentType, from, to, id);
    }
  }

  lemma StepServed(s: State, mid: State, e: Event, agentType: string, from: int, to: int, lock: Event)
    requires LocksOk(mid) && ClaimStep(s, mid, e, agentType, from, to) && lock.Locked? && Served(s, mid, lock)
    requires e.Locked? || e.RolledBack? ==> LockedNext(mid, e, lock.id) == LockedRow(mid, lock.id)
    requires e.Granted? && lock.id == e.id ==> Same(s, mid, e.id)
    ensures Served(s, Apply(mid, e), lock)
  {
    LockedAfter(mid, e, lock.id);
    if e.Granted? { assert LockedRow(mid, e.id); }
  }

  lemma NewLockServed(s: State, mid: State, e: Event)
    requires e.Locked? && Enabled(mid, e) && Same(s, mid, e.id)
    ensures Served(s, Apply(mid, e), e)
  {
    assert Apply(mid, e).locks[e.txn] == Lock(e.id, e.claim, e.now);
  }

  lemma StepServedRow(s: State, mid: State, steps: seq<Event>, e: Event, agentType: string, from: int, to: int,
                      returned: set<nat>, id: nat)
    requires ClaimsDone(s, mid, steps, agentType, from, to, returned) && ClaimStep(s, mid, e, agentType, from, to)
    requires e.Locked? ==> e.id in Candidates(mid, agentType, from)
    requires id in Candidates(s, agentType, from) && id !in LeftAfter(mid, e, Candidates(mid, agentType, from))
    ensures ServedLock(s, Apply(mid, e), LockOf(e, id, LastLock(steps, id)), id)
  {
    if e.Locked? && e.id == id {
      assert Same(s, mid, id);
      NewLockServed(s, mid, e);
    } else {
      var lock := LastLock(steps, id);
      assert ServedLock(s, mid, lock, id);
      if e.Granted? && e.id == id { assert LockedRow(mid, id); }
      StepServed(s, mid, e, agentType, from, to, lock.value);
    }
  }

  lemma StepRank(s: State, mid: State, e: Event, agentType: string, from: int, to: int)
    requires ClaimStep(s, mid, e, agentType, from, to)
    requires SameRank(s.table, mid.table) && Steady(mid.table, agentType, from, to)
    ensures SameRank(s.table, Apply(mid, e).table) && Steady(Apply(mid, e).table, agentType, from, to)
  {
  }

  /** From all steps but the last to all steps. */
  lemma LastStepDone(s: State, mid: State, steps: seq<Event>, agentType: string, from: int, to: int,
                     returned: set<nat>)
    requires steps != [] && ClaimsDone(s, mid, steps[..|steps| - 1], agentType, from, to, returned)
    requires ClaimStep(s, mid, steps[|steps| - 1], agentType, from, to)
    ensures var e := steps[|steps| - 1];
            ClaimsDone(s, Apply(mid, e), steps, agentType, from, to, returned + ReturnedBy(mid, e))
  {
    var before, e := steps[..|steps| - 1], steps[|steps| - 1];
    var all, left, s' := Candidates(s, agentType, from), Candidates(mid, agentType, from), Apply(mid, e);
    StepKeepsLocks(mid, e);
    StepRank(s, mid, e, agentType, from, to);
    StepLeft(s, mid, before, e, agentType, from, to, returned);
    StepCounted(mid, e, all, left, Started(before), RolledBackCount(before));
    StepOrder(s.table, mid, e, all, agentType, from, returned);
    StepUntouched(s, mid, e, agentType, from, to, all);
    forall id | id in all - Candidates(s', agentType, from) ensures ServedLock(s, s', LastLock(steps, id), id) {
      StepServedRow(s, mid, before, e, agentType, from, to, returned, id);
    }
  }

  lemma NoClaims(s: State, agentType: string, from: int, to: int)
    requires LocksOk(s) && Steady(s.table, agentType, from, to)
    ensures ClaimsDone(s, s, [], agentType, from, to, {})
  {
  }

  lemma {:induction false} ClaimsHold(s: State, steps: seq<Event>, agentType: string, from: int, to: int)
    requires LocksOk(s) && Claims(s, steps, agentType, from, to) && Steady(s.table, agentType, from, to)
    ensures ClaimsDone(s, ApplyAll(s, steps), steps, agentType, from, to, Returned(s, steps))
  {
    if steps == [] {
      NoClaims(s, agentType, from, to);
    } else {
      var before := steps[..|steps| - 1];
      ClaimsHold(s, before, agentType, from, to);
      LastStepDone(s, ApplyAll(s, before), steps, agentType, from, to, Returned(s, before));
    }
  }

  lemma {:induction false} ReturnedSize(s: State, steps: seq<Event>)
    ensures |Returned(s, steps)| <= RolledBackCount(steps)
  {
    if steps != [] {
      var n := |steps| - 1;
      var before, more := Returned(s, steps[..n]), ReturnedBy(ApplyAll(s, steps[..n]), steps[n]);
      ReturnedSize(s, steps[..n]);
      UnionSize(before, more);
    }
  }

  lemma UnionSize(a: set<nat>, b: set<nat>)
    ensures |a + b| <= |a| + |b|
  {
    assert a + b == a + (b - a) && b == (b - a) + (b * a);
  }

  lemma SubsetSize(a: set<nat>, b: set<nat>)
    requires a <= b
    ensures |a| <= |b|
  {
    assert b == a + (b - a);
  }

  /** k concurrent claims on n eligible rows, of which r roll back, take at least min(k, n) - r and at most
      min(k - r, n) of these rows, so exactly min(k, n) if none rolls back, however their steps interleave, at one
      instant or over a time in which no retry falls due. They take the first rows in `(priority, created_at)` order,
      except for rows that were given back; each row belongs to the last claim that locked it, and the rows left over
      are as they were. */
  lemma ConcurrentClaims(s: State, steps: seq<Event>, agentType: string, from: int, to: int)
    requires LocksOk(s) && Claims(s, steps, agentType, from, to) && Steady(s.table, agentType, from, to)
    ensures var s' := ApplyAll(s, steps);
            var all, left := Candidates(s, agentType, from), Candidates(s', agentType, from);
            var k, r, taken := Started(steps), RolledBackCount(steps), |all - left|;
            && left <= all
            && taken <= |all| && taken <= k - r && (taken >= k - r || taken >= |all| - r)
            && TakenInOrder(s.table, all, left, Returned(s, steps)) && |Returned(s, steps)| <= r
            && AllServed(s, s', steps, all, left)
            && forall id | id in left :: Same(s, s', id)
  {
    var all, left := Candidates(s, agentType, from), Candidates(ApplyAll(s, steps), agentType, from);
    ClaimsHold(s, steps, agentType, from, to);
    ReturnedSize(s, steps);
    SubsetSize(all - left, all);
  }

  /** Once all these claims have ended, the claimed rows among the candidates are exactly the rows they took. */
  lemma EndedClaims(s: State, steps: seq<Event>, agentType: string, from: int, to: int, id: nat)
    requires LocksOk(s) && Claims(s, steps, agentType, from, to) && Steady(s.table, agentType, from, to)
    requires id in Candidates(s, agentType, from) && !LockedRow(ApplyAll(s, steps), id)
    ensures id in ApplyAll(s, steps).table
    ensures ApplyAll(s, steps).table[id].status == Claimed <==> id !in Candidates(ApplyAll(s, steps), agentType, from)
  {
    var s' := ApplyAll(s, steps);
    ClaimsHold(s, steps, agentType, from, to);
    if id in Candidates(s', agentType, from) {
      assert Same(s, s', id);
    } else {
      assert ServedLock(s, s', LastLock(steps, id), id);
    }
  }
}
