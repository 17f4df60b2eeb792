/** The PostgreSQL task queue (packages/db/task-queue.ts): each SQL statement is one atomic step on the table,
    except the claim, whose row lock (FOR UPDATE SKIP LOCKED) and commit are two steps. Times are microseconds. */
module TaskQueue {
  import opened Microseconds
  import opened Options

  datatype Status = Pending | Claimed | Running | Submitting | Completed | Failed | Dead

  /** The columns the caller of enqueueTask provides; no later statement writes them. */
  datatype Request = Request(
    key: string, agentType: string, jobType: string, payload: string, correlationId: Option<string>,
    createdBy: string, priority: int, maxAttempts: int)

  datatype Task = Task(
    request: Request, status: Status, claimedBy: Option<string>, claimedAt: Option<int>, claimExpiresAt: Option<int>,
    delegatedToken: Option<string>, result: Option<string>, errorMessage: Option<string>, attempt: nat,
    nextRetryAt: Option<int>, createdAt: int, updatedAt: int)

  type Table = map<nat, Task>

  datatype Claim = Claim(agentType: string, claimedBy: string, delegatedToken: Option<string>, ttlSeconds: int)

  /** A claim statement that holds the lock on its row; `now` is the statement's NOW(). */
  datatype Lock = Lock(id: nat, claim: Claim, now: int)

  datatype State = State(table: Table, locks: map<nat, Lock>)

  function Pow2(n: nat): (r: nat)
    ensures r >= 1
  {
    if n == 0 then 1 else 2 * Pow2(n - 1)
  }

  // ---- One row under each statement ----

  function NewTask(r: Request, now: int): Task {
    Task(r, Pending, None, None, None, None, None, None, 0, None, now, now)
  }

  function ClaimRow(t: Task, c: Claim, now: int): Task {
    t.(status := Claimed, claimedBy := Some(c.claimedBy), claimedAt := Some(now),
       claimExpiresAt := Some(now + c.ttlSeconds * SECOND), delegatedToken := c.delegatedToken,
       attempt := t.attempt + 1, updatedAt := now)
  }

  function ReportRow(t: Task, status: Status, error: Option<string>, retryAt: Option<int>, now: int): Task {
    t.(status := status, errorMessage := error, nextRetryAt := retryAt, updatedAt := now)
  }

  function SubmitRow(t: Task, result: string, now: int): Task {
    t.(status := Completed, result := Some(result), updatedAt := now)
  }

  /** A claimed row whose claim has expired. */
  predicate Stale(t: Task, now: int) {
    t.status == Claimed && t.claimExpiresAt.Some? && t.claimExpiresAt.value < now
  }

  function RecoverRow(t: Task, now: int): Task {
    var exhausted := t.attempt >= t.request.maxAttempts;
    t.(status := if exhausted then Dead else Pending,
       claimedBy := None, claimedAt := None, claimExpiresAt := None, delegatedToken := None,
       nextRetryAt := if exhausted then None else Some(now + Pow2(t.attempt) * SECOND),
       updatedAt := now)
  }

  function RecoverTable(table: Table, now: int): Table {
    map id | id in table :: if Stale(table[id], now) then RecoverRow(table[id], now) else table[id]
  }

  function StaleIds(table: Table, now: int): set<nat> { set id | id in table && Stale(table[id], now) }

  // ---- Claiming: which row a claim statement locks ----

  predicate LockedRow(s: State, id: nat) { exists txn | txn in s.locks :: s.locks[txn].id == id }

  predicate Eligible(t: Task, agentType: string, now: int) {
    t.request.agentType == agentType && t.status == Pending && (t.nextRetryAt.None? || t.nextRetryAt.value <= now)
  }

  /** The rows the sub-select can return: eligible, and not locked by another claim. */
  function Candidates(s: State, agentType: string, now: int): set<nat> {
    set id | id in s.table && Eligible(s.table[id], agentType, now) && !LockedRow(s, id)
  }

  /** `ORDER BY priority ASC, created_at ASC`, strictly before */
  predicate Before(t: Task, u: Task) {
    t.request.priority < u.request.priority || (t.request.priority == u.request.priority && t.createdAt < u.createdAt)
  }

  predicate IsNext(s: State, agentType: string, now: int, id: nat) {
    && id in Candidates(s, agentType, now)
    && forall other | other in Candidates(s, agentType, now) :: !Before(s.table[other], s.table[id])
  }

  /** What `ORDER BY priority ASC, created_at ASC LIMIT 1 FOR UPDATE SKIP LOCKED` returns, column by column: a due row
      of the agent type that no lock names, and no such row has a smaller priority, or the same and an earlier
      creation. */
  lemma NextIsFirst(s: State, agentType: string, now: int, id: nat)
    ensures IsNext(s, agentType, now, id) <==>
            && id in s.table && s.table[id].status == Pending && s.table[id].request.agentType == agentType
            && (s.table[id].nextRetryAt.None? || s.table[id].nextRetryAt.value <= now)
            && (forall x | x in s.locks :: s.locks[x].id != id)
            && forall other |
                 && other in s.table && s.table[other].status == Pending
                 && s.table[other].request.agentType == agentType
                 && (s.table[other].nextRetryAt.None? || s.table[other].nextRetryAt.value <= now)
                 && (forall x | x in s.locks :: s.locks[x].id != other) ::
                   || s.table[id].request.priority < s.table[other].request.priority
                   || (s.table[id].request.priority == s.table[other].request.priority
                       && s.table[id].createdAt <= s.table[other].createdAt)
  {
    forall other | other in s.table && s.table[other].status == Pending
                   && s.table[other].request.agentType == agentType
                   && (s.table[other].nextRetryAt.None? || s.table[other].nextRetryAt.value <= now)
                   && (forall x | x in s.locks :: s.locks[x].id != other)
      ensures other in Candidates(s, agentType, now)
    {
    }
  }

  lemma NoneIsFree(s: State, agentType: string, now: int)
    ensures Candidates(s, agentType, now) == {} <==>
            forall id |
              && id in s.table && s.table[id].status == Pending && s.table[id].request.agentType == agentType
              && (s.table[id].nextRetryAt.None? || s.table[id].nextRetryAt.value <= now) ::
                exists x | x in s.locks :: s.locks[x].id == id
  {
    forall id | id in s.table && Eligible(s.table[id], agentType, now) && !LockedRow(s, id)
      ensures id in Candidates(s, agentType, now)
    {
    }
  }

  predicate HasKey(table: Table, key: string) { exists id | id in table :: table[id].request.key == key }

  // ---- Steps ----

  datatype Event =
    | Enqueued(id: nat, request: Request, now: int)  // the row returned has this id
    | Locked(txn: nat, id: nat, claim: Claim, now: int)
    | NothingToLock(txn: nat, claim: Claim, now: int)
    | Granted(txn: nat, id: nat, now: int, ttlSeconds: int)  // the claim on row `id` commits
    | RolledBack(txn: nat)
    | Reported(id: nat, status: Status, error: Option<string>, retryAt: Option<int>, now: int)
    | Submitted(id: nat, result: string, now: int)
    | Recovered(now: int)

  ghost predicate Enabled(s: State, e: Event) {
    match e
    case Enqueued(id, r, _) =>
      if HasKey(s.table, r.key) then id in s.table && s.table[id].request.key == r.key else id !in s.table
    case Locked(txn, id, c, now) => txn !in s.locks && IsNext(s, c.agentType, now, id)
    case NothingToLock(txn, c, now) => txn !in s.locks && Candidates(s, c.agentType, now) == {}
    case Granted(txn, id, now, ttl) =>
      && txn in s.locks && s.locks[txn].id == id && s.locks[txn].now == now && s.locks[txn].claim.ttlSeconds == ttl
      && id in s.table
    case RolledBack(txn) => txn in s.locks
    case Reported(id, _, _, _, _) => !LockedRow(s, id)  // an UPDATE waits for the row lock
    case Submitted(id, _, _) => !LockedRow(s, id)
    case Recovered(_) => true
  }

  function Apply(s: State, e: Event): State {
    match e
    case Enqueued(id, r, now) => if HasKey(s.table, r.key) then s else s.(table := s.table[id := NewTask(r, now)])
    case Locked(txn, id, c, now) => s.(locks := s.locks[txn := Lock(id, c, now)])
    case NothingToLock(_, _, _) => s
    case Granted(txn, id, _, _) =>
      if txn in s.locks && id in s.table then
        State(s.table[id := ClaimRow(s.table[id], s.locks[txn].claim, s.locks[txn].now)], s.locks - {txn})
      else s
    case RolledBack(txn) => s.(locks := s.locks - {txn})
    case Reported(id, status, error, retryAt, now) =>
      if id in s.table then s.(table := s.table[id := ReportRow(s.table[id], status, error, retryAt, now)]) else s
    case Submitted(id, result, now) =>
      if id in s.table then s.(table := s.table[id := SubmitRow(s.table[id], result, now)]) else s
    case Recovered(now) => s.(table := RecoverTable(s.table, now))
  }

  const Empty := State(map[], map[])

  function After(run: seq<Event>): State {
    if run == [] then Empty else Apply(After(run[..|run| - 1]), run[|run| - 1])
  }

  /** Every step was possible when it was taken. */
  ghost predicate Legal(run: seq<Event>) {
    run == [] || (Legal(run[..|run| - 1]) && Enabled(After(run[..|run| - 1]), run[|run| - 1]))
  }

  lemma {:induction false} LegalPrefix(run: seq<Event>, n: nat)
    requires Legal(run) && n <= |run|
    ensures Legal(run[..n])
  {
    if n < |run| {
      LegalPrefix(run[..|run| - 1], n);
      assert run[..|run| - 1][..n] == run[..n];
    } else {
      assert run[..n] == run;
    }
  }

  lemma StepAt(run: seq<Event>, i: nat)
    requires Legal(run) && i < |run|
    ensures Enabled(After(run[..i]), run[i]) && After(run[..i + 1]) == Apply(After(run[..i]), run[i])
  {
    LegalPrefix(run, i + 1);
    assert run[..i + 1][..i] == run[..i];
  }

  /** From `s` to `mid` row `id` has become free: at once, or because the one claim that locks it has ended. */
  ghost predicate Awaited(s: State, id: nat, commits: bool, mid: State) {
    && !LockedRow(mid, id)
    && if !LockedRow(s, id) then mid == s else exists txn :: Ends(s, txn, id, commits, mid)
  }

  ghost predicate Ends(s: State, txn: nat, id: nat, commits: bool, mid: State) {
    && txn in s.locks && s.locks[txn].id == id
    && var e := if commits then Granted(txn, id, s.locks[txn].now, s.locks[txn].claim.ttlSeconds) else RolledBack(txn);
       Enabled(s, e) && mid == Apply(s, e)
  }

  // ---- The statements, on the table in place ----

  class Queue {
    var table: Table
    var locks: map<nat, Lock>

    ghost function Now(): State reads this { State(table, locks) }

    constructor ()
      ensures Now() == Empty
    {
      table := map[];
      locks := map[];
    }

    /** INSERT ... ON CONFLICT (idempotency_key) DO UPDATE SET updated_at = task_queue.updated_at RETURNING *.
        `fresh` is the id the database would draw. */
    method EnqueueTask(r: Request, freshId: nat, now: int) returns (id: nat, row: Task)
      requires freshId !in table
      modifies this`table
      ensures Enabled(old(Now()), Enqueued(id, r, now)) && Now() == Apply(old(Now()), Enqueued(id, r, now))
      ensures id in table && row == table[id] && row.request.key == r.key
      ensures (exists x | x in old(table) :: old(table)[x].request.key == r.key) ==> table == old(table)
      ensures (forall x | x in old(table) :: old(table)[x].request.key != r.key) ==>
                && table == old(table)[freshId := row] && row.request == r
                && row.status == Pending && row.attempt == 0 && row.createdAt == row.updatedAt == now
                && row.claimedBy == row.delegatedToken == row.result == row.errorMessage == None
                && row.claimedAt == row.claimExpiresAt == row.nextRetryAt == None
    {
      var existing := set x | x in table && table[x].request.key == r.key;
      if existing != {} {
        id :| id in existing;
        assert HasKey(table, r.key);
        row := table[id];
      } else {
        assert forall x | x in table && table[x].request.key == r.key :: x in existing;
        id, row := freshId, NewTask(r, now);
        table := table[id := row];
      }
    }

    /** The sub-select of the claim: `ORDER BY priority ASC, created_at ASC LIMIT 1`, skipping locked rows. */
    method SelectNext(agentType: string, now: int) returns (next: Option<nat>)
      ensures next.None? ==> Candidates(Now(), agentType, now) == {}
      ensures next.Some? ==> IsNext(Now(), agentType, now, next.value)
    {
      var remaining := Candidates(State(table, locks), agentType, now);
      if remaining == {} { return None; }
      var best :| best in remaining;
      remaining := remaining - {best};
      while remaining != {}
        invariant best in Candidates(Now(), agentType, now)
        invariant forall x | x in Candidates(Now(), agentType, now) && x !in remaining :: !Before(table[x], table[best])
        invariant remaining <= Candidates(Now(), agentType, now)
        decreases |remaining|
      {
        var x :| x in remaining;
        if Before(table[x], table[best]) { best := x; }
        remaining := remaining - {x};
      }
      next := Some(best);
    }

    /** Locks the first due row of the agent type, by priority and then by age, that no other claim has locked; none
        only if every due row is locked. */
    method LockNext(txn: nat, c: Claim, now: int) returns (locked: Option<nat>)
      requires txn !in locks
      modifies this`locks
      ensures match locked
              case Some(id) =>
                Enabled(old(Now()), Locked(txn, id, c, now)) && Now() == Apply(old(Now()), Locked(txn, id, c, now))
              case None => Enabled(old(Now()), NothingToLock(txn, c, now)) && Now() == old(Now())
      ensures locked.Some? ==>
                && locked.value in table && table[locked.value].status == Pending
                && table[locked.value].request.agentType == c.agentType
                && (table[locked.value].nextRetryAt.None? || table[locked.value].nextRetryAt.value <= now)
                && (forall x | x in old(locks) :: old(locks)[x].id != locked.value)
                && locks == old(locks)[txn := Lock(locked.value, c, now)]
      ensures locked.Some? ==> forall id |
                && id in table && table[id].status == Pending && table[id].request.agentType == c.agentType
                && (table[id].nextRetryAt.None? || table[id].nextRetryAt.value <= now)
                && (forall x | x in old(locks) :: old(locks)[x].id != id) ::
                  var first := table[locked.value];
                  || first.request.priority < table[id].request.priority
                  || (first.request.priority == table[id].request.priority && first.createdAt <= table[id].createdAt)
      ensures locked.None? ==> forall id |
                && id in table && table[id].status == Pending && table[id].request.agentType == c.agentType
                && (table[id].nextRetryAt.None? || table[id].nextRetryAt.value <= now) ::
                  exists x | x in locks :: locks[x].id == id
    {
      locked := SelectNext(c.agentType, now);
      NoneIsFree(Now(), c.agentType, now);
      if locked.None? { return; }
      NextIsFirst(Now(), c.agentType, now, locked.value);
      locks := locks[txn := Lock(locked.value, c, now)];
    }

    /** The outer UPDATE of the claim, and its commit. */
    method CommitClaim(txn: nat) returns (row: Task)
      requires txn in locks && locks[txn].id in table
      modifies this
      ensures var l := old(locks[txn]);
              && Enabled(old(Now()), Granted(txn, l.id, l.now, l.claim.ttlSeconds))
              && Now() == Apply(old(Now()), Granted(txn, l.id, l.now, l.claim.ttlSeconds))
              && row == ClaimRow(old(table)[l.id], l.claim, l.now) && table == old(table)[l.id := row]
              && row.status == Claimed && row.attempt == old(table)[l.id].attempt + 1
              && row.claimedBy == Some(l.claim.claimedBy) && row.delegatedToken == l.claim.delegatedToken
              && row.claimedAt == Some(l.now) && row.claimExpiresAt == Some(l.now + l.claim.ttlSeconds * 1_000_000)
      ensures locks == old(locks) - {txn}
    {
      var l := locks[txn];
      row := ClaimRow(table[l.id], l.claim, l.now);
      table := table[l.id := row];
      locks := locks - {txn};
    }

    /** claimNextTask, run without interleaving: the first candidate is claimed, or nothing is there. */
    method ClaimNextTask(txn: nat, c: Claim, now: int) returns (row: Option<Task>)
      requires txn !in locks
      modifies this
      ensures locks == old(locks)
      ensures row.None? ==> table == old(table) && Candidates(old(Now()), c.agentType, now) == {}
      ensures row.Some? ==> exists id ::
                && IsNext(old(Now()), c.agentType, now, id)
                && row.value == ClaimRow(old(table)[id], c, now) && table == old(table)[id := row.value]
      ensures row.Some? ==> exists id | id in table ::
                && table == old(table)[id := row.value] && old(table)[id].status == Pending
                && old(table)[id].request.agentType == c.agentType
                && (old(table)[id].nextRetryAt.None? || old(table)[id].nextRetryAt.value <= now)
                && (forall x | x in locks :: locks[x].id != id)
                && forall other |
                     && other in old(table) && old(table)[other].status == Pending
                     && old(table)[other].request.agentType == c.agentType
                     && (old(table)[other].nextRetryAt.None? || old(table)[other].nextRetryAt.value <= now)
                     && (forall x | x in locks :: locks[x].id != other) ::
                       var first, t := old(table)[id], old(table)[other];
                       || first.request.priority < t.request.priority
                       || (first.request.priority == t.request.priority && first.createdAt <= t.createdAt)
      ensures row.None? ==> forall id |
                && id in table && table[id].status == Pending && table[id].request.agentType == c.agentType
                && (table[id].nextRetryAt.None? || table[id].nextRetryAt.value <= now) ::
                  exists x | x in locks :: locks[x].id == id
    {
      var locked := LockNext(txn, c, now);
      match locked
      case None => row := None;
      case Some(id) =>
        assert locks - {txn} == old(locks);
        var claimed := CommitClaim(txn);
        row := Some(claimed);
        assert IsNext(old(Now()), c.agentType, now, id);
    }

    /** A statement on a row that a claim has locked waits until that claim's transaction ends, with a commit or a
        rollback. */
    method AwaitRow(id: nat, commits: bool)
      requires LocksOk(Now())
      modifies this
      ensures Awaited(old(Now()), id, commits, Now())
    {
      var holders := set txn | txn in locks && locks[txn].id == id;
      if holders == {} {
        assert forall txn | txn in locks && locks[txn].id == id :: txn in holders;
        return;
      }
      var txn :| txn in holders;
      if commits {
        var row := CommitClaim(txn);
      } else {
        locks := locks - {txn};
      }
      assert Ends(old(Now()), txn, id, commits, Now());
    }

    method UpdateTaskStatus(id: nat, status: Status, error: Option<string>, retryAt: Option<int>, now: int,
                            commits: bool)
      returns (row: Option<Task>)
      requires LocksOk(Now())
      modifies this
      ensures exists mid ::
                && Awaited(old(Now()), id, commits, mid) && Enabled(mid, Reported(id, status, error, retryAt, now))
                && Now() == Apply(mid, Reported(id, status, error, retryAt, now))
                && row == (if id in mid.table then Some(table[id]) else None)
                && table == if id !in mid.table then mid.table else
                     mid.table[id := mid.table[id].(status := status, errorMessage := error, nextRetryAt := retryAt,
                                                    updatedAt := now)]
    {
      AwaitRow(id, commits);
      ghost var mid := Now();
      assert Enabled(mid, Reported(id, status, error, retryAt, now));
      row := None;
      if id in table {
        var updated := ReportRow(table[id], status, error, retryAt, now);
        table := table[id := updated];
        row := Some(updated);
      }
      assert Now() == Apply(mid, Reported(id, status, error, retryAt, now));
    }

    method SubmitTaskResult(id: nat, result: string, now: int, commits: bool) returns (row: Option<Task>)
      requires LocksOk(Now())
      modifies this
      ensures exists mid ::
                && Awaited(old(Now()), id, commits, mid) && Enabled(mid, Submitted(id, result, now))
                && Now() == Apply(mid, Submitted(id, result, now))
                && row == (if id in mid.table then Some(table[id]) else None)
                && table == if id !in mid.table then mid.table else
                     mid.table[id := mid.table[id].(status := Completed, result := Some(result), updatedAt := now)]
    {
      AwaitRow(id, commits);
      ghost var mid := Now();
      assert Enabled(mid, Submitted(id, result, now));
      row := None;
      if id in table {
        var updated := SubmitRow(table[id], result, now);
        table := table[id := updated];
        row := Some(updated);
      }
      assert Now() == Apply(mid, Submitted(id, result, now));
    }

    /** The sweep changes exactly the stale claims, and returns exactly those, as they now are. */
    method RecoverStaleClaims(now: int) returns (recovered: Table)
      modifies this`table
      ensures Now() == Apply(old(Now()), Recovered(now))
      ensures recovered.Keys == StaleIds(old(table), now)
      ensures forall id | id in table ::
                id in recovered <==>
                  && old(table)[id].status == Claimed && old(table)[id].claimExpiresAt.Some?
                  && old(table)[id].claimExpiresAt.value < now
      ensures forall id | id in recovered ::
                var exhausted := old(table)[id].attempt >= old(table)[id].request.maxAttempts;
                recovered[id] == old(table)[id].(
                  status := if exhausted then Dead else Pending, claimedBy := None, claimedAt := None,
                  claimExpiresAt := None, delegatedToken := None, updatedAt := now,
                  nextRetryAt := if exhausted then None else Some(now + Pow2(old(table)[id].attempt) * 1_000_000))
      ensures table.Keys == old(table).Keys
      ensures forall id | id in table ::
                if id in recovered then
                  table[id] == recovered[id] == RecoverRow(old(table)[id], now) && table[id] != old(table)[id]
                else table[id] == old(table)[id]
      ensures StaleIds(table, now) == {}
    {
      recovered := map id | id in table && Stale(table[id], now) :: RecoverRow(table[id], now);
      table := table + recovered;
      assert table == RecoverTable(old(table), now);
    }
  }

  /** A swept row with attempts left is due again, for its own agent type, exactly from 2^attempt seconds later on; one
      without is never due again. */
  lemma RecoveredAgain(t: Task, now: int, later: int)
    requires t.status == Claimed && t.claimExpiresAt.Some? && t.claimExpiresAt.value < now
    ensures Stale(t, now) && Pow2(0) == 1 && Pow2(t.attempt + 1) == Pow2(t.attempt) + Pow2(t.attempt)
    ensures Eligible(RecoverRow(t, now), t.request.agentType, later) <==>
            t.attempt < t.request.maxAttempts && later >= now + Pow2(t.attempt) * 1_000_000
  {
  }

  /** A second sweep at the same instant changes nothing. */
  lemma SweepTwice(table: Table, now: int)
    ensures StaleIds(RecoverTable(table, now), now) == {}
    ensures RecoverTable(RecoverTable(table, now), now) == RecoverTable(table, now)
  {
    var once := RecoverTable(table, now);
    forall id | id in once ensures !Stale(once[id], now) { }
  }

  // ---- Invariants of every legal run ----

  ghost predicate OneRowPerKey(table: Table) {
    forall i, j | i in table && j in table && table[i].request.key == table[j].request.key :: i == j
  }

  /** Locked rows exist, are pending and due, and are locked once. */
  ghost predicate LocksOk(s: State) {
    && (forall txn | txn in s.locks ::
          var l := s.locks[txn]; l.id in s.table && Eligible(s.table[l.id], l.claim.agentType, l.now))
    && (forall a, b | a in s.locks && b in s.locks && s.locks[a].id == s.locks[b].id :: a == b)
  }

  lemma StepKeepsLocks(s: State, e: Event)
    requires LocksOk(s) && Enabled(s, e)
    ensures LocksOk(Apply(s, e))
  {
    var s' := Apply(s, e);
    forall txn | txn in s'.locks
      ensures var l := s'.locks[txn]; l.id in s'.table && Eligible(s'.table[l.id], l.claim.agentType, l.now)
    {
      if txn in s.locks { assert LockedRow(s, s.locks[txn].id); }
    }
    forall a, b | a in s'.locks && b in s'.locks && s'.locks[a].id == s'.locks[b].id ensures a == b {
      if a in s.locks { assert LockedRow(s, s.locks[a].id); }
      if b in s.locks { assert LockedRow(s, s.locks[b].id); }
    }
  }

  lemma StepKeepsKeys(s: State, e: Event)
    requires OneRowPerKey(s.table) && Enabled(s, e)
    ensures OneRowPerKey(Apply(s, e).table)
    ensures forall id | id in s.table :: id in Apply(s, e).table && Apply(s, e).table[id].request == s.table[id].request
  {
    var t, t' := s.table, Apply(s, e).table;
    forall id | id in t ensures id in t' && t'[id].request == t[id].request { }
    forall i, j | i in t' && j in t' && t'[i].request.key == t'[j].request.key ensures i == j {
      if i !in t || j !in t {
        assert e.Enqueued? && !HasKey(t, e.request.key);
      } else {
        assert t[i].request.key == t[j].request.key;
      }
    }
  }

  /** In every interleaving there is one row per idempotency key, and a locked row is pending, due, and locked once. */
  lemma {:induction false} RunInvariant(run: seq<Event>)
    requires Legal(run)
    ensures OneRowPerKey(After(run).table) && LocksOk(After(run))
  {
    if run != [] {
      var n := |run| - 1;
      RunInvariant(run[..n]);
      StepKeepsLocks(After(run[..n]), run[n]);
      StepKeepsKeys(After(run[..n]), run[n]);
    }
  }

  /** A repeated enqueue finds the row of the first one, whatever happened in between, and changes nothing. */
  lemma {:induction false} RepeatedEnqueue(run: seq<Event>, i: nat, again: Event)
    requires Legal(run) && i < |run| && run[i].Enqueued?
    requires again.Enqueued? && again.request.key == run[i].request.key && Enabled(After(run), again)
    ensures again.id == run[i].id && Apply(After(run), again) == After(run)
  {
    KeyStays(run, i, |run|);
    assert run[..|run|] == run;
    RunInvariant(run);
  }

  lemma {:induction false} KeyStays(run: seq<Event>, i: nat, n: nat)
    requires Legal(run) && i < n <= |run| && run[i].Enqueued?
    ensures var table := After(run[..n]).table; run[i].id in table && table[run[i].id].request.key == run[i].request.key
  {
    StepAt(run, n - 1);
    LegalPrefix(run, n - 1);
    RunInvariant(run[..n - 1]);
    StepKeepsKeys(After(run[..n - 1]), run[n - 1]);
    if i < n - 1 { KeyStays(run, i, n - 1); }
  }
}
