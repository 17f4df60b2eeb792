/** The LISTEN/NOTIFY waker with its poll timers, and the worker loop around it (packages/db/task-queue-worker.ts).
    Times are milliseconds; timers fire on time, and a resolved promise resumes its waiter at once. */
module WorkerWaker {
  import opened Options

  /** One waitForWork() call; `resolvedAt` records every call of its resolve. */
  datatype Waiter = Waiter(registeredAt: int, done: bool, resolvedAt: seq<int>)

  /** `pending` holds the outstanding callbacks, as indices of `waiters`. */
  datatype State = State(waiters: seq<Waiter>, pending: seq<nat>)

  datatype Event = Registered(now: int) | Notified(now: int) | TimerFired(id: nat, now: int)

  /** `wrapped()` */
  function Wake(waiters: seq<Waiter>, id: nat, now: int): (r: seq<Waiter>)
    ensures |r| == |waiters|
  {
    if id < |waiters| && !waiters[id].done then
      waiters[id := waiters[id].(done := true, resolvedAt := waiters[id].resolvedAt + [now])]
    else waiters
  }

  function WakeAll(waiters: seq<Waiter>, ids: seq<nat>, now: int): (r: seq<Waiter>)
    ensures |r| == |waiters|
    decreases ids
  {
    if ids == [] then waiters else WakeAll(Wake(waiters, ids[0], now), ids[1..], now)
  }

  /** `indexOf`, then `splice` */
  function Without(ids: seq<nat>, id: nat): seq<nat> {
    if ids == [] then [] else if ids[0] == id then ids[1..] else [ids[0]] + Without(ids[1..], id)
  }

  function Apply(s: State, e: Event): State {
    match e
    case Registered(now) => State(s.waiters + [Waiter(now, false, [])], s.pending + [|s.waiters|])
    case Notified(now) => State(WakeAll(s.waiters, s.pending, now), [])
    case TimerFired(id, now) =>
      if id < |s.waiters| && !s.waiters[id].done then State(Wake(s.waiters, id, now), Without(s.pending, id)) else s
  }

  class Waker {
    var waiters: seq<Waiter>
    var pending: seq<nat>

    ghost function Now(): State reads this { State(waiters, pending) }

    constructor ()
      ensures Now() == State([], [])
    {
      waiters, pending := [], [];
    }

    method WaitForWork(now: int) returns (id: nat)
      modifies this
      ensures Now() == Apply(old(Now()), Registered(now)) && id == |old(waiters)|
    {
      id := |waiters|;
      waiters := waiters + [Waiter(now, false, [])];
      pending := pending + [id];
    }

    /** The notification handler empties `pending` first, then calls what it held. */
    method OnNotification(now: int)
      modifies this
      ensures Now() == Apply(old(Now()), Notified(now))
    {
      var toWake := pending;
      pending := [];
      for k := 0 to |toWake|
        invariant WakeAll(waiters, toWake[k..], now) == WakeAll(old(waiters), toWake, now)
        invariant pending == []
      {
        var id := toWake[k];
        assert toWake[k..] == [id] + toWake[k + 1..];
        if id < |waiters| && !waiters[id].done {
          waiters := waiters[id := waiters[id].(done := true, resolvedAt := waiters[id].resolvedAt + [now])];
        }
      }
      assert toWake[|toWake|..] == [];
    }

    method OnTimer(id: nat, now: int)
      requires id < |waiters|
      modifies this
      ensures Now() == Apply(old(Now()), TimerFired(id, now))
    {
      if !waiters[id].done {
        waiters := waiters[id := waiters[id].(done := true, resolvedAt := waiters[id].resolvedAt + [now])];
        pending := Without(pending, id);
      }
    }
  }

  // ---- Runs ----

  function Deadline(poll: int, w: Waiter): int { w.registeredAt + poll }

  /** No timer is late: nothing happens after the deadline of a waiter that is still waiting. */
  predicate Punctual(poll: int, s: State, now: int) {
    forall id | 0 <= id < |s.waiters| :: !s.waiters[id].done ==> now <= Deadline(poll, s.waiters[id])
  }

  predicate Enabled(poll: int, s: State, clock: int, e: Event) {
    && e.now >= clock && Punctual(poll, s, e.now)
    && (e.TimerFired? ==> e.id < |s.waiters| && e.now >= Deadline(poll, s.waiters[e.id]))
  }

  function After(run: seq<Event>): State {
    if run == [] then State([], []) else Apply(After(run[..|run| - 1]), run[|run| - 1])
  }

  function Clock(run: seq<Event>): int { if run == [] then 0 else run[|run| - 1].now }

  predicate Legal(poll: int, run: seq<Event>) {
    run == [] ||
    (Legal(poll, run[..|run| - 1]) && Enabled(poll, After(run[..|run| - 1]), Clock(run[..|run| - 1]), run[|run| - 1]))
  }

  // ---- The invariant ----

  /** `pending` is the unresolved waiters, each once, in the order of their calls; a resolved waiter was resolved
      once. */
  ghost predicate Consistent(s: State) {
    && Ascending(s.pending)
    && (forall id: nat :: id in s.pending <==> id < |s.waiters| && !s.waiters[id].done)
    && (forall id | 0 <= id < |s.waiters| :: |s.waiters[id].resolvedAt| == if s.waiters[id].done then 1 else 0)
  }

  lemma {:induction false} WakeAllAt(waiters: seq<Waiter>, ids: seq<nat>, now: int, id: nat)
    requires id < |waiters|
    ensures WakeAll(waiters, ids, now)[id] == if id in ids then Wake(waiters, id, now)[id] else waiters[id]
    decreases ids
  {
    if ids != [] {
      WakeAllAt(Wake(waiters, ids[0], now), ids[1..], now, id);
      assert ids == [ids[0]] + ids[1..];
    }
  }

  ghost predicate Ascending(ids: seq<nat>) { forall i, j | 0 <= i < j < |ids| :: ids[i] < ids[j] }

  lemma {:induction false} WithoutMembers(ids: seq<nat>, id: nat)
    requires Ascending(ids)
    ensures forall other :: other in Without(ids, id) <==> other in ids && other != id
  {
    if ids != [] {
      assert ids == [ids[0]] + ids[1..];
      forall other | other in ids[1..] ensures ids[0] < other { }
      if ids[0] != id { WithoutMembers(ids[1..], id); }
    }
  }

  lemma {:induction false} WithoutAscends(ids: seq<nat>, id: nat)
    requires Ascending(ids)
    ensures Ascending(Without(ids, id))
  {
    if ids != [] && ids[0] != id {
      WithoutMembers(ids[1..], id);
      WithoutAscends(ids[1..], id);
      var rest := Without(ids[1..], id);
      forall j | 0 <= j < |rest| ensures ids[0] < rest[j] {
        assert rest[j] in rest;
        var k :| 0 <= k < |ids[1..]| && ids[1..][k] == rest[j];
      }
    }
  }

  lemma RegisterKeeps(s: State, now: int)
    requires Consistent(s)
    ensures Consistent(Apply(s, Registered(now)))
  {
    forall i | 0 <= i < |s.pending| ensures s.pending[i] < |s.waiters| { assert s.pending[i] in s.pending; }
  }

  lemma TimerKeeps(s: State, id: nat, now: int)
    requires Consistent(s)
    ensures Consistent(Apply(s, TimerFired(id, now)))
  {
    WithoutMembers(s.pending, id);
    WithoutAscends(s.pending, id);
  }

  lemma NotifyKeeps(s: State, now: int)
    requires Consistent(s)
    ensures Consistent(Apply(s, Notified(now)))
  {
    var s' := Apply(s, Notified(now));
    forall id | 0 <= id < |s.waiters|
      ensures s'.waiters[id].done && |s'.waiters[id].resolvedAt| == 1
    {
      WakeAllAt(s.waiters, s.pending, now, id);
    }
  }

  lemma StepKeeps(s: State, e: Event)
    requires Consistent(s)
    ensures Consistent(Apply(s, e))
  {
    match e
    case Registered(now) => RegisterKeeps(s, now);
    case Notified(now) => NotifyKeeps(s, now);
    case TimerFired(id, now) => TimerKeeps(s, id, now);
  }

  /** In every order of registrations, notifications and timers. */
  lemma {:induction false} PendingIsUnresolved(run: seq<Event>)
    ensures Consistent(After(run))
  {
    if run != [] {
      PendingIsUnresolved(run[..|run| - 1]);
      StepKeeps(After(run[..|run| - 1]), run[|run| - 1]);
    }
  }

  // ---- When a waiter resolves ----

  /** The first notification after the registration of `id`. */
  function NextNotification(run: seq<Event>, id: nat): Option<int> {
    if run == [] then None
    else
      var before, e := run[..|run| - 1], run[|run| - 1];
      var earlier := NextNotification(before, id);
      if earlier.None? && e.Notified? && id < |After(before).waiters| then Some(e.now) else earlier
  }

  /** The earlier of that notification and the deadline. */
  function Due(notified: Option<int>, deadline: int): int {
    if notified.Some? && notified.value < deadline then notified.value else deadline
  }

  ghost predicate OnTime(poll: int, w: Waiter, notified: Option<int>, clock: int) {
    if w.done then w.resolvedAt == [Due(notified, Deadline(poll, w))] && w.resolvedAt[0] <= clock
    else notified.None? && w.resolvedAt == [] && clock <= Deadline(poll, w)
  }

  lemma WaiterAfter(s: State, e: Event, id: nat)
    requires Consistent(s) && id < |s.waiters|
    ensures id < |Apply(s, e).waiters|
    ensures Apply(s, e).waiters[id] ==
            if !s.waiters[id].done && (e.Notified? || (e.TimerFired? && e.id == id))
            then s.waiters[id].(done := true, resolvedAt := s.waiters[id].resolvedAt + [e.now]) else s.waiters[id]
  {
    if e.Notified? { WakeAllAt(s.waiters, s.pending, e.now, id); }
  }

  /** Each waiter resolves exactly once, at the earlier of the next notification and its poll deadline, and is still
      pending only before both. */
  lemma {:induction false} ResolvesWhenDue(poll: int, run: seq<Event>, id: nat)
    requires poll >= 0 && Legal(poll, run) && id < |After(run).waiters|
    ensures OnTime(poll, After(run).waiters[id], NextNotification(run, id), Clock(run))
  {
    var before, e := run[..|run| - 1], run[|run| - 1];
    var s := After(before);
    PendingIsUnresolved(before);
    if id < |s.waiters| {
      ResolvesWhenDue(poll, before, id);
      WaiterAfter(s, e, id);
    } else {
      NotRegistered(before, id);
    }
  }

  lemma {:induction false} NotRegistered(run: seq<Event>, id: nat)
    requires id >= |After(run).waiters|
    ensures NextNotification(run, id) == None
  {
    if run != [] { NotRegistered(run[..|run| - 1], id); }
  }
}
