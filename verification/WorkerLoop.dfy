/** runWorkerLoop (packages/db/task-queue-worker.ts): claim, wait for a notification or the poll timer, claim again,
    until stopped. */
module WorkerLoop {
  import opened Options
  import opened WorkerWaker

  /** Where the loop is: inside tryClaimAndExecute, awaiting waitForWork, or done. */
  datatype Phase = Claiming | Waiting(id: nat) | Exited

  /** `attempts` records when each tryClaimAndExecute started. */
  datatype Loop = Loop(waker: State, phase: Phase, running: bool, attempts: seq<int>)

  datatype Step =
    | Woken(event: Event)          // a notification, or a timer
    | AttemptFinished(now: int)
    | Resumed(now: int)            // the awaited promise has resolved
    | Stopped(now: int)            // stop() is called

  function Time(e: Step): int { if e.Woken? then e.event.now else e.now }

  function Advance(s: Loop, e: Step): Loop {
    match e
    case Woken(event) => s.(waker := WorkerWaker.Apply(s.waker, event))
    case AttemptFinished(now) =>
      if s.running then s.(waker := WorkerWaker.Apply(s.waker, Registered(now)), phase := Waiting(|s.waker.waiters|))
      else s.(phase := Exited)
    case Resumed(now) =>
      if s.running then s.(phase := Claiming, attempts := s.attempts + [now]) else s.(phase := Exited)
    case Stopped(_) => s.(running := false)
  }

  class RunningLoop {
    const waker: Waker
    var phase: Phase
    var running: bool
    var attempts: seq<int>

    ghost function Now(): Loop reads this, waker { Loop(waker.Now(), phase, running, attempts) }

    constructor (now: int)
      ensures fresh(waker) && Now() == Start(now)
    {
      waker := new Waker();
      phase, running, attempts := Claiming, true, [now];
    }

    /** The rest of the loop body, up to the await. */
    method FinishAttempt(now: int)
      requires phase.Claiming?
      modifies this, waker
      ensures Now() == Advance(old(Now()), AttemptFinished(now))
    {
      if !running {
        phase := Exited;
        return;
      }
      var id := waker.WaitForWork(now);
      phase := Waiting(id);
    }

    /** The loop's guard, after the await. */
    method Resume(now: int)
      requires phase.Waiting? && phase.id < |waker.waiters| && waker.waiters[phase.id].done
      modifies this
      ensures Now() == Advance(old(Now()), Resumed(now))
    {
      if running {
        attempts := attempts + [now];
        phase := Claiming;
      } else {
        phase := Exited;
      }
    }

    method Stop(now: int)
      modifies this
      ensures Now() == Advance(old(Now()), Stopped(now))
    {
      running := false;
    }
  }

  // ---- Runs ----

  function Start(now: int): Loop { Loop(State([], []), Claiming, true, [now]) }

  function After(start: int, run: seq<Step>): Loop {
    if run == [] then Start(start) else Advance(After(start, run[..|run| - 1]), run[|run| - 1])
  }

  function Clock(start: int, run: seq<Step>): int { if run == [] then start else Time(run[|run| - 1]) }

  /** A resolved wait resumes before time passes. */
  predicate Prompt(s: Loop, now: int) {
    s.phase.Waiting? && s.phase.id < |s.waker.waiters| && s.waker.waiters[s.phase.id].resolvedAt != [] ==>
      now <= s.waker.waiters[s.phase.id].resolvedAt[0]
  }

  predicate Enabled(poll: int, s: Loop, clock: int, e: Step) {
    && Time(e) >= clock && Punctual(poll, s.waker, Time(e)) && Prompt(s, Time(e))
    && match e
       case Woken(event) => !event.Registered? && WorkerWaker.Enabled(poll, s.waker, clock, event)
       case AttemptFinished(_) => s.phase.Claiming?
       case Resumed(_) => s.phase.Waiting? && s.phase.id < |s.waker.waiters| && s.waker.waiters[s.phase.id].done
       case Stopped(_) => true
  }

  predicate Legal(poll: int, start: int, run: seq<Step>) {
    run == [] ||
    (var before := run[..|run| - 1];
     Legal(poll, start, before) && Enabled(poll, After(start, before), Clock(start, before), run[|run| - 1]))
  }

  /** What the waker sees of a step, and of a run. */
  function Seen(s: Loop, e: Step): seq<Event> {
    if e.Woken? then [e.event] else if e.AttemptFinished? && s.running then [Registered(e.now)] else []
  }

  function WakerRun(start: int, run: seq<Step>): seq<Event> {
    if run == [] then [] else WakerRun(start, run[..|run| - 1]) + Seen(After(start, run[..|run| - 1]), run[|run| - 1])
  }

  /** The waker's own run is legal, and leaves the waker as the loop has it. */
  ghost predicate Tracks(poll: int, seen: seq<Event>, s: Loop, clock: int) {
    WorkerWaker.Legal(poll, seen) && WorkerWaker.After(seen) == s.waker && WorkerWaker.Clock(seen) <= clock
  }

  lemma TracksStep(poll: int, seen: seq<Event>, s: Loop, clock: int, e: Step)
    requires Tracks(poll, seen, s, clock) && Enabled(poll, s, clock, e)
    ensures Tracks(poll, seen + Seen(s, e), Advance(s, e), Time(e))
  {
    if Seen(s, e) == [] {
      assert seen + [] == seen;
    } else {
      assert (seen + Seen(s, e))[..|seen|] == seen;
    }
  }

  lemma {:induction false} WakerTracks(poll: int, start: int, run: seq<Step>)
    requires start >= 0 && Legal(poll, start, run)
    ensures Tracks(poll, WakerRun(start, run), After(start, run), Clock(start, run))
  {
    if run != [] {
      var before := run[..|run| - 1];
      WakerTracks(poll, start, before);
      TracksStep(poll, WakerRun(start, before), After(start, before), Clock(start, before), run[|run| - 1]);
    }
  }

  /** Every waiter of the run resolves when it is due. */
  lemma WaiterOnTime(poll: int, start: int, run: seq<Step>, id: nat)
    requires poll >= 0 && start >= 0 && Legal(poll, start, run) && id < |After(start, run).waker.waiters|
    ensures var w := After(start, run).waker.waiters[id];
            w.done ==> OnTime(poll, w, NextNotification(WakerRun(start, run), id), Clock(start, run))
    ensures WorkerWaker.Consistent(After(start, run).waker)
  {
    WakerTracks(poll, start, run);
    PendingIsUnresolved(WakerRun(start, run));
    ResolvesWhenDue(poll, WakerRun(start, run), id);
  }

  /** No step comes after the deadline of the waiter that the loop awaits. */
  lemma NotLate(poll: int, start: int, run: seq<Step>, e: Step)
    requires poll >= 0 && start >= 0 && Legal(poll, start, run)
    requires Enabled(poll, After(start, run), Clock(start, run), e)
    requires After(start, run).phase.Waiting? && After(start, run).phase.id < |After(start, run).waker.waiters|
    ensures var s := After(start, run); Time(e) <= Deadline(poll, s.waker.waiters[s.phase.id])
  {
    WaiterOnTime(poll, start, run, After(start, run).phase.id);
  }

  /** The loop awaits a waiter of its own, and never past the waiter's deadline. */
  lemma {:induction false} WaitsOnWaiter(poll: int, start: int, run: seq<Step>)
    requires poll >= 0 && start >= 0 && Legal(poll, start, run) && After(start, run).phase.Waiting?
    ensures var s := After(start, run);
            s.phase.id < |s.waker.waiters| && Clock(start, run) <= Deadline(poll, s.waker.waiters[s.phase.id])
  {
    var before, e := run[..|run| - 1], run[|run| - 1];
    if !e.AttemptFinished? {
      var s := After(start, before);
      WaitsOnWaiter(poll, start, before);
      NotLate(poll, start, before, e);
      WaiterOnTime(poll, start, before, s.phase.id);
      if e.Woken? { WaiterAfter(s.waker, e.event, s.phase.id); }
    }
  }

  lemma ResumedIsDue(poll: int, w: Waiter, notified: Option<int>, clock: int, now: int)
    requires w.done && OnTime(poll, w, notified, clock) && clock <= now <= w.resolvedAt[0]
    ensures now == Due(notified, Deadline(poll, w)) <= Deadline(poll, w)
  {
  }

  lemma ResumesWhenDue(poll: int, start: int, run: seq<Step>, now: int)
    requires poll >= 0 && start >= 0 && Legal(poll, start, run)
    requires Enabled(poll, After(start, run), Clock(start, run), Resumed(now))
    ensures var s := After(start, run);
            var entered := s.waker.waiters[s.phase.id].registeredAt;
            now == Due(NextNotification(WakerRun(start, run), s.phase.id), entered + poll) <= entered + poll
  {
    var s := After(start, run);
    WaiterOnTime(poll, start, run, s.phase.id);
    var next := NextNotification(WakerRun(start, run), s.phase.id);
    ResumedIsDue(poll, s.waker.waiters[s.phase.id], next, Clock(start, run), now);
  }

  /** After entering the wait, a running loop starts its next attempt at the earlier of the next notification and the
      poll deadline, so within one poll interval; a stopped loop exits there instead. */
  lemma NextAttempt(poll: int, start: int, run: seq<Step>, now: int)
    requires poll >= 0 && start >= 0 && Legal(poll, start, run)
    requires Enabled(poll, After(start, run), Clock(start, run), Resumed(now))
    ensures var s, s' := After(start, run), After(start, run + [Resumed(now)]);
            var entered := s.waker.waiters[s.phase.id].registeredAt;
            && now == Due(NextNotification(WakerRun(start, run), s.phase.id), entered + poll) <= entered + poll
            && s'.attempts == (if s.running then s.attempts + [now] else s.attempts)
            && s'.phase == if s.running then Claiming else Exited
  {
    assert (run + [Resumed(now)])[..|run|] == run;
    ResumesWhenDue(poll, start, run, now);
  }

  // ---- The loop is never stuck ----

  /** The loop registers a waiter only when it awaits it, so no other is unresolved. */
  ghost predicate OnlyAwaited(s: Loop) {
    forall id: nat | id < |s.waker.waiters| && !s.waker.waiters[id].done :: s.phase == Waiting(id)
  }

  lemma StepAwaitsOne(s: Loop, e: Step)
    requires OnlyAwaited(s) && WorkerWaker.Consistent(s.waker)
    requires e.AttemptFinished? ==> s.phase.Claiming?
    requires e.Resumed? ==> s.phase.Waiting? && s.phase.id < |s.waker.waiters| && s.waker.waiters[s.phase.id].done
    requires e.Woken? ==> !e.event.Registered?
    ensures OnlyAwaited(Advance(s, e))
  {
    if e.Woken? {
      forall id: nat | id < |s.waker.waiters| && s.waker.waiters[id].done ensures Advance(s, e).waker.waiters[id].done {
        WaiterAfter(s.waker, e.event, id);
      }
    }
  }

  lemma {:induction false} AwaitsOneWaiter(poll: int, start: int, run: seq<Step>)
    requires poll >= 0 && start >= 0 && Legal(poll, start, run)
    ensures OnlyAwaited(After(start, run))
  {
    if run != [] {
      var before := run[..|run| - 1];
      AwaitsOneWaiter(poll, start, before);
      WakerTracks(poll, start, before);
      PendingIsUnresolved(WakerRun(start, before));
      StepAwaitsOne(After(start, before), run[|run| - 1]);
    }
  }

  /** A resolved wait has not outlasted the moment it resolved. */
  lemma {:induction false} ResolvedIsNow(poll: int, start: int, run: seq<Step>)
    requires poll >= 0 && start >= 0 && Legal(poll, start, run) && After(start, run).phase.Waiting?
    ensures var s := After(start, run);
            s.phase.id < |s.waker.waiters| && Prompt(s, Clock(start, run)) && WorkerWaker.Consistent(s.waker)
  {
    var before, e := run[..|run| - 1], run[|run| - 1];
    var s := After(start, before);
    WaitsOnWaiter(poll, start, run);
    WakerTracks(poll, start, run);
    PendingIsUnresolved(WakerRun(start, run));
    WakerTracks(poll, start, before);
    PendingIsUnresolved(WakerRun(start, before));
    if !e.AttemptFinished? {
      ResolvedIsNow(poll, start, before);
      if e.Woken? { WaiterAfter(s.waker, e.event, s.phase.id); }
    }
  }

  lemma Extended(poll: int, start: int, run: seq<Step>, e: Step) returns (longer: seq<Step>)
    requires Legal(poll, start, run) && Enabled(poll, After(start, run), Clock(start, run), e)
    ensures longer == run + [e] && Legal(poll, start, longer)
    ensures After(start, longer) == Advance(After(start, run), e) && Clock(start, longer) == Time(e)
  {
    longer := run + [e];
    assert longer[..|run|] == run;
  }

  /** An attempt under way can finish at any time. */
  lemma AttemptCanFinish(poll: int, start: int, run: seq<Step>, now: int)
    requires poll >= 0 && start >= 0 && Legal(poll, start, run) && After(start, run).phase.Claiming?
    requires now >= Clock(start, run)
    ensures Enabled(poll, After(start, run), Clock(start, run), AttemptFinished(now))
  {
    AwaitsOneWaiter(poll, start, run);
  }

  lemma TimerCanFire(poll: int, start: int, run: seq<Step>) returns (longer: seq<Step>)
    requires poll >= 0 && start >= 0 && Legal(poll, start, run) && After(start, run).phase.Waiting?
    requires var s := After(start, run); s.phase.id < |s.waker.waiters| && !s.waker.waiters[s.phase.id].done
    ensures var s := After(start, run);
            var deadline := Deadline(poll, s.waker.waiters[s.phase.id]);
            && longer == run + [Woken(TimerFired(s.phase.id, deadline))] && Legal(poll, start, longer)
            && Clock(start, longer) == deadline && After(start, longer).phase == s.phase
            && After(start, longer).running == s.running
            && s.phase.id < |After(start, longer).waker.waiters| && After(start, longer).waker.waiters[s.phase.id].done
  {
    var s := After(start, run);
    var id := s.phase.id;
    var event := TimerFired(id, Deadline(poll, s.waker.waiters[id]));
    AwaitsOneWaiter(poll, start, run);
    WaitsOnWaiter(poll, start, run);
    ResolvedIsNow(poll, start, run);
    longer := Extended(poll, start, run, Woken(event));
    WaiterAfter(s.waker, event, id);
  }

  lemma ResumeCanFollow(poll: int, start: int, run: seq<Step>) returns (longer: seq<Step>)
    requires poll >= 0 && start >= 0 && Legal(poll, start, run) && After(start, run).phase.Waiting?
    requires var s := After(start, run); s.phase.id < |s.waker.waiters| && s.waker.waiters[s.phase.id].done
    ensures longer == run + [Resumed(Clock(start, run))] && Legal(poll, start, longer)
    ensures After(start, longer) == Advance(After(start, run), Resumed(Clock(start, run)))
  {
    AwaitsOneWaiter(poll, start, run);
    ResolvedIsNow(poll, start, run);
    longer := Extended(poll, start, run, Resumed(Clock(start, run)));
  }

  /** From every waiting state the loop can go on, and resumes by the deadline: at once if the wait has resolved, and
      otherwise when the poll timer fires, if nothing wakes it earlier. */
  lemma ResumesByDeadline(poll: int, start: int, run: seq<Step>) returns (more: seq<Step>, now: int)
    requires poll >= 0 && start >= 0 && Legal(poll, start, run) && After(start, run).phase.Waiting?
    ensures var s := After(start, run);
            && s.phase.id < |s.waker.waiters|
            && now == (if s.waker.waiters[s.phase.id].done then Clock(start, run)
                       else Deadline(poll, s.waker.waiters[s.phase.id]))
            && now <= Deadline(poll, s.waker.waiters[s.phase.id])
            && Legal(poll, start, run + more) && more != [] && more[|more| - 1] == Resumed(now)
            && After(start, run + more).phase == if s.running then Claiming else Exited
  {
    var s := After(start, run);
    WaitsOnWaiter(poll, start, run);
    if s.waker.waiters[s.phase.id].done {
      now := Clock(start, run);
      var longer := ResumeCanFollow(poll, start, run);
      more := [Resumed(now)];
    } else {
      now := Deadline(poll, s.waker.waiters[s.phase.id]);
      var fired := TimerCanFire(poll, start, run);
      var longer := ResumeCanFollow(poll, start, fired);
      more := [Woken(TimerFired(s.phase.id, now)), Resumed(now)];
      assert run + more == fired + [Resumed(now)];
    }
  }

  /** After stop() the loop registers no more waiters, and exits where it is: on the end of the attempt under way, or on
      the end of the wait. */
  lemma {:induction false} StoppedExits(start: int, run: seq<Step>, more: seq<Step>)
    requires !After(start, run).running
    requires forall e | e in more :: e.Woken? ==> !e.event.Registered?
    ensures var s, s' := After(start, run), After(start, run + more);
            && !s'.running && |s'.waker.waiters| == |s.waker.waiters|
            && s'.phase == if exists e :: e in more && (e.AttemptFinished? || e.Resumed?) then Exited else s.phase
    decreases |more|
  {
    if more == [] {
      assert run + more == run;
    } else {
      var less, e := more[..|more| - 1], more[|more| - 1];
      assert more == less + [e];
      assert (run + more)[..|run + more| - 1] == run + less;
      StoppedExits(start, run, less);
    }
  }

  /** While it runs, the end of an attempt begins a wait on a new waiter, and the end of a wait begins an attempt. */
  lemma RunningContinues(start: int, run: seq<Step>, now: int)
    requires After(start, run).running
    ensures var s, s' := After(start, run), After(start, run + [AttemptFinished(now)]);
            && s'.phase == Waiting(|s.waker.waiters|) && s'.running && s'.attempts == s.attempts
            && s'.waker.waiters == s.waker.waiters + [Waiter(now, false, [])]
    ensures var s, s' := After(start, run), After(start, run + [Resumed(now)]);
            s'.phase == Claiming && s'.running && s'.attempts == s.attempts + [now] && s'.waker == s.waker
  {
    assert (run + [AttemptFinished(now)])[..|run|] == run && (run + [Resumed(now)])[..|run|] == run;
  }

  /** After stop() no attempt ever starts. */
  lemma {:induction false} StoppedStays(start: int, run: seq<Step>, i: nat)
    requires i < |run| && run[i].Stopped?
    ensures !After(start, run).running
    ensures After(start, run).attempts == After(start, run[..i]).attempts
  {
    var before := run[..|run| - 1];
    if i < |run| - 1 {
      StoppedStays(start, before, i);
      assert before[..i] == run[..i];
    } else {
      assert before == run[..i];
    }
  }
}
