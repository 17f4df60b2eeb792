/** The device-code polling loop (scripts/gcp/login.ts; section 3.5 of RFC 8628). Times are milliseconds. */
module DevicePolling {
  import opened Options

  /** One answer of the token endpoint; an absent token is empty, which the code does not tell apart. */
  datatype Reply =
    | Unparseable
    | Reply(ok: bool, accessToken: string, refreshToken: string, hasExpiresIn: bool, error: Option<string>,
            description: Option<string>, bodyText: string)

  datatype Outcome =
    | Authorized(accessToken: string, refreshToken: string)
    | MissingRefreshToken | MissingExpiresIn | Denied | CodeExpired | Failed(message: string) | NotJson | TimedOut

  /** What happens around the k-th poll: its reply, and how long fetch and an overrunning timer take. */
  datatype Round = Round(reply: Reply, delay: nat)

  type World = nat -> Round

  datatype Verdict = Pending | SlowDown | Final(outcome: Outcome)

  function Judge(r: Reply): (v: Verdict)
    ensures v.Final? ==> !v.outcome.TimedOut?
  {
    if r.Unparseable? then Final(NotJson)
    else if r.ok && r.accessToken != "" then
      if r.refreshToken == "" then Final(MissingRefreshToken)
      else if !r.hasExpiresIn then Final(MissingExpiresIn)
      else Final(Authorized(r.accessToken, r.refreshToken))
    else if r.error == Some("authorization_pending") then Pending
    else if r.error == Some("slow_down") then SlowDown
    else if r.error == Some("access_denied") then Final(Denied)
    else if r.error == Some("expired_token") then Final(CodeExpired)
    else Final(Failed(
      if r.description.Some? then r.description.value else if r.error.Some? then r.error.value else r.bodyText))
  }

  // ---- What a reply says, field by field ----

  /** No token that the code can use. */
  predicate Tokenless(r: Reply) { r.Reply? && !(r.ok && r.accessToken != "") }

  /** The loop goes on, and slower after slow_down. */
  lemma JudgeGoesOn(r: Reply)
    ensures Judge(r) == Pending <==> Tokenless(r) && r.error == Some("authorization_pending")
    ensures Judge(r) == SlowDown <==> Tokenless(r) && r.error == Some("slow_down")
  {
  }

  /** The exact condition of every other outcome. */
  lemma JudgeEnds(r: Reply)
    ensures Judge(r) == Final(NotJson) <==> r.Unparseable?
    ensures forall a, b :: Judge(r) == Final(Authorized(a, b)) <==>
              && r.Reply? && r.ok && r.accessToken == a && a != ""
              && r.refreshToken == b && b != "" && r.hasExpiresIn
    ensures Judge(r) == Final(MissingRefreshToken) <==> r.Reply? && r.ok && r.accessToken != "" && r.refreshToken == ""
    ensures Judge(r) == Final(MissingExpiresIn) <==>
              r.Reply? && r.ok && r.accessToken != "" && r.refreshToken != "" && !r.hasExpiresIn
    ensures Judge(r) == Final(Denied) <==> Tokenless(r) && r.error == Some("access_denied")
    ensures Judge(r) == Final(CodeExpired) <==> Tokenless(r) && r.error == Some("expired_token")
    ensures forall message :: Judge(r) == Final(Failed(message)) <==>
              && Tokenless(r)
              && (r.error.Some? ==>
                    r.error.value !in {"authorization_pending", "slow_down", "access_denied", "expired_token"})
              && (r.description.Some? ==> message == r.description.value)
              && (r.description.None? && r.error.Some? ==> message == r.error.value)
              && (r.description.None? && r.error.None? ==> message == r.bodyText)
    ensures Judge(r) != Final(TimedOut)
  {
  }

  /** The interval slept before poll k. */
  function Interval(w: World, initial: int, k: nat): int {
    if k == 0 then initial else Interval(w, initial, k - 1) + if Judge(w(k - 1).reply) == SlowDown then 5_000 else 0
  }

  /** When the loop is back at its guard, k polls done. */
  function Ready(w: World, start: int, initial: int, k: nat): int {
    if k == 0 then start else Ready(w, start, initial, k - 1) + Interval(w, initial, k - 1) + w(k - 1).delay
  }

  /** Poll k leaves the loop running. */
  predicate Undecided(w: World, k: nat) { !Judge(w(k).reply).Final? }

  /** Exactly when there is no usable token and the error says to go on. */
  lemma UndecidedIff(w: World, k: nat)
    ensures Undecided(w, k) <==>
            var r := w(k).reply;
            Tokenless(r) && (r.error == Some("authorization_pending") || r.error == Some("slow_down"))
  {
    JudgeGoesOn(w(k).reply);
  }

  /** The guard lets poll k start. */
  predicate InTime(w: World, start: int, initial: int, timeout: int, k: nat) {
    Ready(w, start, initial, k) < start + timeout
  }

  /** The first `n` polls are made: each in time, none decided by an earlier one. */
  ghost predicate Polls(w: World, start: int, initial: int, timeout: int, n: nat) {
    && (forall k | 0 <= k < n :: InTime(w, start, initial, timeout, k))
    && (forall k | 0 <= k < n - 1 :: Undecided(w, k))
  }

  /** After `bound` polls at the latest the loop is over. */
  predicate Stops(w: World, start: int, initial: int, timeout: int, bound: nat) {
    !InTime(w, start, initial, timeout, bound) || !Undecided(w, bound)
  }

  /** The loop ends after `n` polls with the outcome of the first reply that is neither pending nor slow_down, or at the
      deadline if no reply before it decides. It needs some bound to end at all: an interval of zero with instant
      replies has none. */
  method PollDeviceCodeToken(w: World, start: int, initial: int, timeout: int, ghost bound: nat)
      returns (outcome: Outcome, n: nat)
    requires Stops(w, start, initial, timeout, bound)
    ensures Polls(w, start, initial, timeout, n)
    ensures outcome.TimedOut? <==>
              !InTime(w, start, initial, timeout, n) && (n > 0 ==> Undecided(w, n - 1))
    ensures !outcome.TimedOut? ==> n > 0 && Judge(w(n - 1).reply) == Final(outcome)
  {
    var deadline := start + timeout;
    var intervalMs := initial;
    var now := start;
    n := 0;
    while now < deadline
      invariant now == Ready(w, start, initial, n) && intervalMs == Interval(w, initial, n)
      invariant Polls(w, start, initial, timeout, n) && n <= bound
      invariant n > 0 ==> Undecided(w, n - 1)
      decreases bound - n
    {
      now := now + intervalMs;
      var verdict := Judge(w(n).reply);
      now := now + w(n).delay;
      n := n + 1;
      match verdict
      case Pending => assert Undecided(w, n - 1);
      case SlowDown => intervalMs := intervalMs + 5_000; assert Undecided(w, n - 1);
      case Final(decided) => return decided, n;
    }
    outcome := TimedOut;
  }

  // ---- Intervals ----

  /** Of the first k replies, how many have no usable token and say slow_down. */
  function SlowDowns(w: World, k: nat): nat {
    if k == 0 then 0
    else
      var r := w(k - 1).reply;
      SlowDowns(w, k - 1) + if Tokenless(r) && r.error == Some("slow_down") then 1 else 0
  }

  /** The interval grows by five seconds for every slow_down so far, and never shrinks. */
  lemma {:induction false} IntervalCountsSlowDowns(w: World, initial: int, j: nat, k: nat)
    requires j <= k
    ensures Interval(w, initial, k) == initial + 5_000 * SlowDowns(w, k)
    ensures Interval(w, initial, j) <= Interval(w, initial, k)
  {
    if k > 0 {
      JudgeGoesOn(w(k - 1).reply);
      IntervalCountsSlowDowns(w, initial, if j < k then j else k - 1, k - 1);
    }
  }

  lemma {:induction false} ReadyAtLeast(w: World, start: int, initial: int, k: nat)
    requires initial >= 0
    ensures Ready(w, start, initial, k) >= start + k * initial
  {
    if k > 0 {
      ReadyAtLeast(w, start, initial, k - 1);
      IntervalCountsSlowDowns(w, initial, 0, k - 1);
      OneMore(k, initial);
    }
  }

  /** When the loop is back at its guard: the start, the first interval k times, five seconds per later poll for every
      slow_down, and the delays. */
  lemma {:induction false} ReadyExactly(w: World, start: int, initial: int, k: nat)
    ensures Ready(w, start, initial, k) == start + k * initial + 5_000 * SlowedPolls(w, k) + Delays(w, k)
  {
    if k > 0 {
      ReadyExactly(w, start, initial, k - 1);
      IntervalCountsSlowDowns(w, initial, 0, k - 1);
      OneMore(k, initial);
    }
  }

  lemma OneMore(k: int, x: int)
    ensures k * x == (k - 1) * x + x
  {
  }

  /** Over the first k polls, the slow_down replies before each. */
  function SlowedPolls(w: World, k: nat): nat { if k == 0 then 0 else SlowedPolls(w, k - 1) + SlowDowns(w, k - 1) }

  function Delays(w: World, k: nat): nat { if k == 0 then 0 else Delays(w, k - 1) + w(k - 1).delay }

  /** Math.ceil(a / b) */
  function CeilDiv(a: int, b: int): int
    requires b > 0
  {
    -((-a) / b)
  }

  lemma CeilDivBound(n: int, a: int, b: int)
    requires b > 0 && (n - 1) * b < a
    ensures n <= CeilDiv(a, b)
  {
    var q := CeilDiv(a, b);
    assert q * b >= a by { assert -a == (-a) / b * b + (-a) % b; }
    assert q <= n - 1 ==> q * b <= (n - 1) * b;
  }

  /** With a positive interval there are at most ceil(timeoutMs / intervalMs) polls. */
  lemma PollsBounded(w: World, start: int, initial: int, timeout: int, n: nat)
    requires initial > 0 && n > 0 && Polls(w, start, initial, timeout, n)
    ensures n <= CeilDiv(timeout, initial)
  {
    assert InTime(w, start, initial, timeout, n - 1);
    ReadyAtLeast(w, start, initial, n - 1);
    CeilDivBound(n, timeout, initial);
  }

  /** With a positive interval the loop always ends. */
  lemma PositiveIntervalStops(w: World, start: int, initial: int, timeout: int)
    requires initial > 0
    ensures Stops(w, start, initial, timeout, if timeout > 0 then CeilDiv(timeout, initial) else 0)
  {
    if timeout > 0 {
      var q := CeilDiv(timeout, initial);
      CeilDivCovers(timeout, initial);
      ReadyAtLeast(w, start, initial, q);
    }
  }

  lemma CeilDivCovers(a: int, b: int)
    requires a > 0 && b > 0
    ensures CeilDiv(a, b) >= 0 && CeilDiv(a, b) * b >= a
  {
    assert -a == (-a) / b * b + (-a) % b;
  }

  lemma {:induction false} InstantPending(w: World, start: int, k: nat)
    requires forall j | 0 <= j < k ::
               Tokenless(w(j).reply) && w(j).reply.error == Some("authorization_pending") && w(j).delay == 0
    ensures Ready(w, start, 0, k) == start && Interval(w, 0, k) == 0
  {
    if k > 0 {
      JudgeGoesOn(w(k - 1).reply);
      InstantPending(w, start, k - 1);
    }
  }

  /** With an interval of zero and instant pending replies it never does. */
  lemma ZeroIntervalNeverStops(w: World, start: int, timeout: int, bound: nat)
    requires timeout > 0
    requires forall k: nat ::
               Tokenless(w(k).reply) && w(k).reply.error == Some("authorization_pending") && w(k).delay == 0
    ensures !Stops(w, start, 0, timeout, bound)
  {
    JudgeGoesOn(w(bound).reply);
    InstantPending(w, start, bound);
  }

  /** n polls that are all answered slow_down take at least n * intervalMs + 5000 * n * (n - 1) / 2 milliseconds. */
  lemma {:induction false} SlowDownsTakeTime(w: World, start: int, initial: int, n: nat)
    requires forall k | 0 <= k < n :: Tokenless(w(k).reply) && w(k).reply.error == Some("slow_down")
    ensures SlowDowns(w, n) == n
    ensures Ready(w, start, initial, n) - start >= n * initial + 5_000 * (n * (n - 1) / 2)
  {
    if n > 0 {
      SlowDownsTakeTime(w, start, initial, n - 1);
      IntervalCountsSlowDowns(w, initial, 0, n - 1);
      Triangle(n);
      OneMore(n, initial);
    }
  }

  lemma Triangle(n: int)
    requires n > 0
    ensures n * (n - 1) / 2 == (n - 1) * (n - 2) / 2 + (n - 1)
  {
    assert n * (n - 1) == (n - 1) * (n - 2) + 2 * (n - 1);
  }
}
