/** The in-process sliding-window rate limiter (security/rate-limiter.ts). Times are milliseconds. */
module RateLimiter {

  /** `timestamps.filter((ts) => ts > windowStart)` */
  function Active(timestamps: seq<int>, windowStart: int): seq<int> {
    if timestamps == [] then []
    else
      var n := |timestamps| - 1;
      Active(timestamps[..n], windowStart) + if timestamps[n] > windowStart then [timestamps[n]] else []
  }

  datatype RateLimitResult = RateLimitResult(allowed: bool, limit: int, remaining: int, resetAt: int)

  function Max(a: int, b: int): int { if a >= b then a else b }

  /** Math.ceil(ms / 1000) */
  function CeilSeconds(ms: int): int { -((-ms) / 1000) }

  /** What check answers, given the timestamps inside the window. */
  function Decide(windowMs: int, maxRequests: int, timestamps: seq<int>, now: int): RateLimitResult {
    var count := |timestamps|;
    var allowed := count < maxRequests;
    var oldest := if count > 0 then timestamps[0] else now;
    var remaining := Max(0, maxRequests - count - if allowed then 1 else 0);
    RateLimitResult(allowed, maxRequests, remaining, CeilSeconds(oldest + windowMs))
  }

  /** The Retry-After header of tooManyRequests, built at `now`. */
  function RetryAfter(r: RateLimitResult, now: int): int { Max(0, r.resetAt - now / 1000) }

  function Get(store: map<string, seq<int>>, key: string): seq<int> { if key in store then store[key] else [] }

  lemma {:induction false} ActiveSnoc(h: seq<int>, x: int, ws: int)
    ensures Active(h + [x], ws) == Active(h, ws) + if x > ws then [x] else []
  {
    assert (h + [x])[..|h|] == h;
  }

  /** Filtering by a later bound forgets an earlier filter. */
  lemma {:induction false} ActiveTwice(h: seq<int>, early: int, late: int)
    requires early <= late
    ensures Active(Active(h, early), late) == Active(h, late)
  {
    if h != [] {
      var n := |h| - 1;
      ActiveTwice(h[..n], early, late);
      if h[n] > early {
        ActiveSnoc(Active(h[..n], early), h[n], late);
      } else {
        assert Active(h, early) == Active(h[..n], early);
      }
    }
  }

  type Store = map<string, seq<int>>

  /** Pruned store and full history agree, key by key, on what lies after `ws`. */
  ghost predicate SameWindows(store: Store, history: Store, ws: int) {
    forall key: string :: Active(Get(store, key), ws) == Active(Get(history, key), ws)
  }

  lemma LaterWindows(store: Store, history: Store, early: int, late: int)
    requires SameWindows(store, history, early) && early <= late
    ensures SameWindows(store, history, late)
  {
    forall key: string ensures Active(Get(store, key), late) == Active(Get(history, key), late) {
      ActiveTwice(Get(store, key), early, late);
      ActiveTwice(Get(history, key), early, late);
    }
  }

  function Record(store: Store, key: string, ws: int, now: int): Store {
    store[key := Active(Get(store, key), ws) + [now]]
  }

  lemma RecordKeepsWindows(store: Store, history: Store, key: string, ws: int, now: int)
    requires SameWindows(store, history, ws)
    ensures SameWindows(Record(store, key, ws, now), history[key := Get(history, key) + [now]], ws)
  {
    var store', history' := Record(store, key, ws, now), history[key := Get(history, key) + [now]];
    forall other: string ensures Active(Get(store', other), ws) == Active(Get(history', other), ws) {
      if other == key {
        ActiveTwice(Get(store, key), ws, ws);
        ActiveSnoc(Active(Get(store, key), ws), now, ws);
        ActiveSnoc(Get(history, key), now, ws);
      } else {
        assert Get(store', other) == Get(store, other) && Get(history', other) == Get(history, other);
      }
    }
  }

  /** The store without timestamps at or before `ws`, and without keys that have none left. */
  function Prune(store: Store, ws: int): Store {
    map key | key in store && Active(store[key], ws) != [] :: Active(store[key], ws)
  }

  lemma PruneKeepsWindows(store: Store, history: Store, early: int, ws: int)
    requires SameWindows(store, history, early) && early <= ws
    ensures SameWindows(Prune(store, ws), history, ws)
  {
    var pruned := Prune(store, ws);
    LaterWindows(store, history, early, ws);
    forall key: string ensures Active(Get(pruned, key), ws) == Active(Get(history, key), ws) {
      ActiveTwice(Get(store, key), ws, ws);
    }
  }

  /** Pruning one key. */
  function PruneKey(store: Store, key: string, ws: int): Store
    requires key in store
  {
    if Active(store[key], ws) == [] then store - {key} else store[key := Active(store[key], ws)]
  }

  lemma PruneKeyFirst(store: Store, key: string, ws: int)
    requires key in store
    ensures Prune(PruneKey(store, key, ws), ws) == Prune(store, ws)
  {
    ActiveTwice(store[key], ws, ws);
  }

  ghost predicate Clean(store: Store, key: string, ws: int) {
    key in store ==> Active(store[key], ws) == store[key] != []
  }

  lemma PruneKeyCleans(store: Store, key: string, ws: int)
    requires key in store
    ensures Clean(PruneKey(store, key, ws), key, ws)
    ensures forall other | other != key && Clean(store, other, ws) :: Clean(PruneKey(store, key, ws), other, ws)
  {
    ActiveTwice(store[key], ws, ws);
  }

  lemma CleanIsPruned(store: Store, ws: int)
    requires forall key | key in store :: Clean(store, key, ws)
    ensures Prune(store, ws) == store
  {
    forall key | key in store
      ensures key in Prune(store, ws) && Prune(store, ws)[key] == store[key]
    {
      assert Clean(store, key, ws);
    }
  }

  class Limiter {
    const windowMs: int
    const maxRequests: int
    var store: Store

    /** Every consumption ever recorded, per key, and the latest time seen by a mutator. */
    ghost var history: Store
    ghost var clock: int

    /** Where the window starts at `clock`. */
    ghost var horizon: int

    ghost predicate Valid() reads this { horizon == clock - windowMs && SameWindows(store, history, horizon) }

    constructor (windowMs: int, maxRequests: int, ghost now: int)
      ensures Valid() && this.windowMs == windowMs && this.maxRequests == maxRequests
      ensures store == map[] && history == map[] && clock == now
    {
      this.windowMs := windowMs;
      this.maxRequests := maxRequests;
      store, history, clock, horizon := map[], map[], now, now - windowMs;
    }

    /** check answers from the pruned store exactly as it would from the full history. */
    method Check(key: string, now: int, disabled: bool) returns (r: RateLimitResult)
      requires Valid() && now >= clock
      ensures disabled ==> r == RateLimitResult(true, maxRequests, maxRequests, 0)
      ensures !disabled ==> r == Decide(windowMs, maxRequests, Active(Get(history, key), now - windowMs), now)
    {
      if disabled { return RateLimitResult(true, maxRequests, maxRequests, 0); }
      var windowStart := now - windowMs;
      LaterWindows(store, history, horizon, windowStart);
      var timestamps := Active(Get(store, key), windowStart);
      var count := |timestamps|;
      var allowed := count < maxRequests;
      var remaining := Max(0, maxRequests - count - if allowed then 1 else 0);
      var oldest := if count > 0 then timestamps[0] else now;
      r := RateLimitResult(allowed, maxRequests, remaining, CeilSeconds(oldest + windowMs));
    }

    /** The new timestamp goes to the history; what the store drops, no later check can see. */
    method Consume(key: string, now: int, disabled: bool)
      requires Valid() && now >= clock
      modifies this
      ensures Valid()
      ensures disabled ==> store == old(store) && history == old(history) && clock == old(clock)
      ensures !disabled ==> history == old(history)[key := Get(old(history), key) + [now]] && clock == now
      ensures !disabled ==> store == Record(old(store), key, now - windowMs, now)
    {
      if disabled { return; }
      var windowStart := now - windowMs;
      LaterWindows(store, history, horizon, windowStart);
      RecordKeepsWindows(store, history, key, windowStart, now);
      var timestamps := Active(Get(store, key), windowStart);
      timestamps := timestamps + [now];
      store := store[key := timestamps];
      history := history[key := Get(history, key) + [now]];
      clock, horizon := now, windowStart;
    }

    /** cleanup() prunes every key in place and drops the empty ones; no later check can tell. */
    method Cleanup(now: int)
      requires Valid() && now >= clock
      modifies this`store, this`clock, this`horizon
      ensures Valid() && clock == now
      ensures store == Prune(old(store), now - windowMs)
    {
      var windowStart := now - windowMs;
      ghost var pruned := Prune(store, windowStart);
      PruneKeepsWindows(store, history, horizon, windowStart);
      clock, horizon := now, windowStart;
      var pending := store.Keys;
      while pending != {}
        invariant pending <= store.Keys
        invariant forall key | key in store && key !in pending :: Clean(store, key, windowStart)
        invariant Prune(store, windowStart) == pruned
        decreases |pending|
        modifies this`store
      {
        var key :| key in pending;
        PruneKeyFirst(store, key, windowStart);
        PruneKeyCleans(store, key, windowStart);
        var active := Active(store[key], windowStart);
        if |active| == 0 {
          store := store - {key};
        } else {
          store := store[key := active];
        }
        pending := pending - {key};
      }
      CleanIsPruned(store, windowStart);
    }

    method Reset()
      modifies this
      ensures Valid() && store == map[] && history == map[] && clock == old(clock)
    {
      store, history, horizon := map[], map[], clock - windowMs;
    }
  }

  // ---- One key over a whole run: checks and consumptions may be separated by other requests ----

  datatype Event =
    | Checked(now: int)    // check(); when allowed, the request is between its check and its consume
    | Consumed(now: int)   // consume() of a request that was allowed
    | Abandoned(now: int)  // an allowed request answered before it consumes (invalid body, second limiter)

  datatype Config = Config(windowMs: int, maxRequests: int)

  datatype Key = Key(history: seq<int>, inFlight: int, clock: int)

  function Count(c: Config, h: seq<int>, now: int): nat { |Active(h, now - c.windowMs)| }

  predicate Enabled(k: Key, e: Event) {
    e.now >= k.clock && (e.Checked? || k.inFlight > 0)
  }

  function Apply(c: Config, k: Key, e: Event): Key {
    match e
    case Checked(now) =>
      if Decide(c.windowMs, c.maxRequests, Active(k.history, now - c.windowMs), now).allowed then
        Key(k.history, k.inFlight + 1, now)
      else Key(k.history, k.inFlight, now)
    case Consumed(now) => Key(k.history + [now], k.inFlight - 1, now)
    case Abandoned(now) => Key(k.history, k.inFlight - 1, now)
  }

  /** The guard of the global and register limiters: check, then consume, in one synchronous step, each reading the
      clock. In the key's run it is Checked, followed by Consumed if the request was allowed. */
  method CheckAndConsume(limiter: Limiter, key: string, now: int, later: int) returns (r: RateLimitResult)
    requires limiter.Valid() && limiter.clock <= now <= later
    modifies limiter
    ensures limiter.Valid()
    ensures var c, h := Config(limiter.windowMs, limiter.maxRequests), old(limiter.history);
            var before := Key(Get(h, key), 0, old(limiter.clock));
            var checked := Apply(c, before, Checked(now));
            && r == Decide(c.windowMs, c.maxRequests, Active(before.history, now - c.windowMs), now)
            && checked.inFlight == (if r.allowed then 1 else 0)
            && Get(limiter.history, key) == (if r.allowed then Apply(c, checked, Consumed(later)) else checked).history
            && (forall other | other != key :: Get(limiter.history, other) == Get(h, other))
  {
    ghost var c, h := Config(limiter.windowMs, limiter.maxRequests), limiter.history;
    r := limiter.Check(key, now, false);
    GuardIsRun(c, Key(Get(h, key), 0, limiter.clock), now, r);
    if !r.allowed { return; }
    limiter.Consume(key, later, false);
    assert limiter.history == h[key := Get(h, key) + [later]];
  }

  lemma GuardIsRun(c: Config, before: Key, now: int, r: RateLimitResult)
    requires before.inFlight == 0
    requires r == Decide(c.windowMs, c.maxRequests, Active(before.history, now - c.windowMs), now)
    ensures Apply(c, before, Checked(now)) == Key(before.history, if r.allowed then 1 else 0, now)
  {
  }

  function After(c: Config, run: seq<Event>): Key {
    if run == [] then Key([], 0, 0) else Apply(c, After(c, run[..|run| - 1]), run[|run| - 1])
  }

  /** Every step was possible, and never more than `limit` requests were between their check and their consume. */
  predicate Legal(c: Config, limit: nat, run: seq<Event>) {
    run == [] || (
      && Legal(c, limit, run[..|run| - 1])
      && Enabled(After(c, run[..|run| - 1]), run[|run| - 1])
      && After(c, run).inFlight <= limit)
  }

  lemma {:induction false} ActiveShrinks(h: seq<int>, early: int, late: int)
    requires early <= late
    ensures |Active(h, late)| <= |Active(h, early)|
  {
    if h != [] { ActiveShrinks(h[..|h| - 1], early, late); }
  }

  /** At every consumption, the window ending there holds at most `bound`. */
  ghost predicate Bounded(c: Config, bound: int, h: seq<int>) {
    h == [] || (Bounded(c, bound, h[..|h| - 1]) && Count(c, h, h[|h| - 1]) <= bound)
  }

  lemma BoundedSnoc(c: Config, bound: int, h: seq<int>, x: int)
    ensures Bounded(c, bound, h + [x]) <==> Bounded(c, bound, h) && Count(c, h + [x], x) <= bound
  {
    assert (h + [x])[..|h|] == h;
  }

  /** The invariant: whenever the window is full, the count and the requests in flight stay under the bound. */
  ghost predicate KeyOk(c: Config, limit: nat, k: Key) {
    && 0 <= k.inFlight <= limit
    && (Count(c, k.history, k.clock) >= c.maxRequests ==>
          Count(c, k.history, k.clock) + k.inFlight <= c.maxRequests + limit - 1)
    && Bounded(c, c.maxRequests + limit - 1, k.history)
  }

  lemma ConsumeKeepsKey(c: Config, limit: nat, k: Key, now: int)
    requires limit >= 1 && KeyOk(c, limit, k) && now >= k.clock && k.inFlight > 0
    ensures KeyOk(c, limit, Key(k.history + [now], k.inFlight - 1, now))
  {
    ConsumeCount(c, k.history, k.clock, now);
    BoundedSnoc(c, c.maxRequests + limit - 1, k.history, now);
  }

  lemma ConsumeCount(c: Config, h: seq<int>, clock: int, now: int)
    requires clock <= now
    ensures Count(c, h + [now], now) <= Count(c, h, clock) + 1
  {
    ActiveShrinks(h, clock - c.windowMs, now - c.windowMs);
    ActiveSnoc(h, now, now - c.windowMs);
  }

  lemma StepKeepsKey(c: Config, limit: nat, k: Key, e: Event)
    requires limit >= 1 && KeyOk(c, limit, k) && Enabled(k, e) && Apply(c, k, e).inFlight <= limit
    ensures KeyOk(c, limit, Apply(c, k, e))
  {
    if e.Consumed? {
      ConsumeKeepsKey(c, limit, k, e.now);
    } else {
      ActiveShrinks(k.history, k.clock - c.windowMs, e.now - c.windowMs);
    }
  }

  lemma {:induction false} RunKeepsKey(c: Config, limit: nat, run: seq<Event>)
    requires limit >= 1 && c.maxRequests >= 0 && Legal(c, limit, run)
    ensures KeyOk(c, limit, After(c, run))
  {
    if run != [] {
      RunKeepsKey(c, limit, run[..|run| - 1]);
      StepKeepsKey(c, limit, After(c, run[..|run| - 1]), run[|run| - 1]);
    }
  }

  /** The consumptions in the window `(from, from + windowMs]`. */
  function CountIn(c: Config, h: seq<int>, from: int): nat {
    if h == [] then 0
    else CountIn(c, h[..|h| - 1], from) + if from < h[|h| - 1] <= from + c.windowMs then 1 else 0
  }

  lemma {:induction false} CountIsActive(c: Config, h: seq<int>, from: int, ws: int)
    requires ws <= from
    ensures CountIn(c, h, from) <= |Active(h, ws)|
  {
    if h != [] { CountIsActive(c, h[..|h| - 1], from, ws); }
  }

  lemma {:induction false} EveryWindowBounded(c: Config, bound: int, h: seq<int>, from: int)
    requires bound >= 0 && Bounded(c, bound, h)
    ensures CountIn(c, h, from) <= bound
  {
    if h != [] {
      var n := |h| - 1;
      if from < h[n] <= from + c.windowMs {
        CountIsActive(c, h, from, h[n] - c.windowMs);
      } else {
        EveryWindowBounded(c, bound, h[..n], from);
      }
    }
  }

  /** With at most `limit` requests between check and consume, no window of length `windowMs`, wherever it lies,
      holds more than `maxRequests + limit - 1` consumptions. */
  lemma WindowBound(c: Config, limit: nat, run: seq<Event>, from: int)
    requires limit >= 1 && c.maxRequests >= 0 && Legal(c, limit, run)
    ensures CountIn(c, After(c, run).history, from) <= c.maxRequests + limit - 1
  {
    RunKeepsKey(c, limit, run);
    EveryWindowBounded(c, c.maxRequests + limit - 1, After(c, run).history, from);
  }

  /** When check and consume are one step, every window holds at most `maxRequests`. */
  lemma AtomicWindowBound(c: Config, run: seq<Event>, from: int)
    requires c.maxRequests >= 0 && Legal(c, 1, run)
    ensures CountIn(c, After(c, run).history, from) <= c.maxRequests
  {
    WindowBound(c, 1, run, from);
  }

  // ---- The bound is reached ----

  function Zeros(n: nat): (r: seq<int>) { if n == 0 then [] else Zeros(n - 1) + [0] }

  lemma CountSnoc(c: Config, h: seq<int>, x: int, from: int)
    ensures CountIn(c, h + [x], from) == CountIn(c, h, from) + if from < x <= from + c.windowMs then 1 else 0
  {
    assert (h + [x])[..|h|] == h;
  }

  lemma {:induction false} ZerosInWindow(c: Config, n: nat)
    requires c.windowMs > 0
    ensures Count(c, Zeros(n), 0) == n == CountIn(c, Zeros(n), -1)
  {
    if n > 0 {
      ZerosInWindow(c, n - 1);
      ActiveSnoc(Zeros(n - 1), 0, 0 - c.windowMs);
      CountSnoc(c, Zeros(n - 1), 0, -1);
    }
  }

  ghost predicate Reaches(c: Config, limit: nat, run: seq<Event>, k: Key) { Legal(c, limit, run) && After(c, run) == k }

  lemma ReachStep(c: Config, limit: nat, run: seq<Event>, k: Key, e: Event)
    requires Reaches(c, limit, run, k) && Enabled(k, e) && Apply(c, k, e).inFlight <= limit
    ensures Reaches(c, limit, run + [e], Apply(c, k, e))
  {
    assert (run + [e])[..|run|] == run;
  }

  lemma CheckStep(c: Config, limit: nat, run: seq<Event>, k: Key, now: int)
    requires Reaches(c, limit, run, k) && k.clock <= now && k.inFlight < limit
    requires Count(c, k.history, now) < c.maxRequests
    ensures Reaches(c, limit, run + [Checked(now)], Key(k.history, k.inFlight + 1, now))
  {
    ReachStep(c, limit, run, k, Checked(now));
  }

  lemma ConsumeStep(c: Config, limit: nat, run: seq<Event>, k: Key, now: int)
    requires Reaches(c, limit, run, k) && k.clock <= now && 0 < k.inFlight <= limit + 1
    ensures Reaches(c, limit, run + [Consumed(now)], Key(k.history + [now], k.inFlight - 1, now))
  {
    ReachStep(c, limit, run, k, Consumed(now));
  }

  /** With `n` consumptions at time 0 and room for another, `m` more requests can pass their checks. */
  lemma {:induction false} Fill(c: Config, limit: nat, n: nat, m: nat) returns (run: seq<Event>)
    requires c.windowMs > 0 && limit >= 1 && n < c.maxRequests && m <= limit
    ensures Reaches(c, limit, run, Key(Zeros(n), m, 0))
    decreases n, m
  {
    if m > 0 {
      run := Fill(c, limit, n, m - 1);
      ZerosInWindow(c, n);
      CheckStep(c, limit, run, Key(Zeros(n), m - 1, 0), 0);
      run := run + [Checked(0)];
    } else if n > 0 {
      run := Fill(c, limit, n - 1, 1);
      ConsumeStep(c, limit, run, Key(Zeros(n - 1), 1, 0), 0);
      run := run + [Consumed(0)];
    } else {
      run := [];
    }
  }

  lemma {:induction false} Drain(c: Config, limit: nat, n: nat, m: nat, run0: seq<Event>) returns (run: seq<Event>)
    requires Reaches(c, limit, run0, Key(Zeros(n), m, 0)) && m <= limit
    ensures Reaches(c, limit, run, Key(Zeros(n + m), 0, 0))
    decreases m
  {
    run := run0;
    if m > 0 {
      ConsumeStep(c, limit, run0, Key(Zeros(n), m, 0), 0);
      run := Drain(c, limit, n + 1, m - 1, run0 + [Consumed(0)]);
    }
  }

  /** The bound is exact: some run puts `maxRequests + limit - 1` consumptions into one window. */
  lemma WindowBoundReached(c: Config, limit: nat) returns (run: seq<Event>)
    requires c.windowMs > 0 && limit >= 1 && c.maxRequests >= 1
    ensures Legal(c, limit, run) && CountIn(c, After(c, run).history, -1) == c.maxRequests + limit - 1
  {
    var n := c.maxRequests - 1;
    var full := Fill(c, limit, n, limit);
    run := Drain(c, limit, n, limit, full);
    assert After(c, run).history == Zeros(n + limit);
    ZerosInWindow(c, n + limit);
  }

  // ---- Retry-After ----

  /** The oldest timestamp of a window is gone from every window that starts at or after it. */
  lemma OldestExpires(h: seq<int>, early: int, late: int)
    requires early <= late && Active(h, early) != [] && Active(h, early)[0] <= late
    ensures |Active(h, late)| < |Active(h, early)|
  {
    ActiveTwice(h, early, late);
    FirstDropped(Active(h, early), late);
  }

  lemma {:induction false} FirstDropped(ts: seq<int>, ws: int)
    requires ts != [] && ts[0] <= ws
    ensures |Active(ts, ws)| < |ts|
  {
    if |ts| > 1 { FirstDropped(ts[..|ts| - 1], ws); } else { assert ts[..0] == []; }
  }

  function Answer(c: Config, h: seq<int>, now: int): RateLimitResult {
    Decide(c.windowMs, c.maxRequests, Active(h, now - c.windowMs), now)
  }

  // ---- What the answer's numbers mean ----

  function Copies(now: int, n: nat): seq<int> { if n == 0 then [] else Copies(now, n - 1) + [now] }

  lemma {:induction false} CountCopies(c: Config, h: seq<int>, now: int, n: nat)
    requires c.windowMs > 0
    ensures Count(c, h + Copies(now, n), now) == Count(c, h, now) + n
  {
    if n == 0 {
      assert h + [] == h;
    } else {
      CountCopies(c, h, now, n - 1);
      assert h + Copies(now, n) == (h + Copies(now, n - 1)) + [now];
      ActiveSnoc(h + Copies(now, n - 1), now, now - c.windowMs);
    }
  }

  /** `remaining` is how many more requests the same instant admits once this one has been consumed: after it and `j`
      others, the next is allowed exactly while `j` is less. A denied key has none remaining. */
  lemma RemainingMeans(c: Config, h: seq<int>, now: int, j: nat)
    requires c.windowMs > 0
    ensures var a := Answer(c, h, now);
            && a.limit == c.maxRequests && a.remaining >= 0
            && (a.allowed ==> (Answer(c, h + Copies(now, 1 + j), now).allowed <==> j < a.remaining))
            && (!a.allowed ==> a.remaining == 0)
  {
    CountCopies(c, h, now, 1 + j);
  }

  /** `resetAt` is the first whole second at which the oldest timestamp inside the window has left it. */
  lemma ResetAtMeans(c: Config, h: seq<int>, now: int)
    ensures var oldest := if Window(c, h, now) == [] then now else Window(c, h, now)[0];
            forall second: int ::
              Answer(c, h, now).resetAt <= second <==> oldest <= second * 1_000 - c.windowMs
  {
    var oldest := if Window(c, h, now) == [] then now else Window(c, h, now)[0];
    forall second: int ensures CeilSeconds(oldest + c.windowMs) <= second <==> oldest + c.windowMs <= second * 1_000 {
      CeilMeans(oldest + c.windowMs, second);
    }
  }

  lemma CeilMeans(ms: int, second: int)
    ensures CeilSeconds(ms) <= second <==> ms <= second * 1_000
  {
  }

  /** The advertised wait, counted from when the 429 response was built, outlasts the oldest timestamp. */
  lemma WaitOutlastsOldest(c: Config, h: seq<int>, now: int, answered: int, later: int)
    requires now <= answered && Active(h, now - c.windowMs) != []
    requires later >= answered + 1000 * RetryAfter(Answer(c, h, now), answered)
    ensures later >= answered && Active(h, now - c.windowMs)[0] <= later - c.windowMs
  {
    var oldest := Active(h, now - c.windowMs)[0];
    assert 1000 * CeilSeconds(oldest + c.windowMs) >= oldest + c.windowMs;
    assert 1000 * (answered / 1000) <= answered;
  }

  /** A denied key is allowed again once the advertised Retry-After is over, if the window was not over-full and
      nothing was consumed since. */
  lemma RetryAfterSuffices(c: Config, h: seq<int>, now: int, answered: int, later: int)
    requires c.maxRequests >= 1 && Count(c, h, now) <= c.maxRequests && now <= answered
    requires !Answer(c, h, now).allowed && later >= answered + 1000 * RetryAfter(Answer(c, h, now), answered)
    ensures Answer(c, h, later).allowed
  {
    WaitOutlastsOldest(c, h, now, answered, later);
    OldestExpires(h, now - c.windowMs, later - c.windowMs);
  }

  /** In an atomic run the advertised Retry-After is always enough. */
  lemma AtomicRetryAfter(c: Config, run: seq<Event>, now: int, answered: int, later: int)
    requires c.maxRequests >= 1 && Legal(c, 1, run) && After(c, run).clock <= now <= answered
    requires var r := Answer(c, After(c, run).history, now);
             !r.allowed && later >= answered + 1000 * RetryAfter(r, answered)
    ensures Answer(c, After(c, run).history, later).allowed
  {
    AtomicCount(c, run, now);
    RetryAfterSuffices(c, After(c, run).history, now, answered, later);
  }

  lemma AtomicCount(c: Config, run: seq<Event>, now: int)
    requires c.maxRequests >= 1 && Legal(c, 1, run) && After(c, run).clock <= now
    ensures Count(c, After(c, run).history, now) <= c.maxRequests
  {
    RunKeepsKey(c, 1, run);
    FullCount(c, After(c, run), now);
  }

  lemma FullCount(c: Config, k: Key, now: int)
    requires KeyOk(c, 1, k) && k.clock <= now
    ensures Count(c, k.history, now) <= c.maxRequests
  {
    ActiveShrinks(k.history, k.clock - c.windowMs, now - c.windowMs);
  }

  // ---- The exact wait when the window is over-full ----

  ghost predicate UpTo(h: seq<int>, x: int) { forall i | 0 <= i < |h| :: h[i] <= x }

  ghost predicate Ordered(h: seq<int>) { h == [] || (Ordered(h[..|h| - 1]) && UpTo(h[..|h| - 1], h[|h| - 1])) }

  lemma OrderedSnoc(h: seq<int>, x: int)
    requires Ordered(h) && UpTo(h, x)
    ensures Ordered(h + [x])
  {
    assert (h + [x])[..|h|] == h;
  }

  lemma {:induction false} NoneActive(h: seq<int>, x: int, ws: int)
    requires UpTo(h, x) && x <= ws
    ensures Active(h, ws) == []
  {
    if h != [] {
      NoneActive(h[..|h| - 1], x, ws);
    }
  }

  lemma NoneLeft(h: seq<int>, ws: int)
    requires Ordered(h) && h != [] && h[|h| - 1] <= ws
    ensures Active(h, ws) == [] && UpTo(h, ws)
  {
    NoneActive(h[..|h| - 1], h[|h| - 1], ws);
  }

  lemma LastLeft(h: seq<int>, ws: int)
    requires h != [] && h[|h| - 1] > ws
    ensures |Active(h, ws)| == |Active(h[..|h| - 1], ws)| + 1
  {
  }

  /** In an ordered history fewer than `m` timestamps are left exactly when the m-th from the end is gone. */
  lemma {:induction false} FewerThan(h: seq<int>, ws: int, m: nat)
    requires Ordered(h) && 1 <= m <= |h|
    ensures |Active(h, ws)| < m <==> h[|h| - m] <= ws
  {
    var n := |h| - 1;
    if h[n] <= ws {
      NoneLeft(h, ws);
    } else {
      LastLeft(h, ws);
      if m > 1 { FewerThan(h[..n], ws, m - 1); }
    }
  }

  lemma {:induction false} ActiveUpTo(h: seq<int>, ws: int, x: int)
    requires UpTo(h, x)
    ensures UpTo(Active(h, ws), x)
  {
    if h != [] {
      ActiveUpTo(h[..|h| - 1], ws, x);
    }
  }

  lemma {:induction false} ActiveOrdered(h: seq<int>, ws: int)
    requires Ordered(h)
    ensures Ordered(Active(h, ws))
  {
    if h != [] {
      var n := |h| - 1;
      ActiveOrdered(h[..n], ws);
      ActiveUpTo(h[..n], ws, h[n]);
      OrderedSnoc(Active(h[..n], ws), h[n]);
      assert Active(h[..n], ws) + [] == Active(h[..n], ws);
    }
  }

  lemma {:induction false} HistoryOrdered(c: Config, limit: nat, run: seq<Event>)
    requires Legal(c, limit, run)
    ensures Ordered(After(c, run).history) && UpTo(After(c, run).history, After(c, run).clock)
  {
    if run != [] {
      var k, e := After(c, run[..|run| - 1]), run[|run| - 1];
      HistoryOrdered(c, limit, run[..|run| - 1]);
      if e.Consumed? { OrderedSnoc(k.history, e.now); }
    }
  }

  /** The timestamps that a check at `now` counts. */
  function Window(c: Config, h: seq<int>, now: int): seq<int> { Active(h, now - c.windowMs) }

  lemma LaterWindow(c: Config, h: seq<int>, now: int, later: int)
    requires Ordered(h) && now <= later
    ensures Ordered(Window(c, h, now)) && Window(c, h, later) == Active(Window(c, h, now), later - c.windowMs)
  {
    ActiveOrdered(h, now - c.windowMs);
    ActiveTwice(h, now - c.windowMs, later - c.windowMs);
  }

  lemma AllowedWhenFew(c: Config, h: seq<int>, now: int)
    ensures Answer(c, h, now).allowed <==> |Window(c, h, now)| < c.maxRequests
  {
  }

  /** A denied key is allowed at a later check, nothing consumed since, exactly when its timestamp number
      `count - maxRequests` has left the window; Retry-After is computed from number 0, which is the same one only when
      the window is not over-full. */
  lemma AllowedAgainIff(c: Config, limit: nat, run: seq<Event>, now: int, later: int)
    requires c.maxRequests >= 1 && Legal(c, limit, run) && now <= later
    requires !Answer(c, After(c, run).history, now).allowed
    ensures var h := After(c, run).history;
            var count := |Window(c, h, now)|;
            && count >= c.maxRequests
            && (Answer(c, h, later).allowed <==> Window(c, h, now)[count - c.maxRequests] <= later - c.windowMs)
  {
    HistoryOrdered(c, limit, run);
    AllowedAgainOrdered(c, After(c, run).history, now, later);
  }

  lemma AllowedAgainOrdered(c: Config, h: seq<int>, now: int, later: int)
    requires c.maxRequests >= 1 && Ordered(h) && now <= later && !Answer(c, h, now).allowed
    ensures var count := |Window(c, h, now)|;
            && count >= c.maxRequests
            && (Answer(c, h, later).allowed <==> Window(c, h, now)[count - c.maxRequests] <= later - c.windowMs)
  {
    AllowedWhenFew(c, h, now);
    AllowedWhenFew(c, h, later);
    LaterWindow(c, h, now, later);
    FewerThan(Window(c, h, now), later - c.windowMs, c.maxRequests);
  }

  /** When the advertised wait is over. */
  function WaitOver(c: Config, h: seq<int>, now: int, answered: int): int {
    answered + 1000 * RetryAfter(Answer(c, h, now), answered)
  }

  /** The advertised wait is enough exactly when the timestamp number `count - maxRequests` leaves the window by
      then. */
  lemma AdvertisedWaitIff(c: Config, limit: nat, run: seq<Event>, now: int, answered: int)
    requires c.maxRequests >= 1 && Legal(c, limit, run) && now <= answered
    requires !Answer(c, After(c, run).history, now).allowed
    ensures var h := After(c, run).history;
            var count := |Window(c, h, now)|;
            && count >= c.maxRequests
            && (Answer(c, h, WaitOver(c, h, now, answered)).allowed
                <==> Window(c, h, now)[count - c.maxRequests] <= WaitOver(c, h, now, answered) - c.windowMs)
  {
    AllowedAgainIff(c, limit, run, now, WaitOver(c, After(c, run).history, now, answered));
  }

  // ---- For which limiters the advertised wait is enough ----

  /** A key denied at `now`, and told by a response built at `answered` how long to wait, is allowed after that wait. */
  predicate WaitEnough(c: Config, h: seq<int>, now: int, answered: int) {
    Answer(c, h, now).allowed || Answer(c, h, WaitOver(c, h, now, answered)).allowed
  }

  /** In every run, and however much later than the check the response is built. */
  ghost predicate WaitAlwaysEnough(c: Config, limit: nat) {
    forall run, now, answered | Legal(c, limit, run) && After(c, run).clock <= now <= answered ::
      WaitEnough(c, After(c, run).history, now, answered)
  }

  /** One consumption at `t0` and `m` at `t1`. */
  function Late(t0: int, t1: int, m: nat): seq<int> { if m == 0 then [t0] else Late(t0, t1, m - 1) + [t1] }

  lemma {:induction false} LateActive(t0: int, t1: int, m: nat, ws: int)
    requires ws < t1
    ensures |Active(Late(t0, t1, m), ws)| == m + if ws < t0 then 1 else 0
  {
    if m == 0 {
      ActiveSnoc([], t0, ws);
      assert [] + [t0] == [t0];
    } else {
      LateActive(t0, t1, m - 1, ws);
      ActiveSnoc(Late(t0, t1, m - 1), t1, ws);
    }
  }

  lemma {:induction false} LateOldest(t0: int, t1: int, m: nat, ws: int)
    requires ws < t0
    ensures Active(Late(t0, t1, m), ws) != [] && Active(Late(t0, t1, m), ws)[0] == t0
  {
    if m == 0 {
      ActiveSnoc([], t0, ws);
      assert [] + [t0] == [t0];
    } else {
      LateOldest(t0, t1, m - 1, ws);
      ActiveSnoc(Late(t0, t1, m - 1), t1, ws);
    }
  }

  lemma StartLate(c: Config, limit: nat, t0: int, t1: int) returns (run: seq<Event>)
    requires limit >= 2 && c.maxRequests >= 1 && 0 <= t0
    ensures Reaches(c, limit, run, Key(Late(t0, t1, 0), 1, t0))
  {
    run := [];
    CheckStep(c, limit, run, Key([], 0, 0), t0);
    run := run + [Checked(t0)];
    CheckStep(c, limit, run, Key([], 1, t0), t0);
    run := run + [Checked(t0)];
    ConsumeStep(c, limit, run, Key([], 2, t0), t0);
    run := run + [Consumed(t0)];
    assert [] + [t0] == Late(t0, t1, 0);
  }

  /** One more request is checked and consumed at `t1` while the first is still in flight. */
  lemma StepLate(c: Config, limit: nat, run: seq<Event>, t0: int, t1: int, m: nat, clock: int)
      returns (longer: seq<Event>)
    requires limit >= 2 && m + 1 < c.maxRequests && clock <= t1 && t1 - c.windowMs < t0 <= t1
    requires Reaches(c, limit, run, Key(Late(t0, t1, m), 1, clock))
    ensures Reaches(c, limit, longer, Key(Late(t0, t1, m + 1), 1, t1))
  {
    LateActive(t0, t1, m, t1 - c.windowMs);
    CheckStep(c, limit, run, Key(Late(t0, t1, m), 1, clock), t1);
    ConsumeStep(c, limit, run + [Checked(t1)], Key(Late(t0, t1, m), 2, t1), t1);
    longer := run + [Checked(t1)] + [Consumed(t1)];
  }

  /** While one request is in flight, others are checked and consumed at `t1` until the window is full. */
  lemma {:induction false} FillLate(c: Config, limit: nat, t0: int, t1: int, m: nat) returns (run: seq<Event>)
    requires limit >= 2 && m < c.maxRequests && 0 <= t0 && t1 - c.windowMs < t0 <= t1
    ensures Reaches(c, limit, run, Key(Late(t0, t1, m), 1, if m == 0 then t0 else t1))
  {
    if m == 0 {
      run := StartLate(c, limit, t0, t1);
    } else {
      run := FillLate(c, limit, t0, t1, m - 1);
      run := StepLate(c, limit, run, t0, t1, m - 1, if m == 1 then t0 else t1);
    }
  }

  /** Then the request in flight is consumed too. */
  lemma OverFull(c: Config, limit: nat, t0: int, t1: int) returns (run: seq<Event>)
    requires limit >= 2 && c.maxRequests >= 1 && 0 <= t0 && t1 - c.windowMs < t0 <= t1
    ensures Reaches(c, limit, run, Key(Late(t0, t1, c.maxRequests), 0, t1))
  {
    var m := c.maxRequests - 1;
    run := FillLate(c, limit, t0, t1, m);
    ConsumeStep(c, limit, run, Key(Late(t0, t1, m), 1, if m == 0 then t0 else t1), t1);
    run := run + [Consumed(t1)];
  }

  /** The 429 is computed from `t0`. */
  lemma LateDenied(c: Config, t0: int, t1: int, m: nat)
    requires t1 - c.windowMs < t0 <= t1 && 1 <= c.maxRequests <= m
    ensures !Answer(c, Late(t0, t1, m), t1).allowed
    ensures Answer(c, Late(t0, t1, m), t1).resetAt == CeilSeconds(t0 + c.windowMs)
  {
    LateActive(t0, t1, m, t1 - c.windowMs);
    LateOldest(t0, t1, m, t1 - c.windowMs);
  }

  lemma LateStillDenied(c: Config, t0: int, t1: int, m: nat, later: int)
    requires 1 <= c.maxRequests <= m && later - c.windowMs < t1
    ensures !Answer(c, Late(t0, t1, m), later).allowed
  {
    LateActive(t0, t1, m, later - c.windowMs);
  }

  /** With two requests in flight, in every window longer than a second: denied at 1 s by a response built at once, and
      still denied when the advertised wait is over. */
  lemma RetryAfterTooShort(c: Config, limit: nat) returns (run: seq<Event>)
    requires c.windowMs > 1_000 && c.maxRequests >= 1 && limit >= 2
    ensures var h := After(c, run).history;
            && Legal(c, limit, run) && After(c, run).clock == 1_000
            && !Answer(c, h, 1_000).allowed
            && WaitOver(c, h, 1_000, 1_000) == 1_000 * CeilSeconds(c.windowMs)
            && !Answer(c, h, WaitOver(c, h, 1_000, 1_000)).allowed
  {
    run := OverFull(c, limit, 0, 1_000);
    LateDenied(c, 0, 1_000, c.maxRequests);
    assert CeilSeconds(0 + c.windowMs) >= 1;
    LateStillDenied(c, 0, 1_000, c.maxRequests, 1_000 * CeilSeconds(c.windowMs));
  }

  /** The login route's IP limiter: 10 requests per 15 minutes; one consumed at 0 s and ten at 1 s; denied at 1 s with
      Retry-After 899, and still denied at 900 s. */
  lemma LoginRetryAfterTooShort() returns (run: seq<Event>)
    ensures var c := Config(900_000, 10);
            var h := After(c, run).history;
            && Legal(c, 2, run) && After(c, run).clock == 1_000
            && !Answer(c, h, 1_000).allowed && RetryAfter(Answer(c, h, 1_000), 1_000) == 899
            && !Answer(c, h, 900_000).allowed
  {
    run := RetryAfterTooShort(Config(900_000, 10), 2);
    assert CeilSeconds(900_000) == 900;
  }

  /** A whole second by which a window can be over. */
  lemma WholeSecond(windowMs: int) returns (end: int)
    requires windowMs >= 0
    ensures end >= windowMs && end % 1_000 == 0
  {
    end := 1_000 * CeilSeconds(windowMs);
  }

  lemma ResetAtWholeSecond(c: Config, h: seq<int>, now: int, end: int)
    requires end % 1_000 == 0 && Answer(c, h, now).resetAt == CeilSeconds(end)
    ensures WaitOver(c, h, now, end) == end
  {
  }

  /** With two requests in flight, in every window of at least two milliseconds: denied in the window's last
      millisecond, by a response built in the next one that advertises no wait at all, and denied then. */
  lemma NoWaitAdvertised(c: Config, limit: nat) returns (run: seq<Event>, answered: int)
    requires c.windowMs >= 2 && c.maxRequests >= 1 && limit >= 2
    ensures var h := After(c, run).history;
            && Legal(c, limit, run) && After(c, run).clock == answered - 1
            && !Answer(c, h, answered - 1).allowed
            && WaitOver(c, h, answered - 1, answered) == answered && !Answer(c, h, answered).allowed
  {
    answered := WholeSecond(c.windowMs);
    var t0, t1 := answered - c.windowMs, answered - 1;
    run := OverFull(c, limit, t0, t1);
    LateDenied(c, t0, t1, c.maxRequests);
    ResetAtWholeSecond(c, Late(t0, t1, c.maxRequests), t1, answered);
    LateStillDenied(c, t0, t1, c.maxRequests, answered);
  }

  /** In a window of at most a millisecond all timestamps that count are equal, so every advertised wait outlasts
      them. */
  lemma ShortWindowWait(c: Config, h: seq<int>, now: int, answered: int)
    requires c.windowMs <= 1 && c.maxRequests >= 1 && UpTo(h, now) && now <= answered
    ensures WaitEnough(c, h, now, answered)
  {
    if !Answer(c, h, now).allowed {
      FirstActive(h, now - c.windowMs);
      WaitOutlastsOldest(c, h, now, answered, WaitOver(c, h, now, answered));
      NoneActive(h, now, WaitOver(c, h, now, answered) - c.windowMs);
    }
  }

  lemma {:induction false} FirstActive(h: seq<int>, ws: int)
    requires Active(h, ws) != []
    ensures Active(h, ws)[0] > ws
  {
    if Active(h[..|h| - 1], ws) != [] { FirstActive(h[..|h| - 1], ws); }
  }

  lemma WaitEnoughWhen(c: Config, limit: nat, run: seq<Event>, now: int, answered: int)
    requires c.maxRequests >= 1 && (limit == 1 || c.windowMs <= 1)
    requires Legal(c, limit, run) && After(c, run).clock <= now <= answered
    ensures WaitEnough(c, After(c, run).history, now, answered)
  {
    var h := After(c, run).history;
    if c.windowMs <= 1 {
      HistoryOrdered(c, limit, run);
      ShortWindowWait(c, h, now, answered);
    } else if !Answer(c, h, now).allowed {
      AtomicRetryAfter(c, run, now, answered, WaitOver(c, h, now, answered));
    }
  }

  /** The advertised wait is always enough exactly for limiters that check and consume in one step and for windows of at
      most a millisecond: check and response each read the clock, so the wait may be cut by the time between them. */
  lemma RetryAfterEnoughIff(c: Config, limit: nat)
    requires c.maxRequests >= 1 && limit >= 1
    ensures WaitAlwaysEnough(c, limit) <==> limit == 1 || c.windowMs <= 1
  {
    if limit == 1 || c.windowMs <= 1 {
      forall run, now, answered | Legal(c, limit, run) && After(c, run).clock <= now <= answered
        ensures WaitEnough(c, After(c, run).history, now, answered)
      {
        WaitEnoughWhen(c, limit, run, now, answered);
      }
    } else {
      var run, answered := NoWaitAdvertised(c, limit);
      assert !WaitEnough(c, After(c, run).history, answered - 1, answered);
    }
  }
}
