/** The revoked_tokens table (packages/db/revocation.ts) and how its garbage collection meets the expiry check of
    verifyJwt. Times are microseconds; a token's `exp` is in seconds. */
module Revocation {
  import opened Microseconds
  import opened Options

  /** jti -> expires_at */
  type Table = map<string, int>

  /** INSERT ... ON CONFLICT (jti) DO NOTHING */
  function Inserted(table: Table, jti: string, expiresAt: int): Table {
    if jti in table then table else table[jti := expiresAt]
  }

  /** DELETE ... WHERE expires_at < NOW() */
  function Swept(table: Table, now: int): Table { map jti | jti in table && table[jti] >= now :: table[jti] }

  class RevokedTokens {
    var rows: Table

    constructor ()
      ensures rows == map[]
    {
      rows := map[];
    }

    /** The first expiry recorded for a token is kept. */
    method RevokeToken(jti: string, expiresAt: int)
      modifies this
      ensures jti in rows && rows[jti] == if jti in old(rows) then old(rows)[jti] else expiresAt
      ensures rows - {jti} == old(rows) - {jti}
      ensures rows == Inserted(old(rows), jti, expiresAt)
    {
      if jti !in rows { rows := rows[jti := expiresAt]; }
    }

    method IsRevoked(jti: string) returns (revoked: bool)
      ensures revoked <==> jti in rows
    {
      revoked := jti in rows;
    }

    method CleanupExpiredRevocations(now: int)
      modifies this
      ensures forall jti :: jti in rows <==> jti in old(rows) && old(rows)[jti] >= now
      ensures forall jti | jti in rows :: rows[jti] == old(rows)[jti]
      ensures rows == Swept(old(rows), now)
    {
      rows := Swept(rows, now);
    }
  }

  // ---- Runs: verifications take several steps, and other requests and sweeps run between them ----

  datatype Token = Token(jti: string, exp: int)

  datatype Event =
    | Revoked(jti: string, expiresAt: int, now: int)              // revokeToken
    | Cleaned(now: int)                                           // cleanupExpiredRevocations
    | Verified(use: nat, token: Token, checkedAt: int, now: int)  // verifyJwt: expiry check, later the look-up
    | Rechecked(use: nat, now: int)                               // verifyDelegatedToken: its own look-up
    | Consumed(use: nat, now: int)                                // verifyDelegatedToken: its insertion

  /** A delegated verification that has passed verifyJwt, and perhaps its own look-up. */
  datatype Use = Use(token: Token, rechecked: bool)

  datatype State = State(table: Table, uses: map<nat, Use>, clock: int)

  /** verifyJwt accepts: not expired when checked, not in the table when looked up. */
  predicate Passes(table: Table, token: Token, checkedAt: int) {
    !(token.exp != 0 && token.exp < checkedAt / SECOND) && !(token.jti != "" && token.jti in table)
  }

  predicate Enabled(s: State, e: Event) {
    && e.now >= s.clock
    && match e
       case Verified(use, _, checkedAt, now) => use !in s.uses && checkedAt <= now
       case Rechecked(use, _) => use in s.uses && !s.uses[use].rechecked
       case Consumed(use, _) => use in s.uses && s.uses[use].rechecked
       case _ => true
  }

  /** The row this step inserts. */
  function Insertion(s: State, e: Event): Option<(string, int)> {
    match e
    case Revoked(jti, expiresAt, _) => Some((jti, expiresAt))
    case Consumed(use, _) => if use in s.uses then var t := s.uses[use].token; Some((t.jti, t.exp * SECOND)) else None
    case _ => None
  }

  function TableAfter(s: State, e: Event): Table {
    match Insertion(s, e)
    case Some(row) => Inserted(s.table, row.0, row.1)
    case None => if e.Cleaned? then Swept(s.table, e.now) else s.table
  }

  function UsesAfter(s: State, e: Event): map<nat, Use> {
    match e
    case Verified(use, token, checkedAt, _) =>
      if Passes(s.table, token, checkedAt) then s.uses[use := Use(token, false)] else s.uses
    case Rechecked(use, _) =>
      if use !in s.uses then s.uses
      else if s.uses[use].token.jti in s.table then s.uses - {use}
      else s.uses[use := s.uses[use].(rechecked := true)]
    case Consumed(use, _) => s.uses - {use}
    case _ => s.uses
  }

  function Apply(s: State, e: Event): State { State(TableAfter(s, e), UsesAfter(s, e), e.now) }

  function After(run: seq<Event>): State {
    if run == [] then State(map[], map[], 0) else Apply(After(run[..|run| - 1]), run[|run| - 1])
  }

  /** Every step was possible when it was taken, on a clock that does not run backwards. */
  predicate Legal(run: seq<Event>) {
    run == [] || (Legal(run[..|run| - 1]) && Enabled(After(run[..|run| - 1]), run[|run| - 1]))
  }

  predicate Inserts(s: State, e: Event, jti: string) { Insertion(s, e).Some? && Insertion(s, e).value.0 == jti }

  /** Every insertion of `jti` records an expiry of at least `bound`. */
  predicate RecordsAtLeast(run: seq<Event>, jti: string, bound: int) {
    run == [] ||
    (var s, e := After(run[..|run| - 1]), run[|run| - 1];
     RecordsAtLeast(run[..|run| - 1], jti, bound) && (Inserts(s, e, jti) ==> Insertion(s, e).value.1 >= bound))
  }

  // ---- What the table remembers, told by the steps alone ----

  /** Step `i` inserts a row for `jti`. */
  predicate InsertsAt(run: seq<Event>, i: nat, jti: string) {
    i < |run| && Inserts(After(run[..i]), run[i], jti)
  }

  /** The expiry which that row records. */
  function ExpiryAt(run: seq<Event>, i: nat): int
    requires i < |run|
  {
    match Insertion(After(run[..i]), run[i])
    case Some(row) => row.1
    case None => 0
  }

  /** After step `i` and before step `n` a sweep ran later than the expiry recorded at step `i`. */
  predicate SweptBetween(run: seq<Event>, i: nat, n: nat)
    requires i < |run|
  {
    exists k | i < k < n && k < |run| :: run[k].Cleaned? && run[k].now > ExpiryAt(run, i)
  }

  /** An insertion takes effect exactly when every earlier one that took effect has been swept by then. */
  ghost predicate TakesEffect(run: seq<Event>, i: nat, jti: string)
    decreases i
  {
    InsertsAt(run, i, jti) && forall j: nat | j < i && TakesEffect(run, j, jti) :: SweptBetween(run, j, i)
  }

  /** The insertion of step `i` took effect and has not been swept before step `n`. */
  ghost predicate Lasts(run: seq<Event>, i: nat, n: nat, jti: string) {
    i < n <= |run| && TakesEffect(run, i, jti) && !SweptBetween(run, i, n)
  }

  /** An insertion that took effect recorded this expiry for `jti` and has not been swept since. */
  ghost predicate Remembered(run: seq<Event>, jti: string, expiry: int) {
    exists i: nat | i < |run| :: Lasts(run, i, |run|, jti) && ExpiryAt(run, i) == expiry
  }

  /** The row of `jti` before step `n` is the one that step `i` inserted. */
  ghost predicate HasRow(run: seq<Event>, i: nat, n: nat, jti: string)
    requires i < n <= |run|
  {
    jti in After(run[..n]).table && After(run[..n]).table[jti] == ExpiryAt(run, i)
  }

  ghost predicate RowLasts(run: seq<Event>, n: nat, jti: string)
    requires n <= |run|
  {
    jti in After(run[..n]).table ==> exists i: nat | i < n :: Lasts(run, i, n, jti) && HasRow(run, i, n, jti)
  }

  ghost predicate LastingRows(run: seq<Event>, n: nat, jti: string)
    requires n <= |run|
  {
    forall i: nat | i < n && Lasts(run, i, n, jti) :: HasRow(run, i, n, jti)
  }

  lemma NextState(run: seq<Event>, n: nat)
    requires n < |run|
    ensures After(run[..n + 1]) == Apply(After(run[..n]), run[n])
  {
    assert run[..n + 1][..n] == run[..n];
  }

  /** An insertion takes effect exactly when it finds no row. */
  lemma EffectIff(run: seq<Event>, n: nat, jti: string)
    requires InsertsAt(run, n, jti) && RowLasts(run, n, jti) && LastingRows(run, n, jti)
    ensures TakesEffect(run, n, jti) <==> jti !in After(run[..n]).table
  {
    if jti in After(run[..n]).table {
      var i: nat :| i < n && Lasts(run, i, n, jti) && HasRow(run, i, n, jti);
      assert TakesEffect(run, i, jti) && !SweptBetween(run, i, n);
    } else {
      forall j: nat | j < n && TakesEffect(run, j, jti) ensures SweptBetween(run, j, n) {
        assert Lasts(run, j, n, jti) || SweptBetween(run, j, n);
      }
    }
  }

  lemma LastsOn(run: seq<Event>, i: nat, n: nat, jti: string)
    requires i < n < |run|
    ensures Lasts(run, i, n + 1, jti)
       <==> Lasts(run, i, n, jti) && !(run[n].Cleaned? && run[n].now > ExpiryAt(run, i))
  {
    if SweptBetween(run, i, n) {
      var k :| i < k < n && run[k].Cleaned? && run[k].now > ExpiryAt(run, i);
      assert SweptBetween(run, i, n + 1);
    }
  }

  lemma StepLastingRows(run: seq<Event>, n: nat, jti: string)
    requires n < |run| && RowLasts(run, n, jti) && LastingRows(run, n, jti)
    ensures LastingRows(run, n + 1, jti)
  {
    var next := n + 1;
    NextState(run, n);
    forall i: nat | i < next && Lasts(run, i, next, jti) ensures HasRow(run, i, next, jti) {
      if i < n { LastsOn(run, i, n, jti); } else { EffectIff(run, n, jti); }
    }
  }

  lemma StepRowLasts(run: seq<Event>, n: nat, jti: string)
    requires n < |run| && RowLasts(run, n, jti) && LastingRows(run, n, jti)
    ensures RowLasts(run, n + 1, jti)
  {
    var s, s' := After(run[..n]), After(run[..n + 1]);
    NextState(run, n);
    if jti in s'.table {
      if jti in s.table {
        var i: nat :| i < n && Lasts(run, i, n, jti) && HasRow(run, i, n, jti);
        LastsOn(run, i, n, jti);
        assert Lasts(run, i, n + 1, jti) && HasRow(run, i, n + 1, jti);
      } else {
        EffectIff(run, n, jti);
        assert Lasts(run, n, n + 1, jti) && HasRow(run, n, n + 1, jti);
      }
    }
  }

  lemma {:induction false} TableLasts(run: seq<Event>, n: nat, jti: string)
    requires n <= |run|
    ensures RowLasts(run, n, jti) && LastingRows(run, n, jti)
  {
    if n > 0 {
      TableLasts(run, n - 1, jti);
      StepRowLasts(run, n - 1, jti);
      StepLastingRows(run, n - 1, jti);
    }
  }

  lemma TableHoldsRemembered(run: seq<Event>, jti: string, expiry: int)
    ensures jti in After(run).table && After(run).table[jti] == expiry <==> Remembered(run, jti, expiry)
  {
    TableLasts(run, |run|, jti);
    assert run[..|run|] == run;
  }

  /** The exact outcome of a verification after any run: refused for expiry from second `exp + 1` on, and otherwise
      accepted exactly when no recorded expiry of its jti is still remembered. */
  lemma AcceptedIff(run: seq<Event>, token: Token, checkedAt: int)
    requires token.jti != "" && token.exp != 0
    ensures Passes(After(run).table, token, checkedAt)
       <==> checkedAt < (token.exp + 1) * SECOND && forall expiry :: !Remembered(run, token.jti, expiry)
  {
    var table := After(run).table;
    if token.jti in table { TableHoldsRemembered(run, token.jti, table[token.jti]); }
    forall expiry
      ensures Remembered(run, token.jti, expiry) ==> token.jti in table
    {
      TableHoldsRemembered(run, token.jti, expiry);
    }
    assert token.exp < checkedAt / SECOND <==> checkedAt >= (token.exp + 1) * SECOND;
  }

  /** Some step of the run inserted `jti`. */
  predicate EverInserted(run: seq<Event>, jti: string) {
    run != [] && (Inserts(After(run[..|run| - 1]), run[|run| - 1], jti) || EverInserted(run[..|run| - 1], jti))
  }

  lemma {:induction false} RowAtLeast(run: seq<Event>, jti: string, bound: int)
    requires RecordsAtLeast(run, jti, bound)
    ensures jti in After(run).table ==> After(run).table[jti] >= bound
  {
    if run != [] { RowAtLeast(run[..|run| - 1], jti, bound); }
  }

  lemma {:induction false} KeptUntilBound(run: seq<Event>, jti: string, bound: int)
    requires Legal(run) && EverInserted(run, jti) && RecordsAtLeast(run, jti, bound) && After(run).clock <= bound
    ensures jti in After(run).table && After(run).table[jti] >= bound
  {
    RowAtLeast(run, jti, bound);
    var before, e := run[..|run| - 1], run[|run| - 1];
    if !Inserts(After(before), e, jti) { KeptUntilBound(before, jti, bound); }
  }

  /** Once a jti has been inserted, and if no expiry recorded for it was earlier than the token's own, a verification
      that looks it up at any time up to second `exp` is refused under any schedule of sweeps; one that checks the
      expiry from second `exp + 1` on is refused whatever was recorded. */
  lemma RefusedAfterRevocation(run: seq<Event>, token: Token, checkedAt: int, now: int)
    requires token.jti != "" && token.exp != 0
    requires Legal(run) && EverInserted(run, token.jti) && now >= After(run).clock
    requires checkedAt >= (token.exp + 1) * SECOND
          || (now <= token.exp * SECOND && RecordsAtLeast(run, token.jti, token.exp * SECOND))
    ensures !Passes(After(run).table, token, checkedAt)
  {
    if checkedAt >= (token.exp + 1) * SECOND {
      assert token.exp < checkedAt / SECOND;
    } else {
      KeptUntilBound(run, token.jti, token.exp * SECOND);
    }
  }

  // ---- How long a row protects: the exact condition ----

  lemma StepKeepsRow(s: State, e: Event, jti: string)
    requires jti in s.table && e.now <= s.table[jti]
    ensures jti in Apply(s, e).table && Apply(s, e).table[jti] == s.table[jti]
  {
  }

  lemma ExtendBy(run: seq<Event>, more: seq<Event>)
    requires more != []
    ensures (run + more)[..|run + more| - 1] == run + more[..|more| - 1]
    ensures (run + more)[|run + more| - 1] == more[|more| - 1]
  {
  }

  lemma {:induction false} ExtensionKeepsRow(run: seq<Event>, more: seq<Event>, jti: string)
    requires Legal(run + more) && jti in After(run).table && After(run + more).clock <= After(run).table[jti]
    ensures jti in After(run + more).table && After(run + more).table[jti] == After(run).table[jti]
    ensures After(run).clock <= After(run + more).clock
    decreases |more|
  {
    if more == [] {
      assert run + more == run;
    } else {
      ExtendBy(run, more);
      ExtensionKeepsRow(run, more[..|more| - 1], jti);
      StepKeepsRow(After(run + more[..|more| - 1]), more[|more| - 1], jti);
    }
  }

  /** However the run goes on until `now`, a verification that checked the expiry at `checkedAt` and looks up at `now`
      is refused. */
  ghost predicate RefusedAt(run: seq<Event>, token: Token, checkedAt: int, now: int) {
    forall more | Legal(run + more) && After(run + more).clock <= now ::
      !Passes(After(run + more).table, token, checkedAt)
  }

  lemma RowRefuses(run: seq<Event>, token: Token, checkedAt: int, now: int)
    requires token.jti in After(run).table && token.jti != "" && now <= After(run).table[token.jti]
    ensures RefusedAt(run, token, checkedAt, now)
  {
    forall more | Legal(run + more) && After(run + more).clock <= now
      ensures !Passes(After(run + more).table, token, checkedAt)
    {
      ExtensionKeepsRow(run, more, token.jti);
    }
  }

  lemma SweptPasses(run: seq<Event>, token: Token, checkedAt: int, now: int)
    requires Legal(run) && token.jti in After(run).table && After(run).clock <= now
    requires After(run).table[token.jti] < now && checkedAt < (token.exp + 1) * SECOND
    ensures !RefusedAt(run, token, checkedAt, now)
  {
    var swept := Extended(run, Cleaned(now));
    assert Passes(After(swept).table, token, checkedAt);
    assert swept == run + [Cleaned(now)];
  }

  /** A row protects its token against a look-up at `now`, under every continuation, exactly when the recorded expiry
      has not passed then or the expiry check was made after second `exp`. The two instants differ, because verifyJwt
      awaits between them. */
  lemma RevocationLastsIff(run: seq<Event>, token: Token, checkedAt: int, now: int)
    requires Legal(run) && token.jti in After(run).table && token.jti != "" && token.exp != 0
    requires After(run).clock <= now && checkedAt <= now
    ensures RefusedAt(run, token, checkedAt, now)
       <==> now <= After(run).table[token.jti] || checkedAt >= (token.exp + 1) * SECOND
  {
    if checkedAt >= (token.exp + 1) * SECOND {
      assert token.exp < checkedAt / SECOND;
    } else if now <= After(run).table[token.jti] {
      RowRefuses(run, token, checkedAt, now);
    } else {
      SweptPasses(run, token, checkedAt, now);
    }
  }

  lemma Extended(run: seq<Event>, e: Event) returns (longer: seq<Event>)
    requires Legal(run) && Enabled(After(run), e)
    ensures longer == run + [e] && Legal(longer) && After(longer) == Apply(After(run), e)
  {
    longer := run + [e];
    assert longer[..|run|] == run;
  }

  /** The first recorded expiry decides: after it, a sweep forgets the jti although a later revocation recorded the
      token's own expiry, and every instant after it and before second `exp + 1` is open. */
  lemma EarlierExpiryForgets(token: Token, expiry: int, now: int) returns (run: seq<Event>)
    requires token.jti != "" && token.exp != 0 && 0 <= now && expiry < now < (token.exp + 1) * SECOND
    ensures run == [Revoked(token.jti, expiry, 0), Revoked(token.jti, token.exp * SECOND, 0), Cleaned(now)]
    ensures Legal(run) && After(run).clock == now && Passes(After(run).table, token, now)
  {
    run := Extended([], Revoked(token.jti, expiry, 0));
    run := Extended(run, Revoked(token.jti, token.exp * SECOND, 0));
    run := Extended(run, Cleaned(now));
  }

  /** Even with the token's own expiry recorded, every instant strictly between second `exp` and second `exp + 1` is
      open: a sweep there forgets the row while the floored comparison still accepts the token. */
  lemma GapIsOpen(token: Token, now: int) returns (run: seq<Event>)
    requires token.jti != "" && token.exp > 0 && token.exp * SECOND < now < (token.exp + 1) * SECOND
    ensures run == [Revoked(token.jti, token.exp * SECOND, 0), Cleaned(now)]
    ensures Legal(run) && EverInserted(run, token.jti) && RecordsAtLeast(run, token.jti, token.exp * SECOND)
    ensures After(run).clock == now && Passes(After(run).table, token, now)
  {
    var first := Extended([], Revoked(token.jti, token.exp * SECOND, 0));
    assert EverInserted(first, token.jti) && RecordsAtLeast(first, token.jti, token.exp * SECOND);
    run := Extended(first, Cleaned(now));
    assert run[..1] == first;
  }

  // ---- Delegated tokens ----

  lemma {:induction false} LegalPrefix(run: seq<Event>, n: nat)
    requires Legal(run) && n <= |run|
    ensures Legal(run[..n])
  {
    if n < |run| {
      LegalPrefix(run[..|run| - 1], n);
      assert run[..|run| - 1][..n] == run[..n];
    } else {
      assert run[..n] == run;
    }
  }

  lemma {:induction false} RecordsPrefix(run: seq<Event>, n: nat, jti: string, bound: int)
    requires RecordsAtLeast(run, jti, bound) && n <= |run|
    ensures RecordsAtLeast(run[..n], jti, bound)
  {
    if n < |run| {
      RecordsPrefix(run[..|run| - 1], n, jti, bound);
      assert run[..|run| - 1][..n] == run[..n];
    } else {
      assert run[..n] == run;
    }
  }

  /** The use `u` of this jti has passed its own look-up and has not been consumed yet. */
  predicate LookedUp(s: State, u: nat, jti: string) {
    u in s.uses && s.uses[u].token.jti == jti && s.uses[u].rechecked
  }

  /** While the row is there, no use of its jti passes its look-up. */
  lemma StepLooksUpNoMore(s: State, e: Event, u: nat, jti: string)
    requires jti in s.table && LookedUp(Apply(s, e), u, jti)
    ensures LookedUp(s, u, jti)
  {
  }

  lemma {:induction false} ExtensionLooksUpNoMore(run: seq<Event>, more: seq<Event>, u: nat, jti: string)
    requires Legal(run + more) && jti in After(run).table && After(run + more).clock <= After(run).table[jti]
    requires LookedUp(After(run + more), u, jti)
    ensures LookedUp(After(run), u, jti)
    decreases |more|
  {
    if more == [] {
      assert run + more == run;
    } else {
      var less := more[..|more| - 1];
      ExtendBy(run, more);
      ExtensionKeepsRow(run, less, jti);
      StepLooksUpNoMore(After(run + less), more[|more| - 1], u, jti);
      ExtensionLooksUpNoMore(run, less, u, jti);
    }
  }

  /** Use `u` of this jti is consumed at `now` after these further steps. */
  ghost predicate ConsumedBy(run: seq<Event>, more: seq<Event>, u: nat, jti: string, now: int) {
    && Legal(run + more) && Enabled(After(run + more), Consumed(u, now))
    && u in After(run + more).uses && After(run + more).uses[u].token.jti == jti
  }

  /** Once a token has been consumed and its row is in the table, exactly those uses of it can still be consumed, until
      the recorded expiry, that had passed their own look-up by then. */
  lemma ConsumableIff(run: seq<Event>, u: nat, jti: string, until: int)
    requires Legal(run) && jti in After(run).table && After(run).clock <= until <= After(run).table[jti]
    ensures (exists more, now | now <= until :: ConsumedBy(run, more, u, jti, now)) <==> LookedUp(After(run), u, jti)
  {
    forall more, now | now <= until && ConsumedBy(run, more, u, jti, now) ensures LookedUp(After(run), u, jti) {
      ExtensionLooksUpNoMore(run, more, u, jti);
    }
    if LookedUp(After(run), u, jti) {
      assert run + [] == run;
      assert ConsumedBy(run, [], u, jti, After(run).clock);
    }
  }

  /** A use that has passed its look-up passed it at some step, with no row for its jti then, and has been ready
      since. */
  lemma {:induction false} LookUpStep(run: seq<Event>, u: nat, jti: string) returns (r: nat)
    requires LookedUp(After(run), u, jti)
    ensures r < |run| && run[r].Rechecked? && run[r].use == u && jti !in After(run[..r]).table
    ensures forall k | r < k <= |run| :: LookedUp(After(run[..k]), u, jti)
  {
    var n := |run| - 1;
    assert run[..|run|] == run;
    if LookedUp(After(run[..n]), u, jti) {
      r := LookUpStep(run[..n], u, jti);
      forall k | r < k <= n ensures LookedUp(After(run[..k]), u, jti) { assert run[..n][..k] == run[..k]; }
      assert run[..n][..r] == run[..r];
    } else {
      r := n;
    }
  }

  lemma RowAfterInsertion(run: seq<Event>, i: nat, jti: string, bound: int)
    requires i < |run| && Inserts(After(run[..i]), run[i], jti) && RecordsAtLeast(run, jti, bound)
    ensures jti in After(run[..i + 1]).table && After(run[..i + 1]).table[jti] >= bound
  {
    assert run[..i + 1][..i] == run[..i];
    RecordsPrefix(run, i + 1, jti, bound);
    RowAtLeast(run[..i + 1], jti, bound);
  }

  /** Two consumptions of one token by its expiry: the later use had passed its own look-up before the earlier one was
      consumed. So uses in sequence consume a token at most once. */
  lemma SecondConsumptionLookedUpFirst(run: seq<Event>, i: nat, j: nat, token: Token) returns (r: nat)
    requires Legal(run) && i < j < |run| && run[i].Consumed? && run[j].Consumed? && run[j].now <= token.exp * SECOND
    requires Inserts(After(run[..i]), run[i], token.jti) && Inserts(After(run[..j]), run[j], token.jti)
    requires RecordsAtLeast(run, token.jti, token.exp * SECOND)
    ensures r < i && run[r].Rechecked? && run[r].use == run[j].use
    ensures forall k | r < k <= j :: LookedUp(After(run[..k]), run[j].use, token.jti)
  {
    var u, late := run[j].use, run[..j];
    StepAt(run, j);
    r := LookUpStep(late, u, token.jti);
    assert late[..r] == run[..r];
    forall k | r < k <= j ensures LookedUp(After(run[..k]), u, token.jti) { assert late[..k] == run[..k]; }
    LookedUpBefore(run, i, j, r, token.jti, token.exp * SECOND);
  }

  /** An inserted row is still there as long as the clock has not passed the bound. */
  lemma RowStays(run: seq<Event>, i: nat, r: nat, jti: string, bound: int)
    requires Legal(run) && i < r <= |run| && After(run[..r]).clock <= bound
    requires RecordsAtLeast(run, jti, bound) && Inserts(After(run[..i]), run[i], jti)
    ensures jti in After(run[..r]).table
  {
    var early, more := run[..i + 1], run[i + 1..r];
    assert early + more == run[..r];
    RowAfterInsertion(run, i, jti, bound);
    LegalPrefix(run, r);
    ExtensionKeepsRow(early, more, jti);
  }

  lemma StepAt(run: seq<Event>, j: nat)
    requires Legal(run) && j < |run|
    ensures Enabled(After(run[..j]), run[j]) && After(run[..j + 1]) == Apply(After(run[..j]), run[j])
  {
    LegalPrefix(run, j + 1);
    assert run[..j + 1][..j] == run[..j];
  }

  /** A look-up that found no row came before the insertion. */
  lemma LookedUpBefore(run: seq<Event>, i: nat, j: nat, r: nat, jti: string, bound: int)
    requires Legal(run) && i < j < |run| && r < j && run[j].now <= bound && RecordsAtLeast(run, jti, bound)
    requires Inserts(After(run[..i]), run[i], jti) && run[i].Consumed?
    requires run[r].Rechecked? && jti !in After(run[..r]).table
    ensures r < i
  {
    if i < r {
      ClockAscends(run, r, j);
      RowStays(run, i, r, jti, bound);
    }
  }

  lemma {:induction false} ClockAscends(run: seq<Event>, i: nat, j: nat)
    requires Legal(run) && i <= j < |run|
    ensures After(run[..i]).clock <= run[j].now
  {
    StepAt(run, j);
    if i < j {
      StepAt(run, j - 1);
      ClockAscends(run, i, j - 1);
    }
  }

  /** A use whose own look-up comes after another use of the same token was consumed is refused there, at any time up
      to the token's expiry. */
  lemma SecondUseRefused(run: seq<Event>, i: nat, j: nat, token: Token)
    requires Legal(run) && i < j < |run| && RecordsAtLeast(run, token.jti, token.exp * SECOND)
    requires run[i].Consumed? && Inserts(After(run[..i]), run[i], token.jti)
    requires run[j].Rechecked? && run[j].use in After(run[..j]).uses && After(run[..j]).uses[run[j].use].token == token
    requires run[j].now <= token.exp * SECOND
    ensures run[j].use !in After(run[..j + 1]).uses
  {
    StepAt(run, j);
    RowStays(run, i, j, token.jti, token.exp * SECOND);
  }

  /** Both uses look up before either inserts. */
  lemma BothLookUp(token: Token) returns (run: seq<Event>)
    requires token.jti != "" && token.exp > 0
    ensures Legal(run) && After(run) == State(map[], map[0 := Use(token, true), 1 := Use(token, true)], 0)
  {
    var one, two := map[0 := Use(token, false)], map[0 := Use(token, false), 1 := Use(token, false)];
    run := Step([], Verified(0, token, 0, 0), State(map[], one, 0));
    run := Step(run, Verified(1, token, 0, 0), State(map[], two, 0));
    run := Step(run, Rechecked(0, 0), State(map[], two[0 := Use(token, true)], 0));
    run := Step(run, Rechecked(1, 0), State(map[], two[0 := Use(token, true)][1 := Use(token, true)], 0));
    assert two[0 := Use(token, true)][1 := Use(token, true)] == map[0 := Use(token, true), 1 := Use(token, true)];
  }

  /** After interleaved look-ups both uses of one token are consumed. */
  lemma InterleavedUsesBothConsumed(token: Token) returns (run: seq<Event>, n: nat)
    requires token.jti != "" && token.exp > 0
    ensures Legal(run) && |run| == n + 2 && run[n] == Consumed(0, 0) && run[n + 1] == Consumed(1, 0)
    ensures Insertion(After(run[..n]), run[n]) == Insertion(After(run[..n + 1]), run[n + 1])
            == Some((token.jti, token.exp * SECOND))
  {
    var before := BothLookUp(token);
    n := |before|;
    var middle := Extended(before, Consumed(0, 0));
    run := Extended(middle, Consumed(1, 0));
    assert run[..n] == before && run[..n + 1] == middle;
  }

  lemma Step(run: seq<Event>, e: Event, s': State) returns (longer: seq<Event>)
    requires Legal(run) && Enabled(After(run), e) && Apply(After(run), e) == s'
    ensures longer == run + [e] && Legal(longer) && After(longer) == s'
  {
    longer := Extended(run, e);
  }
}
