/** Single-use delegated tokens (auth/delegated-token.ts) and logout (api/auth.ts): signed tokens meeting the revocation
    table. Times of tokens are milliseconds, `expires_at` is in microseconds. */
module Sessions {
  import opened Json
  import opened Microseconds
  import opened Options
  import opened Revocation
  import opened Jwt
  import Base64Url

  // ---- issueDelegatedToken ----

  datatype DelegatedTokenInput = DelegatedTokenInput(userId: string, taskId: string, agentType: string)

  const DELEGATED_TOKEN_TTL_SECONDS := 900

  function DelegatedClaims(input: DelegatedTokenInput, jti: string): seq<Member> {
    [Member("sub", Str(input.userId)), Member("task_id", Str(input.taskId)), Member("agent_type", Str(input.agentType)),
     Member("jti", Str(jti)), Member("scope", Str("task_result"))]
  }

  // ---- verifyDelegatedToken ----

  datatype Refusal =
    | NotVerified(reason: Failure)
    | NoJti | AlreadyUsed | TaskMismatch | AgentMismatch | SubMismatch | ScopeMismatch | BadExpiry

  datatype UseOutcome = Used(payload: Value) | Refused(refusal: Refusal)

  const MAX_DATE := 8_640_000_000_000_000.0

  /** `new Date(exp * 1000)`, in microseconds; None is an invalid date. */
  function ToDate(p: Platform, exp: Option<Value>): Option<int> {
    if exp.None? || p.number(exp.value).None? then None
    else
      var ms := p.number(exp.value).value * 1000.0;
      if ms < -MAX_DATE || MAX_DATE < ms then None
      else Some((if ms < 0.0 then -(-ms).Floor else ms.Floor) * 1000)
  }

  /** Checks 3 to 6, in order. */
  function FieldRefusal(payload: Value, expected: DelegatedTokenInput): Option<Refusal> {
    if Field(payload, "task_id") != Some(Str(expected.taskId)) then Some(TaskMismatch)
    else if Field(payload, "agent_type") != Some(Str(expected.agentType)) then Some(AgentMismatch)
    else if Field(payload, "sub") != Some(Str(expected.userId)) then Some(SubMismatch)
    else if Field(payload, "scope") != Some(Str("task_result")) then Some(ScopeMismatch)
    else None
  }

  function CheckedUse(p: Platform, payload: Value, expected: DelegatedTokenInput, revoked: Table): UseOutcome {
    var jti := Field(payload, "jti");
    if jti.None? then Refused(NoJti)  // the query parameter is undefined
    else if p.text(jti.value) in revoked then Refused(AlreadyUsed)
    else if FieldRefusal(payload, expected).Some? then Refused(FieldRefusal(payload, expected).value)
    else if ToDate(p, Field(payload, "exp")).None? then Refused(BadExpiry)
    else Used(payload)
  }

  function UseOf(p: Platform, keys: seq<KeyPair>, token: string, expected: DelegatedTokenInput, now: int,
                 revoked: Table): UseOutcome {
    match Verdict(p, keys, token, now, revoked)
    case Rejected(reason) => Refused(NotVerified(reason))
    case Accepted(payload) => CheckedUse(p, payload, expected, revoked)
  }

  method VerifyDelegatedToken(
    store: KeyStore, token: string, expected: DelegatedTokenInput, now: int, revocations: RevokedTokens)
      returns (r: UseOutcome)
    requires store.Valid()
    modifies store, revocations
    ensures store.Valid()
    ensures var keys := Pairs(Some(store.Signing()), store.configuredOld);
            r == UseOf(store.p, keys, token, expected, now, old(revocations.rows))
    ensures match r
            case Refused(_) => revocations.rows == old(revocations.rows)
            case Used(payload) =>
              && Field(payload, "jti").Some? && ToDate(store.p, Field(payload, "exp")).Some?
              && revocations.rows == Inserted(old(revocations.rows), store.p.text(Field(payload, "jti").value),
                                              ToDate(store.p, Field(payload, "exp")).value)
  {
    var verdict := store.VerifyJwt(token, now, revocations);
    if verdict.Rejected? { return Refused(NotVerified(verdict.reason)); }
    var payload := verdict.payload;
    var jti := Field(payload, "jti");
    if jti.None? { return Refused(NoJti); }
    var used := revocations.IsRevoked(store.p.text(jti.value));
    if used { return Refused(AlreadyUsed); }
    var refusal := FieldRefusal(payload, expected);
    if refusal.Some? { return Refused(refusal.value); }
    var expiresAt := ToDate(store.p, Field(payload, "exp"));
    if expiresAt.None? { return Refused(BadExpiry); }
    revocations.RevokeToken(store.p.text(jti.value), expiresAt.value);
    r := Used(payload);
  }

  /** A number that JavaScript takes for a date in seconds, and that date in microseconds, cut to whole milliseconds. */
  ghost predicate IsDate(p: Platform, exp: Option<Value>, microseconds: int) {
    && exp.Some? && p.number(exp.value).Some?
    && var ms := p.number(exp.value).value * 1_000.0;
       && -8_640_000_000_000_000.0 <= ms <= 8_640_000_000_000_000.0
       && microseconds % 1_000 == 0
       && var whole := (microseconds / 1_000) as real;
          if ms >= 0.0 then whole <= ms < whole + 1.0 else whole - 1.0 < ms <= whole
  }

  lemma ToDateIff(p: Platform, exp: Option<Value>, microseconds: int)
    ensures ToDate(p, exp) == Some(microseconds) <==> IsDate(p, exp, microseconds)
  {
    if exp.Some? && p.number(exp.value).Some? {
      var ms := p.number(exp.value).value * 1000.0;
      WholePart(if ms < 0.0 then -ms else ms, if ms < 0.0 then -(microseconds / 1_000) else microseconds / 1_000);
    }
  }

  lemma WholePart(x: real, n: int)
    ensures x.Floor == n <==> n as real <= x < n as real + 1.0
  {
  }

  lemma DateExists(p: Platform, exp: Option<Value>)
    ensures ToDate(p, exp).Some? <==> exists microseconds :: IsDate(p, exp, microseconds)
  {
    if ToDate(p, exp).Some? { ToDateIff(p, exp, ToDate(p, exp).value); }
    forall t | IsDate(p, exp, t) ensures ToDate(p, exp) == Some(t) { ToDateIff(p, exp, t); }
  }

  lemma PassesChecks(p: Platform, payload: Value, expected: DelegatedTokenInput, revoked: Table)
    ensures var r := CheckedUse(p, payload, expected, revoked);
            && (r == Used(payload) || r.Refused?)
            && (r == Used(payload) <==>
                  && Field(payload, "jti").Some? && p.text(Field(payload, "jti").value) !in revoked
                  && Field(payload, "task_id") == Some(Str(expected.taskId))
                  && Field(payload, "agent_type") == Some(Str(expected.agentType))
                  && Field(payload, "sub") == Some(Str(expected.userId))
                  && Field(payload, "scope") == Some(Str("task_result"))
                  && exists microseconds :: IsDate(p, Field(payload, "exp"), microseconds))
  {
    DateExists(p, Field(payload, "exp"));
  }

  /** Any token is used, with this payload, exactly when verifyJwt accepts it with that payload, its jti has no row, it
      was issued for this task, agent and user in the scope of task results, and its expiry is a date. */
  lemma UsedExactly(p: Platform, keys: seq<KeyPair>, token: string, expected: DelegatedTokenInput, now: int,
                    revoked: Table, payload: Value)
    ensures UseOf(p, keys, token, expected, now, revoked) == Used(payload) <==>
            && Verdict(p, keys, token, now, revoked) == Accepted(payload)
            && Field(payload, "jti").Some? && p.text(Field(payload, "jti").value) !in revoked
            && Field(payload, "task_id") == Some(Str(expected.taskId))
            && Field(payload, "agent_type") == Some(Str(expected.agentType))
            && Field(payload, "sub") == Some(Str(expected.userId))
            && Field(payload, "scope") == Some(Str("task_result"))
            && exists microseconds :: IsDate(p, Field(payload, "exp"), microseconds)
  {
    match Verdict(p, keys, token, now, revoked)
    case Rejected(_) =>
    case Accepted(v) => PassesChecks(p, v, expected, revoked);
  }

  /** Which check refuses an accepted token: the first that fails, in this order. */
  lemma RefusedFor(p: Platform, payload: Value, expected: DelegatedTokenInput, revoked: Table)
    ensures var r := CheckedUse(p, payload, expected, revoked);
            var (jti, task, agent, sub, scope) :=
              (Field(payload, "jti"), Field(payload, "task_id") == Some(Str(expected.taskId)),
               Field(payload, "agent_type") == Some(Str(expected.agentType)),
               Field(payload, "sub") == Some(Str(expected.userId)),
               Field(payload, "scope") == Some(Str("task_result")));
            var unused := jti.Some? && p.text(jti.value) !in revoked;
            && (r == Refused(NoJti) <==> jti.None?)
            && (r == Refused(AlreadyUsed) <==> jti.Some? && p.text(jti.value) in revoked)
            && (r == Refused(TaskMismatch) <==> unused && !task)
            && (r == Refused(AgentMismatch) <==> unused && task && !agent)
            && (r == Refused(SubMismatch) <==> unused && task && agent && !sub)
            && (r == Refused(ScopeMismatch) <==> unused && task && agent && sub && !scope)
            && (r == Refused(BadExpiry) <==>
                  && unused && task && agent && sub && scope
                  && forall microseconds :: !IsDate(p, Field(payload, "exp"), microseconds))
  {
    DateExists(p, Field(payload, "exp"));
  }

  // ---- Logout ----

  /** The route's own decoding of the payload segment. */
  function LogoutDecode(segment: string): Option<string> {
    var padded := Base64Url.PadEnd(Base64Url.FromUrl(segment), |segment| + (4 - |segment| % 4) % 4);
    match Base64Url.Atob(padded)
    case Bytes(bytes) => Some(TextOf(bytes))
    case Malformed => None
  }

  /** The row a payload asks for. */
  function LogoutRow(p: Platform, payload: Value): Option<(string, int)> {
    var jti, exp := Field(payload, "jti"), Field(payload, "exp");
    if Truthy(p, jti) && Truthy(p, exp) && ToDate(p, exp).Some? then Some((p.text(jti.value), ToDate(p, exp).value))
    else None
  }

  /** POST /api/auth/logout: the token is not verified, and every failure leaves the table as it was. */
  method Logout(p: Platform, token: string, revocations: RevokedTokens)
    modifies revocations
    ensures revocations.rows == LoggedOut(p, token, old(revocations.rows))
  {
    if token == "" { return; }
    var parts := Split(token);
    if |parts| != 3 { return; }
    var payloadStr := LogoutDecode(parts[1]);
    if payloadStr.None? { return; }
    var payload := p.parse(payloadStr.value);
    if payload.None? { return; }
    var jti, exp := Field(payload.value, "jti"), Field(payload.value, "exp");
    if Truthy(p, jti) && Truthy(p, exp) {
      var expiresAt := ToDate(p, exp);
      if expiresAt.Some? { revocations.RevokeToken(p.text(jti.value), expiresAt.value); }
    }
  }

  function LogoutPayload(p: Platform, token: string): Option<Value> {
    var parts := Split(token);
    if |parts| != 3 then None
    else
      match LogoutDecode(parts[1])
      case None => None
      case Some(text) => p.parse(text)
  }

  function LoggedOut(p: Platform, token: string, revoked: Table): Table {
    match LogoutPayload(p, token)
    case None => revoked
    case Some(payload) =>
      match LogoutRow(p, payload)
      case None => revoked
      case Some(row) => Inserted(revoked, row.0, row.1)
  }

  /** The payload a token carries asks for this row: a truthy jti, and a truthy expiry that is a date. */
  ghost predicate AsksFor(p: Platform, token: string, jti: string, microseconds: int) {
    exists v ::
      && Carries(p, token, v) && !Falsy(p, Field(v, "jti")) && !Falsy(p, Field(v, "exp"))
      && jti == p.text(Field(v, "jti").value) && IsDate(p, Field(v, "exp"), microseconds)
  }

  /** What logout does with any token whatever: it adds the row that the payload asks for, unless there is one. */
  lemma LogoutExactly(p: Platform, token: string, revoked: Table)
    ensures forall jti, microseconds | AsksFor(p, token, jti, microseconds) ::
              LoggedOut(p, token, revoked) == if jti in revoked then revoked else revoked[jti := microseconds]
    ensures (forall jti, microseconds :: !AsksFor(p, token, jti, microseconds)) ==>
              LoggedOut(p, token, revoked) == revoked
  {
    if LogoutPayload(p, token).Some? {
      var v := LogoutPayload(p, token).value;
      LogoutCarries(p, token);
      RowAskedFor(p, token, v);
    }
    forall jti, microseconds | AsksFor(p, token, jti, microseconds)
      ensures LogoutPayload(p, token).Some? && LogoutRow(p, LogoutPayload(p, token).value) == Some((jti, microseconds))
    {
      var v :| && Carries(p, token, v) && !Falsy(p, Field(v, "jti")) && !Falsy(p, Field(v, "exp"))
               && jti == p.text(Field(v, "jti").value) && IsDate(p, Field(v, "exp"), microseconds);
      LogoutCarries(p, token);
      TruthyIff(p, Field(v, "jti"));
      TruthyIff(p, Field(v, "exp"));
      ToDateIff(p, Field(v, "exp"), microseconds);
    }
  }

  lemma LogoutCarries(p: Platform, token: string)
    ensures forall v :: LogoutPayload(p, token) == Some(v) <==> Carries(p, token, v)
  {
    var s := Split(token);
    if |s| == 3 { LogoutDecodesAlike(s[1]); }
  }

  lemma RowAskedFor(p: Platform, token: string, v: Value)
    requires Carries(p, token, v)
    ensures LogoutRow(p, v).Some? ==> AsksFor(p, token, LogoutRow(p, v).value.0, LogoutRow(p, v).value.1)
  {
    if LogoutRow(p, v).Some? {
      TruthyIff(p, Field(v, "jti"));
      TruthyIff(p, Field(v, "exp"));
      ToDateIff(p, Field(v, "exp"), LogoutRow(p, v).value.1);
    }
  }

  // ---- What holds of signed tokens ----

  lemma {:induction false} FromUrlLength(s: string)
    ensures |Base64Url.FromUrl(s)| == |s|
  {
    if s != [] { FromUrlLength(s[1..]); }
  }

  /** Logout decodes a segment exactly as verifyJwt does. */
  lemma LogoutDecodesAlike(segment: string)
    ensures LogoutDecode(segment) == DecodeText(segment)
  {
    var s := Base64Url.FromUrl(segment);
    FromUrlLength(segment);
    PadEndTo(s, |segment|);
    AtobAlike(Base64Url.PadEnd(s, |segment| + (4 - |segment| % 4) % 4), Base64Url.Padded(s));
  }

  lemma AtobAlike(s: string, t: string)
    requires s == t
    ensures Base64Url.Atob(s) == Base64Url.Atob(t)
  {
  }

  lemma PadEndTo(s: string, length: nat)
    requires length == |s|
    ensures Base64Url.PadEnd(s, length + (4 - length % 4) % 4) == Base64Url.Padded(s)
  {
    Base64Url.PadEndIsPadded(s);
  }

  /** The expiry is a date that JavaScript can represent. */
  predicate DateInRange(exp: int) { -MAX_DATE <= exp as real * 1000.0 <= MAX_DATE }

  lemma SignedExpiry(p: Platform, i: Issue)
    requires Faithful(p) && Safe(Exp(i))
    ensures var claims := Obj(Claims(i.payload, Exp(i), i.jti));
            && Field(claims, "jti") == Some(Str(i.jti)) && p.text(Str(i.jti)) == i.jti
            && ToDate(p, Field(claims, "exp")) == if DateInRange(Exp(i)) then Some(Exp(i) * SECOND) else None
  {
    ClaimsOverride(i.payload, Exp(i), i.jti, "exp");
    ClaimsOverride(i.payload, Exp(i), i.jti, "jti");
    WholeMilliseconds(Exp(i));
    assert p.number(Num(Decimal(Exp(i)))) == Some(Exp(i) as real);
    assert p.text(Str(i.jti)) == i.jti;
  }

  lemma WholeMilliseconds(exp: int)
    ensures var ms := exp as real * 1000.0; (if ms < 0.0 then -(-ms).Floor else ms.Floor) == exp * 1000
  {
    assert exp as real * 1000.0 == (exp * 1000) as real;
    assert -((exp * 1000) as real) == (-(exp * 1000)) as real;
  }

  /** Acceptance by verifyJwt is the test that the runs of Revocation make. */
  lemma AcceptedIsPasses(p: Platform, pair: KeyPair, i: Issue, keys: seq<KeyPair>, now: int, revoked: Table)
    requires Ideal(p) && Faithful(p) && Issuable(p, i) && Encodable(pair, i) && HasKey(keys, pair.key)
    ensures Verdict(p, keys, SignedToken(p, pair, i), now, revoked).Accepted?
            <==> Passes(revoked, Token(i.jti, Exp(i)), now * 1000)
  {
    SignThenVerify(p, pair, i, keys, now, revoked);
    SameSecond(now);
  }

  lemma SameSecond(now: int)
    ensures now * 1000 / SECOND == now / 1000
  {
  }

  lemma LogoutReads(p: Platform, header: string, i: Issue, signature: string)
    requires Faithful(p) && Issuable(p, i) && Latin1(ClaimsText(i)) && Dotless(header) && Dotless(signature)
    ensures LogoutPayload(p, (header + ("." + BodySegment(i))) + ("." + signature))
            == Some(Obj(Claims(i.payload, Exp(i), i.jti)))
  {
    Base64Url.EncodeIsLetters(BytesOf(ClaimsText(i)));
    SplitThree(header, BodySegment(i), signature);
    LogoutDecodesAlike(BodySegment(i));
    DecodeEncodedText(ClaimsText(i));
    ClaimsParse(p, i);
  }

  /** Logout records the jti and expiry that the payload segment names, whatever the other two segments are: no
      signature is needed. */
  lemma LogoutIgnoresSignature(p: Platform, header: string, i: Issue, signature: string, revoked: Table)
    requires Faithful(p) && Issuable(p, i) && Latin1(ClaimsText(i)) && Dotless(header) && Dotless(signature)
    requires i.jti != "" && Exp(i) != 0 && DateInRange(Exp(i))
    ensures LoggedOut(p, (header + ("." + BodySegment(i))) + ("." + signature), revoked)
            == Inserted(revoked, i.jti, Exp(i) * SECOND)
  {
    LogoutReads(p, header, i, signature);
    SignedRow(p, i);
  }

  /** Logout with a signed token records that token's own jti and expiry, unless its jti has a row... */
  lemma LogoutRecordsToken(p: Platform, pair: KeyPair, i: Issue, revoked: Table)
    requires Faithful(p) && Issuable(p, i) && Encodable(pair, i)
    requires i.jti != "" && Exp(i) != 0 && DateInRange(Exp(i))
    ensures LoggedOut(p, SignedToken(p, pair, i), revoked) == Inserted(revoked, i.jti, Exp(i) * SECOND)
  {
    Base64Url.EncodeIsLetters(BytesOf(HeaderText(pair.kid)));
    Base64Url.EncodeIsLetters(Signature(p, pair, i));
    LogoutIgnoresSignature(p, HeaderSegment(pair), i, Base64Url.Encode(Signature(p, pair, i)), revoked);
  }

  lemma SignedRow(p: Platform, i: Issue)
    requires Faithful(p) && i.jti != "" && Exp(i) != 0 && DateInRange(Exp(i))
    ensures LogoutRow(p, Obj(Claims(i.payload, Exp(i), i.jti))) == Some((i.jti, Exp(i) * SECOND))
  {
    SignedExpiry(p, i);
    ClaimsOverride(i.payload, Exp(i), i.jti, "exp");
    assert p.number(Num(Decimal(Exp(i)))) == Some(Exp(i) as real);
  }

  /** ... so verifyJwt rejects the token from then on, whatever else the table gains, until a sweep takes the row. */
  lemma LogoutThenVerify(p: Platform, pair: KeyPair, i: Issue, keys: seq<KeyPair>, now: int, before: Table,
                         later: Table)
    requires Ideal(p) && Faithful(p) && Issuable(p, i) && Encodable(pair, i)
    requires i.jti != "" && Exp(i) != 0 && DateInRange(Exp(i))
    requires LoggedOut(p, SignedToken(p, pair, i), before).Keys <= later.Keys
    ensures Verdict(p, keys, SignedToken(p, pair, i), now, later).Rejected?
  {
    LogoutRecordsToken(p, pair, i, before);
    assert i.jti in Inserted(before, i.jti, Exp(i) * SECOND).Keys;
    SignThenVerify(p, pair, i, keys, now, later);
  }

  lemma DelegatedFields(input: DelegatedTokenInput, drawn: string, exp: int, jti: string)
    ensures var claims := Obj(Claims(DelegatedClaims(input, drawn), exp, jti));
            && Field(claims, "task_id") == Some(Str(input.taskId))
            && Field(claims, "agent_type") == Some(Str(input.agentType))
            && Field(claims, "sub") == Some(Str(input.userId)) && Field(claims, "scope") == Some(Str("task_result"))
  {
    ClaimsOverride(DelegatedClaims(input, drawn), exp, jti, "task_id");
    ClaimsOverride(DelegatedClaims(input, drawn), exp, jti, "agent_type");
    ClaimsOverride(DelegatedClaims(input, drawn), exp, jti, "sub");
    ClaimsOverride(DelegatedClaims(input, drawn), exp, jti, "scope");
    DelegatedGet(DelegatedClaims(input, drawn));
  }

  lemma DelegatedGet(ms: seq<Member>)
    requires |ms| == 5 && ms[0].key == "sub" && ms[1].key == "task_id" && ms[2].key == "agent_type"
    requires ms[3].key == "jti" && ms[4].key == "scope"
    ensures Get(ms, "sub") == Some(ms[0].value) && Get(ms, "task_id") == Some(ms[1].value)
    ensures Get(ms, "agent_type") == Some(ms[2].value) && Get(ms, "scope") == Some(ms[4].value)
  {
    GetLater(ms, "task_id");
    GetLater(ms, "agent_type");
    GetLater(ms, "scope");
    GetLater(ms[1..], "agent_type");
    GetLater(ms[1..], "scope");
    GetLater(ms[2..], "scope");
    GetLater(ms[3..], "scope");
    assert ms[1..][1..] == ms[2..] && ms[2..][1..] == ms[3..] && ms[3..][1..] == ms[4..];
  }

  lemma GetLater(ms: seq<Member>, key: string)
    requires ms != [] && ms[0].key != key
    ensures Get(ms, key) == Get(ms[1..], key)
  {
  }

  /** The signJwt call of issueDelegatedToken; the jti drawn there is overwritten by signJwt's own. */
  predicate Delegates(i: Issue, input: DelegatedTokenInput, drawn: string) {
    i.payload == DelegatedClaims(input, drawn) && i.ttlSeconds == DELEGATED_TOKEN_TTL_SECONDS
  }

  lemma DelegatedIssuable(p: Platform, i: Issue, input: DelegatedTokenInput, drawn: string)
    requires Delegates(i, input, drawn) && DateInRange(Exp(i))
    ensures Issuable(p, i)
  {
    var ms := DelegatedClaims(input, drawn);
    DelegatedKeys(ms);
    StringsPrinted(p, ms);
  }

  lemma DelegatedKeys(ms: seq<Member>)
    requires |ms| == 5 && ms[0].key == "sub" && ms[1].key == "task_id" && ms[2].key == "agent_type"
    requires ms[3].key == "jti" && ms[4].key == "scope"
    ensures DistinctKeys(ms)
  {
  }

  lemma CheckedFields(
    p: Platform, payload: Value, input: DelegatedTokenInput, jti: string, expected: DelegatedTokenInput, revoked: Table)
    requires Field(payload, "jti") == Some(Str(jti)) && p.text(Str(jti)) == jti
    requires ToDate(p, Field(payload, "exp")).Some?
    requires Field(payload, "task_id") == Some(Str(input.taskId))
    requires Field(payload, "agent_type") == Some(Str(input.agentType))
    requires Field(payload, "sub") == Some(Str(input.userId)) && Field(payload, "scope") == Some(Str("task_result"))
    ensures CheckedUse(p, payload, expected, revoked).Used? <==> jti !in revoked && expected == input
  {
  }

  lemma IssuedTokenChecked(p: Platform, i: Issue, input: DelegatedTokenInput, drawn: string,
                           expected: DelegatedTokenInput, revoked: Table)
    requires Faithful(p) && Delegates(i, input, drawn) && DateInRange(Exp(i))
    ensures CheckedUse(p, Obj(Claims(i.payload, Exp(i), i.jti)), expected, revoked).Used?
            <==> i.jti !in revoked && expected == input
  {
    SignedExpiry(p, i);
    DelegatedFields(input, drawn, Exp(i), i.jti);
    CheckedFields(p, Obj(Claims(i.payload, Exp(i), i.jti)), input, i.jti, expected, revoked);
  }

  /** An issued token is usable exactly for the task, agent and user it was issued for, until it has been used, while
      its key is active and it has not expired. */
  lemma IssuedTokenUse(
    p: Platform, pair: KeyPair, i: Issue, keys: seq<KeyPair>, input: DelegatedTokenInput, drawn: string,
    expected: DelegatedTokenInput, now: int, revoked: Table)
    requires Ideal(p) && Faithful(p) && Delegates(i, input, drawn)
    requires Encodable(pair, i) && DateInRange(Exp(i)) && Exp(i) != 0
    ensures UseOf(p, keys, SignedToken(p, pair, i), expected, now, revoked).Used? <==>
            HasKey(keys, pair.key) && now / 1000 <= i.now / 1000 + 900 && i.jti !in revoked && expected == input
  {
    DelegatedIssuable(p, i, input, drawn);
    SignThenVerify(p, pair, i, keys, now, revoked);
    IssuedTokenChecked(p, i, input, drawn, expected, revoked);
  }
}
