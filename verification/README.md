# Verified model of the Calypso starter

A Dafny model of the parts of the server whose correctness depends on state, time or an inverse: the PostgreSQL task
queue, the hash-chained audit log, the sliding-window rate limiter, the SQL statement splitter, record and replay of
cloud HTTP traffic, tokens with key rotation and revocation, and the two event loops. `dafny verify dfyconfig.toml`
checks everything.

How the pieces are modelled:

- **Task queue** (`TaskQueue`, `TaskRuns`, `TaskHistory`). The table is a map from ids to rows; every SQL statement is
  one atomic step, except the claim, whose row lock (FOR UPDATE SKIP LOCKED) and commit are two, so concurrent claims
  interleave; an UPDATE of a locked row waits for the claim to end. A *run* is any sequence of steps that were possible
  when taken.
  Attempt, backoff and single-winner results hold on every worker-protocol run: reports never write `pending`, `claimed`
  or `dead`, and `max_attempts >= 1`.
- **Audit log** (`AuditHash`, `AuditChain`, `AuditLog`, over `Json`, `Canonical`, `Sorting`). `AuditChain` is generic in
  the digest; `AuditLog` instantiates it with the repository's pre-image under an abstract SHA-256 that must be collision
  free on exactly the texts that were digested. Appender and verifier order rows by `(ts, id)`, not by insertion: the
  comment in `apps/server/src/api/audit.ts:5` says "insertion order", the query says otherwise, and the model follows the
  query. The appender hashes the timestamp text it is given, the verifier hashes `toISOString` of the stored instant;
  hence the second half of every acceptance condition (`CanonicalTimestamp`).
- **Rate limiter** (`RateLimiter`). The class carries its full history as ghost state. A second model follows one key
  through a run in which other requests happen between a check and its consume. The global and register limiters check
  and consume in one synchronous step, which is the bound with one request in flight; the login route's IP limiter does
  not, which is the bound with several.
- **Statement splitter** (`SqlSplitter`, `SqlReference`). The loop is proved equal to a recursive specification, and
  that to one told with the characters themselves.
- **Tokens** (`Base64Url`, `Jwt`, `Revocation`, `Sessions`). Signatures are ideal and JSON.parse inverts JSON.stringify;
  both are parameters. `Revocation` interleaves revocations, sweeps and the separate steps of a verification.
- **Record and replay** (`RecordedHttp`, `RecordedForm`, `RecordedRequest`, `RecordedFields`, `FixtureReplay`).
- **Event loops** (`WorkerWaker`, `WorkerLoop`, `DevicePolling`).

Findings, where the code does less than a reader of its comments would expect:

- A run of audit emissions verifies exactly when insertion order is `(ts, id)` order and timestamps are canonical. The
  stale-claim recovery gives a batch one timestamp, so a log that verified before the batch verifies after it exactly when
  the ids of the batch happen to ascend.
- The advertised Retry-After is always enough exactly for limiters that check and consume in one step and for windows of
  at most a millisecond (`RetryAfterEnoughIff`; check and 429 response each read the clock, and may read different
  milliseconds). The login route's IP limiter, 10 requests per 15 minutes with an `await` between check and consume, is
  neither (`LoginRetryAfterTooShort`); `AdvertisedWaitIff` says for each denial whether its wait is enough.
- File-name order is recording order exactly up to 9999 fixtures.
- A delegated token is single use between uses in sequence. Until the recorded expiry, once a use has been consumed,
  exactly those other uses can still be consumed that had passed their own look-up by then (`ConsumableIff`), although
  the comment in `apps/server/src/auth/delegated-token.ts:4-7` promises exactly one. In sequence the second use is
  refused by the look-up of verifyJwt, before the second look-up of verifyDelegatedToken is reached.
- A revocation lasts as long as the expiry that was recorded first: a verification of a revoked token is refused under
  every continuation exactly when that expiry has not passed at its look-up, or its expiry check was made after second
  `exp` (`RevocationLastsIff`). verifyJwt awaits between the two, so one that checked in time can still pass afterwards.
  With the token's own expiry recorded this leaves open the verifications that check the expiry by the end of second
  `exp`, where the floored comparison still accepts, and look up after its start. But logout takes jti and expiry from a
  payload whose signature it does not check (`LogoutIgnoresSignature`), and an earlier expiry recorded first makes the
  token's own revocation a no-op (`EarlierExpiryForgets`).
- signJwt fails on a payload whose JSON text leaves Latin-1, because btoa does.
- Request comparison identifies a JSON `null` body with no body, and a form with the JSON object it is grouped into.
  A recorded JSON response that is a bare string or `null` replays without its JSON text.

## Model

| member | source | states |
|---|---|---|
| TaskQueue.Queue.EnqueueTask | packages/db/task-queue.ts:61-85 | an unknown key adds one row with the request as given, pending, without attempts, claim, result or error; a known key returns its row and changes nothing |
| TaskQueue.Queue.LockNext | packages/db/task-queue.ts:115-123 | locks a pending, due row of the agent type that no lock names; every other such row has a greater priority number, or the same and was not created earlier; locks none only if every such row is locked |
| TaskQueue.Queue.CommitClaim | packages/db/task-queue.ts:106-114 | the locked row becomes claimed by its claimant until NOW() plus the time to live, with one more attempt, and the lock is released |
| TaskQueue.Queue.ClaimNextTask | packages/db/task-queue.ts:102-127 | without interleaving: the row first by priority, then by creation, among the due unlocked rows of the agent type is claimed and nothing else changes; or there was none |
| TaskQueue.Queue.AwaitRow | packages/db/task-queue.ts:143-152 | an UPDATE of a row that a claim has locked sees the table after that claim's commit or rollback |
| TaskQueue.Queue.UpdateTaskStatus | packages/db/task-queue.ts:140-154 | once the row is free, writes the reported columns of that row, whatever the status; no row, no change |
| TaskQueue.Queue.SubmitTaskResult | packages/db/task-queue.ts:164-177 | once the row is free, stores the result and completes the row; no row, no change |
| TaskQueue.Queue.RecoverStaleClaims | packages/db/task-queue.ts:198-220 | exactly the claimed rows whose claim expired change: dead if attempts are exhausted, else pending until 2^attempt seconds later, claim columns empty; exactly those are returned, and none is stale afterwards |
| TaskQueue.NextIsFirst | packages/db/task-queue.ts:115-123 | which row the sub-select returns, column by column: least priority, then earliest creation, among the pending due rows of the agent type that no lock names |
| TaskQueue.NoneIsFree | packages/db/task-queue.ts:115-123 | it returns none exactly when every pending due row of the agent type is locked |
| TaskQueue.RecoveredAgain | packages/db/task-queue.ts:210-216 | a swept row is due again exactly from 2^attempt seconds on, and never if its attempts are exhausted |
| TaskHistory.ColumnsTellRun | packages/db/task-queue.ts:61-220 | after every run, request and creation time are those of the first enqueue, the result is that of the last submission, the error that of the last report, and the claim columns are those of the last claim, or empty since the sweep that found it expired |
| TaskQueue.SweepTwice | packages/db/task-queue.ts:198-220 | a second sweep at the same instant changes nothing |
| TaskQueue.RunInvariant | packages/db/task-queue.ts:80-81 | in every interleaving there is one row per idempotency key, and every locked row is pending, due, and locked once |
| TaskQueue.KeyStays | packages/db/task-queue.ts:61-85 | an enqueued row is never lost and keeps its key |
| TaskQueue.RepeatedEnqueue | packages/db/task-queue.ts:57-60 | repeating an enqueue after any further steps returns the first row and changes nothing |
| TaskRuns.AttemptsAreClaims | packages/db/task-queue.ts:102-127 | `attempt` equals the number of claims ever granted and is at most `max_attempts`; pending rows have attempts left, dead rows none |
| TaskRuns.Backoff | packages/db/task-queue.ts:210-216 | the k-th claim comes later than the first by more than the earlier claims' time to live plus 2^k - 2 seconds |
| TaskRuns.GrantedOncePerRecovery | packages/db/task-queue.ts:95-101 | between two grants of one row lies a recovery of that row |
| TaskRuns.ConcurrentClaims | packages/db/task-queue.ts:105-126 | k concurrent claims on n eligible rows, of which r roll back, take at least min(k, n) - r and at most min(k - r, n) rows, in every interleaving and over any time in which no retry falls due; first in `(priority, created_at)` order except for rows given back; each row taken belongs to the last claim that locked it, and no other candidate changes |
| TaskRuns.EndedClaims | packages/db/task-queue.ts:105-126 | a candidate on which no lock is left is claimed exactly when one of these claims took it |
| Json.PrintSelfDelimiting | packages/core/audit.ts:39-51 | JSON text determines the value and where it ends |
| Json.PrintInjective | scripts/gcp/common.ts:1116 | JSON.stringify prints two values alike exactly when they are equal, member order included |
| Json.ReadPrint | packages/core/audit.ts:39-51 | a reader of the grammar of RFC 8259 gets back every printed value, and stops where it ends |
| Json.DecimalSpelled | apps/server/src/auth/jwt.ts:190 | an integer prints as its decimal digits, without leading zeros, after a minus sign if negative |
| Canonical.SortKeysDecides | scripts/gcp/common.ts:1044-1056 | sorting keys at every depth is a normal form for equality up to key order |
| Canonical.SortKeysIdempotent | scripts/gcp/common.ts:1044-1056 | sorting twice is sorting once |
| Canonical.SortKeysAscend | scripts/gcp/common.ts:1044-1056 | in a sorted value every object, at any depth, has its members in the order of their keys |
| Canonical.CanonicalIsSortedPrint | packages/core/audit.ts:39-51 | the canonical text is JSON.stringify of the key-sorted value |
| Canonical.CanonicalDecides | packages/core/audit.ts:33-51 | two values have the same canonical text exactly when they are equal up to key order at every depth |
| AuditHash.PreImageDetermines | packages/core/audit.ts:69-71 | the hashed text determines the previous hash and all seven fields, `before` and `after` up to key order, and depends on nothing else |
| AuditHash.PreImageIsJson | packages/core/audit.ts:69-71 | the hashed text is the previous hash followed by JSON.stringify of the payload object, its fields in the template's order, `before` and `after` with sorted keys |
| AuditChain.AuditTable.EmitAuditEvent | apps/server/src/policies/audit-service.ts:40-78 | appends one row that extends the hash of the latest row by `(ts, id)`, or the genesis value |
| AuditChain.VerifyRows | apps/server/src/api/audit.ts:59-87 | the loop answers valid exactly on a chain from genesis, and otherwise names the first break |
| AuditChain.AuditTable.Verify | apps/server/src/api/audit.ts:53-87 | answers valid exactly when the rows in `(ts, id)` order are a chain from genesis, and otherwise names the first break |
| AuditChain.ChainsAgree | apps/server/src/api/audit.ts:63-85 | chains that end in the same hash have the same length and agree row by row, for any digest that binds its inputs |
| AuditChain.LatestIsLast | apps/server/src/policies/audit-service.ts:40-44 | the row the appender extends is the last row the verifier reads |
| AuditChain.LatestSpelled | apps/server/src/policies/audit-service.ts:40-44 | the row the appender extends: none is later, and none of the same instant has a greater id |
| AuditChain.InOrderSpelled | apps/server/src/api/audit.ts:53-57 | the verifier reads every row, by instant and then by id |
| AuditChain.EmitOutcome | apps/server/src/policies/audit-service.ts:40-78 | what one emission does to an accepted log, for any digest that binds its inputs |
| AuditChain.RunAcceptedIff | apps/server/src/api/audit.ts:53-87 | the log of a whole run is accepted exactly when it was inserted in `(ts, id)` order with canonical timestamps |
| AuditLog.HashBinds | packages/core/audit.ts:60-78 | a SHA-256 without collisions on these pre-images tells their inputs apart |
| AuditLog.TamperEvident | packages/core/audit.ts:60-78 | two accepted logs ending in the same hash agree in length and in every hashed field of every row |
| AuditLog.VerifyAfterEmit | apps/server/src/policies/audit-service.ts:40-78 | after an emission onto an accepted log: accepted again exactly when the new row sorts last and its timestamp is canonical; otherwise the reported row is the new one |
| AuditLog.RunVerifiesIff | apps/server/src/api/audit.ts:53-87 | RunAcceptedIff for the repository's own hash |
| AuditLog.RecoveryBatchVerifiesIff | apps/server/src/policies/stale-claim-recovery-service.ts:18-39 | after earlier emissions, a batch under one timestamp verifies exactly when the log did before and the ids of the batch ascend in emission order |
| RateLimiter.Limiter.Check | apps/server/src/security/rate-limiter.ts:59-76 | answers from the pruned store exactly as from the full history |
| RateLimiter.Limiter.Consume | apps/server/src/security/rate-limiter.ts:81-89 | adds the time to the history; no later check sees what the store drops |
| RateLimiter.Limiter.Cleanup | apps/server/src/security/rate-limiter.ts:95-106 | drops exactly the expired timestamps and the keys left empty; no later check can tell |
| RateLimiter.Limiter.Reset | apps/server/src/security/rate-limiter.ts:109-111 | forgets store and history |
| RateLimiter.CheckAndConsume | apps/server/src/api/auth.ts:129-145 | the synchronous guard appends to the key's history exactly when the check allows, which in the key's run is a check and its consumption; other keys are untouched |
| RateLimiter.WindowBound | apps/server/src/api/auth.ts:229-270 | with at most k requests between check and consume, every window of length `windowMs` holds at most `maxRequests + k - 1` consumptions |
| RateLimiter.AtomicWindowBound | apps/server/src/api/auth.ts:129-145 | when check and consume are one step, every window holds at most `maxRequests` |
| RateLimiter.WindowBoundReached | apps/server/src/api/auth.ts:229-270 | the bound `maxRequests + k - 1` is reached by some run |
| RateLimiter.RemainingMeans | apps/server/src/security/rate-limiter.ts:66-75 | `remaining` is exactly how many more requests the same instant admits once this one is consumed; none when denied |
| RateLimiter.ResetAtMeans | apps/server/src/security/rate-limiter.ts:71-73 | `resetAt` is the first whole second at which the oldest timestamp in the window has left it |
| RateLimiter.RetryAfterSuffices | apps/server/src/security/rate-limiter.ts:71-75 | a key denied with a window that is not over-full is allowed once the advertised wait is over |
| RateLimiter.AtomicRetryAfter | apps/server/src/security/rate-limiter.ts:159-175 | for check and consume in one step the advertised wait is always enough, despite ceiling and floor |
| RateLimiter.AllowedAgainIff | apps/server/src/security/rate-limiter.ts:66-73 | a denied key is allowed later exactly when its timestamp number `count - maxRequests` has left the window |
| RateLimiter.AdvertisedWaitIff | apps/server/src/security/rate-limiter.ts:159-175 | an advertised wait is enough exactly when timestamp number `count - maxRequests` leaves the window by its end |
| RateLimiter.RetryAfterTooShort | apps/server/src/api/auth.ts:229-270 | with two requests in flight, in every window longer than a second, some key is denied again when its advertised wait is over |
| RateLimiter.LoginRetryAfterTooShort | apps/server/src/security/rate-limiter.ts:121-122 | the login IP limiter, 10 requests per 15 minutes: Retry-After 899, and still denied 899 s later |
| RateLimiter.NoWaitAdvertised | apps/server/src/security/rate-limiter.ts:159-175 | with two requests in flight, in every window of at least two milliseconds, a denied key is told by a response built one millisecond after the check to wait 0 s, and is denied then |
| RateLimiter.RetryAfterEnoughIff | apps/server/src/security/rate-limiter.ts:159-175 | the advertised wait is always enough, however much later than the check the response is built, exactly when check and consume are one step or the window is at most a millisecond |
| SqlSplitter.SplitSqlStatements | packages/db/index.ts:91-126 | the single-pass loop computes the recursive split, whose white space, quoting and cuts the rows of SqlReference spell out |
| SqlSplitter.OutputsAreStatements | packages/db/index.ts:83-90 | outputs are non-empty, trimmed, and have no semicolon outside `$$`; only the last may leave a quote open |
| SqlSplitter.OutputsConserveText | packages/db/index.ts:91-126 | outputs hold exactly the non-whitespace characters of the input, in order, less the top-level semicolons |
| SqlSplitter.OutputSplitsToItself | packages/db/init-remote.ts:542-572 | every output splits to itself |
| SqlSplitter.JoinThenSplit | packages/db/init-remote.ts:542-572 | splitting the outputs joined by semicolons gives the same list |
| SqlReference.WhiteIff | packages/db/index.ts:107-121 | trimming removes exactly the white space and line terminators of ECMAScript |
| SqlReference.ScanIsCount | packages/db/index.ts:91-126 | a semicolon separates exactly after an even number of `$$`, counted in the runs of dollar signs before it |
| SqlReference.OutputsSpelled | packages/db/index.ts:83-90 | no output is empty, begins or ends with white space, or holds a semicolon after an even number of `$$`; only the last can hold an odd number of them |
| SqlReference.OutputsConserveInk | packages/db/index.ts:91-126 | the outputs hold exactly the characters of the input outside that white space, in order, less those semicolons |
| SqlReference.SplitAtSemicolon | packages/db/index.ts:91-126 | a semicolon after an even number of `$$` cuts: what is before and what is after split independently |
| Base64Groups.PackKeepsNumber | apps/server/src/auth/jwt.ts:36-42 | three octets and their four sextets are the same 24-bit number (section 4 of RFC 4648) |
| Base64Groups.OctetsOfSextets | apps/server/src/auth/jwt.ts:36-53 | regrouping bits to sextets and back loses nothing, at every length |
| Base64Url.Base64UrlDecode | apps/server/src/auth/jwt.ts:47-53 | the padding loop decodes the text padded to a multiple of four |
| Base64Url.PadEndIsPadded | apps/server/src/api/auth.ts:359-364 | logout's padEnd pads exactly as the loop does, at every length |
| Base64Url.EncodeIsLetters | apps/server/src/auth/jwt.ts:36-42 | an encoding has neither padding nor `.`, `+` or `/` |
| Base64Url.DecodeEncode | apps/server/src/auth/jwt.ts:36-53 | decoding undoes encoding on every byte string |
| Base64Url.EncodeSpells | apps/server/src/auth/jwt.ts:36-42 | an encoding spells the 6-bit groups of its bytes in the alphabet of section 5 of RFC 4648, letter by letter |
| Base64Url.DecodeSpelled | apps/server/src/auth/jwt.ts:47-53 | a text in that alphabet decodes to its numbers regrouped, and fails exactly when one letter is left over |
| Base64Url.ForeignIsMalformed | apps/server/src/auth/jwt.ts:47-53 | a character outside both alphabets, padding and ASCII white space makes decoding fail |
| Jwt.KeyStore.InitKeyStore | apps/server/src/auth/jwt.ts:117-134 | the configured keys, or a generated one, become the active keys once |
| Jwt.KeyStore.GetVerificationKeyPairs | apps/server/src/auth/jwt.ts:148-154 | the current key, then the old key if there is one |
| Jwt.KeyStore.SignJwt | apps/server/src/auth/jwt.ts:183-197 | signs header and claims under the current key, or fails exactly when a text leaves Latin-1 |
| Jwt.KeyStore.VerifyJwt | apps/server/src/auth/jwt.ts:203-252 | the loop over the keys and the checks after it compute the verdict, error by error |
| Jwt.AcceptedExactly | apps/server/src/auth/jwt.ts:203-252 | any token is accepted with a payload exactly when an active key verifies its third segment on the first two, its second encodes that payload, and the payload is not null, not expired and not revoked |
| Jwt.RejectedExactly | apps/server/src/auth/jwt.ts:203-252 | and otherwise which error it is, for any token |
| Jwt.SignedHeader | apps/server/src/auth/jwt.ts:183-185 | the header of a signed token is the object of algorithm ES256, type JWT and the key id |
| Jwt.ClaimsOverride | apps/server/src/auth/jwt.ts:190 | the signed claims are the caller's with `exp` and `jti` overwritten |
| Jwt.SignThenVerify | apps/server/src/auth/jwt.ts:183-252 | a signed token verifies to its payload with the new `exp` and `jti` exactly when its key is active, it has not expired and is not revoked; otherwise which error |
| Jwt.SignatureBindsToken | apps/server/src/auth/jwt.ts:209-238 | a signed token's signature segment gets no other token past the signature check |
| Revocation.RevokedTokens.RevokeToken | packages/db/revocation.ts:10-16 | the jti is in the table afterwards, with the first expiry recorded for it; no other row changes |
| Revocation.RevokedTokens.IsRevoked | packages/db/revocation.ts:24-29 | says whether the jti is in the table |
| Revocation.RevokedTokens.CleanupExpiredRevocations | packages/db/revocation.ts:35-37 | exactly the rows that expire before now are gone |
| Revocation.TableHoldsRemembered | packages/db/revocation.ts:10-37 | a row is present exactly when an insertion that took effect has not been swept since; an insertion takes effect exactly when all earlier ones that did have been swept |
| Revocation.AcceptedIff | apps/server/src/auth/jwt.ts:243-249 | the exact outcome of a verification after any run of revocations, of whatever expiries, and sweeps |
| Revocation.RefusedAfterRevocation | packages/db/revocation.ts:10-37 | once a jti was inserted, a verification is refused that checks expiry from second `exp + 1` on, or that looks it up by second `exp` if no expiry earlier than the token's was recorded, under any schedule of sweeps |
| Revocation.RevocationLastsIff | packages/db/revocation.ts:10-37 | under every continuation a verification is refused exactly when its look-up comes by the recorded expiry or its expiry check came after second `exp` |
| Revocation.EarlierExpiryForgets | packages/db/revocation.ts:10-37 | after an earlier recorded expiry, a sweep forgets the jti although a later revocation recorded the token's own |
| Revocation.GapIsOpen | packages/db/revocation.ts:35-37 | at every instant strictly between, some run accepts a revoked token |
| Revocation.SecondUseRefused | apps/server/src/auth/delegated-token.ts:84-90 | a use that looks up after another use was consumed is refused until the token's expiry |
| Revocation.ConsumableIff | apps/server/src/auth/delegated-token.ts:84-118 | once a token has been consumed, exactly the uses that had passed their look-up can still be consumed until the recorded expiry |
| Revocation.SecondConsumptionLookedUpFirst | apps/server/src/auth/delegated-token.ts:84-118 | of two consumptions of one token by its expiry, the later use had looked up before the earlier was consumed |
| Revocation.InterleavedUsesBothConsumed | apps/server/src/auth/delegated-token.ts:84-118 | two uses that look up before either inserts are both consumed |
| Sessions.VerifyDelegatedToken | apps/server/src/auth/delegated-token.ts:77-121 | the checks in order; on success, and only then, the token's jti and expiry enter the table |
| Sessions.UsedExactly | apps/server/src/auth/delegated-token.ts:77-121 | any token is used exactly when verifyJwt accepts it, its jti has no row, task, agent type, subject and scope are the expected strings, and its expiry is a date |
| Sessions.RefusedFor | apps/server/src/auth/delegated-token.ts:84-109 | and otherwise which check refuses it: the first that fails |
| Sessions.ToDateIff | apps/server/src/auth/delegated-token.ts:112 | an expiry in seconds is a date exactly within the range of a JavaScript date, cut to whole milliseconds |
| Sessions.IssuedTokenUse | apps/server/src/auth/delegated-token.ts:50-60 | an issued token is usable exactly for its own task, agent and user, while its key is active, for 15 minutes, until its jti is in the table |
| Sessions.Logout | apps/server/src/api/auth.ts:351-374 | records the row the payload asks for, and changes nothing on any failure |
| Sessions.LogoutExactly | apps/server/src/api/auth.ts:351-374 | any token whatever adds exactly the row that its payload asks for with a truthy jti and a truthy expiry that is a date, unless the jti has one; any other leaves the table as it was |
| Sessions.LogoutDecodesAlike | apps/server/src/api/auth.ts:359-364 | logout decodes a payload segment as verifyJwt does |
| Sessions.LogoutIgnoresSignature | apps/server/src/api/auth.ts:355-369 | logout records the jti and expiry that the payload segment names, whatever the header and signature segments are |
| Sessions.LogoutRecordsToken | apps/server/src/api/auth.ts:357-369 | logout with a signed token records that token's jti and expiry |
| Sessions.LogoutThenVerify | apps/server/src/auth/jwt.ts:243-249 | after logout the token is rejected as long as its row stays in the table |
| Sessions.AcceptedIsPasses | apps/server/src/auth/jwt.ts:203-252 | acceptance of a signed token is the test made in the runs of Revocation |
| RecordedHttp.SanitizeJsonValue | scripts/gcp/common.ts:1058-1073 | the loops compute redaction; array elements inherit the key, members have their own; what becomes of each string the rows of RecordedFields spell out |
| RecordedHttp.SanitizeDecides | scripts/gcp/common.ts:1058-1105 | redacted values are the same exactly when the originals are, up to key order and strings under secret keys |
| RecordedHttp.SanitizeIdempotent | scripts/gcp/common.ts:1058-1105 | redacting twice is redacting once |
| RecordedHttp.SortSanitizeCommute | scripts/gcp/common.ts:1010 | sorting keys and redacting commute |
| RecordedFields.ScalarStored | scripts/gcp/common.ts:1075-1105 | a string under a key whose trimmed, lower-case name is one of ten listed is stored as the text listed for it, and otherwise unchanged |
| RecordedFields.RedactsExactly | scripts/gcp/common.ts:1058-1105 | anywhere in a sanitized value, each string is stored by that table under the key in force there, and nothing else changes |
| RecordedFields.LowerSpelled | scripts/gcp/common.ts:1076 | lower case, letter by letter on ASCII |
| RecordedForm.NormalizeForm | scripts/gcp/common.ts:1016-1039 | the loop over sorted entries builds the grouped, redacted form |
| RecordedForm.FormBodyDecides | scripts/gcp/common.ts:1016-1039 | two forms normalize alike exactly when they have the same redacted entries in any order |
| RecordedForm.FormBodyNormal | scripts/gcp/common.ts:1107-1113 | sorting the keys of a normalized form again changes nothing |
| RecordedFields.FormStored | scripts/gcp/common.ts:1016-1039 | a form stores under each key its values in order, each by the table of secrets, one as a string and several as an array, and nothing under any other key |
| RecordedRequest.NormalizeRecordedBody | scripts/gcp/common.ts:999-1042 | empty, JSON, broken JSON, form and other bodies normalize as their content type says |
| RecordedRequest.NormalizeRecordedUrl | scripts/gcp/common.ts:955-969 | query entries are sorted and the fragment dropped |
| RecordedRequest.NormalizeRecordedRequest | scripts/gcp/common.ts:832-841 | the whole normalized request |
| RecordedFields.BodyStored | scripts/gcp/common.ts:999-1042 | what each body is stored as: nothing when empty, by its content type JSON if it parses or a form, and otherwise its text |
| RecordedFields.HeadersStored | scripts/gcp/common.ts:971-978 | headers are stored in order, names in lower case, values by the table of secrets |
| RecordedFields.RequestStored | scripts/gcp/common.ts:832-841 | upper-case method, GET by default, and the URL with its query entries in order by key and value, without fragment |
| RecordedFields.ReplyCarries | scripts/gcp/common.ts:888-892 | a replayed response has the recorded status, status text and headers, and the stored body as text |
| RecordedRequest.RecordedEqualIff | scripts/gcp/common.ts:1107-1117 | normalized requests compare equal exactly when method, URL and body are the same up to query order, form order, key order and secrets |
| RecordedRequest.ReplayedJson | scripts/gcp/common.ts:1119-1127 | a replayed JSON body is the redacted original up to key order, and prints as JSON unless it is a bare string or null |
| FixtureReplay.FileNameOrder | scripts/gcp/common.ts:939-945 | below 10000, text order of file names is numeric order, whatever follows the index |
| FixtureReplay.FileNameSpelled | scripts/gcp/common.ts:939-945 | below 10000 a file name is the index in four digits, a dash, the rest, and `.json` |
| FixtureReplay.WrittenExactly | scripts/gcp/common.ts:865 | writing leaves the new file and every entry that is not a file of that name |
| FixtureReplay.NamesInOrderIff | scripts/gcp/common.ts:935 | file-name order is recording order exactly up to 9999 files |
| FixtureReplay.RecordedFiles | scripts/gcp/common.ts:843-865 | recording into an empty directory overwrites nothing: file i holds fixture i |
| FixtureReplay.FixtureStore.RecordGoogleHttpFixture | scripts/gcp/common.ts:843-865 | creates the directory if needed and writes one file numbered after the files present |
| FixtureReplay.WalkDir | scripts/gcp/common.ts:921-934 | the recursive walk finds the `.json` files at every depth |
| FixtureReplay.WalkFinds | scripts/gcp/common.ts:921-934 | a file is found exactly when a trail of directories leads to it and its name ends in `.json`, under the path of that trail |
| FixtureReplay.WalkPermutation | scripts/gcp/common.ts:921-934 | what the walk finds does not depend on the order in which the directory lists its entries |
| FixtureReplay.FixtureStore.ListFixtureFiles | scripts/gcp/common.ts:916-937 | every `.json` file of the tree once, in path order; a missing directory fails |
| FixtureReplay.FixtureStore.LoadReplayFixtureState | scripts/gcp/common.ts:895-914 | the cached state, or a fresh one from the listing; fails exactly on a missing directory or one without fixtures |
| FixtureReplay.FixtureStore.ReplayGoogleHttpFixture | scripts/gcp/common.ts:867-893 | answers from the next fixture exactly the request that equals its own; the cursor moves on that answer only; which error otherwise |
| FixtureReplay.CursorCountsReplies | scripts/gcp/common.ts:867-887 | after any requests, matching or not, the cursor is the number of requests answered so far |
| FixtureReplay.AnswerByCount | scripts/gcp/common.ts:867-892 | so every request is compared with the fixture of that number |
| FixtureReplay.RefusedLeavesNoTrace | scripts/gcp/common.ts:876-887 | deleting a refused request changes no later answer |
| FixtureReplay.NextAnswer | scripts/gcp/common.ts:867-893 | after the recorded requests so far, what the next request is answered |
| FixtureReplay.RecordThenReplay | scripts/gcp/common.ts:843-945 | after recording up to 9999 exchanges, every replayed request is answered exactly when the requests are the recorded ones one by one, and the answers are the redacted responses in order |
| WorkerWaker.Waker.WaitForWork | packages/db/task-queue-worker.ts:71-100 | registers one more waiter |
| WorkerWaker.Waker.OnNotification | packages/db/task-queue-worker.ts:65-69 | empties `pending` and resolves what it held |
| WorkerWaker.Waker.OnTimer | packages/db/task-queue-worker.ts:85-93 | resolves its own waiter and removes it, unless it was resolved before |
| WorkerWaker.PendingIsUnresolved | packages/db/task-queue-worker.ts:62-100 | in every order of events `pending` is exactly the unresolved waiters, once each, in order; a resolved waiter was resolved once |
| WorkerWaker.ResolvesWhenDue | packages/db/task-queue-worker.ts:65-93 | each waiter resolves once, at the earlier of the next notification and its poll deadline, and is pending only before both |
| WorkerLoop.RunningLoop.FinishAttempt | packages/db/task-queue-worker.ts:160-164 | after an attempt the loop waits, or exits when stopped |
| WorkerLoop.RunningLoop.Resume | packages/db/task-queue-worker.ts:160-164 | after the wait the loop starts an attempt, or exits when stopped |
| WorkerLoop.RunningLoop.Stop | packages/db/task-queue-worker.ts:167-169 | clears the running flag and nothing else |
| WorkerLoop.NextAttempt | packages/db/task-queue-worker.ts:159-165 | the next attempt starts at the earlier of the next notification and the poll deadline, so within one poll interval of entering the wait |
| WorkerLoop.ResumesByDeadline | packages/db/task-queue-worker.ts:159-165 | from every waiting state the loop can go on and resumes by the deadline |
| WorkerLoop.AttemptCanFinish | packages/db/task-queue-worker.ts:159-165 | an attempt under way is never blocked by the waker |
| WorkerLoop.WaitsOnWaiter | packages/db/task-queue-worker.ts:159-165 | the loop never waits past the deadline of the waiter it awaits |
| WorkerLoop.StoppedStays | packages/db/task-queue-worker.ts:167-171 | no attempt starts after stop() |
| WorkerLoop.StoppedExits | packages/db/task-queue-worker.ts:159-171 | after stop() no waiter is registered, and the loop exits at the end of the attempt or of the wait |
| WorkerLoop.RunningContinues | packages/db/task-queue-worker.ts:159-165 | while running, an attempt ends in a wait on a new waiter, and a wait in an attempt |
| DevicePolling.PollDeviceCodeToken | scripts/gcp/login.ts:350-415 | whenever the loop ends: polls while in time; the outcome is that of the first reply that is neither pending nor slow_down, or the timeout |
| DevicePolling.UndecidedIff | scripts/gcp/login.ts:389-398 | the loop goes on exactly on replies without a usable token that say authorization_pending or slow_down |
| DevicePolling.JudgeGoesOn | scripts/gcp/login.ts:389-398 | slow_down, and not authorization_pending, is the reply that slows the polling |
| DevicePolling.JudgeEnds | scripts/gcp/login.ts:371-411 | the exact condition of every other outcome on the fields of the last reply, with the tokens or the message it carries |
| DevicePolling.ReadyExactly | scripts/gcp/login.ts:350-398 | when each poll can start: k times the first interval, five seconds per later poll for every slow_down, and the delays |
| DevicePolling.PositiveIntervalStops | scripts/gcp/login.ts:350-354 | with a positive interval the loop always ends |
| DevicePolling.ZeroIntervalNeverStops | scripts/gcp/login.ts:350-354 | with an interval of zero and instant pending replies it never ends |
| DevicePolling.IntervalCountsSlowDowns | scripts/gcp/login.ts:394-398 | the interval never shrinks and grows by 5 s per earlier tokenless reply that says slow_down |
| DevicePolling.PollsBounded | scripts/gcp/login.ts:350-353 | with a positive interval there are at most ceil(timeoutMs / intervalMs) polls |
| DevicePolling.SlowDownsTakeTime | scripts/gcp/login.ts:394-398 | n polls all answered slow_down take at least n * intervalMs + 5000 * n * (n - 1) / 2 ms |

## Left out

- TaskRuns.AttemptsAreClaims: holds on worker-protocol runs only, because the PATCH endpoint can write any status.
- TaskRuns.ConcurrentClaims: a claim under way before the first of these claims may commit meanwhile, but not roll back.
- Jwt.SignThenVerify: expiries that are safe integers, where JavaScript's arithmetic and decimal printing are exact; so also the results of Sessions.
- Sessions.LogoutThenVerify: covers expiries that a JavaScript date can hold and non-empty jti.
- One clock for server and database, and no clock skew.
- The JSON round trip of a fixture file, `.json` files that hold no fixture, and a directory that bears a fixture's name.
- Columns that `enqueueTask` leaves to defaults (status `pending`, attempt 0, timestamps): schema.sql is not part of this model.
- PostgreSQL itself: snapshots, serialization failures, triggers, interval overflow for huge attempt counts, the transaction of `emitAuditEvent` (modelled as one step) and its `ip` and `user_agent` columns, which are not hashed.
- JavaScript strings as UTF-16: strings are sequences of Unicode scalars, `sort()` and `localeCompare` are one strict order by code point, `toLowerCase` folds ASCII letters, lone surrogates do not occur.
- JavaScript objects: integer-like keys enumerate first and names such as `constructor` are inherited; the model keeps insertion order and has no prototypes. Members whose value is undefined do not occur.
- JSON numbers are identified with their printed text.
- SHA-256, ECDSA, URL and form parsing, WebCrypto key import and `kid` derivation are parameters or absent.
- Token lifetimes that are not whole seconds.
- Timers and promises: timers fire on time and continuations follow at once; `unlisten` and closing connections are absent.
- Comment stripping in `migrate()`, the admin notification channel, the live HTTP mode and the environment variables that choose modes and directories.
- Headers are normalized but never compared by the code.
- React pages, provisioning, deployment, payload validation, cookies and the cron wrapper: user interface or plumbing.
