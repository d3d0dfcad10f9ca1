# Kipuka: a Dafny model of its stateful core

Kipuka is an enrollment and certificate-management server written in Rust. This project models
the parts of it that keep state or parse bytes, and proves what they promise for every input and
every run.

- **Audit trail** (`AuditChain`, `AuditLedger`, `AuditInterleaving`, `AuditAlarm`): a hash chain over rows of text
  columns, the verifier that re-walks it, the insert point with its overflow policies, and every
  interleaving of writers in any number of server processes.
- **Lockout and one-time passwords** (`Lockout`, `LockoutWindow`, `Otp`, `OtpLaws`): the pruned, bounded failure tracker against
  a reference that never forgets; every interleaving of authentication attempts with stale reads,
  revocations and cleanup.
- **CA pool** (`HaStrategy`, `HaFairness`, `HaPool`, `RetryQueue`, `HaHealth`, `CaRouting`): selection strategies,
  circuit breaker, health probing, retry loop and retry queue.
- **Scanners and matchers** (`SqlCuts`, `SqlSplit`, `Der`, `Spnego`, `Ocsp`, `NameMatch`): the SQL
  statement splitter, two hand-written DER walkers, the DNS name matcher.
- **CMP revocation** (`CmpRevocation`): authorise every entry, then revoke row by row.

`Prelude` holds the shared types, `Runs` what a run of a state machine is, and `Filters` what keeping
some elements of a sequence means. Where the source updates objects in place or loops, the model has
classes and methods, each proved equal to a function of the old state; the laws are lemmas about
those functions. State machines take one step wherever another task or process can act, and
`RecordedIsARun`, `IssuanceIsARun` and `AttemptIsARun` show that the uninterrupted write paths
and authentication attempts are runs of them.

Modelling decisions:

- The digest (SHA-256 or HMAC-SHA-256, hex) is a parameter of which only the shape of its results is
  known. Absence of collisions is a hypothesis about the preimages of the rows at hand, never about
  all inputs. Text columns are their UTF-8 bytes.
- Clock readings, database faults, SELECT results, sends to a CA and character classes are
  parameters. Times are integers. A time difference saturates at zero, as in the source.
- The failure tracker reads its clock before it takes its lock, so two calls may take effect in the
  other order than their readings. The theorems about traces assume serialised calls with
  non-decreasing readings (`Clocked`); those about capacity do not.
- Integer wrap-around is explicit where it can happen: the 64-bit selection counter, its truncation
  to 32 bits, the 32-bit weight sums, the 32-bit violation counter.
- A transaction that holds the writer lock reads all committed rows. The mutex inside one process is
  left out: it only removes interleavings.
- The SQL splitter works on characters; the source works on bytes, but only ASCII bytes decide.

Where the code does not do what its documentation says, the model follows the code and the exact
condition is proved:

- The separator byte is documented to keep fields apart. It does exactly for rows whose fields do not
  contain it (`UniqueIffSeparatorFree`, `FieldsFixedIffSeparatorFree`). An event whose actor holds
  the byte, such as a failed login of an entity-id that does, is an instance (`OtpFailureHasTwin`).
- Under DropOldest the chain does not verify any more once a row has been dropped, unless the limit
  is one row (`DropOldestKeepsLastEvents`).
- The health check documents four states. A successful probe always ends Healthy, so the documented
  target is met exactly when it is Healthy already (`ProbeOkIgnoresDocumentedTarget`,
  `ProbeMeetsTargetIff`).
- An open circuit and Unavailable go together except right after a probe's announcement
  (`OpenCircuitIffUnavailable`, `OpenCircuitWhileRecovering`).
- The rotating strategies are fair over every window of selections exactly when the total divides
  the range of the counter, or one candidate has all the weight (`WeightedFairIff`,
  `RoundRobinFairIff`).
- A pattern that is only `*` matches nothing: the wildcard needs at least one more label
  (`MatchesDomainIsLabelMatch`).
- A revocation request that is answered with an error may have revoked rows
  (`StoppedRequestIsPartial`, `MalformedRaRequestIsNot`).

## Model

| member | source | states |
|---|---|---|
| AuditChain.CanonicalBytes | src/audit/mod.rs:518-541 | The buffer is time stamp, event type, actor, target, detail, source and session, in this order, NULL as empty, each followed by the byte 0x1e |
| AuditChain.IntactByColumns | src/audit/mod.rs:248-267 | A row is intact if and only if its stored hash is the digest of the previous hash, 0x1e and those columns |
| AuditChain.VerifyChain | src/audit/mod.rs:592-658 | Ok exactly when every row is linked and intact; otherwise the id and kind of the first defect; the total is the number of rows |
| AuditChain.TerminatedUnique | src/audit/mod.rs:512-541 | Separator-free fields share their serialisation with no other list of the same length |
| AuditChain.UniqueIffSeparatorFree | src/audit/mod.rs:512-541 | The canonical bytes of a row fix its fields if and only if no field contains the separator |
| AuditChain.EqualHashes | src/audit/mod.rs:248-267 | Equal record hashes of accepted rows give equal back pointers, equal serialised fields and equal preceding hashes |
| AuditChain.TailDeterminesTable | src/audit/mod.rs:579-658 | Two accepted tables with the same last hash have equal length, equal hashes, and equal fields in every row that is separator-free in one of them |
| AuditChain.FieldsFixedIffSeparatorFree | src/audit/mod.rs:579-658 | The last hash fixes all fields of an accepted table if and only if no field contains the separator |
| AuditLedger.OtpFailureHasTwin | src/auth/otp.rs:126-132 | A table the server can write, one failed login of an entity-id with the separator, has a twin with other fields and the same last hash |
| AuditChain.HashesDistinct | src/audit/mod.rs:579-658 | All record hashes of an accepted table differ |
| AuditChain.DrawnAcceptedIffPrefix | src/audit/mod.rs:579-658 | Rows drawn from an accepted table (deleted, reordered, duplicated, re-numbered) are accepted if and only if they are a prefix of it |
| AuditLedger.Connection.Prune | src/audit/mod.rs:439-453 | Selecting the oldest ids and deleting them one by one drops exactly the oldest rows, up to the statement that fails |
| AuditLedger.AuditState.WriteEvent | src/audit/mod.rs:416-510 | An event is appended exactly when not halted, the policy admits it and no statement fails; the new row holds each column of the event, operator as actor and subject as target, is linked to the row before it and hashed with it |
| AuditLedger.AuditState.RecordIssuanceInTransaction | src/audit/mod.rs:368-385 | Success, appended row and halt latch of the issuance path; disabled auditing changes nothing |
| AuditLedger.AuditState.CommitIssuance | src/audit/mod.rs:388-401 | All rows of the transaction or none; a failed commit latches under Halt |
| AuditLedger.AuditState.IssueInTransaction | src/routes/star.rs:249-260 | The pattern of the issuing callers: all events of the transaction are committed, or none, and any failure latches under Halt |
| AuditLedger.AuditState.RecordChecked | src/audit/mod.rs:310-324 | The table, latch and violation counter after one event, for every fault; a failure latches under Halt |
| AuditLedger.AuditState.RecordInner | src/audit/mod.rs:326-366 | The same without the outer latch: commit first, then violation count, alarm and halt |
| AuditAlarm.CountsSinceSuccess | src/audit/mod.rs:343-366 | In every run the violation counter is the number of violations committed since the last committed authentication success, modulo 2^32 |
| AuditAlarm.HaltedIffLatched | src/audit/mod.rs:310-366 | In every run a process is halted if and only if some event raised a halting alarm or failed under Halt; while halted it stores nothing |
| AuditInterleaving.RecordedIsARun | src/audit/mod.rs:310-366 | Recording one event with any faults is a run of the writers' machine with the same table and latch |
| AuditInterleaving.IssuanceIsARun | src/audit/mod.rs:368-401 | A transaction with any number of issuance events and any faults is a run of the machine with the same table and latch |
| AuditInterleaving.HoldsThroughout | src/audit/mod.rs:403-510 | A property kept by every single append holds of the committed table in every state of every interleaving |
| AuditInterleaving.OnlyCommitPublishes | src/audit/mod.rs:388-401 | Only the commit of the lock holder changes the table and the log; rollback and failed commit change neither and release the lock |
| AuditInterleaving.LogIsPublished | src/audit/mod.rs:326-401 | In every run the log is exactly the events inserted by the committed transactions, told from the steps alone |
| AuditInterleaving.RunRepresents | src/audit/mod.rs:416-510 | In every run from an empty table the rows are the last committed events in order, ids ascending, hashes intact, neighbours linked |
| AuditInterleaving.EveryInterleavingVerifies | src/audit/mod.rs:326-401 | Without pruning, every interleaving leaves one linear chain: the verifier reports ok with the number of committed events |
| AuditInterleaving.DropOldestKeepsLastEvents | src/audit/mod.rs:430-510 | Under DropOldest the table is exactly the last min(L, n) events; the verifier reports ok if and only if nothing was dropped or L is 1, and otherwise names the first surviving row |
| AuditInterleaving.HaltNeverExceedsLimit | src/audit/mod.rs:421-454 | Under Halt no run of any number of processes takes a table past its limit |
| AuditInterleaving.HaltedProcessStopsAppending | src/audit/mod.rs:421-429 | After the latch, until it is cleared, rows come only from writes already past the check, at most one from each |
| AuditInterleaving.FailureStopsAppending | src/audit/mod.rs:310-401 | Under Halt a failed write or commit latches its process, so no write that starts later appends |
| Lockout.FailureTracker.Prune | src/auth/failure_tracker.rs:251-255 | Exactly the records that no longer matter are removed |
| Lockout.FailureTracker.Check | src/auth/failure_tracker.rs:120-150 | Answer and new state of a check, sweep at capacity included |
| Lockout.FailureTracker.RecordFailure | src/auth/failure_tracker.rs:153-221 | New state of a failure (sweep, capacity, window, threshold) and its answer: the time left under a lock, the lockout duration when it locks, one second for an oversize identity |
| Lockout.FailureTracker.RecordSuccess | src/auth/failure_tracker.rs:224-238 | A success clears the record unless a lockout is in force |
| Lockout.AnswersAsReference | src/auth/failure_tracker.rs:87-253 | For every clocked trace, full tracker or not, the pruned tracker answers as independent automata that never prune and see the tracked operations; a failure turned away at capacity is answered Allowed |
| Lockout.AllTrackedIff | src/auth/failure_tracker.rs:165-175 | The tracked operations are all operations if and only if none is turned away at capacity |
| Lockout.NeverOverCapacity | src/auth/failure_tracker.rs:153-221 | In every trace the tracker holds at most 10,000 records |
| Lockout.SweepsWhenDue | src/auth/failure_tracker.rs:120-175 | A failure that finds a sweep due, or a check of a full tracker, drops every other record that is neither locked nor within its window, and no more |
| Lockout.TurnedAwayOnlyWhenFull | src/auth/failure_tracker.rs:160-175 | When a sweep is due, an identity is turned away only while 10,000 others are locked or within their window |
| Lockout.LockoutIsExact | src/auth/failure_tracker.rs:120-249 | Until a lockout ends every check is refused with exactly the time left, whatever else happens; from then on it is allowed, as long as no failure of this identity came at or after the end |
| Lockout.ThresholdFailureLocks | src/auth/failure_tracker.rs:153-221 | The failure that locks at time t denies exactly the checks before t plus the lockout duration |
| Lockout.FailureAnswerIsExact | src/auth/failure_tracker.rs:153-221 | A failure is answered with exactly the time left, or the full duration if it sets the lock, and a check at the same instant agrees |
| LockoutWindow.OpensIffFresh | src/auth/failure_tracker.rs:153-221 | The record starts afresh exactly at a failure that falls into no earlier window or lockout of the trace |
| LockoutWindow.LockSetIffWindowFull | src/auth/failure_tracker.rs:153-221 | In every clocked trace, full tracker or not, the tracker sets a lock if and only if the failure is not turned away and is the max_failures-th tracked one of its window, without a success between, strictly within the window of the first; the lock lasts lockout_duration |
| Otp.OtpTable.Consume | src/auth/otp.rs:284-297 | Row by row: one use is taken exactly from the rows of the credential that are not revoked, not expired and not used up; the count is positive if and only if a row changed |
| Otp.ValidateOtp | src/auth/otp.rs:240-308 | Valid exactly when enabled, found by the SELECT, and the UPDATE affects a row; valid if and only if the table changed |
| Otp.TryExtractOtp | src/auth/otp.rs:100-168 | Outcome, tracker and table of one attempt; authenticated if and only if a use was consumed, and only if the lockout check allowed it |
| Otp.RetryNeverEarly | src/auth/otp.rs:189-192 | A client that waits the announced seconds never retries before the lockout ends, and waits less than a second too long |
| Otp.AttemptIsARun | src/auth/otp.rs:100-168 | An undisturbed attempt is a run of the interleaving machine with the same tracker and table, authenticated exactly if the machine counts a success |
| OtpLaws.UpdateAcceptsIff | src/auth/otp.rs:282-301 | In the machine an UPDATE succeeds if and only if it does not fail and some row is for the credential, not revoked, not expired at the reading of its SELECT, and not used up |
| OtpLaws.StagesFollow | src/auth/otp.rs:100-168 | The order of the steps of an attempt, and that no step moves another attempt |
| OtpLaws.StepRowByRow | src/auth/otp.rs:240-308 | No step but an accepted UPDATE of its own credential, while valid, takes a use from a row; only its revocation revokes it |
| OtpLaws.RevokedIsFinal | src/auth/otp.rs:282-301 | A revoked row stays revoked and is never used again, in every run that does not provision its id anew |
| OtpLaws.SweepIsFilter | src/main.rs:770-783 | The cleanup keeps exactly the rows that expire at the cutoff or later, in order |
| OtpLaws.SuccessClears | src/auth/otp.rs:110-114 | An authenticated attempt wipes the failures of its entity |
| OtpLaws.GuessingIsStopped | src/auth/otp.rs:100-168 | After max_failures rejected guesses within one window every further attempt of the entity before the lockout ends is refused with the time left, correct token or not, and consumes nothing |
| Otp.ConsumeConserves | src/auth/otp.rs:284-301 | The UPDATE adds one use per affected row, to that credential only, and never passes a row's limit |
| Otp.SweepConserves | src/main.rs:770-783 | The cleanup moves every row to one side with its uses and its grant |
| Otp.NoOverspending | src/auth/otp.rs:240-308 | In every interleaving no row exceeds max_uses, and a credential succeeds at most the sum of max_uses of the rows provisioned for it |
| Otp.RefusedConsumesNothing | src/auth/otp.rs:100-108 | An attempt that the lockout check refused never reaches the UPDATE |
| Otp.LockedEntitySpendsOnlyInFlight | src/auth/otp.rs:100-168 | While an entity is locked out, its tokens are spent only by attempts already past the gate |
| HaStrategy.StrategySelector.Select | src/ha/strategy.rs:64-75 | Nothing for no candidates; otherwise the candidate the strategy picks, with the counter advanced for the rotating strategies only |
| HaStrategy.StrategySelector.SelectLeast | src/ha/strategy.rs:79-87 | The first candidate with the least priority number (or, for the latency strategy, the least average latency) |
| HaStrategy.ActivePassivePick | src/ha/strategy.rs:79-87 | Active-passive picks a candidate if and only if it is the first with the least priority number |
| HaStrategy.LatencyPick | src/ha/strategy.rs:123-135 | The latency strategy picks a candidate if and only if it is the first with the least average latency |
| HaStrategy.StrategySelector.SelectRoundRobin | src/ha/strategy.rs:90-96 | The counter modulo the number of candidates; the counter wraps at 64 bits |
| HaStrategy.StrategySelector.SelectWeighted | src/ha/strategy.rs:103-120 | The candidate whose cumulative share holds the tick, with 32-bit sums and the zero-weight fallback |
| HaStrategy.NoWrapNoFallback | src/ha/strategy.rs:103-120 | With the total weight in range the scan ends inside a share, never on the fallback line |
| HaStrategy.RoundRobinPick | src/ha/strategy.rs:90-96 | Round-robin picks the counter modulo the number of candidates, and so does weighted selection when the weights sum to 0 |
| HaStrategy.WeightedPickByShare | src/ha/strategy.rs:103-120 | Weighted selection picks a candidate if and only if the truncated counter modulo the total falls into its share |
| HaStrategy.WeightedIsProportional | src/ha/strategy.rs:103-120 | Any total-weight many consecutive selections pick each candidate exactly weight times, never one of weight 0 |
| HaStrategy.RoundRobinIsFair | src/ha/strategy.rs:90-96 | Any n consecutive selections pick each of n candidates exactly once |
| HaFairness.WeightedFairIff | src/ha/strategy.rs:103-120 | Over every window of total-weight many selections, across any wrap, the shares are the weights if and only if the total divides 2^32 or one candidate has all of it |
| HaFairness.RoundRobinFairIff | src/ha/strategy.rs:90-96 | Over every window of n selections, across any wrap, each of n candidates is picked once if and only if n divides 2^64 |
| HaPool.CaPool.constructor | src/ha/pool.rs:204-226 | Every connection starts with a fresh Healthy status |
| HaPool.CaPool.SelectAllowed | src/ha/pool.rs:240-273 | A CA is returned if and only if some allowed CA is not Unavailable; it is one of those, picked by the strategy, and the counter moves only then |
| HaPool.CandidatesAreFiltered | src/ha/pool.rs:240-265 | The strategy chooses among exactly the allowed connections that are not Unavailable, in pool order, each with its average latency |
| HaPool.CaPool.RecordSuccess | src/ha/pool.rs:276-293 | One status becomes Healthy with no failures and a closed circuit, the others are unchanged |
| HaPool.CaPool.RecordFailure | src/ha/pool.rs:296-320 | One failure is counted and the breaker trips at the threshold, the others are unchanged |
| HaPool.CaPool.SetHealth | src/ha/pool.rs:332-341 | Only the health of that CA changes |
| RetryQueue.Queue.EnqueueRequest | src/ha/pool.rs:368-420 | The requests whose time to live has passed leave, then the request is queued last exactly when it is small enough and there is room; the depth is reported |
| RetryQueue.Queue.DrainQueue | src/ha/pool.rs:425-443 | Exactly the requests stamped less than the time to live ago, in order; the queue is empty afterwards |
| RetryQueue.DrainReturnsLiveRequests | src/ha/pool.rs:368-443 | In every clocked run a drain returns exactly the accepted, unexpired requests since the last drain; expired ones take up no capacity |
| RetryQueue.QueueIsBounded | src/ha/pool.rs:368-420 | In every run the queue stays within its capacity |
| HaHealth.HealthChecker.RunProbe | src/ha/health.rs:208-224 | An Unavailable CA is not probed before its circuit has been open for the cooldown, which counts as a failure |
| HaHealth.ProbedFromCooldownOn | src/ha/health.rs:208-224 | After any run of whole operations a CA is probed exactly until the tripping failure, and again from that failure plus the cooldown on |
| HaHealth.HealthChecker.HandleProbeSuccess | src/ha/health.rs:309-353 | The pool and the probe metrics after a successful probe |
| HaHealth.HealthChecker.HandleProbeFailure | src/ha/health.rs:356-368 | The pool and the probe metrics after a failed probe |
| HaHealth.HealthFollowsFailures | src/ha/health.rs:309-368 | In every run of whole operations health, failure count and circuit are a function of the failures since the last success |
| HaHealth.ProbeOkIgnoresDocumentedTarget | src/ha/health.rs:309-353 | A successful probe leaves Healthy; it meets the documented target if and only if that is Healthy, stated by current health, successes and latency |
| HaHealth.ProbeMeetsTargetIff | src/ha/health.rs:309-353 | After any run of whole operations a probe meets its documented target if and only if the failures since the last success have not tripped the breaker and the latency is within the limit |
| HaHealth.InterleavingsAreSafe | src/ha/pool.rs:276-341 | However probes and requests interleave, Unavailable implies an open circuit and at least threshold failures in a row |
| HaHealth.InterleavedCircuit | src/ha/pool.rs:276-341 | In every interleaving the circuit is open exactly from the failure that reaches the threshold until the next recorded success, and the CA is Unavailable just as long unless an announcement is the last write to it |
| HaHealth.OpenCircuitIffUnavailable | src/ha/pool.rs:276-341 | Open circuit and Unavailable coincide if and only if it is not so that an announcement is the last write to a CA with enough failures; where they differ a probe of that CA is between its two writes |
| HaHealth.OpenCircuitWhileRecovering | src/ha/health.rs:309-353 | For every threshold there is a run in which they differ: the circuit is open on a CA that is Recovering |
| CaRouting.CaBackendPool.RouteEnrollment | src/ca/pool.rs:98-154 | Each attempt goes to the strategy's pick from the connections available at that moment, with the counter advanced by the attempts before it; for each result why the loop ended, and the counter afterwards |
| CaRouting.SendsAreAccounted | src/ca/pool.rs:98-154 | Along failing sends, sends made plus failures left is constant, in total and per CA |
| CaRouting.FailingCallSends | src/ca/pool.rs:98-154 | A failing call makes exactly min(max_retries + 1, budget) sends, none to an unavailable CA and none more often than its remaining failures |
| CaRouting.RemainingAfterWholeOperations | src/ha/pool.rs:296-320 | After any run of whole operations the failures left to an available CA are the threshold minus its consecutive failures |
| SqlSplit.ReadDollarTag | src/db/schema.rs:796-814 | The tag at a position, if there is one |
| SqlSplit.DollarTagIff | src/db/schema.rs:796-814 | A tag is read if and only if the text starts with it: letters, digits or underscores between two dollars |
| SqlSplit.SplitSqlStatements | src/db/schema.rs:745-789 | The loop returns the non-blank pieces between top-level semicolons |
| SqlCuts.JoinThenSplit | src/db/schema.rs:745-789 | For every scanner whose tokens do not look past a cut: joining closed non-blank statements and splitting gives them back |
| SqlSplit.SplitInvertsJoin | src/db/schema.rs:745-789 | The ';'-join of closed non-blank statements splits into exactly that list |
| SqlCuts.PiecesInvertJoin | src/db/schema.rs:745-789 | Cutting inverts joining if and only if the list consists of statements, the last of which may leave a quote open |
| SqlSplit.SplitDropsOnlyBlanks | src/db/schema.rs:745-789 | For any text, pieces that join back to it, cut at every top-level semicolon and nowhere else; only blank ones are dropped |
| SqlSplit.PlainTextIsCutEverywhere | src/db/schema.rs:773-779 | Text without a dollar is cut at every semicolon |
| SqlSplit.QuotedBlockIsAtomic | src/db/schema.rs:755-771 | No cut falls inside a dollar-quoted block |
| Der.ReadDerLength | src/auth/gssapi.rs:590-607 | The loop reads the big-endian length in one to four octets |
| Der.LongForm | src/auth/gssapi.rs:590-607 | The octets after the first count 16777216, 65536, 256 and 1 by position |
| Der.LengthRoundTrip | src/auth/gssapi.rs:590-607 | A length that fits into one to four octets, written in them by dividing, is read back |
| Der.HeadIffEncoding | src/auth/gssapi.rs:590-607 | An element is read if and only if the bytes start with its encoding |
| Der.ReadElement | src/auth/gssapi.rs:530-541 | Tag, length and bounds check give the element at a position, inside the bytes |
| Spnego.ExtractSpnegoMechToken | src/auth/gssapi.rs:518-586 | The walking loop computes the mechToken for arbitrary bytes, every index in bounds |
| Spnego.MechTokenIffEncoded | src/auth/gssapi.rs:518-586 | A token is returned if and only if the bytes encode one, after fields of other tags |
| Spnego.NegTokenInitDecodes | src/auth/gssapi.rs:518-586 | For every encoded NegTokenInit exactly its mechToken, or nothing when it has none |
| Ocsp.ExtractBasicOcspTbsBytes | src/ocsp/mod.rs:790-822 | The straight-line walker computes the first element inside the outer SEQUENCE |
| Ocsp.TbsIffEncoded | src/ocsp/mod.rs:790-822 | For arbitrary bytes, the exact encodings for which it returns bytes, and which bytes |
| Ocsp.ResponseDataIsExtracted | src/ocsp/mod.rs:790-822 | For every encoded BasicOCSPResponse exactly the encoded response data |
| CmpRevocation.CmpState.Authorize | src/routes/cmp.rs:1164-1208 | The error of the first entry that is refused, if any |
| CmpRevocation.CmpState.Apply | src/routes/cmp.rs:1214-1270 | Rows named before the first failing entry are revoked and audited; one status per entry if none fails |
| CmpRevocation.CmpState.ProcessRevocationRequest | src/routes/cmp.rs:1092-1283 | Reply, table and audit events for every request and every fault |
| CmpRevocation.OnlyOwnerOrRaRevokes | src/routes/cmp.rs:1130-1208 | A row changes only for an RA or its owner, and only to revoked |
| CmpRevocation.RefusedIff | src/routes/cmp.rs:1092-1283 | For each error, exactly which requests it answers, told from the protection, the entries, the table and the faults |
| CmpRevocation.ForbiddenChangesNothing | src/routes/cmp.rs:1096-1203 | Forbidden answers exactly MAC-protected requests and those whose first refused entry names another subject's row, and changes nothing |
| CmpRevocation.AcceptedIffAllGranted | src/routes/cmp.rs:1214-1283 | Accepted if and only if every entry is granted; then one status and one audit event per entry in order, and exactly the named rows revoked |
| CmpRevocation.StoppedRequestIsPartial | src/routes/cmp.rs:1214-1270 | When the apply pass stops, exactly the rows named before the stop are revoked; nothing changed if and only if none of them was still valid |
| CmpRevocation.MalformedOwnerRequestIsAtomic | src/routes/cmp.rs:1163-1172 | A malformed entry in an owner's request is found before anything changes |
| CmpRevocation.MalformedRaRequestIsNot | src/routes/cmp.rs:1214-1225 | The same entry in an RA's request leaves earlier rows revoked |
| CmpRevocation.RunRevokesWhatIsAuthorized | src/routes/cmp.rs:1092-1283 | After any run of requests a row is revoked exactly if a request of an RA or its owner names it ahead of its stop, judged against the first table |
| CmpRevocation.RunsCommute | src/routes/cmp.rs:1092-1283 | The order of the requests does not change the final table |
| NameMatch.TrimIsStrip | src/auth/name_match.rs:52-53 | Trimming dots removes exactly the trailing empty labels |
| NameMatch.MatchesDomainIsLabelMatch | src/auth/name_match.rs:42-99 | The string matcher equals comparison of the labels as they stand, ASCII case aside, with one non-empty label for a leading wildcard |

## Left out

- Cryptography, key handling, HSM access and certificate building: foreign calls.
- Everything that goes through the ASN.1 libraries: CMP parsing and building, CMS, CRMF, CSR attributes; a CMP request is modelled by what parsing it yields.
- HTTP, TLS, DTLS and CoAP handlers, the router, start-up and background loops; the OTP cleanup appears as a step.
- Configuration structs and their validation: used as preconditions (a row limit above zero, a failure window above zero).
- SQL engines, migrations and connection pools: tables are sequences or maps with atomic statements.
- Packing of the JSON detail column: the audit model starts from the text that is hashed.
- A verification pass whose SELECT fails, and events that the callers of `record` drop after a failed write.
- Admission of credentials before the lockout gate (Basic header, base64, empty fields), and the constant-time comparison, which repeats the SELECT's condition.
- Whether the audit event of a revocation is stored: its result is ignored by the handler.
- The probe's timing metrics, log and trace output.
- STAR, admin and Dogtag code: easy members only, or not in the files modelled.
- HaPool.CaPool.RecordSuccess: the latency average is over reals, so rounding and NaN are not modelled.
- HaPool.CaPool.RecordFailure: the failure count is unbounded, where the source has 32 bits.
- Lockout.FailureTracker.RecordFailure: the failure count is unbounded, where the source has 32 bits.
- CaRouting.CaBackendPool.RouteEnrollment: the attempt counter is unbounded, where the source has 32 bits, and other requests do not interleave with the call.
- HaStrategy.StrategySelector.SelectLeast: comparison of latencies is over reals, without NaN.
- CmpRevocation.CmpState.ProcessRevocationRequest: the table does not change under the request from elsewhere.
- Otp.TryExtractOtp: expiry and clock are integers, where the source compares RFC 3339 strings.
