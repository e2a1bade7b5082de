# Verification of kor-travel-geo: sessions, limiters, recovery protocols, the C11 pipeline and its printers

This project models the stateful and algorithmic parts of kor-travel-geo (the admin UI's server code and the operations
scripts) in Dafny and proves what they promise. `dafny verify dfyconfig.toml` checks everything.

- **Sessions** (`Session`, `Base64Url`). Signed cookies and the map of revoked sessions that every request prunes. The pruned map
  is compared, over every run, with a store that never forgets.
- **Login limiters** (`LoginLimiter`, `AuditLimiter`). The fixed-window limiter in memory, with a sharp bound over all runs, and the
  limiter that replays audit rows, with its reference count.
- **Recovery** (`RenameMigration`, `MatchSetSlot` with `LiveRunbook`, `SejongRunbook` and `SlotRuns`, `Materialize`). A half-applied
  migration, the one active match set that two runbooks borrow and give back, and extraction guarded by marker files. Each is a system of steps that may stop at any step.
- **The C11 pipeline** (`Sql`, `Candidates`, `Coverage`, `GuardedPolicy`, `ShadowServing`, `RehearsalGate`). From the staging tables
  over the best candidates and the feature table to the shadow serving table and the gate that judges it, under three-valued logic.
- **Printers** (`ShellQuote`, `LabelText`, `JsonPath`). Each with the reader that undoes it.
- **Loops and arithmetic** (`Metrics`, `Percentile`, `Summaries`, `Multipart`, `LiveStreams`).

Where the source updates an object, the model is a class whose methods are proved against functions; the theorems are about the
functions. `Sequences`, `Text` and `Sorting` hold what several models share.

## What the proofs brought out

- The audit limiter's `retryAfterSeconds` is one second short: its window test is `<`, so a failure exactly 600 seconds old still
  counts. `AuditLimiter.RetryAfterIsOneSecondShort` says exactly when a client that waits is blocked again, `ABrokenPromise` gives
  five rows. Its `lastSuccessAt` starts at zero, which matters exactly in the first ten minutes of the epoch (`EpochStartMattersIff`).
- The login route waits for the password check between its two calls of the limiter. Nine failures in 600 seconds is the bound for one
  login at a time; with `c` at a time it is `2 * (4 + c) - 1`, and that is reached (`BoundForLoginsInFlight`, `BoundIsReached`).
- A run that is cut between the committed activation of its match set and the assignment that remembers it leaves the slot with the new
  set (`run_t213_live_pipeline.py` 863-869, `run_sejong_live_pipeline.py` 695-697). `LiveSlotIsGivenBack` and `SejongSlotIsGivenBack` are exact on the plan and
  the cut, `LiveSlotIsLost` and `SejongSlotIsLost` give the gap. The Sejong runbook's first cleanup deletes an active set that carries its own name.
- The pruned revocation map equals the full set because every id has one expiry. `VerdictsDifferIff` is the condition without that.
  Requests read the clock before they wait, so they may use the map in another order: `WrongVerdictIff` is what that can do, and
  `ARevokedSessionIsAccepted` is a run in which it does.
- The marker of an extracted archive is only as good as the archive's listing (`MarkerTellsTheTruthIff`): a new file behind a member
  with the marker's name defeats it (`MemberNamedLikeTheMarker`). The overwriting variant is exact only where nothing else is in the
  directory (`FillingOverIsExactIff`).
- `materialize_staging` trusts a validation cache that exists, marked or not. By itself it marks an incomplete staging directory after
  one interruption (`StagedFromAHalfFilledCache`); behind the validation, as the runbook calls it, it never does
  (`RunsOfValidationAndStaging`).
- The rehearsal's text-search table has the eleven columns that the public view had before migration 0020; the view has thirteen
  (`src/kortravelgeo/infra/sql.py` 1483-1502). The fuzzy road lookup names the two that are missing, so it fails on the shadow
  (`FuzzyLookupFailsOnTheShadow`); `ServedAlikeIff` says which queries do not. The gate compares row counts only, and the two WHERE
  clauses are the same, so its counts do not notice.
- A slot lost in the gap stays lost: no run of either runbook activates a set that is neither active nor its own
  (`ALostSlotStaysLost`).
- The live-stream selection promises not to flap between renders. It keeps this exactly when no two rows tie, and distinct ids
  can tie where `localeCompare` calls them equal (`OrderDoesNotMatterIffNoTies`).
- Of the three rules that replace a segment of a route the first, for identifiers, is redundant: the rule for long tokens covers
  it (`Metrics.IdentifiersAreLongTokens`).
- The policy's limits of 500 metres and the required C6/C7 checks are not only sufficient for the gate but exact (`GuardedIsExact`).

## Model

| member | source | states |
|---|---|---|
| `Session.SessionStore.CleanupRevokedSessions` | kor-travel-geo-ui/lib/auth.ts:663-669 | the loop over the shared map leaves exactly the entries whose expiry is still ahead |
| `Session.SessionStore.SessionIsRevoked` | kor-travel-geo-ui/lib/auth.ts:658-661 | the answer is membership among the unexpired entries; the map is pruned |
| `Session.SessionStore.RevokeSessionCookieValue` | kor-travel-geo-ui/lib/auth.ts:169-186 | revokes exactly the cookies that decode and have not expired, and gives the whole new map; everything else leaves the map alone |
| `Session.SessionStore.VerifySessionCookieValue` | kor-travel-geo-ui/lib/auth.ts:139-159 | the verdict of every check in the order of the code, with the new map: pruned only when the checks before the revocation test pass |
| `Session.IssuedCookieDecodes` | kor-travel-geo-ui/lib/auth.ts:344-373 | an issued cookie decodes to the payload it was made from exactly when it has at most 2048 characters |
| `Session.SignedTextDecodes` | kor-travel-geo-ui/lib/auth.ts:344-373 | text, dot and signature split into exactly two parts and pass the signature test; what remains is the decoding and the shape test |
| `Session.DecodedIffSigned` | kor-travel-geo-ui/lib/auth.ts:344-420 | a value decodes to a payload exactly when it has at most 2048 characters and is a text of the URL alphabet, a dot and that text's signature, the text holds the payload, and the payload is for this audience and version with an id and a fingerprint of the URL alphabet |
| `Session.NothingUnsignedCounts` | kor-travel-geo-ui/lib/auth.ts:361-364 | a value that is not some text with its signature behind a dot is neither accepted nor revoked |
| `Session.AcceptedIff` | kor-travel-geo-ui/lib/auth.ts:139-159 | acceptance on the fields of a payload that decodes: administrator, issue and expiry times, lifetime, user agent and revocation |
| `Session.RevokedIff` | kor-travel-geo-ui/lib/auth.ts:169-186 | a revocation succeeds exactly for a payload that decodes and has not expired, and enters its id with its expiry |
| `Session.NewPayloadHasShape` | kor-travel-geo-ui/lib/auth.ts:406-420 | every payload the code issues passes its own shape test |
| `Session.AcceptedForItsLifetime` | kor-travel-geo-ui/lib/auth.ts:115-159 | an issued cookie is accepted for the same settings and user agent exactly from 60 seconds before `iat` to `exp - 1`, unless too long or revoked under an expiry still ahead |
| `Session.MapTracksUnexpired` | kor-travel-geo-ui/lib/auth.ts:169-186 | over every run the pruned map holds, at any later second, exactly the recorded ids whose recorded expiry is ahead |
| `Session.VerdictsDifferIff` | kor-travel-geo-ui/lib/auth.ts:375-404 | for any run in the order of the clock, forged cookies included: pruned map and full set disagree exactly when an id was last revoked under an expiry already past and the cookie passes everything else |
| `Session.OneExpiryPerId` | kor-travel-geo-ui/lib/auth.ts:115-137 | with fresh ids and unforgeable signatures every id has one payload, and every recorded expiry is that of an issued payload |
| `Session.PruningNeverChangesAVerdict` | kor-travel-geo-ui/lib/auth.ts:139-186 | in every honest run each verification answers what the set of all revocations ever made answers |
| `Session.MapIsWhatWasKept` | kor-travel-geo-ui/lib/auth.ts:169-186 | over every run, in whatever order requests read the clock, the map holds exactly the recorded ids that were not pruned away since |
| `Session.VerdictsDifferInAnyOrderIff` | kor-travel-geo-ui/lib/auth.ts:375-404 | over every run, in whatever order requests read the clock: pruned map and full set disagree exactly when the cookie passes everything else and its id was revoked under an expiry past, or pruned away |
| `Session.WrongVerdictIff` | kor-travel-geo-ui/lib/auth.ts:139-186 | without the order of the clock a verdict is wrong exactly when a revoked cookie, in force by the request's own clock, was pruned away by a request that had read a later one |
| `Session.LaterClockPrunesAway` | kor-travel-geo-ui/lib/auth.ts:663-669 | a revocation followed by a request that has read a clock at or past its expiry: the id is pruned away |
| `Session.ARevokedSessionIsAccepted` | kor-travel-geo-ui/lib/auth.ts:139-186 | a run of five requests, nothing forged and no id repeated, in which a revoked session is accepted because a request that read a later clock used the map first |
| `Session.EverRevokedIff` | kor-travel-geo-ui/lib/auth.ts:169-186 | the never-pruned set holds an id exactly when some earlier event of the run revoked it |
| `Session.RevokedIsNeverAcceptedAgain` | kor-travel-geo-ui/lib/auth.ts:658-669 | once revoked, never accepted again, at any later point of any honest run |
| `Session.AcceptedUnlessRevoked` | kor-travel-geo-ui/lib/auth.ts:139-186 | in an honest run an issued cookie is accepted exactly while in force, short enough and not revoked by an earlier event |
| `Base64Url.EncodeIsRfc` | kor-travel-geo-ui/lib/auth.ts:468-474 | `btoa` with three replacements is the unpadded URL form of section 5 of RFC 4648 |
| `Base64Url.DecodeIsRfc` | kor-travel-geo-ui/lib/auth.ts:476-492 | decoding fails exactly on the empty text, foreign characters and lengths 1 mod 4; otherwise it is the direct decoder |
| `Base64Url.RoundTrip` | kor-travel-geo-ui/lib/auth.ts:468-492 | decoding an encoding gives the bytes back exactly when there are any; encoded lengths are never 1 mod 4 |
| `Base64Url.SextetCount` | kor-travel-geo-ui/lib/auth.ts:468-474 | the encoded length, and its remainder mod 4, for every number of bytes |
| `Base64Url.EncodeInjective` | kor-travel-geo-ui/lib/auth.ts:468-474 | different bytes never encode to the same text |
| `Base64Url.DecodedTextIsEncodingIffCanonical` | kor-travel-geo-ui/lib/auth.ts:476-488 | decoding is not injective: a text is the encoding of what it decodes to exactly when its spare bits are zero |
| `Base64Url.SextetsOfBytes` | kor-travel-geo-ui/lib/auth.ts:476-488 | regrouping bytes into sextets undoes regrouping sextets into bytes exactly on canonical input |
| `Base64Url.ConstantTimeEqualBytes` | kor-travel-geo-ui/lib/auth.ts:498-507 | the comparison without early exit decides equality exactly |
| `LoginLimiter.LoginFailures.CleanupLoginFailures` | kor-travel-geo-ui/lib/auth.ts:650-656 | exactly the buckets whose window has ended are removed |
| `LoginLimiter.LoginFailures.CheckLoginRateLimit` | kor-travel-geo-ui/lib/auth.ts:236-247 | blocked exactly with five failures in a live bucket, for as long as the bucket lasts; other keys keep their live buckets |
| `LoginLimiter.LoginFailures.RecordLoginFailure` | kor-travel-geo-ui/lib/auth.ts:296-309 | a live bucket counts one more and keeps its end; otherwise a window of 600 seconds opens |
| `LoginLimiter.LoginFailures.ClearLoginFailures` | kor-travel-geo-ui/lib/auth.ts:311-313 | exactly the one key is forgotten |
| `LoginLimiter.LoginFailures.BeginLogin` | kor-travel-geo-ui/app/api/auth/login/route.ts:41-59 | the first half of a login: a refusal of the durable limiter comes first, the local one is asked in any case |
| `LoginLimiter.LoginFailures.EndLogin` | kor-travel-geo-ui/app/api/auth/login/route.ts:60-83 | the second half, after the password was verified: a wrong password opens a window or counts up the live one, misconfiguration leaves the map alone, a right one deletes the key |
| `LoginLimiter.LoginFailures.FailedAttempt` | kor-travel-geo-ui/app/api/auth/login/route.ts:41-80 | both halves with a wrong password and an allowing durable limiter: refused attempts are not recorded, allowed ones are |
| `LoginLimiter.NextIsLocal` | kor-travel-geo-ui/lib/auth.ts:236-313 | an event changes the live bucket of its own key and of no other, whatever it prunes |
| `LoginLimiter.KeysDoNotInterfere` | kor-travel-geo-ui/lib/auth.ts:650-656 | in every run a key's live bucket is the one it would have had alone |
| `LoginLimiter.RetryAfterIsExact` | kor-travel-geo-ui/lib/auth.ts:236-247 | a blocked key stays blocked up to the promised second and not from it on |
| `LoginLimiter.RoomIsAlwaysLeft` | kor-travel-geo-ui/lib/auth.ts:236-309 | over every run a bucket that blocks still has room for the logins under way: its count and theirs are at most four plus the most that were under way |
| `LoginLimiter.FailuresFormWindows` | kor-travel-geo-ui/lib/auth.ts:296-309 | with at most `c` logins of a key under way, the recorded failures of every run form windows of at most `4 + c` |
| `LoginLimiter.TwoWindowfulsSpanAWindow` | kor-travel-geo-ui/lib/auth.ts:236-309 | with at most `limit` failures to a window, any `2 * limit` recorded failures in a row span at least 600 seconds |
| `LoginLimiter.BoundForLoginsInFlight` | kor-travel-geo-ui/app/api/auth/login/route.ts:41-80 | the route waits between check and record: with at most `c` logins of a key under way and nothing cleared, any half-open 600 seconds hold at most `2 * (4 + c) - 1` recorded failures, whatever other keys do |
| `LoginLimiter.AtMostNineInAnyWindow` | kor-travel-geo-ui/lib/auth.ts:236-309 | with attempts whose check and record are one step, that is nine |
| `LoginLimiter.AtMostPerBucket` | kor-travel-geo-ui/lib/auth.ts:296-309 | the failure after `4 + c` belongs to a window that starts no earlier than the first one's end |
| `LoginLimiter.AtMostFivePerBucket` | kor-travel-geo-ui/lib/auth.ts:296-309 | with attempts of one step, the sixth does |
| `LoginLimiter.BoundIsReached` | kor-travel-geo-ui/app/api/auth/login/route.ts:41-80 | for every `c` a run reaches the bound: `c` logins are all let in before the first of them records, so nine is no bound from two logins under way on |
| `AuditLimiter.CheckDurableLoginRateLimit` | kor-travel-geo-ui/lib/auth.ts:249-294 | the replay loop computes the verdict function for every list of rows |
| `AuditLimiter.BlockedIffFiveCount` | kor-travel-geo-ui/lib/auth.ts:249-294 | blocked exactly when at least five failures of the window are later than every success of the window (and than the epoch) |
| `AuditLimiter.BlockedIffOnTheFields` | kor-travel-geo-ui/lib/auth.ts:249-294 | the same on the fields of the rows: whose they are, their outcome and reason, their age, and that they are later than every login of the same client that succeeded |
| `AuditLimiter.OnlyOwnRowsCount` | kor-travel-geo-ui/lib/auth.ts:631-633 | the verdict of a client with a hash is that of the rows with its hash alone |
| `AuditLimiter.OnlyNamelessRowsCount` | kor-travel-geo-ui/lib/auth.ts:631-633 | the verdict of a client without a hash is that of the rows whose hash is absent or empty |
| `AuditLimiter.EpochStartIsHarmless` | kor-travel-geo-ui/lib/auth.ts:258-276 | the zero start of `lastSuccessAt` changes nothing once `now` is past 600 |
| `AuditLimiter.EpochStartMattersIff` | kor-travel-geo-ui/lib/auth.ts:258-276 | the code and the reference count disagree on some rows exactly when `now` is at most 600; five failures at second zero are such rows |
| `AuditLimiter.OrderDoesNotMatter` | kor-travel-geo-ui/lib/auth.ts:249-294 | the whole verdict is the same for every permutation of the rows |
| `AuditLimiter.CountedLater` | kor-travel-geo-ui/lib/auth.ts:249-294 | with fixed rows, what counts later is what counts now and is still in the window: no masked failure comes back |
| `AuditLimiter.OnceAllowedStaysAllowed` | kor-travel-geo-ui/lib/auth.ts:249-294 | with fixed rows an allowed client stays allowed |
| `AuditLimiter.BlockedUntilOldestLeaves` | kor-travel-geo-ui/lib/auth.ts:284-294 | every instant before `now + retryAfterSeconds` is blocked; with five counted, blocked exactly up to oldest + 600 |
| `AuditLimiter.RetryAfterIsOneSecondShort` | kor-travel-geo-ui/lib/auth.ts:284-294 | at exactly `now + retryAfterSeconds` the client is blocked exactly when five of the counted failures are later than the window's very start |
| `AuditLimiter.ABrokenPromise` | kor-travel-geo-ui/lib/auth.ts:284-294 | five failures at one second: 600 seconds are promised, and after 600 seconds the client is blocked |
| `ShellQuote.ReadQuote` | scripts/capture_deployment_envelope.py:440-443 | one quoted argument is read back as one word, whatever it holds and whatever follows |
| `ShellQuote.QuotesWhatNeedsIt` | scripts/capture_deployment_envelope.py:440-443 | a word stays as it is exactly when it is not empty and holds only alphanumerical characters and `-_./=:` |
| `ShellQuote.TokensOfShellJoin` | scripts/capture_deployment_envelope.py:440-447 | tokenising the rendering of any command gives exactly its words back |
| `ShellQuote.ShellJoinInjective` | scripts/capture_deployment_envelope.py:446-447 | different commands never render alike |
| `RenameMigration.Database.RenameColumn` | alembic/versions/0018_t200_ops_id_rename.py:62-83 | the guarded block renames only when the old name exists and the new one does not |
| `RenameMigration.Database.Upgrade` | alembic/versions/0018_t200_ops_id_rename.py:86-89 | the loop over the list reaches the schema of the step function |
| `RenameMigration.Database.Downgrade` | alembic/versions/0018_t200_ops_id_rename.py:92-95 | the reversed loop with swapped names reaches the schema of the undo function |
| `RenameMigration.ConcreteListHasNoChaining` | alembic/versions/0018_t200_ops_id_rename.py:42-59 | no rename of the list touches a name of another one in the same table |
| `RenameMigration.StepsCommute` | alembic/versions/0018_t200_ops_id_rename.py:62-83 | independent renames commute on every schema |
| `RenameMigration.UpgradeAbsorbsStep` | alembic/versions/0018_t200_ops_id_rename.py:86-89 | a rename of the list applied beforehand makes no difference to where the upgrade ends |
| `RenameMigration.UpgradeRecovers` | alembic/versions/0018_t200_ops_id_rename.py:86-89 | from any renames applied in any order and number, the upgrade reaches the schema of one full run |
| `RenameMigration.UpgradeAfterInterruption` | alembic/versions/0018_t200_ops_id_rename.py:42-89 | for the concrete list: after any interruption, and after a complete upgrade, a further upgrade ends where one full run ends |
| `RenameMigration.UpgradeConserves` | alembic/versions/0018_t200_ops_id_rename.py:86-89 | every table keeps its columns in place with their contents, and names stay distinct |
| `RenameMigration.UpgradedNames` | alembic/versions/0018_t200_ops_id_rename.py:62-89 | which of the two names the final schema has, read off the first schema |
| `RenameMigration.UpgradedColumn` | alembic/versions/0018_t200_ops_id_rename.py:62-89 | column by column: it takes the new name exactly when some rename has its name as the old one and the table had no column of the new name; otherwise it keeps its name |
| `RenameMigration.UndoStep` | alembic/versions/0018_t200_ops_id_rename.py:62-83 | a step and its undo restore the schema exactly when the table did not have the new name only |
| `RenameMigration.DowngradeRestoresIff` | alembic/versions/0018_t200_ops_id_rename.py:86-95 | `downgrade` after `upgrade` restores the schema exactly when no table had a new name without its old one |
| `MatchSetSlot.Registry.Transact` | alembic/versions/0016_t200_source_registry.py:433-437 | a transaction commits all its statements or, when one breaks the unique index on the active state, none |
| `MatchSetSlot.TransactionsKeepTheIndex` | alembic/versions/0016_t200_source_registry.py:433-437 | no committed transaction leaves two active sets |
| `MatchSetSlot.CommitsIff` | alembic/versions/0016_t200_source_registry.py:433-437 | a transaction commits exactly when after none of its statements two different sets are active, and then all of its statements were carried out |
| `MatchSetSlot.Registry.CurrentActive` | scripts/run_sejong_live_pipeline.py:174-190 | finds an active set that is not of the excluded name, or there is none |
| `MatchSetSlot.ActivationCommits` | src/kortravelgeo/core/source_match_set.py:286-338 | an accepted activation always commits: the current set is retired, the target active, nothing else touched |
| `MatchSetSlot.ActivatingFirstWouldFail` | src/kortravelgeo/core/source_match_set.py:286-338 | in the other order the index refuses every swap |
| `MatchSetSlot.Registry.ActivateMatchSet` | src/kortravelgeo/infra/source_match_set_service.py:558-664 | activates exactly when the set exists, is validated and has the hash that was recomputed; then the current set is retired and the target active in one transaction, and otherwise nothing changes |
| `MatchSetSlot.ActionRaisesIff` | src/kortravelgeo/core/source_match_set.py:286-338 | when an action of a run raises, on the fields: an id that is taken, a validation that fails or is of no draft, an activation of a set that is not validated or whose hash has changed |
| `MatchSetSlot.Runner.Perform` | scripts/run_t213_live_pipeline.py:827-970 | one action of a run: it raises without effect or has its effect, and at most one set is active after it |
| `MatchSetSlot.Runner.RunToExit` | scripts/run_t213_live_pipeline.py:827-970 | a run cut short anywhere followed by its `finally` block, as a function of the registry before it |
| `LiveRunbook.RestoreRestores` | scripts/run_t213_live_pipeline.py:346-383 | the restore gives the slot back from the borrowed state and, run again, changes nothing |
| `LiveRunbook.LiveRuns` | scripts/run_t213_live_pipeline.py:827-970 | how far every run gets and where it stands: as far as it is let, or to the validation that fails, or to the activation of a set whose hash has changed |
| `LiveRunbook.LiveExitIs` | scripts/run_t213_live_pipeline.py:827-970 | the exact registry at exit for every plan and every point at which the run is cut short |
| `LiveRunbook.LiveSlotIsGivenBack` | scripts/run_t213_live_pipeline.py:855-970 | the prior set is active at exit exactly when the new set could not be activated, the run was cut before that, or it was cut after remembering the activation and not asked to keep the slot |
| `LiveRunbook.LiveSlotIsLost` | scripts/run_t213_live_pipeline.py:863-869 | cut between the committed activation and its remembering, the new set keeps the slot and the prior one is retired |
| `LiveRunbook.LiveNeverTwoActive` | scripts/run_t213_live_pipeline.py:827-970 | at no point of any run, and not at exit, are two sets active |
| `SejongRunbook.CleanupRestores` | scripts/run_sejong_live_pipeline.py:225-335 | deleting the own set and re-activating the prior one restores the registry, from the borrowed state and when repeated |
| `SejongRunbook.SejongRuns` | scripts/run_sejong_live_pipeline.py:651-763 | how far every run gets and where it stands |
| `SejongRunbook.SejongExitIs` | scripts/run_sejong_live_pipeline.py:651-763 | the exact registry at exit for every plan and every point at which the run is cut short |
| `SejongRunbook.SejongSlotIsGivenBack` | scripts/run_sejong_live_pipeline.py:651-763 | the same; once its first cleanup was done, never if the prior set carries the runbook's own name |
| `SejongRunbook.SejongSlotIsLost` | scripts/run_sejong_live_pipeline.py:695-697 | cut between activation and remembering, the slot is lost here too |
| `SejongRunbook.SejongNeverTwoActive` | scripts/run_sejong_live_pipeline.py:651-763 | at no point of any run, and not at exit, are two sets active |
| `SlotRuns.TheSlotComesBackEveryTime` | scripts/run_t213_live_pipeline.py:827-970 | over any sequence of runs of both runbooks, each cut short anywhere outside the gap, the slot stays with its owner, whose record is unchanged |
| `SlotRuns.RunsNeverActivateAnother` | scripts/run_t213_live_pipeline.py:346-383 | over any sequence of runs of both runbooks, whatever they are asked for and wherever they are cut, a set that is not active and not their own does not become active |
| `SlotRuns.ALostSlotStaysLost` | scripts/run_t213_live_pipeline.py:855-970 | a slot lost in the gap never comes back to its owner by further runs |
| `Materialize.Disk.Materialize` | scripts/run_t213_live_pipeline.py:490-501 | delete-and-redo, stopped after any file-system step: a marker still means a complete directory, a finished call leaves one, and a marked directory is left alone |
| `Materialize.Disk.MaterializeNavi` | scripts/run_phase1_augment_reports.py:574-601 | the overwriting variant: the same, given that nothing but members and the marker was in the directory |
| `Materialize.Disk.MaterializeAll` | scripts/run_phase1_augment_reports.py:525-547 | a completed loop leaves every present archive marked and whole; an interrupted one leaves every marker true |
| `Materialize.Disk.RunsWithCrashes` | scripts/run_phase1_augment_reports.py:525-547 | over any number of runs, each stopped after its own number of steps with its own torn write, every marker stays true |
| `Materialize.Disk.NaviRunsWithCrashes` | scripts/run_phase1_augment_reports.py:550-601 | the same for the overwriting variant, from any directory with a true marker or a half-filled one, as long as nothing else is in it |
| `Materialize.FillingOverIsExactIff` | scripts/run_phase1_augment_reports.py:574-601 | overwriting gives exactly the members iff nothing else was in the directory |
| `Materialize.MemberNamedLikeTheMarker` | scripts/run_phase1_augment_reports.py:525-547 | an archive with a new file behind a member of the marker's name: complete, its directory is whole; stopped right behind that member, it is marked and is not |
| `Materialize.MarkerSealsIt` | scripts/run_phase1_augment_reports.py:525-547 | a marker, however much of its text arrived, on a complete directory is true |
| `Materialize.MarkerTellsTheTruthIff` | scripts/run_phase1_augment_reports.py:525-547 | every interruption of an extraction keeps the marker's promise exactly when the listing is safe: behind a member of the marker's name come only such members and empty ones that repeat an empty member before it |
| `Materialize.SafeStops` | scripts/run_phase1_augment_reports.py:525-601 | with a safe listing every interruption, over any directory without foreign files, keeps the promise |
| `Materialize.UnsafeStop` | scripts/run_phase1_augment_reports.py:525-547 | with an unsafe one some interruption breaks it |
| `Materialize.Disk.ExtractAll` | scripts/run_phase1_augment_reports.py:525-547 | what an extraction leaves, for every number of file-system steps it is given and every torn write |
| `Materialize.TextsAre` | scripts/run_t213_live_pipeline.py:602-626 | what is staged are the files whose names end in `.txt` and that are in no subdirectory, with their contents |
| `Materialize.Disk.StageFromCache` | scripts/run_t213_live_pipeline.py:602-626 | the navi staging takes whatever is at the cache's place: a staging directory it marks is complete exactly when there was no cache or the cache held the archive's text files |
| `Materialize.Disk.StagedFromAHalfFilledCache` | scripts/run_t213_live_pipeline.py:602-626 | staging by itself, cut off once, then marks a staging directory without the archive's files |
| `Materialize.Disk.ValidateAndStage` | scripts/run_t213_live_pipeline.py:490-501 | validation before staging, stopped anywhere: every marked staging directory stays complete and equal to the complete cache |
| `Materialize.Disk.RunsOfValidationAndStaging` | scripts/run_t213_live_pipeline.py:590-626 | over any number of such runs, each cut off anywhere, a staging marker means complete, whether the files are links or copies |
| `Sql.EveryGroupHasAFirst` | scripts/run_t125_c11_serving_preflight.py:146-190 | every group has a row numbered 1 |
| `Sql.NoGroupHasTwoFirsts` | scripts/run_t125_c11_serving_preflight.py:146-190 | no group has two rows numbered 1, whatever ties there are |
| `Sql.FirstIsLeast` | scripts/run_t125_c11_serving_preflight.py:146-190 | the row numbered 1 sorts no later than any row of its group |
| `Sql.OneMatch` | scripts/run_t131_c11_guarded_policy_simulation.py:221-320 | a join on a unique key finds at most one partner, and it is one of the rows that match |
| `Sql.ThreeValues` | scripts/run_t132_c11_guarded_policy_validation.py:311-323 | a conjunction is TRUE when both sides are and FALSE when one is; a negation turns the two round |
| `Candidates.RawRowsAreJoined` | scripts/run_t125_c11_serving_preflight.py:121-145 | the raw table holds exactly the joined pairs with an address number and a geometry |
| `Candidates.RawRowsAre` | scripts/run_t125_c11_serving_preflight.py:121-145 | the pairs on the fields: district, building and equipment number agree and are there, the address number is there and not empty, the geometry is there |
| `Candidates.EveryBuildingHasABestRow` | scripts/run_t125_c11_serving_preflight.py:158-190 | every building of the raw table has a best row |
| `Candidates.NoBuildingHasTwoBestRows` | scripts/run_t125_c11_serving_preflight.py:158-190 | and only one |
| `Candidates.BestRowIsPreferred` | scripts/run_t125_c11_serving_preflight.py:158-190 | it is a raw row that the ordering puts before all others of its building, with their true number |
| `Candidates.BestRowIsChosenBy` | scripts/run_t125_c11_serving_preflight.py:158-166 | which row that is, on the fields: a representative entrance before any other; among those of one kind the least entrance number, none without a number unless all lack one; then the least district, building and equipment number |
| `Candidates.AtMostOneEntrance` | scripts/run_t131_c11_guarded_policy_simulation.py:183-207 | the serving entrance has at most one row per building |
| `Candidates.EveryBuildingHasAnEntrance` | scripts/run_t131_c11_guarded_policy_simulation.py:183-207 | every building with an entrance in the union has a serving entrance |
| `Candidates.ServingEntranceIsChosenBy` | scripts/run_t131_c11_guarded_policy_simulation.py:183-207 | which one it is, on the fields: source before representative entrance before number, none without a number unless all lack one |
| `Candidates.UnionRows` | scripts/run_t131_c11_guarded_policy_simulation.py:183-207 | the union holds exactly the rows of the location summary and the road-address entrances of a month that the texts have, each with its priorities |
| `Candidates.JoinsDoNotMultiply` | scripts/run_t131_c11_guarded_policy_simulation.py:221-320 | a best candidate gets one base row if its building has a text row and a serving row, and none otherwise |
| `Candidates.BaseRowExistsIff` | scripts/run_t131_c11_guarded_policy_simulation.py:221-320 | no such candidate is lost in the whole table |
| `Candidates.BaseIsOnePerBuilding` | scripts/run_t131_c11_guarded_policy_simulation.py:221-320 | no building has two base rows, hence none has two feature rows |
| `Coverage.BestRowsAreDistinctBds` | scripts/run_t125_c11_serving_preflight.py:463-497 | the number of best rows is the number of distinct raw buildings |
| `Coverage.ServingRowsAreAccountedFor` | scripts/run_t125_c11_serving_preflight.py:463-497 | matched and current-only rows add up to the serving rows |
| `Coverage.CandidatesAreAccountedFor` | scripts/run_t125_c11_serving_preflight.py:463-497 | matched and candidate-only rows add up to the best rows |
| `Coverage.MatchedAre` | scripts/run_t125_c11_serving_preflight.py:463-497 | matched rows are the serving rows whose building number is that of a candidate, and current-only rows all others |
| `Coverage.CoverageBalances` | scripts/run_t125_c11_serving_preflight.py:463-497 | all counts of the report balance from any staging tables, and no raw row lacks a building number |
| `GuardedPolicy.PolicyPredicate` | scripts/run_t132_c11_guarded_policy_validation.py:311-323 | the clauses built for a configuration, joined by AND, are TRUE of exactly the rows that meet everything it asks for; a NULL is not enough |
| `GuardedPolicy.PredicateSelects` | scripts/run_t132_c11_guarded_policy_validation.py:311-323 | the predicate is TRUE exactly when every requested condition holds; a NULL in any of them drops the row |
| `GuardedPolicy.FeatureColumns` | scripts/run_t131_c11_guarded_policy_simulation.py:250-267 | what the columns of a feature row mean when something is unknown: a candidate point is then not covered, a baseline point is, and no distance is over the limit |
| `GuardedPolicy.CountsAre` | scripts/run_t131_c11_guarded_policy_simulation.py:367-396 | each count is the number of rows that meet every requested condition and what the count is about, said without three-valued logic |
| `GuardedPolicy.EvaluatePolicyResult` | scripts/run_t132_c11_guarded_policy_validation.py:455-475 | `repeatable_candidate` exactly when rows were selected and the four error counts are zero; one block per failing condition; promotion never allowed |
| `GuardedPolicy.GuardedPolicyHasNoErrors` | scripts/run_t131_c11_guarded_policy_simulation.py:367-396 | with limits of at most 500 and C6/C7 required, all four error counts are zero over every feature table |
| `GuardedPolicy.GuardedGate` | scripts/run_t132_c11_guarded_policy_validation.py:455-475 | the gate then passes exactly when some row is selected |
| `GuardedPolicy.GuardedIsExact` | scripts/run_t132_c11_guarded_policy_validation.py:260-323 | among the limits that can be configured those are exactly what is needed: outside them some feature table, with no negative distance, has a positive error count |
| `GuardedPolicy.MoreClausesNeverCountMore` | scripts/run_t131_c11_guarded_policy_simulation.py:367-396 | a further conjunct never raises any count |
| `ShadowServing.ShadowTargetSelectExpressions` | scripts/run_t133_c11_shadow_serving_rehearsal.py:454-478 | one expression per column in order, or an error exactly when a needed column is missing |
| `ShadowServing.OneShadowRow` | scripts/run_t133_c11_shadow_serving_rehearsal.py:430-451 | each public row joins to exactly one shadow row |
| `ShadowServing.ShadowIsBijective` | scripts/run_t133_c11_shadow_serving_rehearsal.py:430-451 | the shadow table is the public one row for row, with the two points of the policy's buildings replaced |
| `ShadowServing.ShadowKeepsTheRest` | scripts/run_t133_c11_shadow_serving_rehearsal.py:430-478 | no point is lost in either column; no other column changes; a row changes only for a building of the policy |
| `ShadowServing.ShadowSearchLacksColumns` | scripts/run_t133_c11_shadow_serving_rehearsal.py:481-501 | the text-search table of the shadow is the fresh public view without `buld_slno` and `buld_se_cd`, row for row and in the same order |
| `ShadowServing.DistrictCodes` | scripts/run_t133_c11_shadow_serving_rehearsal.py:488-489 | the district codes are the first two and five characters of the area code, all of a shorter one, and NULL of NULL |
| `ShadowServing.PlainCells` | scripts/run_t133_c11_shadow_serving_rehearsal.py:486-497 | every other column of the text-search table holds what the serving row has under its name |
| `ShadowServing.SameSearchRowsIff` | src/kortravelgeo/infra/sql.py:1483-1502 | the rows of the two are the same exactly when no public row is searchable |
| `ShadowServing.ServedAlikeIff` | src/kortravelgeo/infra/sql.py:1483-1502 | every query works on the public view; the shadow serves it exactly when every column it names is among the eleven, and then with the same answer |
| `ShadowServing.FuzzyLookupFailsOnTheShadow` | src/kortravelgeo/infra/geocode_repo.py:118-137 | the fuzzy road lookup names both missing columns and fails on the shadow; the free-text search names neither and answers alike |
| `ShadowServing.PointsSurvive` | scripts/run_t133_c11_shadow_serving_rehearsal.py:430-478 | in either point column no fewer rows have a point |
| `ShadowServing.FeaturesArePerBuilding` | scripts/run_t131_c11_guarded_policy_simulation.py:221-320 | at most one feature row per building, each with a best candidate and with the columns the gate relies on |
| `ShadowServing.ShadowOfThePipeline` | scripts/run_t133_c11_shadow_serving_rehearsal.py:430-501 | from the staging tables alone, for every configuration, given one text row and one serving row per building: the public table with exactly the selected buildings' points replaced, the fresh public view without two columns, and no point lost |
| `RehearsalGate.ChangedKeys` | scripts/run_t133_c11_shadow_serving_rehearsal.py:918-933 | one block per key whose value changed, each key named |
| `RehearsalGate.StayedIff` | scripts/run_t133_c11_shadow_serving_rehearsal.py:918-933 | the keys that are compared are the four of the public identity and the four of the release |
| `RehearsalGate.SectionBlocks` | scripts/run_t133_c11_shadow_serving_rehearsal.py:882-915 | a benchmark section gives no block exactly when it passed without blocks; otherwise its status, or that it is missing, and every block of its own is named |
| `RehearsalGate.FlagOffIdentityBlocks` | scripts/run_t133_c11_shadow_serving_rehearsal.py:918-933 | no block exactly when the three counts and the sample of the public side, and the id, snapshot, view hash and state of the active release, are unchanged; every one that changed is named |
| `RehearsalGate.EvaluateGate` | scripts/run_t133_c11_shadow_serving_rehearsal.py:882-915 | the gate passes exactly when policy, identities, row counts, both benchmarks and the rollback all pass; promotion is never allowed |
| `RehearsalGate.IdentityValues` | scripts/run_t133_c11_shadow_serving_rehearsal.py:604-641 | the identity that is collected holds the numbers of serving rows, of rows with a point in `pt_5179`, and of text-search rows |
| `RehearsalGate.PipelineBlocksIff` | scripts/run_t133_c11_shadow_serving_rehearsal.py:604-641 | for a summary collected from the pipeline under guarded limits, with the public view as it stands: the error counts never block, the row counts exactly when the view is out of step with the public table |
| `RehearsalGate.PipelineNeverBlocks` | scripts/run_t133_c11_shadow_serving_rehearsal.py:882-915 | behind a fresh view neither ever blocks |
| `RehearsalGate.FreshViewIsInStep` | src/kortravelgeo/infra/sql.py:1483-1502 | a fresh view has as many rows as the public table has searchable ones |
| `RehearsalGate.GateOfThePipeline` | scripts/run_t133_c11_shadow_serving_rehearsal.py:882-915 | the gate of such a rehearsal passes exactly when some building is selected, the public view is in step, the public side stayed as it was, both benchmarks passed and the shadow was dropped |
| `LabelText.ThreeReplacementsAreOneEscape` | kor-travel-geo-ui/lib/metrics.ts:309-311 | the three replacements in their order are one character-by-character escape |
| `LabelText.UnescapeEscape` | kor-travel-geo-ui/lib/metrics.ts:309-311 | the reader of the exposition format stops at the closing quote with the value |
| `LabelText.ReadRenderPairs` | kor-travel-geo-ui/lib/metrics.ts:301-307 | rendered labels read back to their values, whatever follows |
| `LabelText.RenderLabelsInjective` | kor-travel-geo-ui/lib/metrics.ts:301-311 | over the same names, different values never render alike |
| `LabelText.BracedUnlessEmpty` | kor-travel-geo-ui/lib/metrics.ts:301-307 | braces stand around the labels, and nothing is rendered without labels |
| `Metrics.CounterMetric.Inc` | kor-travel-geo-ui/lib/metrics.ts:63-98 | one series grows by the amount, created at zero if new; no other changes |
| `Metrics.HistogramMetric.Observe` | kor-travel-geo-ui/lib/metrics.ts:100-156 | one series gets the observation in every bucket whose bound admits it; no other changes |
| `Metrics.BucketsCountObservations` | kor-travel-geo-ui/lib/metrics.ts:110-119 | after any run each bucket counts the observations of its series up to its bound, `count` counts all, and series exist exactly when observed |
| `Metrics.BucketsAreCumulative` | kor-travel-geo-ui/lib/metrics.ts:110-119 | along ascending bounds buckets never fall, and none exceeds `count` |
| `Metrics.SumsAddUp` | kor-travel-geo-ui/lib/metrics.ts:110-119 | the sum of a series is the sum of its observations |
| `Metrics.LabelsAreNormalized` | kor-travel-geo-ui/lib/metrics.ts:293-295 | a label that is given is kept, one that is missing is `unknown`, others are dropped |
| `Metrics.RecordUiRequest` | kor-travel-geo-ui/lib/metrics.ts:191-204 | both metrics move by the same normalised labels |
| `Metrics.RecordUiRequests` | kor-travel-geo-ui/lib/metrics.ts:191-204 | after any sequence of calls both metrics are the recorded run |
| `Metrics.CounterAgreesWithHistogram` | kor-travel-geo-ui/lib/metrics.ts:191-204 | after any run both know the same series and agree on each |
| `Metrics.CounterCountsCalls` | kor-travel-geo-ui/lib/metrics.ts:191-204 | the counter of a series is the number of its calls |
| `Metrics.TotalsAreTheNumberOfCalls` | kor-travel-geo-ui/lib/metrics.ts:191-204 | over all series the samples of the counter, and the counts of the histogram, add up to the number of calls |
| `Metrics.RouteNormalizationIsIdempotent` | kor-travel-geo-ui/lib/metrics.ts:245-272 | normalising a route twice changes nothing, for every text |
| `Metrics.SegmentsReplaced` | kor-travel-geo-ui/lib/metrics.ts:259-272 | a segment is replaced exactly when it is a number or more than 32 letters, digits, underscores and hyphens |
| `Metrics.IdentifiersAreLongTokens` | kor-travel-geo-ui/lib/metrics.ts:259-272 | the first of the three rules, for identifiers, replaces nothing that the third would not |
| `Metrics.MethodsAreBounded` | kor-travel-geo-ui/lib/metrics.ts:274-277 | seven methods are kept in upper case, every other is `other` |
| `Metrics.RecordWebVital` | kor-travel-geo-ui/lib/metrics.ts:222-239 | recorded exactly when finite and not negative, in both metrics alike |
| `Metrics.WebVitalSeriesAreBounded` | kor-travel-geo-ui/lib/metrics.ts:222-239 | no input makes either web-vital metric hold more than 7 * 18 * 4 series, and both hold the same ones |
| `Metrics.RecordWebVitals` | kor-travel-geo-ui/lib/metrics.ts:222-239 | any sequence of calls on fresh metrics leaves them as the recorded run, within that bound |
| `Metrics.VitalKeyIsKnown` | kor-travel-geo-ui/lib/metrics.ts:274-291 | every web vital falls into the known names, routes and ratings |
| `Metrics.VitalKeyKeepsTheKnown` | kor-travel-geo-ui/lib/metrics.ts:222-239 | known names and ratings are kept, every other is `other` or `unknown` |
| `Metrics.PagesAreKept` | kor-travel-geo-ui/lib/metrics.ts:279-291 | sixteen pages keep their normalised path, a consistency case loses its id, and every other path is `/other` |
| `JsonPath.GetPath` | scripts/run_geocoder_golden_corpus.py:342-366 | the loop follows the parts one by one, with every outcome: a value, nothing, an exception |
| `JsonPath.SplitPrintedPart` | scripts/run_geocoder_golden_corpus.py:359-366 | a printed part splits into its key and index |
| `JsonPath.ReadsOnlyIntegers` | scripts/run_geocoder_golden_corpus.py:359-366 | an index that is read was blanks, a sign or none, digits, blanks, and has that value |
| `JsonPath.ReadsIntegers` | scripts/run_geocoder_golden_corpus.py:359-366 | and everything written so is read |
| `JsonPath.ReadableDigits` | scripts/run_geocoder_golden_corpus.py:359-366 | digits may have single underscores between them, and nothing else |
| `JsonPath.UnderscoresMeanNothing` | scripts/run_geocoder_golden_corpus.py:359-366 | which do not change the number |
| `JsonPath.ReadingAPrintedPath` | scripts/run_geocoder_golden_corpus.py:342-366 | for every tree and printable address: exactly the subtree there, and nothing exactly when there is none |
| `JsonPath.DropTwice` | scripts/run_geocoder_golden_corpus.py:436-445 | dropping unstable fields twice changes nothing |
| `JsonPath.DropsTo` | scripts/run_geocoder_golden_corpus.py:436-445 | a list or tuple becomes a list of the same length, an object loses its `query_id`, anything else stays |
| `JsonPath.DropForgetsExactlyQueryIds` | scripts/run_geocoder_golden_corpus.py:436-445 | two payloads normalise alike exactly when they differ only in `query_id` fields at any depth (and in list against tuple) |
| `Sorting.SortSorts` | scripts/benchmark_query_performance.py:300-313 | the sorted copy is in order and holds the same values |
| `Percentile.PercentileIs` | scripts/benchmark_query_performance.py:300-313 | with samples and a valid `q`, the interpolation at rank `q / 100 * (n - 1)` of the sorted samples, one sample included |
| `Percentile.BetweenLeastAndGreatest` | scripts/benchmark_query_performance.py:300-313 | between the least and the greatest sample |
| `Percentile.GrowsWithQ` | scripts/benchmark_query_performance.py:300-313 | monotone in `q` |
| `Percentile.GrowsWithSamples` | scripts/benchmark_query_performance.py:300-313 | monotone in every sample, wherever it stands |
| `Percentile.OrderOfSamplesDoesNotMatter` | scripts/benchmark_query_performance.py:300-313 | the same for every permutation, errors included |
| `Percentile.BothFormulasAgree` | scripts/run_t129_c11_outlier_triage.py:507-516 | the triage formula on sorted samples at `q / 100` gives the same value |
| `Summaries.SummarizeMeasurements` | scripts/benchmark_query_performance.py:316-346 | the two loops compute the summary of every list of measurements, every column of it |
| `Summaries.GroupsAreMembers` | scripts/benchmark_query_performance.py:316-326 | every group holds exactly the non-warm-up measurements of its key in order, and each such measurement is in one |
| `Summaries.SamplesAddUp` | scripts/benchmark_query_performance.py:316-346 | samples over all rows add up to the non-warm-up measurements |
| `Summaries.RowsReportTheirMembers` | scripts/benchmark_query_performance.py:316-346 | each row reports exactly the measurements of its key, and rows come in key order |
| `Summaries.ColumnsAre` | scripts/benchmark_query_performance.py:326-346 | what the columns are: the counts of samples and errors, the percentiles 50, 90, 95 and 99 and the maximum of the successes' elapsed times, and the 95th percentiles of their checkout and execution times |
| `Summaries.PercentilesAreInOrder` | scripts/benchmark_query_performance.py:326-346 | p50 <= p90 <= p95 <= p99 <= max under any monotone rounding, and all absent exactly when every sample failed |
| `Summaries.PhaseIsWithinTheWhole` | scripts/benchmark_query_performance.py:326-346 | a phase that every success took apart and that is never longer than the whole has no longer p95 |
| `Summaries.AverageIsBetween` | scripts/benchmark_query_performance.py:326-346 | the average number of rows lies between any bounds on single successes, under any monotone rounding |
| `Multipart.UploadPart` | kor-travel-geo-ui/lib/multipart-upload.ts:68-95 | a part is done exactly when nobody cancelled and the server confirmed as many bytes as were sent; what was sent are the file's bytes from where the part starts, at most a part's size |
| `Multipart.UploadSlotFile` | kor-travel-geo-ui/lib/multipart-upload.ts:52-134 | for every file, part size and behaviour of the server, the network and the user: how the upload ends, exceptions included, and exactly what was sent, collected and reported |
| `Multipart.PartSizeIs` | kor-travel-geo-ui/lib/multipart-upload.ts:53 | a positive part size up to 8 MiB is taken as it is, any other is 8 MiB |
| `Multipart.BodiesPartitionTheFile` | kor-travel-geo-ui/lib/multipart-upload.ts:52-113 | the bodies in order are the file; each has at most 8 MiB and is non-empty unless the file is empty |
| `Multipart.ReportedBytesGrow` | kor-travel-geo-ui/lib/multipart-upload.ts:92-113 | reported bytes grow with every part and are the file's size after the last |
| `Multipart.PartReport` | kor-travel-geo-ui/lib/multipart-upload.ts:92-113 | the report after a part: the bytes of the bodies so far, the parts done and the total |
| `Multipart.GoodServerTakesAllParts` | kor-travel-geo-ui/lib/multipart-upload.ts:68-113 | with a server that echoes numbers and sizes, all parts go through, numbered 1 to n |
| `Multipart.ThroughIsFirstStop` | kor-travel-geo-ui/lib/multipart-upload.ts:68-113 | the parts that went through are those before the first that was stopped |
| `LiveStreams.SelectionIsTopK` | kor-travel-geo-ui/lib/live-stream-budget.ts:44-71 | for distinct ids: `min(max, n)` ids, all of the list, and no row without a slot sorts before one with a slot |
| `LiveStreams.ComesFirst` | kor-travel-geo-ui/lib/live-stream-budget.ts:55-66 | what sorting before means, on the fields: progressing rows, then the most recent, then by id |
| `LiveStreams.SlotsGoToTheRecent` | kor-travel-geo-ui/lib/live-stream-budget.ts:44-71 | on the fields: when one row has a slot and another has not, the second is deprioritized if the first is; within one kind the first was active no earlier, and with equal activity its id is no greater; a stamp that is absent or unreadable counts as 0 |
| `LiveStreams.OrderDoesNotMatterIffNoTies` | kor-travel-geo-ui/lib/live-stream-budget.ts:44-71 | the selection is the same for every permutation and every `max` exactly when no two rows tie |
| `LiveStreams.TiesNeedEqualIdsOfTheLocale` | kor-travel-geo-ui/lib/live-stream-budget.ts:55-66 | distinct ids never tie when the string comparison tells distinct strings apart |
| `LiveStreams.FirstOfTheTiedWins` | kor-travel-geo-ui/lib/live-stream-budget.ts:55-66 | of two tied rows the first of the list takes the slot the other would have: the selection flaps with the input order |

## Left out

- HMAC-SHA-256, PBKDF2, randomness and JSON over UTF-8 are not computed: `Session.Platform` stands for them, with digests that are not empty and JSON that reads back as assumptions. Fresh ids and unforgeable signatures are the premise `Genuine` of the theorems about runs, and `Honest` adds the order of the clock.
- Reading settings from the environment and trimming them, password hashing, `sanitizeLocalPath`, origin and forwarding checks, and the cookie options are not modelled.
- `HasShape` relies on the typed payload: the type tests of the parsed JSON are the `fromJson` of the platform.
- Strings are sequences of characters; JavaScript's UTF-16 code units, `toUpperCase`, `localeCompare`, Python's `isalnum` and its non-ASCII digits are parameters or excluded.
- `Session.RevokedIsNeverAcceptedAgain`: is about one process. The map is lost at a restart, after which a revoked session is accepted until it expires.
- Requests are asynchronous: each use of a shared map is one step here, as it is in the code.
- Clocks are arguments. Seconds are the floor of milliseconds, as in the code.
- `LoginLimiter.AtMostNineInAnyWindow`: is for one login of a key at a time; `BoundForLoginsInFlight` is for any number, and `BoundIsReached` shows that nine is false for more. A success clears the count, so nothing is promised across one.
- The audit rows are given with their times in whole seconds; fetching and parsing them is not modelled.
- The audit events, the revocation of an old session and the responses of the login route are not modelled.
- The quoting reader covers words, quotes and blanks; text that asks for expansion, operators or comments is outside it, and the printer never makes such text.
- Column types, constraints and comments of the migrated tables are not modelled: a column is a name and a payload.
- `MatchSetSlot.Registry.ActivateMatchSet`: leaves out the audit event, the capability report and the locks; no other writer acts on the registry during a run.
- Of the match-set validation only its effect on a draft set is modelled; sets in other states are not validated by the runbooks.
- An error inside a `finally` block is only reported by the code, and a killed process skips that block: the first is modelled, the second is not.
- The choice of category in `materialize_staging` is not modelled: an extracted category is `Materialize`, the cached one `StageFromCache`. Links are modelled by what they lead to, which no run changes once a cache is marked.
- The file system has no permissions, links or renames; a torn write leaves a prefix.
- Geometry functions, trigram search and the lateral sub-queries of the feature table are a parameter that may return NULL for every row.
- District codes are integers and text is compared by equality: collation is not modelled.
- The indexes, samples, percentiles and reproduction statements of the C11 scripts, the policy's name and the rendering of SQL numbers are not modelled; clauses are data.
- `RehearsalGate.EvaluateGate`: takes the two benchmark sections as given; how their status is computed from timings is not modelled.
- `ShadowServing.ServedAlikeIff`: is about the part of a query that reads the text-search table; what a query then reads of the serving table, points included, is not part of its answer.
- `RehearsalGate.GateOfThePipeline`: assumes that feature and shadow tables were built in the same rehearsal, not reused.
- NaN, infinities and rounding of floating-point numbers: values are reals, and rounding is any monotone function.
- `distance_distribution` only collects percentiles and is not modelled.
- Histogram rendering beyond label sets is not modelled, nor the proxy metrics, which use the same classes.
- `JsonPath.DropForgetsExactlyQueryIds`: numbers are integers, and sorting and hashing of the normalised payload are not modelled.
- Fractional part sizes of an upload are not modelled; the server, the network and the abort signal are arbitrary functions, and the session that a completed upload returns is left out.
- `LiveStreams.SelectionIsTopK`: `max` is an integer.
