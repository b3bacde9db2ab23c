# Verified models of the backend's stateful protocols

The backend keeps its security-relevant state in database rows and cache keys, and changes it through a few
small protocols that run against a clock. This project models those protocols and proves what they promise over
every run: login protection, webhook delivery, account bans and leaving, idempotent requests, one-time tokens,
recovery codes, runtime settings and permission resolution.

Each protocol has a pure part and a stored part.

- The pure part gives the state, the steps and `Run`, a history of steps. `StateOf` (or `TableOf`) replays a
  history. Invariants and whole-run results are lemmas about these.
- The stored part is a class with the fields that the services update in place. Its methods take the same branches
  in the same order as the services, and each is proved to leave exactly the state that its step describes. A
  ghost `log` records the history, and `Valid()` says that the fields are what replaying it gives.

| modules | what they cover |
|---|---|
| `Throttle`, `ThrottleHistory`, `ThrottleCleanup`, `ThrottleCache`, `ThrottleCacheGuesses`, `ThrottleService` | failure counters per identifier, address and combination, in database rows and in cache keys; the login around them |
| `Webhooks`, `WebhookRetries`, `WebhookService` | reservation, attempt, write-back, crash and recovery; retries; the dispatcher's batch |
| `Accounts`, `AccountSync`, `AccountInterleaving`, `AccountLeaving`, `AccountAccess`, `AccountService` | ban, revocation, the periodic synchroniser in one step and move by move, sessions, deactivation and deletion |
| `Idempotency`, `IdempotencyService` | interleaved transactions under a unique key, rollback and replay |
| `Tokens`, `TwoFactor` | single use, supersession, conservation of recovery codes |
| `Settings`, `Permissions` | the cached form against the stored value; the set of codes against the yes-or-no query |
| `Common` | optional values, the clock, powers of two, loops that write a map key by key |

## Assumptions

- Time is an integer number of microseconds and never goes back. One transaction reads the clock once. In the
  cache registration each call for each key has an instant of its own; the runs that compare the backends, and
  those of the guess bound with the cache, serve all calls of one registration at one instant.
- Hashes are injective. Identifiers are given in stripped and case-folded form, recovery codes in normalised form.
- Generated tokens, and recovery codes of different batches, do not repeat. Codes repeated inside one batch are
  modelled: they break the unique constraint and the transaction is rolled back.
- LOGIN_MAX_ATTEMPTS, LOGIN_LOCKOUT_SECONDS and LOGIN_MAX_BACKOFF_SECONDS are positive.
- The guess bounds, one for each backend, are about logins that are sequential for each identifier: between a
  login's check and the failure that it registers, no other login with the same identifier does anything. Other
  identifiers and clean-ups may. A successful login deletes the counters, so the bounds on consecutive failures
  are about those since the identifier's last successful login; the windowed bounds also count across successful
  logins and say what each of them adds. D stands for min(LOGIN_LOCKOUT_SECONDS, LOGIN_MAX_BACKOFF_SECONDS) and
  m for LOGIN_MAX_ATTEMPTS.
- A run of deliveries is timely if all work is written back, or has crashed, less than 15 minutes after its
  reservation. Exclusive delivery, the bounds on attempts and the spacing of attempts are about timely runs.
  `SecondTaskIffOverdue`, `LateWriteOverturnsSuccess` and `UntimelyAttemptsAreUnbounded` show that this is needed.
- Foreign keys and unique constraints hold. A request's method has no slash in it and its path begins with one.
- Outcomes of password checks, one-time-password checks, HTTP attempts and model validation are parameters.

## Where the code and its documentation differ

- `docs/SECURITY.md:25` says that account locks avoid amplification through a shared address. Whether an account is locked does depend on
  its identifier alone (`AccountLockedByOwnFailuresOnly`), but for how long does not: the duration passed on at
  `apps/security/services.py:152-156` is the longest of the three locks. `AccountLockIsOwnLockIff` says, from the
  failures on record before the login, exactly when that is the identifier's own lock, and
  `SharedAddressLengthensAccountLock` gives a run of logins in which it is longer.
- `docs/API.md:198` says that an idempotency key is bound to method, path and raw body. The hash is taken of the
  three run together (`common/idempotency.py:36-38`), so the boundary between path and body is not bound:
  `BoundaryIsNotHashed` gives the run. `ReplayIsForTheSameRequest` states what is bound, and
  `ReplayCrossesPathsIff` that a replay can cross two paths exactly when one of them extends the other.
- The synchroniser filters twice through the relation to bans (`apps/accounts/tasks.py:14-22`), so a user whose
  two conditions hold of different bans is banned by the first loop and set to ACTIVE by the second, also when
  the user was deactivated before: `ChainedFiltersReactivate`. The status still agrees with the bans afterwards
  (`StatusAgreesAfterSync`); the count and the sessions do not (`CountIsChangesIff`, `SecondSyncCount`,
  `SyncIsIdempotentIff`).
- The synchroniser runs outside a transaction, and saves a listed user as BANNED whatever has been revoked since
  (`apps/accounts/tasks.py:23-25`). `BannedHasBanIffNeverOvertaken` says exactly when that breaks the agreement,
  `OnlyRevocationOvertakes` what alone can cause it, `StrandedForGood` that no later synchronisation mends it, and
  `StrandingIsReachable` gives the run. `UntouchedUserIsSynced` and `UntouchedUserAgreesIff` state what holds in
  every interleaving.
- The two backends do not bound guesses alike since the last successful login: with the cache, `CacheBlockIsLeast` gives the exact number, which
  is the database's only while LOGIN_MAX_ATTEMPTS is at most two.
- After deactivation a login that had passed its gates can still register a session
  (`apps/authentication/services.py:391-422`): `LeavingIsPermanent` says exactly when.

## Model

| member | source | states |
|---|---|---|
| Throttle.DoubledIsExponential | apps/security/services.py:118-120 | Doubling n times is multiplication by 2^n, and never shortens a lock. |
| Throttle.LockSecondsBounds | apps/security/services.py:114-122 | A lock is imposed exactly from LOGIN_MAX_ATTEMPTS on; it never exceeds the backoff and is never shorter than the smaller of lockout and backoff. |
| Throttle.LockDoubles | apps/security/services.py:114-122 | The first lock is the lockout time, each of the next six failures doubles it up to the backoff, further ones leave it. |
| Throttle.FailuresSorted | apps/security/services.py:126-143 | A dimension's failures since its last reset are in order of time, none later than the clock. |
| ThrottleHistory.StreakIsLongestTightSuffix | apps/security/services.py:137-140 | The streak is the length of the longest suffix of the failures with all gaps below the backoff. |
| ThrottleHistory.LooseHistory | apps/security/services.py:137-140 | A streak shorter than n, among at least n failures in order, leaves a gap of a full backoff within the last n. |
| ThrottleHistory.CounterRefinesHistory | apps/security/services.py:124-151 | In every run with clean-ups and resets, a dimension's row holds its current streak, the lock that follows from it and its expiry; without a row the last failure is out of date. |
| ThrottleHistory.AccountLockedByOwnFailuresOnly | apps/security/services.py:152-156 | `account_locked` is reported exactly when the identifier's own latest failures form a tight series of at least the maximum, whatever happened on the address. |
| ThrottleHistory.CountersSharedIff | apps/security/services.py:49-53 | Two callers share the counter of the identifier, of the address and of the combination exactly when they have the same identifier, the same address, and both; a missing or empty address is the one called "unknown" and no other. |
| ThrottleHistory.StrangersDoNotMatter | apps/security/services.py:49-90 | A failure or a success of another identifier at another address changes neither the histories of a caller nor the answer to any of its checks. |
| ThrottleHistory.CheckTellsLongestWait | apps/security/services.py:69-83 | A check of the rows reports a lock exactly when one of the dimensions has a running one, with the longest of their waits in whole seconds, at least one, and never speaks of the account. |
| ThrottleHistory.CheckRepeatsFailure | apps/security/services.py:69-83 | The answer to a check at the instant of a failure has the locked bit and the wait that the failure was given. |
| ThrottleHistory.RetryAfterIsHonest | apps/security/services.py:69-83 | In every continuation without a failure on the caller's dimensions the reported wait never grows, and the caller is unlocked after retry_after + 1 seconds. |
| ThrottleHistory.AdmittedIsUnlocked | apps/authentication/services.py:346-353 | A login that its check let through finds no running lock on its identifier and its combination whatever other identifiers have done since, nor on its address if nobody has failed or succeeded since. |
| ThrottleHistory.NextFailureIsSpaced | apps/security/services.py:69-156 | A failure that the check let through comes at least D after the failure m before it, counting since the identifier's last successful login. |
| ThrottleHistory.FailuresAreSpaced | apps/security/services.py:69-156 | Any m + 1 consecutive failures of an identifier since its last successful login span at least D, from any addresses and with clean-ups and other identifiers anywhere. |
| ThrottleHistory.GuessRateIsBounded | apps/authentication/services.py:345-418 | With the database, a window of length T since an identifier's last successful login holds at most m * (T / D + 1) of its failures. |
| ThrottleHistory.WindowedGuessesAreBounded | apps/authentication/services.py:345-419 | All failures of an identifier in the last T, R successful logins in that time included, are at most (R + 1) * m * (T / D + 1). |
| ThrottleHistory.SuccessesRenewTheAllowance | apps/security/services.py:165-172 | No bound can leave R out: for m above one, any number of failures fits into one instant with as many successful logins, all of them past their checks. |
| ThrottleCleanup.TablesExpireLocksFirst | apps/security/services.py:142-143 | In every run no row's lock outlasts the row. |
| ThrottleCleanup.CleanupIsUnobservable | apps/security/tasks.py:7-10 | A run answers the same with all its clean-ups removed, and the tables differ in expired rows at most. |
| ThrottleCleanup.CleanupPlacementIsUnobservable | apps/security/tasks.py:7-10 | Two runs of the same checks, failures and resets answer alike wherever the clean-ups are. |
| ThrottleCleanup.AnswersAreAll | apps/security/services.py:85-90 | The answers compared are those of every check and every failure, in their places. |
| ThrottleCleanup.OnlyCleanupsAreLeftOut | apps/security/tasks.py:7-10 | The run compared has no clean-up left, and all its other steps. |
| ThrottleCache.KeysRefineHistory | apps/security/services.py:92-112 | In every run the cache keys of a dimension hold the size and the end of its current fixed window and the latest lock. |
| ThrottleCache.KeyIsCounted | apps/security/services.py:97-108 | A counter that `add` misses starts at one; one that it finds grows and keeps its end, or starts again if it ends before `incr`; the lock key is set exactly from LOGIN_MAX_ATTEMPTS on; no other key changes. |
| ThrottleCache.CacheCheckTellsLongestWait | apps/security/services.py:59-67 | A check of the cache reports a lock exactly when a lock key of one of the dimensions is alive, with the longest remaining time reported, the lockout time standing in where none is. |
| ThrottleCache.CountsAgreeIffAligned | apps/security/services.py:97-105 | Fixed and sliding window count alike all along a history exactly when each failure falls into its window or comes a full backoff after the one before. |
| ThrottleCache.OneWindowIsAligned | apps/security/services.py:98-105 | Failures within one backoff of the first are such a history, with one window that counts them all. |
| ThrottleCache.BackendsAgreeOnFailure | apps/security/services.py:92-156 | On such histories both backends return the same `LockoutState` from `register_failure`. |
| ThrottleCache.OldLocksAreOver | apps/security/services.py:107-108 | On such histories a lock key left over from an earlier window ends before its successor begins. |
| ThrottleCache.BackendsAgreeOnCheck | apps/security/services.py:59-83 | On such histories both checks give the same locked bit, whatever time to live the cache reports. |
| ThrottleCache.LockedIff | apps/security/services.py:92-156 | In every run a failure is answered with a lock exactly when, on one of its dimensions, the sliding streak (database) or the fixed window (cache) reaches LOGIN_MAX_ATTEMPTS. |
| ThrottleCache.BackendsDifferBeyondTheWindow | apps/security/services.py:92-156 | Three failures nine seconds apart with a backoff of ten lock a caller in the database and not in the cache. |
| ThrottleCacheGuesses.LocksMakePauses | apps/security/services.py:92-112 | In every run of sequential logins with the cache, since the identifier's last successful login, a failure that fills its window or finds it full is followed by none for D. |
| ThrottleCacheGuesses.CloseFailures | apps/security/services.py:97-108 | Where full windows pause like that, failures less than D apart lie in one window, or in two with what was left of the first. |
| ThrottleCacheGuesses.CacheFailuresAreSpaced | apps/security/services.py:59-112 | With the cache, any max(m, 2m - 2) + 1 consecutive failures of an identifier since its last successful login span at least D. |
| ThrottleCacheGuesses.CacheGuessRateIsBounded | apps/authentication/services.py:345-418 | With the cache, a window of length T since an identifier's last successful login holds at most max(m, 2m - 2) * (T / D + 1) of its failures. |
| ThrottleCacheGuesses.CacheWindowedGuessesAreBounded | apps/authentication/services.py:345-419 | With the cache, all failures of an identifier in the last T, R successful logins in that time included, are at most (R + 1) * max(m, 2m - 2) * (T / D + 1). |
| ThrottleCacheGuesses.CacheBlockIsLeast | apps/security/services.py:59-112 | Any n + 1 consecutive failures since the last successful login span at least D in all such runs exactly when n is at least max(m, 2m - 2): the bound is met, and the one of the database holds only for m up to two. |
| ThrottleCacheGuesses.StrangersDoNotMatterToCache | apps/security/services.py:49-67 | With the cache as well, another identifier at another address does not change the answer to a check. |
| ThrottleService.LoginProtection.BumpRow | apps/security/services.py:130-151 | The stored row of one dimension becomes the one that a failure makes of it, an expired row counting as none. |
| ThrottleService.LoginProtection.RegisterDatabaseFailure | apps/security/services.py:124-156 | For distinct dimensions, the loop leaves every named row bumped from its old value and every other row alone, and returns the longest lock and the account bit of the new rows. |
| ThrottleService.LoginProtection.CountKey | apps/security/services.py:97-111 | One dimension's `add`, `incr` or `set` and its lock key, each call at an instant of its own, also when the key expires between `add` and `incr`. |
| ThrottleService.LoginProtection.RegisterCacheFailure | apps/security/services.py:92-112 | For distinct dimensions, the loop gives each the keys that follow from its old ones and its own instants, leaves all others, and returns the longest lock and the account bit. |
| ThrottleService.LoginProtection.Reset | apps/security/services.py:165-178 | Afterwards no check of the caller reports a lock in either backend and its next failure counts as the first; every other dimension keeps its row, counter and lock. |
| ThrottleService.LoginProtection.CleanupLoginAttempts | apps/security/tasks.py:7-10 | Exactly the rows whose expiry has passed are deleted, the others stay as they are, and the number deleted is returned. |
| ThrottleService.LoginProtection.LockKnownAccount | apps/security/services.py:180-193 | The account is held from now on for exactly the time given and no other account changes; time is taken off a lock exactly when the replaced one was to last longer. |
| ThrottleService.LoginProtection.RegisterWrongPassword | apps/authentication/services.py:355-371 | A wrong password adds one failure to the history, tells what the history before it asks for, and locks the account exactly when the identifier's own latest failures are tight. |
| ThrottleService.LoginProtection.LoginAdmitted | apps/authentication/services.py:354-419 | Past the check, for each verdict: which result is given, that a wrong password and a wrong second factor each add a failure to all three histories, that a success empties them, that nothing else touches them, and what becomes of the account's lock. |
| ThrottleService.LoginProtection.Login | apps/authentication/services.py:342-442 | The same for a whole login, which is refused exactly while the check reports a lock or the account is held, with the wait that the check gives or that is left to the account, up to a second; it keeps the history a guarded one, so the guess bound applies. |
| ThrottleService.LongestIsTold | apps/security/services.py:124-156 | In every run the wait told to a failure is the longest of the locks that its three streaks ask for. |
| ThrottleService.AccountLockIsOwnLockIff | apps/security/services.py:114-156 | For every failure of a run that locks the account: the time is the identifier's own lock exactly when that is the policy's longest already, or neither the address nor the combination has a longer streak. |
| ThrottleService.SharedAddressLengthensAccountLock | apps/authentication/services.py:363-368 | Sequential logins that all pass their checks: two failures of another identifier on the same address lengthen the account lock from one second to four. |
| Webhooks.EveryRunIsSane | apps/webhooks/tasks.py:43-97 | Whatever the timing: PENDING rows are untouched, FAILED rows have a retry time, terminal rows have none, and no reservation lies in the future. |
| Webhooks.OtherStepsKeepRows | apps/webhooks/services.py:59-81 | A new delivery is PENDING at its endpoint with no attempt; emitting, switching an endpoint and a crash touch no delivery that there is. |
| Webhooks.TakenIff | apps/webhooks/tasks.py:51-62 | A free worker takes a delivery exactly unless it is terminal or was reserved less than 15 minutes ago and is being processed; one whose retry time has not come is taken as well. |
| Webhooks.DeliveryIsExclusive | apps/webhooks/tasks.py:45-62 | In every timely interleaving at most one live worker exists per delivery, and the row is the one that its reservation wrote. |
| Webhooks.OutcomeLandsOnOwnAttempt | apps/webhooks/tasks.py:64-97 | In every timely run, each outcome is written to the attempt that reserved it and to no other row; success and abandonment follow from that outcome and attempt number only. |
| Webhooks.TerminalIsAbsorbing | apps/webhooks/tasks.py:51-52 | In every timely continuation a succeeded or abandoned delivery stays exactly as it is. |
| Webhooks.SecondTaskIffOverdue | apps/webhooks/tasks.py:53-58 | From every state with exclusive work, a second worker gets a delivery in progress exactly when 15 minutes have passed, and exclusion is then lost. |
| Webhooks.LateWriteOverturnsSuccess | apps/webhooks/tasks.py:90-97 | From every state with exclusive but overdue work, a late failure can turn another worker's SUCCEEDED into FAILED, or into ABANDONED if the late attempt was the eighth or a later one. |
| Webhooks.OverdueIsReachable | apps/webhooks/tasks.py:53-62 | One delivery, one reservation and 15 minutes lead to such a state. |
| WebhookRetries.AttemptsAreBounded | apps/webhooks/tasks.py:59-89 | In every timely run FAILED means one to seven attempts; with c crashed attempts the count never exceeds 8 + c. |
| WebhookRetries.UntimelyAttemptsAreUnbounded | apps/webhooks/tasks.py:53-97 | Without the timing there is no bound: for every n some crash-free run ends FAILED after n attempts. |
| WebhookRetries.EighthOutcomeIsFinal | apps/webhooks/tasks.py:81-84 | In every timely run without crashes of a delivery its attempts are numbered 1 to 8, and the eighth outcome, whatever it is, is terminal. |
| WebhookRetries.CapNeverBinds | apps/webhooks/tasks.py:87-89 | For every attempt that is retried the delay is 30 * 2^(n-1) seconds, below the cap of an hour. |
| WebhookRetries.RetryTimeIsExact | apps/webhooks/tasks.py:81-97 | In every timely run a failed attempt is due again after exactly that delay, and the eighth never. |
| WebhookRetries.NoDeliveryIsStranded | apps/webhooks/tasks.py:20-37 | In every reachable state a query matches a delivery exactly when it is unfinished, its endpoint active, the query the one for its status and a known instant reached. |
| WebhookRetries.CrashIsRecovered | apps/webhooks/tasks.py:31-37 | More than 15 minutes after its reservation the delivery of a crashed worker is selected again, if its endpoint is active, and taken by any free worker. |
| WebhookRetries.SelectedIsTaken | apps/webhooks/tasks.py:51-58 | A selected delivery whose row is unchanged is taken at any later instant of any continuation. |
| WebhookRetries.AttemptsAreSpaced | apps/webhooks/tasks.py:21-40 | In every timely run with one dispatcher and no crash, attempts n and n+1 are at least 30 * 2^(n-1) seconds apart. |
| WebhookRetries.AbandonedAfterEight | apps/webhooks/tasks.py:82-84 | In every timely run without crashes an abandoned delivery was attempted exactly eight times. |
| WebhookRetries.GivingUpTakesAnHour | apps/webhooks/tasks.py:81-89 | In every timely run with one dispatcher and no crash, at least 3810 seconds pass between the first attempt and the last before ABANDONED. |
| WebhookService.BatchIsSoundAndComplete | apps/webhooks/tasks.py:20-37 | Whatever order each query visits the table in: a batch has at most 100 ids, all distinct and due; it is complete when at most 100 are due; a new delivery is left out only in favour of new ones. |
| WebhookService.BatchIsFull | apps/webhooks/tasks.py:20-40 | A batch holds min(100, number due) deliveries: min(100, number of new ones) new ones, then as many retries as there are and still fit, and the rest stale ones. |
| WebhookService.WebhookTable.ReserveDelivery | apps/webhooks/tasks.py:45-62 | The three early exits and the reservation: taken exactly when not terminal and not in progress within the lease. |
| WebhookService.WebhookTable.WriteBack | apps/webhooks/tasks.py:74-97 | Saving from what the worker remembers is the step that the run lemmas are about. |
| WebhookService.WebhookTable.SelectBatch | apps/webhooks/tasks.py:20-37 | The three truncated queries appended in place are the first 100 of all matches in query order, or all of them. |
| WebhookService.WebhookTable.Deliver | apps/webhooks/tasks.py:43-97 | Run in line for a due delivery and within the lease: one more attempt, the status that its outcome brings, no other row changed, the run kept timely. |
| WebhookService.WebhookTable.DispatchPending | apps/webhooks/tasks.py:16-40 | With attempts shorter than the lease, one pass dispatches and returns min(100, number due), or nothing when webhooks are disabled; each selected delivery has exactly one attempt, the others none; the run stays timely and in line, so the spacing results apply. |
| Accounts.BannedUsersHaveABan | apps/accounts/services.py:14-58 | In every run whose synchronisations are single steps, a BANNED user has an unrevoked ban that has started. |
| Accounts.SyncDecides | apps/accounts/tasks.py:14-47 | What both loops together make of one user's status, from any state, with loop 1 reading two bans independently. |
| Accounts.SyncAgreesIff | apps/accounts/tasks.py:14-47 | From any state, a synchronisation in one step makes status and bans of a user agree exactly if the user was not BANNED without an active or a lapsed unrevoked ban. |
| Accounts.StatusAgreesAfterSync | apps/accounts/tasks.py:14-47 | In every run whose synchronisations are single steps, after one a user is BANNED exactly when one single ban is unrevoked, started and unexpired (apps/accounts/models.py:133-139). |
| AccountSync.LoopsSelect | apps/accounts/tasks.py:14-44 | Loop 1 selects the newly banned and the flipped-back users, loop 2 releases the lapsed and the flipped-back ones, and no others. |
| AccountSync.CountIsExact | apps/accounts/tasks.py:29-48 | The returned count is newly banned plus lapsed plus twice the flipped-back users. |
| AccountSync.ChangedUsers | apps/accounts/tasks.py:14-47 | The users whose status changes are the newly banned, the lapsed and the flipped-back ones that were not ACTIVE. |
| AccountSync.CountIsChangesIff | apps/accounts/tasks.py:48 | The count is the number of users changed exactly when no unbanned user meets the two filters with different bans only. |
| AccountSync.SecondSyncCount | apps/accounts/tasks.py:10-48 | A second synchronisation at the same instant counts each confused user twice, so it returns 0 exactly when there is none. |
| AccountSync.SyncClosesSessions | apps/accounts/tasks.py:23-27 | Exactly the open sessions of newly banned and flipped-back users are revoked. |
| AccountSync.SyncIsIdempotentIff | apps/accounts/tasks.py:10-48 | A second synchronisation changes nothing exactly when no lapsed, confused user had an open session. |
| AccountSync.ChainedFiltersReactivate | apps/accounts/tasks.py:14-47 | The counterexample run: a deactivated user without an active ban comes out ACTIVE, with a count of two. |
| AccountInterleaving.MovesOfAPass | apps/accounts/tasks.py:23-47 | A mark makes exactly its user BANNED and closes exactly the open sessions of that user; a save makes exactly the rechecked user ACTIVE; the queries change nothing. |
| AccountInterleaving.MarkIsRightIff | apps/accounts/tasks.py:23-27 | Marking a listed user keeps the agreement exactly when a ban of the user is still in force at the save. |
| AccountInterleaving.BannedHasBanIffNeverOvertaken | apps/accounts/tasks.py:14-47 | With other transactions between all queries and saves: every BANNED user always has an unrevoked started ban, exactly when no user was marked without one being in force at the save. |
| AccountInterleaving.OnlyRevocationOvertakes | apps/accounts/tasks.py:14-27 | A listed user keeps a ban in force until it is marked, unless one of its bans is revoked after the list was made: nothing else overtakes a mark. |
| AccountInterleaving.MarkStrandsIff | apps/accounts/tasks.py:23-27 | A mark strands its user exactly when all bans of the user have been revoked by then. |
| AccountInterleaving.StrandedForGood | apps/accounts/tasks.py:30-47 | A stranded user stays BANNED without an active ban through every continuation, synchronisations included, until banned again or leaving. |
| AccountInterleaving.StrandingIsReachable | apps/accounts/tasks.py:14-27 | A run of six moves from an empty store that strands a user. |
| AccountInterleaving.UntouchedUserIsSynced | apps/accounts/tasks.py:10-48 | In every interleaving, a user whom nobody else touches during a pass ends it with the status that a synchronisation in one step would have given. |
| AccountInterleaving.UntouchedUserAgreesIff | apps/accounts/tasks.py:10-48 | Such a user ends the pass BANNED just when one single ban was active at its beginning, exactly if it was not BANNED then without an active or a lapsed unrevoked ban. |
| AccountInterleaving.UntouchedUserAgrees | apps/accounts/tasks.py:10-48 | In particular so ends every such user that was not BANNED, or had an unrevoked started ban, when the pass began. |
| AccountLeaving.LeftCannotAuthenticate | apps/accounts/models.py:141-142 | Once an account has left, `can_authenticate_now` is false in every continuation. |
| AccountLeaving.ClosedStaysClosed | apps/authentication/services.py:175-186 | A left account without open session or login in flight has none in any continuation. |
| AccountLeaving.LeavingClosesSessions | apps/authentication/services.py:698-757 | Deactivation and deletion close every session of the user and no login in flight. |
| AccountLeaving.LeavingIsPermanent | apps/authentication/services.py:698-757 | After leaving no continuation lets the account authenticate; one reopens a session exactly when a login was past its gates at that moment. |
| AccountLeaving.LoginInFlightIsReachable | apps/authentication/services.py:391-422 | A run in which a login passes its gates, the account leaves, and the session is opened. |
| AccountLeaving.BanTakesEffect | apps/accounts/services.py:14-38 | An accepted ban that has started marks its user and closes every session; a later one changes neither; activity follows from the expiry. |
| AccountLeaving.RevocationSettlesStatus | apps/accounts/services.py:40-55 | Revocation leaves a banned user BANNED exactly when another ban of the user is active, else ACTIVE, and touches no other status. |
| AccountAccess.VerificationActivatesOnce | apps/authentication/services.py:503-510 | The first verification makes a PENDING user ACTIVE and touches no other status; a further one changes nothing. |
| AccountAccess.VerificationOpens | apps/authentication/services.py:448-510 | A registered user cannot authenticate before the address is verified, and can from then on. |
| AccountAccess.GatesOpenIff | apps/accounts/models.py:133-142 | A login passes its gates exactly for an enabled ACTIVE account without a ban that is unrevoked, started and unexpired. |
| AccountAccess.BanShutsBeforeSync | apps/accounts/models.py:141-142 | A ban shuts the account from its start to its expiry, also before any synchronisation has marked the user. |
| AccountAccess.ChangeKeepsCurrentSession | apps/authentication/services.py:584-598 | A change of password or address closes exactly the open sessions but the current one and leaves every status alone. |
| AccountAccess.LeavingMarks | apps/authentication/services.py:698-757 | Deactivation and deletion mark the user as DEACTIVATED or DELETED and disabled, and close exactly the open sessions of that user. |
| AccountAccess.BanIsRecordedIff | apps/accounts/services.py:19-30 | A ban is refused exactly for a missing user or an expiry not after the start; otherwise it is recorded as given, starting now by default. |
| AccountAccess.LoginEndsOnce | apps/authentication/services.py:98-135 | A login past its gates ends once, with an open session of its user or without one. |
| AccountAccess.SessionIsRevokedOnce | apps/authentication/services.py:145-152 | An open session is revoked at that instant, a revoked one keeps its instant, no other changes. |
| AccountAccess.CleanupDeletesIff | apps/authentication/tasks.py:11-15 | The clean-up deletes exactly the sessions revoked longer ago than their retention. |
| AccountService.AccountStore.RevokeAll | apps/authentication/services.py:145-186 | The listed open sessions of the user, the kept one aside, are revoked and counted; no other is touched. |
| AccountService.AccountStore.Impose | apps/accounts/services.py:14-38 | The stored rows become those of the step; it is refused for a missing user or an expiry not after the start. |
| AccountService.AccountStore.Revoke | apps/accounts/services.py:40-55 | The stored rows become those of the step; a ban already revoked changes nothing. |
| AccountService.AccountStore.MarkAll | apps/accounts/tasks.py:23-29 | The loop over the users found marks them, closes their sessions and counts them. |
| AccountService.AccountStore.ActivateBans | apps/accounts/tasks.py:14-29 | Loop 1 marks all users of the chained filters and counts them. |
| AccountService.AccountStore.ReleaseLapsed | apps/accounts/tasks.py:30-47 | Loop 2 releases, of the listed users, exactly those without an active ban when their turn comes. |
| AccountService.AccountStore.ReleaseAll | apps/accounts/tasks.py:37-47 | The loop over the users found releases and counts exactly those without an active ban. |
| AccountService.AccountStore.Synchronise | apps/accounts/tasks.py:14-48 | The two loops in sequence leave exactly what the synchronisation in one step leaves, and return its count. |
| AccountService.AccountStore.ExpireTemporaryBans | apps/accounts/tasks.py:10-48 | Run undisturbed on stored rows: the step, the exact count, and the agreement of status and bans for every user. |
| AccountService.AccountStore.VerifyEmail | apps/authentication/services.py:501-510 | The stored user becomes that of the step; only a PENDING status becomes ACTIVE, only the first time. |
| AccountService.AccountStore.Deactivate | apps/authentication/services.py:698-710 | The user has left and has no open session. |
| AccountService.AccountStore.ConfirmDeletion | apps/authentication/services.py:734-757 | The user has left, is unverified and has no open session. |
| Idempotency.EveryInterleavingKeepsInv | common/idempotency.py:39-86 | In any interleaving the committed records are the committed effects, complete with responses; open inserts are apart; every answer has its reason. |
| Idempotency.CommitsAtMostOnce | common/idempotency.py:63-86 | The wrapped method commits at most once per user and key. |
| Idempotency.EveryCommitIsAnswered | common/idempotency.py:78-86 | In every interleaving each commit gave its caller the response that it recorded. |
| Idempotency.ReplayIsTheCommit | common/idempotency.py:45-62 | Every replay returns the status and body of the only commit for its key, whose hashed text is the same. |
| Idempotency.AnswersHaveReasons | common/idempotency.py:45-77 | The in-progress branch is never taken from committed state; reuse conflicts name a different text, lost races a commit made after the lookup. |
| Idempotency.KnownKeyIsAnswered | common/idempotency.py:45-62 | A new request whose key has a committed effect is replayed it if the texts are the same and refused as a conflict otherwise; without one it is not answered yet. |
| Idempotency.InsertDecides | common/idempotency.py:63-77 | An insert loses the race exactly when its key has been committed meanwhile, waits exactly while another open transaction has inserted it, and succeeds otherwise. |
| Idempotency.FailureLeavesKeyFree | common/idempotency.py:78-82 | A method that raises, or whose response cannot be stored, leaves no record and no effect, and its key is free for the next request. |
| Idempotency.OnlyCommitsLeaveARecord | common/idempotency.py:39-86 | Nothing but a commit changes records or effects, and every committed record has a response. |
| Idempotency.SameTextIff | common/idempotency.py:36-38 | Two requests have one text exactly when their methods agree and their paths and bodies run together to the same. |
| Idempotency.PathsJoinIff | common/idempotency.py:36-38 | For different paths some bodies make up the difference exactly when one path extends the other. |
| Idempotency.ReplayIsForTheSameRequest | common/idempotency.py:36-62 | A replay is for the committed method, and either for the very same request or for a path that extends, or is extended by, the committed one, with the same path and body run together. |
| Idempotency.SecondIsReplayed | common/idempotency.py:39-86 | After one request has run through, a second one with the same key and text gets its response. |
| Idempotency.ReplayCrossesPathsIff | common/idempotency.py:36-62 | Between two different paths some run gives a replay exactly when one path extends the other. |
| Idempotency.BoundaryIsNotHashed | common/idempotency.py:36-38 | For any user, key and body: a request that creates an API key under the route with a format suffix and a final slash is replayed to one without the slash whose body begins with it. |
| IdempotencyService.IdempotencyStore.Transact | common/idempotency.py:39-86 | One transaction that nobody makes wait, end to end: replay, conflict, fresh response with its record, or rollback without a trace. |
| IdempotencyService.IdempotencyStore.Handle | common/idempotency.py:22-86 | When the decorator steps aside or refuses, and otherwise which reply is given, which record is kept and which effect is added. |
| Tokens.RowsTellGrants | apps/authentication/services.py:45-82 | In every run a token's row says whether the history still grants it; the clean-up removes rows that are no longer usable or spent. |
| Tokens.ConsumeSucceedsIff | apps/authentication/services.py:63-82 | A consumption succeeds exactly when the token was issued for the purpose, not superseded, not spent by a committed operation, and not expired. |
| Tokens.SpentOnce | apps/authentication/services.py:78-82 | After a committed consumption no later one of the same token succeeds, in any continuation. |
| Tokens.IssueSupersedes | apps/authentication/services.py:46-61 | An issue uses up, at that instant, exactly the unused tokens of its user and purpose and adds its own; a repeated token fails without a trace. |
| Tokens.ConsumptionSpends | apps/authentication/services.py:63-82 | A completed consumption uses exactly the token that is unused and unexpired, at that instant; any other changes nothing. |
| Tokens.OneUnusedToken | apps/authentication/services.py:48-60 | At most one unused token exists per user and purpose. |
| Tokens.TokenStore.Issue | apps/authentication/services.py:46-61 | The new token is granted and is the user's only unused one for the purpose. |
| Tokens.TokenStore.Consume | apps/authentication/services.py:63-82 | Accepted exactly when stored, unused and unexpired; then marked as used, else nothing changes. |
| Tokens.TokenStore.ConsumeWithin | apps/authentication/services.py:559-566 | An outer operation succeeds exactly when it completes and the history grants the token; a failing one leaves the token unspent. |
| Tokens.TokenStore.CleanupTokens | apps/authentication/tasks.py:18-21 | Exactly the rows whose expiry lies before the retention are deleted, the others stay as they are, and the number deleted is returned. |
| TwoFactor.CodesAreConserved | apps/authentication/services.py:218-308 | In every reachable state an enabled credential has exactly ten codes, and the used ones are the successes since the last replacement, each once. |
| TwoFactor.CredentialStands | apps/authentication/services.py:196-325 | In every run the stored credential is what the history says: none, awaiting confirmation, on with the codes left, or off. |
| TwoFactor.VerifiesIff | apps/authentication/services.py:252-279 | After any run verification succeeds exactly when the second factor is on and the one-time password is right or the code is one of those left. |
| TwoFactor.CodesLeft | apps/authentication/services.py:265-291 | The codes left are those of the last replacement without the successes since then. |
| TwoFactor.NoCodeIsAcceptedTwice | apps/authentication/services.py:265-279 | Over a whole run no recovery code is accepted twice. |
| TwoFactor.DisabledForGood | apps/authentication/services.py:203-214 | After `disable` no step changes or replaces the credential and no code is ever accepted. |
| TwoFactor.TwoFactorStore.BeginSetup | apps/authentication/services.py:196-216 | Which of the four results is given: an enabled credential conflicts, a disabled one breaks the one-to-one constraint. |
| TwoFactor.TwoFactorStore.ConfirmSetup | apps/authentication/services.py:218-250 | Setup succeeds exactly when the history awaits a confirmation, for a right code and distinct recovery codes; otherwise nothing changes. |
| TwoFactor.TwoFactorStore.ReplaceCodes | apps/authentication/services.py:281-291 | The loop stores every code unused, and fails exactly when a code repeats. |
| TwoFactor.TwoFactorStore.VerifyCode | apps/authentication/services.py:252-279 | Accepted exactly by a one-time password or an unused code of an enabled credential; only the latter is spent. |
| TwoFactor.TwoFactorStore.Check | apps/authentication/services.py:252-279 | The check at login succeeds exactly when the history says so, and leaves one code less if it took one. |
| TwoFactor.TwoFactorStore.RegenerateCodes | apps/authentication/services.py:293-308 | Replaces all codes exactly when the history lets the code verify and the new codes are distinct; a failure restores the code that was consumed. |
| TwoFactor.TwoFactorStore.Disable | apps/authentication/services.py:310-325 | Succeeds exactly on the password together with a code that the history lets verify, and then spends every code; otherwise nothing changes. |
| Settings.ServiceKeepsCacheCoherent | apps/core/services.py:11-45 | While rows change through the service only, no cached value differs from a visible row, for either form of the key. |
| Settings.GetIsCurrent | apps/core/services.py:11-24 | Then `get` returns the current value whenever a visible row exists, whatever defaults were cached before. |
| Settings.SetSaves | apps/core/services.py:26-45 | A valid `set` saves the value, the flag and the group of the last field naming each, touches no other row, and drops exactly what was cached for the key. |
| Settings.SetIsReadBack | apps/core/services.py:11-45 | Until the key is set or written again, `get` returns the value that was set whatever its default, and its public form does so exactly if the row ended up public. |
| Settings.NoRowGivesDefault | apps/core/services.py:18-24 | Without a visible row and a cached value `get` returns its default. |
| Settings.NullIsAMiss | apps/core/services.py:15-16 | A cached null counts as a miss: a row written after it is seen at once. |
| Settings.WritesPassTheCache | apps/api/views/core.py:33-46 | A direct write changes the row of its key and nothing in the cache; an eviction drops one cached value and changes no row. |
| Settings.AnswersAreRecent | apps/api/views/core.py:33-46 | With direct writes, every answer is current, this call's default, or what an earlier call read or took as default less than 300 seconds ago. |
| Settings.StalenessIsReal | apps/api/views/core.py:44-46 | Up to the last instant of the 300 seconds the old value is returned after a direct write. |
| Settings.SettingStore.Get | apps/core/services.py:11-24 | The stored form answers as specified, and with the current value where the service is the only writer. |
| Settings.SettingStore.Set | apps/core/services.py:26-45 | A valid write saves the row with its value, field by field, and drops both cached forms of the key and nothing else; an invalid one changes nothing. |
| Permissions.PermissionCodes | apps/authorization/services.py:37-58 | A code of the permission table is in the set exactly when `has_permission` holds; no other code is; the null member is there exactly for a non-superuser with an active role without permissions. |
| Permissions.OutsideTheTable | apps/authorization/services.py:12-35 | Outside the table the query says yes exactly to superusers that pass the gate. |
| Permissions.PermissionIsDecidedBy | apps/authorization/services.py:12-35 | The gate comes first, an override decides alone even against superusers, then superusers have everything, and others have it exactly through a role whose assignment has begun and not ended. |
| Permissions.IdleAssignmentGrantsNothing | apps/authorization/services.py:28-35 | An assignment that has ended or not begun changes no answer. |

## Left out

- HTTP, DNS and address checks, signing and serialisation of webhooks: an attempt is an outcome from outside, and `response_code` and `response_body` are not modelled.
- Cryptography: password hashing, encryption, keyed hashes, one-time-password arithmetic, JWT rotation and the blacklist.
- E-mail, audit and security-event rows, templates, logging and the event bus: they do not feed back into the modelled state.
- Views, serializers, throttles, middleware, settings modules and the admin, except direct writes of settings; edits of bans, statuses and `is_active` by staff are not steps.
- File validation, notifications, API keys, health checks and management commands: their claims are settled by one branch.
- Registrations of failures that overlap: `now` is read before the row lock (`apps/security/services.py:126`), and the guess bounds are stated for logins that are sequential for each identifier.
- Concurrent runs of `TokenService.issue` and `TwoFactorService.begin_setup`: each is one atomic step; overlapping issues could leave two unused tokens.
- Accounts.BannedUsersHaveABan: takes a synchronisation as one step, because the exact condition for its real moves is stated separately by AccountInterleaving.BannedHasBanIffNeverOvertaken.
- Accounts.StatusAgreesAfterSync: takes a synchronisation as one step, because the real moves are covered by AccountInterleaving.UntouchedUserAgrees.
- Within one move of the synchroniser: the save of a user as BANNED and the revocation of its sessions are one move, and so are the reading of the clock and the first query; two passes at a time are not modelled.
- Setting invalidation before commit (`apps/core/services.py:40-41`): `get` and `set` are atomic steps.
- Deletion of rows by cascade when a user, endpoint or event row is deleted.
- Session keys, devices and user agents: a session is its owner and its revocation.
- Metadata of a one-time token, and the address change that a confirmed e-mail change makes beside verifying and revoking.
- The wait that the cache backend reports: the time to live is a parameter, so the two backends are compared on the locked bit of a check only.
- `expires_at` of an idempotency record: it is written and never read.
- WebhookService.WebhookTable.Deliver: states the run in which nothing else happens between the steps of one delivery; interleavings are covered by the lemmas over runs.
- IdempotencyService.IdempotencyStore.Transact: states a transaction that no other open one makes wait; interleavings are covered by the lemmas over runs.
- ThrottleService.LoginProtection.Login: states a login with the database backend; the cache backend is covered by its registration method and the lemmas on agreement.
