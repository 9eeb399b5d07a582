# Storage, retry and limit machinery of the gRPC user service, in Dafny

This project models the parts of the service that hold state across calls and interleave:
creating users in PostgreSQL, the circuit breaker, the read-through cache, the in-memory
repository with its paging and page tokens, the retry loops with their backoff arithmetic,
the per-client rate limiter, and schema migrations. It proves what they guarantee over whole
runs, and where a plausible guarantee is false it proves exactly when it holds.

`dafny verify dfyconfig.toml` checks everything.

| file | models |
|---|---|
| `Base.dfy`, `Rpc.dfy` | byte strings and their order, users, errors (bare or wrapped), contexts, status codes |
| `PgCreate.dfy`, `PgCreateRuns.dfy` | concurrent creates in PostgreSQL as a step system; its invariant and its guarantees over every run |
| `PgRefinement.dfy`, `PgSequential.dfy` | those concurrent creates against the in-memory repository's atomic ones: each reply, and whole runs |
| `PgRetries.dfy` | the retries of those creates against retryOperation |
| `PgNotFound.dfy`, `PgLostSuccess.dfy`, `PgKeyedSuccess.dfy` | replies the in-memory repository does not give: ErrNotFound for a key, and refusals of creates that took effect |
| `PgScenarios.dfy` | building blocks for concrete runs of the step system |
| `Breaker.dfy`, `BreakerRuns.dfy` | the circuit breaker's two atomic steps; runs of interleaved calls |
| `Cache.dfy`, `CacheInterleaving.dfy` | cache entries and eviction; the cache under concurrent reads and writes |
| `Memory.dfy`, `MemoryRuns.dfy`, `MemoryAnswers.dfy` | the in-memory repository; its runs; its answers in terms of the answers before |
| `Stack.dfy`, `StackAnswers.dfy`, `Repositories.dfy` | cache over breaker over memory: what one operation does, sequential runs and their answers, and the objects that do it |
| `Paging.dfy`, `Tokens.dfy`, `ListUsers.dfy` | keyset pages and cursor walks; base64url page tokens; following the tokens of ListUsers |
| `Backoff.dfy`, `RetryLoops.dfy`, `ClientCreate.dfy` | int64 backoff arithmetic; both retry loops; CreateUser behind the client's retries |
| `RateLimit.dfy`, `RateLimitRuns.dfy` | token buckets per client with idle eviction; runs against a limiter that never evicts |
| `Migrations.dfy` | planning, applying and rolling back schema migrations |

Files that update state in place are modelled as classes whose methods are proved against
functions or relations on values; the run theorems are about those. Loops of the source are
loops here.

## Conventions

- Time is a non-decreasing integer (nanoseconds). A body that runs under one mutex is one step.
- `proto.Clone` is value semantics. Map iteration order is arbitrary.
- A context is live, cancelled, expired or nil; the choices of other processes, of the database,
  of the random source and of the clock are parameters.
- `rate.Limiter` is taken to be an ordinary token bucket over the reals. SQL is an abstract store
  with statement-level reads of committed rows, primary keys, and a transaction-scoped lock. A
  commit may also take effect after the client has seen its connection fail. When a user is
  deleted, any rows of its idempotency keys may go with it or stay, and theorems say so where it
  matters; the shipped schema lets all of them go (`internal/storage/migrations/0003_idempotency_keys.sql:3`).
  What the driver or the server reports is never one of the repository's own error values.
- Page tokens follow section 5 of RFC 4648 without padding (section 3.2), read back with the
  leniency of Go's decoder (line breaks skipped, trailing bits unchecked).
- A create makes at least one attempt: the PostgreSQL constructor raises lower settings
  (`internal/storage/postgres.go:67-70`).
- Counters that the source keeps in 64 bits and only increments are unbounded here.

## Where the code and its documentation disagree

The model follows the code.

- `pkg/interceptors/client_retry.go:25-27` says the server provably did not process a request that
  ended in Unavailable or ResourceExhausted. It may have: `UnkeyedRetryDuplicates` says exactly when one
  CreateUser creates two users. With a key, and nothing deleted, it never does (`RetriedCreate`).
- `internal/storage/circuitbreaker.go:50-52` asks for MaxHalfOpenRequests >= SuccessThreshold; the
  shipped configuration has 1 and 2 (`configs/config.yaml:87-89`), though with the breaker disabled
  (`configs/config.yaml:85`). `WedgeIffTooFewProbes` shows that exactly such configurations can reject
  calls for ever, `ShippedSettingsCanWedge` that this one can once the breaker is enabled.
- `internal/storage/postgres.go:355-357` says embedded migrations are checked to be sequential. Only
  the presence of version 1 is (`VerifyMigrations`, `GapIsAccepted`).
- `internal/storage/migrations/0001_users.down.sql:2` drops the table from which
  ApplyDownMigrations then deletes the version, so the shipped scripts can be rolled back by two
  versions at most (`ShippedRollbackStopsAtTwo`).
- `pkg/interceptors/client_retry.go:92-95` describes a backoff capped at MaxBackoff that doubles up to
  it. Above a MaxBackoff of 2^32 ns an overflow can make it fall back (`CeilingExactIff`).
- `internal/storage/postgres.go:127` promises a capped backoff; after enough attempts it is zero or
  negative. `WaitsAsDocumentedIff` says for which settings it never is, `DefaultsAreExactIff` that the
  defaults are among them up to 37 attempts.

## Model

| member | source | states |
|---|---|---|
| PgCreate.NextKeeps | internal/storage/postgres.go:462-576 | every step of every call and transaction (begin, lock, lookup, scan, count, inserts, commit, failure, lost connection, late commit or rollback, delete, update) keeps the protocol's invariant: only the lock holder is past its first statement, and what it found out still holds |
| PgCreate.PublishRows | internal/storage/postgres.go:488-498 | a commit keeps the rows in agreement with the history of inserts and within the bound |
| PgCreate.CommitReplies | internal/storage/postgres.go:566-575 | what a call returns with a nil error is a user inserted under its key, and its own unless replayed |
| PgCreate.StatementKeeps | internal/storage/postgres.go:528-565 | each statement of a transaction keeps the invariant, its error exits included |
| PgCreateRuns.CapacityHolds | internal/storage/postgres.go:471-499 | over every interleaving, committed users never exceed maxUsers (or the number there at the start, if larger) |
| PgCreateRuns.OneInsertPerKey | internal/storage/postgres.go:523-568 | two inserts are committed under one non-empty key only if the first user was deleted |
| PgCreateRuns.NilMeansStored | internal/storage/postgres.go:572-575 | a nil error never comes without a stored user |
| PgCreateRuns.ExactlyOnce | internal/storage/postgres.go:518-575 | without deletes, a nil return under a key means exactly one committed insert for it, named by the key row and equal to what was returned |
| PgCreateRuns.CallersAgree | internal/storage/postgres.go:504-507 | callers that share a key and succeed get the same user |
| PgRetries.ReachIsLawful | internal/storage/postgres.go:176-201 | in every run the errors of a call's attempts obey the retry law: all but the last retryable, another attempt after each retryable one while there are attempts left, and the call returns the last, or nil, or the context's error between attempts |
| PgRetries.AttemptsAreUsedUp | internal/storage/postgres.go:177-200 | a call that returns a retryable error has made exactly maxAttempts attempts, each of which ended with one |
| PgRetries.IsRetryOperation | internal/storage/postgres.go:176-201 | the attempts of a returned call are those retryOperation makes when it meets these errors |
| PgRetries.WhatIsRetried | internal/storage/postgres.go:149-171 | lost connections and the listed SQLSTATEs are retried, wrapped or not, and no other SQLSTATE is; no constraint violation, no cancelled query, no context error and none of the repository's own errors is |
| PgRetries.InvalidIff | internal/storage/postgres.go:515-521 | a create returns ErrInvalid if and only if it was given no user, or one without id, name, email or times |
| PgLostSuccess.UnkeyedCreateLosesItsSuccessIff | internal/storage/postgres.go:462-501 | some run ends an unkeyed create with ErrAlreadyExists or ErrCapacity although an insert of its own was committed, if and only if maxAttempts >= 2 and maxUsers >= 1 |
| PgLostSuccess.LostSuccessWasSevered | internal/storage/postgres.go:176-201 | in every such run an earlier attempt of the same call lost its connection when it was ready to commit |
| PgLostSuccess.NextKeepsHistory | internal/storage/postgres.go:462-576 | every step keeps: a call with a committed insert has returned nil or was severed, a severed call is past its first attempt or ended with an error from outside, and attempts stay below maxAttempts |
| PgKeyedSuccess.KeyedCreateKeepsItsSuccess | internal/storage/postgres.go:504-507 | without deletes, a keyed call of which an insert was committed never ends with ErrAlreadyExists, ErrCapacity or ErrNotFound |
| PgKeyedSuccess.NextKeepsSuccess | internal/storage/postgres.go:518-575 | every step but a delete keeps: a keyed call that landed has its key's row and is not refused, and a refused one has no transaction left that could commit |
| PgKeyedSuccess.KeyedCreateLosesItsSuccessIff | internal/storage/postgres.go:533-539 | with deletes that cascade, some run ends a keyed call with one of these errors although an insert of its own was committed, if and only if maxAttempts >= 2 and maxUsers >= 1 |
| PgSequential.RunIsSequential | internal/storage/postgres.go:504-507 | whatever interleaves, fails or takes effect late, and whichever key rows deletes take along, the committed rows and the keys that are gone make up exactly the in-memory repository after the run's operations one at a time, in commit order, as long as no gone key is used while its user is back |
| PgSequential.BackendsAgreeIff | internal/storage/memory.go:50-55 | the two backends have the same users throughout a run if and only if no user is committed under a key whose row is gone while the user it named is back |
| PgSequential.FreshIdsAgree | internal/storage/migrations/0003_idempotency_keys.sql:1-4 | when no deleted id is inserted again: same users, every key stands for the same stored user on both sides, and a key left over in memory names a deleted one, whichever key rows deletes take along |
| PgSequential.RepliesAreSequential | internal/storage/postgres.go:518-575 | then every nil, ErrCapacity and ErrAlreadyExists is the answer of the in-memory repository, having performed what was committed by then, at one moment between the call's arrival and its return |
| PgSequential.RevivalHappens | internal/storage/memory.go:158-172 | a run in which an id comes back and the backends part, for every limit of two users or more |
| PgRefinement.RepliesAreAtomic | internal/storage/postgres.go:518-575 | every call that returns nil, ErrCapacity or ErrAlreadyExists got what an atomic create on the committed rows would have answered at one moment between its arrival and its return |
| PgRefinement.CommitIsAtomic | internal/storage/postgres.go:555-572 | a commit of inserts, late or not, has the effect of one in-memory create that succeeds at that moment |
| PgRefinement.ScanIsAtomic | internal/storage/postgres.go:533-541 | reading the user of a recorded key answers as an in-memory replay at that moment, which changes nothing |
| PgRefinement.CountRefusalIsAtomic | internal/storage/postgres.go:548-554 | a refusal at the count is ErrCapacity, and the in-memory create would refuse the same way then |
| PgRefinement.InsertRefusalIsAtomic | internal/storage/postgres.go:555-562 | a refusal at the insert is ErrAlreadyExists, and the in-memory create would refuse the same way then |
| PgNotFound.BackendsPartOnDanglingKeys | internal/storage/postgres.go:535-539 | a call that has found its key fails with ErrNotFound exactly when the user is gone by the time it is read, which an atomic create never answers |
| PgNotFound.NotFoundIff | internal/storage/postgres.go:533-539 | over runs: a call fails with ErrNotFound whenever its key's user is deleted after its lookup and before its read; where deletes cascade to the keys, as in the shipped schema, if and only if |
| PgNotFound.NotFoundIsARace | internal/storage/postgres.go:533-539 | the second half of it: with the cascade, the delete that came in between |
| PgNotFound.OvertakenStaysGone | internal/storage/postgres.go:528-541 | the first half: the call holds the lock from lookup to read, so no commit brings the deleted user back |
| PgNotFound.RaceHappens | internal/storage/postgres.go:533-539 | a run with cascading deletes in which it does |
| PgNotFound.SurvivingKeyFails | internal/storage/postgres.go:535-539 | a run of a schema without the cascade in which a call begun after the delete fails too |
| Breaker.Normalize | internal/storage/circuitbreaker.go:73-93 | positive settings are kept; the others become 5, 2, 30 s and 2 |
| BreakerRuns.InvariantHolds | internal/storage/circuitbreaker.go:120-191 | in every run: Closed is below the failure threshold, HalfOpen below the success threshold and within its slots, and every slot used is a success, a voided probe or a call in flight |
| BreakerRuns.ClosedCountsTheStreak | internal/storage/circuitbreaker.go:164-166 | in Closed the failure count is the number of counted failures since the later of entering Closed and the last success |
| BreakerRuns.LeavesClosedAtThreshold | internal/storage/circuitbreaker.go:186-190 | a step leaves Closed exactly when it is the counted failure that brings the streak to the threshold, whatever mode the call was admitted in |
| BreakerRuns.NoAdmissionWithinTimeout | internal/storage/circuitbreaker.go:124-134 | no call is admitted within OpenTimeout of an opening, late failures notwithstanding |
| BreakerRuns.OpenAdmitsIff | internal/storage/circuitbreaker.go:124-134 | an open breaker lets a call pass if and only if more than OpenTimeout has gone by since it opened, and that begins a half-open episode |
| BreakerRuns.OpenEndsIff | internal/storage/circuitbreaker.go:124-134 | Open ends in HalfOpen exactly by such a call and in Closed exactly by a reset |
| BreakerRuns.ClosedAdmits | internal/storage/circuitbreaker.go:120-144 | a closed breaker lets every call pass |
| BreakerRuns.EpisodeIsBounded | internal/storage/circuitbreaker.go:135-140 | a half-open episode admits between 1 and MaxHalfOpenRequests calls and always lacks a success |
| BreakerRuns.HalfOpenAdmitsIff | internal/storage/circuitbreaker.go:135-140 | within an episode a call passes if and only if fewer than MaxHalfOpenRequests did before it |
| BreakerRuns.HalfOpenEndsIff | internal/storage/circuitbreaker.go:146-185 | an episode ends in Open exactly at an error other than bare ErrUnavailable, and in Closed exactly at the success that completes SuccessThreshold, or a reset |
| BreakerRuns.WedgedForever | internal/storage/circuitbreaker.go:135-138 | half-open with all slots used and nothing in flight, every later call is rejected and nothing changes until a reset |
| BreakerRuns.WedgeHasACause | internal/storage/circuitbreaker.go:146-191 | that state arises only with fewer slots than successes required, or after a probe of the episode ended with bare ErrUnavailable |
| BreakerRuns.WedgeIffTooFewProbes | internal/storage/circuitbreaker.go:43-53 | leaving bare ErrUnavailable aside, a configuration can reach it if and only if MaxHalfOpenRequests < SuccessThreshold |
| BreakerRuns.UnavailableProbesWedge | internal/storage/circuitbreaker.go:170-174 | with bare ErrUnavailable every configuration can reach it |
| BreakerRuns.ShippedSettingsCanWedge | configs/config.yaml:84-89 | the shipped settings can, once the breaker is enabled |
| Repositories.CircuitBreakerRepository.constructor | internal/storage/circuitbreaker.go:73-93 | starts closed with normalized settings |
| Repositories.CircuitBreakerRepository.BeforeCall | internal/storage/circuitbreaker.go:120-144 | is Breaker.Before |
| Repositories.CircuitBreakerRepository.AfterCall | internal/storage/circuitbreaker.go:146-191 | is Breaker.After |
| Repositories.CircuitBreakerRepository.ResetForce | internal/storage/circuitbreaker.go:101-113 | is Breaker.Reset |
| Repositories.CircuitBreakerRepository.Call | internal/storage/circuitbreaker.go:193-263 | rejected calls do not reach the store; admitted ones do, and their error is reported to the breaker |
| Repositories.CircuitBreakerRepository.Close | internal/storage/circuitbreaker.go:267-270 | resets the breaker and closes the store |
| Repositories.CacheRepository.constructor | internal/storage/cache.go:43-56 | starts empty, and coherent over a normal breaker and a store without the empty id; positive settings are kept, the others become 30 s and 10000 |
| Repositories.CacheRepository.Lookup | internal/storage/cache.go:65-76 | finds exactly the unexpired entry |
| Repositories.CacheRepository.LookupStale | internal/storage/cache.go:78-86 | finds the entry, expired or not |
| Repositories.CacheRepository.Insert | internal/storage/cache.go:88-98 | room is made only for a new key, by its own clock reading, then the entry expires a ttl from now |
| Repositories.CacheRepository.Evict | internal/storage/cache.go:104-127 | leaves what eviction may leave for some order of the scan |
| Repositories.CacheRepository.DropExpired | internal/storage/cache.go:109-113 | removes exactly the expired entries |
| Repositories.CacheRepository.ScanOldest | internal/storage/cache.go:117-123 | is the scan over some enumeration of the keys |
| Repositories.CacheRepository.Get | internal/storage/cache.go:138-153 | refines the stack's step, keeps coherence, and returns only the stored user |
| Repositories.CacheRepository.Update | internal/storage/cache.go:159-165 | refines the stack's step and keeps coherence |
| Repositories.CacheRepository.ReadModifyUpdate | internal/storage/cache.go:167-177 | refines the stack's step, keeps coherence, and returns only the stored user |
| Repositories.CacheRepository.Delete | internal/storage/cache.go:179-185 | refines the stack's step and keeps coherence |
| Repositories.CacheRepository.Forward | internal/storage/cache.go:155-157 | creates, lists and pings pass through and keep coherence |
| Repositories.CacheRepository.Close | internal/storage/circuitbreaker.go:267-270 | closing through the cache keeps the entries, and they still equal the stored users |
| Cache.OldestIsMinimal | internal/storage/cache.go:117-123 | without the empty key the scan finds an entry of minimal expiry, in any order |
| Cache.SetsKeepsBound | internal/storage/cache.go:88-127 | the cache never outgrows maxEntries, for any order, and an insertion changes no other entry |
| Cache.EvictsLittle | internal/storage/cache.go:100-127 | at most one unexpired entry goes, it has minimal expiry, and only when dropping the expired ones made no room |
| Cache.SetsDropsOnlyWhenFull | internal/storage/cache.go:104-116 | while there is room nothing is dropped, expired or not; when there is none, all that has expired goes |
| Cache.ScanFindsNothingIff | internal/storage/cache.go:117-126 | some order finds nothing to evict if and only if the empty key is cached and expires strictly first |
| Cache.EmptyKeyOutgrowsBound | internal/storage/cache.go:124-126 | then the bound is exceeded |
| Stack.StepsKeep | internal/storage/cache.go:138-185 | every operation through cache, breaker and memory keeps each entry equal to the stored user |
| Stack.RunIsCoherent | cmd/server/main.go:248-284 | in every sequential run of the stack, through expiry, eviction, rejections and Close, each entry (expired or not) equals the stored user and the bound holds |
| Stack.ReturnedUsersAreStored | internal/storage/cache.go:138-177 | any user returned by Get or ReadModifyUpdate is the store's value for that id after the call |
| Stack.RejectionsAreNotServedStale | internal/storage/cache.go:138-149 | in every run a Get returns ErrCircuitOpen if and only if the breaker rejects it and there is no fresh entry; expired ones are not served |
| Stack.ModifySuccessIff | internal/storage/cache.go:167-177 | in every run, a nil error of ReadModifyUpdate means the callback's result was returned and stored, at that id only, except exactly when the breaker admits, the id is cached, and the store is closed or the callback aborts with ErrUnavailable (then the stored user is returned and nothing is written, which is noticed unless the callback changes nothing); an error means nothing was written |
| Stack.ClosedModifyReportsSuccess | internal/storage/cache.go:171-175 | the exception is reached in every configuration: create, read, close, update reports success and loses the update |
| StackAnswers.GetSucceedsIff | internal/storage/cache.go:138-153 | in every run a Get returns the stored user if and only if it is cached and fresh, or the breaker admits and it can be read, or it is cached (however long expired) when the context has ended or the repository is closed |
| StackAnswers.GetFailsIff | internal/storage/cache.go:138-153 | and comes back with each of its errors exactly in one case each |
| StackAnswers.GetCaches | internal/storage/cache.go:150-152 | a Get that reads the store caches what it read for a ttl and drops nothing while there is room; no other Get changes the cache |
| StackAnswers.OthersPassThrough | internal/storage/circuitbreaker.go:193-263 | other operations come back from the store if the breaker admits them, and undone with ErrCircuitOpen if not |
| StackAnswers.ModifyPassesThrough | internal/storage/cache.go:167-177 | so does ReadModifyUpdate, unless the stored user is served instead |
| StackAnswers.WritesInvalidate | internal/storage/cache.go:155-185 | an entry goes exactly when an update or delete of its id succeeds |
| StackAnswers.ModifyInvalidates | internal/storage/cache.go:167-177 | or when ReadModifyUpdate has stored what it returns |
| StackAnswers.BreakerTakesPart | cmd/server/main.go:248-284 | in every run the breaker between cache and store goes through a run of its own, fed with the store's results, so the theorems about its runs apply |
| CacheInterleaving.EntryWasStored | internal/storage/cache.go:88-98 | under any interleaving, each cached value was the store's for its key at some earlier instant, no earlier than ttl + latency before it expires |
| CacheInterleaving.FetchedWasStored | internal/storage/cache.go:142-142 | so was each value held by a Get in flight, when it was read |
| CacheInterleaving.AnswerWasStored | internal/storage/cache.go:138-153 | an answer read from the store was the store's value at a moment between asking and answering, at most the latency earlier; an answer from an entry, fresh or stale, at a moment no earlier than ttl + latency before the entry's expiry |
| CacheInterleaving.FreshHitIsRecent | internal/storage/cache.go:65-76 | a fresh hit was current no more than ttl + latency earlier |
| CacheInterleaving.ReachIsBounded | internal/storage/cache.go:88-127 | under any interleaving the cache stays within maxEntries as long as no stored id is empty |
| CacheInterleaving.QuietCacheAgrees | internal/storage/cache.go:159-185 | with no invalidation of its key to come, an entry not filled by an overtaken Get is the stored user; and where no write brings back an earlier value of its key, an entry is the stored user if and only if it was not filled by an overtaken Get |
| CacheInterleaving.OvertakenGetLeavesOldValue | internal/storage/cache.go:142-152 | a Get overtaken between read and fill leaves an old value that is served as fresh |
| Memory.MemoryRepository.constructor | internal/storage/memory.go:23-28 | starts empty and open |
| Memory.MemoryRepository.CreateWithIdempotency | internal/storage/memory.go:32-65 | new state and reply of a keyed create, replays and error cases included |
| Memory.MemoryRepository.Create | internal/storage/memory.go:68-88 | new state and reply of a create |
| Memory.MemoryRepository.Get | internal/storage/memory.go:91-105 | reply of a read |
| Memory.MemoryRepository.Update | internal/storage/memory.go:108-125 | new state and reply of an update |
| Memory.MemoryRepository.ReadModifyUpdate | internal/storage/memory.go:130-155 | new state and reply; an aborting callback changes nothing |
| Memory.MemoryRepository.Delete | internal/storage/memory.go:158-172 | new state and reply of a delete; the key rows stay |
| Memory.MemoryRepository.List | internal/storage/memory.go:177-211 | the page and next cursor of the sorted listing |
| Memory.MemoryRepository.CollectAfter | internal/storage/memory.go:189-194 | collects exactly the ids after the cursor, each once |
| Memory.SortStrings | internal/storage/memory.go:195-195 | an ascending rearrangement |
| Memory.MemoryRepository.Fetch | internal/storage/memory.go:202-205 | the users of the page, in its order |
| Memory.MemoryRepository.Ping | internal/storage/memory.go:214-216 | only the context decides |
| Memory.MemoryRepository.Close | internal/storage/memory.go:220-225 | closes and keeps the users |
| MemoryRuns.OneUserPerKey | internal/storage/memory.go:32-65 | in every run at most one live user was created under any key, and no stored id is empty |
| MemoryRuns.ReplayReturnsTheUser | internal/storage/memory.go:50-55 | a replay returns the user created under the key in its present form and changes nothing, even at capacity, unless it was deleted or the repository closed |
| MemoryRuns.CapacityHolds | internal/storage/memory.go:56-58 | with one fixed limit the user count never exceeds it |
| MemoryAnswers.LatestIsStored | internal/storage/memory.go:68-172 | in every run the value stored under an id is the last one that successful operations are seen to have written, and nothing after a successful delete |
| MemoryAnswers.GetAnswers | internal/storage/memory.go:91-105 | Get returns that value if and only if there is one; every error of it has exactly one cause |
| MemoryAnswers.UpdateAnswers | internal/storage/memory.go:108-125 | Update succeeds if and only if there is one |
| MemoryAnswers.DeleteAnswers | internal/storage/memory.go:158-172 | Delete succeeds if and only if there is one, and changes nothing otherwise |
| MemoryAnswers.ModifyAnswers | internal/storage/memory.go:130-155 | ReadModifyUpdate returns what the callback makes of it, and fails with the callback's error |
| MemoryAnswers.CreateAnswers | internal/storage/memory.go:68-88 | Create succeeds if and only if there is room and no value under the id |
| MemoryAnswers.CreateKeyedAnswers | internal/storage/memory.go:32-65 | a keyed create replays if and only if the id last created under the key has a value, even at capacity, and otherwise answers as a create |
| MemoryAnswers.OtherAnswers | internal/storage/memory.go:177-216 | List answers with a page if and only if context, limit and repository allow it; Ping looks at the context alone |
| MemoryAnswers.DeletesAlternateWithCreates | internal/storage/memory.go:158-172 | two successful deletes of one id have a successful create of it between them |
| Paging.CursorSplitsListing | internal/storage/memory.go:196-210 | the page after a cursor continues the listing where the page before ended |
| Paging.WalkAscends | internal/storage/memory.go:177-211 | with any mutation between pages, a cursor walk returns strictly ascending ids |
| Paging.WalkComplete | internal/storage/memory.go:177-211 | a walk that ends has returned every id that was live throughout |
| Paging.WalkSound | internal/storage/memory.go:177-211 | whatever it returns was on one of its pages, live in the store that page was read from with that page's cursor |
| Paging.CursorWalk | internal/storage/memory.go:174-176 | from the start, every such user appears exactly once |
| Tokens.TokenRoundTrip | internal/service/user.go:161-178 | every cursor is read back from its token, and only the empty cursor has the empty token |
| Tokens.DigitsAreTheAlphabet | internal/service/user.go:161-167 | the digits are those of table 2 of RFC 4648 |
| Tokens.GroupIsANumber | internal/service/user.go:161-167 | the four digits of a group and its three bytes are the same number |
| Tokens.TestVectors | internal/service/user.go:161-167 | test vectors of section 10 of RFC 4648 |
| Tokens.AcceptedIff | internal/service/user.go:169-178 | a token is accepted if and only if, line breaks apart, it consists of digits and none is left alone in its group |
| Tokens.StripSkips | internal/service/user.go:169-178 | line breaks are skipped wherever they are, and nothing else is |
| Tokens.CanonicalTokens | internal/service/user.go:169-178 | an accepted token is the one written for its cursor if and only if it has no line breaks and its unused bits are zero |
| Tokens.TokensAreNotUnique | internal/service/user.go:169-178 | two tokens for one cursor |
| ListUsers.PageSize | internal/service/user.go:137-143 | sizes in [1, 1000] are kept, smaller ones become 50, larger ones 1000 |
| ListUsers.FollowListsEverything | internal/service/user.go:126-158 | on an unchanging store, following the tokens takes max(1, ceil(n/size)) calls, ends, and yields every stored user exactly once, in ascending order of id |
| ListUsers.ListAnswers | internal/service/user.go:126-158 | a page if and only if the context is live, the token can be read and the repository is open; each rejection has its cause |
| ListUsers.EmptyIdIsNeverListed | internal/storage/memory.go:190-194 | why no stored id may be empty |
| Backoff.ClientBackoffInRange | pkg/interceptors/client_retry.go:96-114 | for every base and attempt the wait lies in [1, MaxBackoff], and each value up to the ceiling can be drawn |
| Backoff.CeilingExactIff | pkg/interceptors/client_retry.go:96-108 | under int64 wrapping the ceiling is min(base * 2^attempt, MaxBackoff) for all bases and attempts if and only if MaxBackoff <= 2^32 ns |
| Backoff.WrappedMultiple | pkg/interceptors/client_retry.go:103-108 | a wrapped multiple of 2^a is not positive or at least 2^a |
| Backoff.PgBackoffBounds | internal/storage/postgres.go:128-143 | without overflow the wait is positive and within a quarter of min(base * 2^attempt, cap) |
| Backoff.PgJitterIff | internal/storage/postgres.go:137-143 | the waits that jitter can draw are exactly d - floor(d/4) to d - floor(d/4) + floor(d/2) - 1 |
| Backoff.DelayExactIff | internal/storage/postgres.go:127-136 | the delays of attempts 0 to n are min(base * 2^attempt, cap) if and only if base * 2^n < 2^63 |
| Backoff.PgBackoffCollapses | internal/storage/postgres.go:129-136 | from attempt 64 on the wait is zero |
| Backoff.DefaultPgBackoffOverflows | internal/storage/postgres.go:26-30 | with the default base the product fits up to attempt 35 and no further, and attempt 36 waits a negative time |
| RetryLoops.RetryOperation | internal/storage/postgres.go:176-201 | at most maxAttempts calls, every non-final one failed retryably and every later one found its context live; the context's error exactly if it ended between attempts, otherwise the last call's result; one wait for each retry and one that the context cut short; no call at all when attempts <= 0 |
| RetryLoops.RetryLoop | internal/storage/postgres.go:176-201 | the loop makes as many calls as its environment calls for, and records their results and waits |
| RetryLoops.ExecutionsStop | internal/storage/postgres.go:177-200 | when it goes on and why it stops |
| RetryLoops.WaitsAsDocumentedIff | internal/storage/postgres.go:183-190 | every wait the loop can ask for is within a quarter of min(base * 2^attempt, cap) if and only if base * 2^(maxAttempts - 2) < 2^63 (or there is no wait) |
| RetryLoops.DefaultsAreExactIff | internal/storage/postgres.go:26-30 | with the default base and cap, if and only if there are at most 37 attempts |
| RetryLoops.TotalWaiting | internal/storage/postgres.go:183-190 | then all waits together are at most 1.25 * cap * (maxAttempts - 1) |
| RetryLoops.ShouldRetry | pkg/interceptors/client_retry.go:52-62 | the configured codes for callers that opted in, Unavailable and ResourceExhausted otherwise |
| RetryLoops.Contains | pkg/interceptors/client_retry.go:83-90 | membership in a list of codes |
| RetryLoops.Intercept | pkg/interceptors/client_retry.go:120-145 | the loop makes as many invocations as its environment calls for, records their outcomes and waits, and returns the last outcome or the context's error |
| RetryLoops.InvocationsStop | pkg/interceptors/client_retry.go:122-143 | every invocation but the last is retried, in a live context; the last is not, or uses up the attempts, or the context ends before the next |
| RetryLoops.RetryUnary | pkg/interceptors/client_retry.go:120-145 | hence the interceptor's calls, result and waits, for every environment |
| ClientCreate.RetriedCreate | pkg/interceptors/client_retry.go:120-145 | with a key and no deletes, all attempts together create at most one user, none if the key was in use; success is the key's user; non-final attempts failed with retryable codes |
| ClientCreate.BoundKeyIsReplayed | internal/service/user.go:198-219 | once the key names a live user no attempt creates another |
| ClientCreate.SuccessIsTheKeysUser | internal/service/user.go:215-219 | a success the client sees is the user its key names |
| Rpc.CodesHaveCauses | internal/service/user.go:471-486 | the status code of each storage error, wrapped or not |
| ClientCreate.AttemptsMakeOnce | pkg/interceptors/client_retry.go:120-145 | any number of attempts with a key and no deletes creates at most one user, none if the key was in use |
| ClientCreate.UnkeyedRetryDuplicates | pkg/interceptors/client_retry.go:25-31 | one call can create two users, without deletes, if and only if it has no key, maxAttempts >= 2, some error code is retried for the caller (always so without opt-in) and maxUsers >= 2 |
| RateLimit.PerClientRateLimiter.constructor | pkg/interceptors/limits.go:67-79 | starts without clients and with a full global bucket |
| RateLimit.PerClientRateLimiter.Lookup | pkg/interceptors/limits.go:94-104 | finds or makes the client's bucket and notes the access |
| RateLimit.PerClientRateLimiter.TakeFrom | pkg/interceptors/limits.go:105-105 | takes a token if there is one |
| RateLimit.PerClientRateLimiter.Allow | pkg/interceptors/limits.go:93-106 | is the one step after the other |
| RateLimit.PerClientRateLimiter.EvictIdle | pkg/interceptors/limits.go:121-130 | removes exactly the clients idle for longer than the age |
| RateLimitRuns.StepKeeps | pkg/interceptors/limits.go:93-130 | every lookup, draw and sweep keeps each bucket as good as the never-evicting one |
| RateLimitRuns.EvictionInvisible | pkg/interceptors/limits.go:93-130 | if a client idle for longer than the age has refilled, every Allow of every interleaving is answered as without eviction |
| RateLimitRuns.EvictionInvisibleIff | pkg/interceptors/limits.go:121-130 | that is so in every run if and only if burst <= rate * (age + 1 - delay) |
| RateLimitRuns.RateIsBoundedIff | pkg/interceptors/limits.go:46-50 | in every window of length T of every run a client is admitted at most burst + rate * T times, evictions included, if and only if burst <= rate * (age + 1 - delay) |
| RateLimitRuns.TwiceTheBurst | pkg/interceptors/limits.go:121-130 | otherwise a client drains its bucket, is evicted and drains the new one: 2 * burst admissions in age + 1 - delay |
| RateLimitRuns.ShippedLimitsAreGenerous | cmd/server/main.go:288-292 | the shipped limits meet the condition |
| Migrations.Collect | internal/storage/postgres.go:263-277 | the versions of the scripts, or failure exactly when a name does not parse |
| Migrations.ScriptsIff | internal/storage/postgres.go:263-277 | a version is listed if and only if a file of that kind, not a directory, has it |
| Migrations.SortVersions | internal/storage/postgres.go:278-278 | an ascending rearrangement |
| Migrations.PendingMigrations | internal/storage/postgres.go:258-292 | the embedded versions not applied, ascending |
| Migrations.VerifyMigrations | internal/storage/postgres.go:358-400 | accepts if and only if version 1 is there (or nothing is) and every applied version is embedded |
| Migrations.GapIsAccepted | internal/storage/postgres.go:379-388 | so versions 1 and 3 without 2 are accepted and migrated |
| Migrations.RunScripts | internal/storage/postgres.go:234-245 | runs all pending versions strictly ascending, or fails, with a faultless database exactly when a version is there twice |
| Migrations.Migrate | internal/storage/postgres.go:203-247 | success applies exactly the missing versions, once each, strictly ascending; failure changes nothing; with a faultless database it succeeds if and only if the chain is consistent |
| Migrations.MigrateIsIdempotent | internal/storage/postgres.go:284-290 | what has been migrated is consistent for migrating again, and migrating again is running nothing |
| Migrations.MigrateTwice | internal/storage/postgres.go:203-247 | after a success, a second migration on a database that refuses nothing succeeds, runs nothing and changes nothing |
| Migrations.CollectDowns | internal/storage/postgres.go:323-337 | the down scripts by version, or failure exactly when a name does not parse |
| Migrations.LastDownCounts | internal/storage/postgres.go:323-337 | of several down scripts of one version the last one counts |
| Migrations.SortDescending | internal/storage/postgres.go:345-351 | the versions, highest first |
| Migrations.RunDowns | internal/storage/postgres.go:418-435 | runs as many as asked for or available, or fails, with a faultless database only because a script dropped the ledger |
| Migrations.ApplyDown | internal/storage/postgres.go:405-439 | success removes exactly the highest versions that have a down script; failure changes nothing; with a faultless database it succeeds if and only if its scripts spare the ledger |
| Migrations.RollbackThenMigrate | internal/storage/postgres.go:402-439 | with a down script for every version, a rollback of k removes exactly the k highest (or all), and migrating again runs exactly those and restores the set |
| Migrations.RollBackAndReturn | internal/storage/postgres.go:203-439 | migrate, roll back, migrate: on a database that refuses nothing the rollback succeeds exactly if its scripts spare the ledger, migrating again exactly if no version rolled back is embedded twice, and that restores the set |
| Migrations.ShippedRollbackStopsAtTwo | internal/storage/migrations/0001_users.down.sql:1-2 | no rollback of the shipped scripts gets past two versions |

## Left out

- Authentication, authorization, TLS, configuration loading, logging, metrics, tracing, audit, request ids, panic recovery, timeouts, the concurrency limit and the process-wide rate limiter: plumbing, library work or one-branch facts.
- Streaming RPCs, GetUser, UpdateUser and DeleteUser of the service, and its field validation: they would only add easy members.
- PostgreSQL's Get, List, Update and ReadModifyUpdate as transactions of their own: the step system has updates and deletes as single committed statements; row locks are not modelled.
- SQL text, schema constraints other than primary keys, and the contents of scripts: abstract, except that a down script may drop the table of applied versions.
- File names of migrations: the model starts from their kind and parsed version; parseMigrationVersion is not part of it. A commit of migrations that takes effect but reports an error is not modelled either.
- The stream retry interceptor: the same loop as the unary one.
- RateLimit: durations below the resolution of float64, where the library may grant a token slightly early, are not modelled; an Allow that stalls for longer than the eviction age between its two steps is outside the theorems.
- Uniqueness of random user ids and the quality of jitter: ids are arbitrary, jitter is any value in its range.
