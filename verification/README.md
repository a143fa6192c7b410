# Replay protection and authorization in `ext_authz`

This project models the stateful core of the Go authorization service `ext_authz` and proves what it guarantees:
that a token or a DPoP proof is not accepted twice, that the shared Redis index stays bounded under concurrency, that
the policy scan means what a reader of the rule list expects, that the rate limiter keeps a sharp bound, and that the
two text formats it reads and writes are unambiguous.

`dafny verify dfyconfig.toml` checks the whole project.

## How it is organised

| module | what it models |
|---|---|
| `Text`, `Decimal` | Go strings as bytes: `TrimSpace`, case, order, `Join`, `IndexByte`; `Itoa` and `Atoi` |
| `MemoryReplay` | `ReplayCache` without a backend: the class, the relation that one call follows, and all runs |
| `RedisProtocol` | `markIfNew` over one shared store as a transition system: one atomic step per Redis command and one place per caller, any number of callers and instances; every command can be carried out, be carried out with its reply lost, or not run; a failed SET sends its caller to the fallback of its instance |
| `RedisBound`, `RedisShelter`, `RedisAccept`, `RedisRefusal`, `RedisExamples` | what every interleaving keeps (the size of the index; which live keys it covers; who accepts an identifier how often; when one is refused), and runs that attain the bounds and show what each failure costs |
| `RedisBackend`, `ReplaySwitch` | the commands and `markIfNew` as methods of a store, the switch to the fallback, and the proof that a call that runs alone, answered by Redis or by the fallback, is a run of the protocol |
| `SwitchRuns` | runs of such calls: the index, the live keys, and when a call is refused |
| `Resp` | the RESP writer and the recursive reader (RESP2, "Bulk strings" and "Arrays") |
| `RespReplies`, `RespStreams` | every reply that a server can send, what the backend makes of it, and incomplete or irregular input |
| `RateLimit` | the fixed-window limiter |
| `StringLists` | `normalizeList`, binary search and the in-place `dedupeList` |
| `Conditions`, `ConditionLaws` | facts, operators and condition trees; what each operator and each fact means |
| `Policy`, `PolicyLaws` | rules, the declarative decision, the imperative `Evaluate` and `normalize`; the decision in the fields of the policy as written |
| `Scopes` | `ValidateScopes` and the scope gate |
| `Dpop` | the checks on a DPoP proof in their order, with the outcome of cryptography as a status (section 11.1 of RFC 9449 is about the window that these checks leave) |
| `Server`, `ServerLaws` | `Check` as a method of a class that owns the caches, the limiter and the nonce; its contract lists the gates in order, and the laws say when it allows, and with which status it denies |
| `Pipeline`, `CheckRefines` | any number of concurrent `Check`s with one atomic step per use of a store, and the proof that a call of `Check` is a run of that system |
| `PipelineLaws` | what every such run guarantees of an allowed request, of the nonce and of the limits |
| `NonceUse` | what the DPoP nonce adds to the proof cache in concurrent runs |
| `SignatureHeader`, `HeaderLaws`, `UnquoteLaws`, `SigningString` | the `Signature` header, what it is read as, its quoted values, and the canonical text that is signed (compare section 2.5 of RFC 9421) |

Methods with loops and fields are methods with loops and fields here, each proved against a function or a relation on
values; the theorems are about those. Where several results are possible (the range order of a Go map decides which of
several equally old entries is evicted) the specification is a relation, and the theorems hold of every choice.

## What the code does that its documentation does not say

- `docs/attack-scenarios.md` gives the replay window as the time to live. The in-memory cache purges only every `ttl`,
  so it can reject a token up to `2 * ttl - 1` after its acceptance (`MemoryReplay.LateRejection`), never later
  (`MemoryReplay.RejectedOnlyIfRecent`); `MemoryReplay.RejectedWithinTtl` says exactly when the documented window
  holds of a rejection. It accepts a token again within `ttl` only after `max` others (`MemoryReplay.ReplayWindow`).
- `docs/architecture.md` lists the policy before the replay check and nothing between; in the code the rate limiter and
  the scopes come between them, and the token is marked last, so that no denied request consumes it.
- A matching deny rule denies even when its conditions fail (`Policy.DenyRuleDenies`); rules that match without one of
  them deciding deny even under default allow (`Policy.UndecidedIsDenied`); the global rule is judged under the default
  action and not under its own (`Policy.AllowedIff`).
- An empty `any` is satisfied like an empty `all` (`Conditions.DeMorgan`), and `not_exists` never is
  (`Conditions.NotExistsNeverHolds`). Constraints see an empty request.
- The index of the Redis backend may miss a live key (`RedisExamples.LiveKeyEscapesIndex`), which no eviction then
  finds; `RedisShelter.ShelterRun` and `SwitchRuns.SwitchRunKeepsIndex` say exactly when, for interleaved and for
  single calls.
- The key of the rate limiter rounds the window to milliseconds, so that windows with fractions share buckets
  (`RateLimit.BoundedExactly`).

## Assumptions

- Time is an integer number of nanoseconds and does not go back. A call of a cache or of the limiter reads the clock
  before it takes its lock; the model takes the readings to be in lock order. One reading serves a whole sequential
  `Check`; in `Pipeline` the clock can advance between any two steps. Redis and the instances share one clock, and a
  Redis key is expired when the clock in milliseconds has passed its expiry time.
- Every `char` is one byte. White space is exact, including its UTF-8 forms beyond ASCII; case mapping is that of ASCII
  letters.
- The range order of headers, claims and claim maps is the order of a list. Regular expressions, number and duration
  parsing and the local time are parameters of the policy engine; numbers are reals.
- What certificate parsing, revocation, token verification, proof signatures, thumbprints and holder-of-key signatures
  come to is a value or a status of the request.
- `sort.Strings` is modelled by its specification, an ordered permutation.

## Model
| member | source | states |
|---|---|---|
| `MemoryReplay.ReplayCache.MarkIfNew` | ext_authz/internal/cache/replay.go:118-147 | a blank `jti` is refused before the cache is touched; any other is trimmed and takes exactly one step of the cache relation, accepted or reported as replayed |
| `MemoryReplay.ReplayCache.MarkIfNewInMemory` | ext_authz/internal/cache/replay.go:149-164 | purge, membership test, eviction of one oldest entry when full, insertion: the new cache, log and clock are those of one step, and the run invariant holds again |
| `MemoryReplay.ReplayCache.PurgeExpired` | ext_authz/internal/cache/replay.go:166-178 | nothing before `ttl` has passed since the last purge; then exactly the entries older than the cutoff go, whatever the map order |
| `MemoryReplay.ReplayCache.EvictOldest` | ext_authz/internal/cache/replay.go:180-194 | exactly one entry goes and none was older; the `""` marker is sound because no key is empty |
| `MemoryReplay.ReplayCache.constructor` | ext_authz/internal/cache/replay.go:94-107 | non-positive settings become the defaults, and the empty cache satisfies the run invariant |
| `MemoryReplay.EvictionHasWitnesses` | ext_authz/internal/cache/replay.go:159-163 | when a full cache evicts, `max` other identifiers were accepted no earlier than the victim |
| `MemoryReplay.StepInv` | ext_authz/internal/cache/replay.go:149-194 | every call keeps: at most `max` entries, all with proper keys, all logged, all younger than `2 * ttl`, every acceptance held, expired or outnumbered, and the replay window so far |
| `MemoryReplay.RunInv` | ext_authz/internal/cache/replay.go:149-194 | the invariant holds after every call of every run |
| `MemoryReplay.ReplayWindow` | ext_authz/internal/cache/replay.go:149-194 | in every run, a second call with an accepted identifier at most `ttl` later is rejected unless `max` other identifiers were accepted in between at times no earlier; ties and any map order included |
| `MemoryReplay.RejectedOnlyIfRecent` | ext_authz/internal/cache/replay.go:149-178 | a call is rejected as a replay only if the same identifier was accepted less than `2 * ttl` before |
| `MemoryReplay.RejectedWithinTtl` | ext_authz/internal/cache/replay.go:149-178 | in every run a rejected call has an acceptance at most `ttl` before it exactly unless its entry is older than `ttl` while the next purge is not due: the documented window holds but for this case |
| `MemoryReplay.LateRejection` | ext_authz/internal/cache/replay.go:166-178 | the age bound of `MemoryReplay.RejectedOnlyIfRecent` is met exactly: for every time to live, capacity and identifier a run rejects a call at age `2 * ttl - 1` |
| `RedisBound.NextVictimOf` | ext_authz/internal/cache/replay_redis.go:168-172 | a list of victims without blank names is worked off from its first member |
| `RedisBound.ZaddStep` | ext_authz/internal/cache/replay_redis.go:144 | a ZADD of any fate keeps the disjunctive invariant over all callers |
| `RedisBound.ZcardStep` | ext_authz/internal/cache/replay_redis.go:149-160 | a caller that counts takes over the responsibility for everything that was added before its count |
| `RedisBound.ZrangeStep` | ext_authz/internal/cache/replay_redis.go:162-166 | the victims that a stale count asks for, once gone, leave at most `max` members plus those of callers that joined since |
| `RedisBound.ZremStep` | ext_authz/internal/cache/replay_redis.go:168-174 | removing a victim, whoever else removes or adds members meanwhile, keeps the invariant |
| `RedisBound.FailedStep` | ext_authz/internal/cache/replay_redis.go:149-174 | a ZCARD or ZRANGE that fails, or a ZREM that is not carried out, costs the accounts of all callers one member and no more |
| `RedisBound.StepInv` | ext_authz/internal/cache/replay_redis.go:120-177 | every step of every caller keeps the invariant, or raises the number of lost members in it by one |
| `RedisBound.IndexBoundWithFailures` | ext_authz/internal/cache/replay_redis.go:120-177 | in every interleaving of any number of callers, whatever fails, the index exceeds `max` by at most the number of callers between their ZADD and their return and the number of steps that failed to evict |
| `RedisBound.IndexBound` | ext_authz/internal/cache/replay_redis.go:120-177 | when ZCARD, ZRANGE and ZREM are carried out and the first two answered, by at most the callers in between; with none there it is within `max` |
| `RedisExamples.BoundIsAttained` | ext_authz/internal/cache/replay_redis.go:149-155 | the bound is sharp: for every configuration with a time to live of a millisecond or more and every number of failures a run ends with nobody in between and the index above `max` by that number |
| `RedisExamples.LiveKeyEscapesIndex` | ext_authz/internal/cache/replay_redis.go:168-174 | a DEL and its ZREM can straddle the SET and ZADD of another caller: then a live key is not in the index, with no command failed and nobody in flight |
| `RedisExamples.LostCountBreaksBound` | ext_authz/internal/cache/replay_redis.go:149-155 | for every configuration a lost or failed ZCARD leaves a full index above `max` with nobody in between |
| `RedisExamples.LostRangeBreaksBound` | ext_authz/internal/cache/replay_redis.go:162-166 | so does a lost or failed ZRANGE |
| `RedisExamples.SkippedZremBreaksBound` | ext_authz/internal/cache/replay_redis.go:168-174 | and so does a ZREM that is not carried out |
| `RedisShelter.ShelterStep` | ext_authz/internal/cache/replay_redis.go:132-174 | from a state in which every live key is in the index or about to be added, a step leads out exactly when it is a SET whose reply is lost on a key that is neither live, indexed nor being added, a ZADD that is not carried out for a live key that nobody else adds, or a ZREM of a live key that nobody is adding |
| `RedisShelter.ShelterRun` | ext_authz/internal/cache/replay_redis.go:120-177 | every live key is in the index or about to be added throughout a run, over all interleavings and failures, exactly as long as none of these steps occurs |
| `RedisShelter.LiveKeysBound` | ext_authz/internal/cache/replay_redis.go:120-177 | then the bound on the index is a bound on the number of live keys whenever nobody is about to add |
| `RedisAccept.SetStep` | ext_authz/internal/cache/replay_redis.go:132-142 | a SET, answered, lost or not run, keeps each logged acceptance guarded by a live key, and two acceptances of one source apart by the window |
| `RedisAccept.FallStep` | ext_authz/internal/cache/replay.go:130-140 | a call that falls back keeps the guards of all sources and the separation of acceptances |
| `RedisAccept.StepInv` | ext_authz/internal/cache/replay.go:130-147 | every step of every caller keeps both |
| `RedisAccept.AcceptedAtMostOncePerSource` | ext_authz/internal/cache/replay.go:130-147 | `n` instances on one Redis, any interleaving, any schedule of failures: an identifier that nothing evicts is accepted at most `n + 1` times in an interval of the window's length |
| `RedisAccept.AcceptedAtMostOnce` | ext_authz/internal/cache/replay_redis.go:132-142 | while no SET fails, all instances together accept it at most once |
| `RedisRefusal.RefusedOnlyIfRecent` | ext_authz/internal/cache/replay_redis.go:131-139 | over all interleavings, failures and clocks, a SET is answered by a refusal only if an earlier SET, answered or with its reply lost, wrote the same identifier no more than the time to live before in whole milliseconds; so a refusal is never `ttl` and a millisecond old or older |
| `RedisRefusal.AcceptedWhenOver` | ext_authz/internal/cache/replay_redis.go:131-144 | an answered SET of an identifier that no SET wrote within the time to live is accepted: identifiers are free again when their time is over |
| `RedisRefusal.RunDated` | ext_authz/internal/cache/replay_redis.go:131-132 | in every reachable state each key has an earlier SET that wrote it and expires the time to live after that SET |
| `RedisRefusal.WindowIsTtl` | ext_authz/internal/cache/replay_redis.go:131 | the window of the Redis theorems is the time to live up to a millisecond |
| `RedisBackend.RedisStore.SetIfAbsent` | ext_authz/internal/cache/replay_redis.go:132-142 | SET NX PX: nil exactly for a live key, which stays; otherwise the key is set with its new expiry |
| `RedisBackend.RedisStore.Zrange` | ext_authz/internal/cache/replay_redis.go:162-166 | the `n` lowest members by score and then name, in order and without repetition |
| `RedisBackend.RedisStore.Evict` | ext_authz/internal/cache/replay_redis.go:168-174 | the loop removes the keys and the index entries of exactly the victims |
| `RedisBackend.RedisStore.MarkIfNew` | ext_authz/internal/cache/replay_redis.go:120-177 | a whole call: an error exactly when the time to live is under a millisecond, else a refusal of a live key without effect, or the key set and indexed and the lowest members beyond `max` gone from both |
| `RedisBackend.SerialIndexed` | ext_authz/internal/cache/replay_redis.go:132-176 | a call whose SET is answered keeps every live key in the index |
| `RedisBackend.TopStays` | ext_authz/internal/cache/replay_redis.go:162-174 | a member above all others survives every eviction |
| `RedisBackend.AcceptedStays` | ext_authz/internal/cache/replay_redis.go:132-176 | an accepted identifier with the highest score is alive and indexed afterwards |
| `RedisBackend.SerialReplayWindow` | ext_authz/internal/cache/replay_redis.go:120-177 | the replay window of the in-memory cache holds of serial Redis calls from an empty store too |
| `ReplaySwitch.SharedReplayCache.MarkIfNew` | ext_authz/internal/cache/replay.go:118-147 | Redis decides when its SET is answered; otherwise the fallback does, and Redis is untouched or, when only the reply was lost, holds the key |
| `ReplaySwitch.SharedReplayCache.MarkInRedis` | ext_authz/internal/cache/replay.go:130-141 | the backend call: an answer exactly when the SET is carried out and answered |
| `ReplaySwitch.SharedReplayCache.constructor` | ext_authz/internal/cache/replay.go:66-107 | backend and fallback get the same settings, defaults included |
| `SwitchRuns.SwitchRunKeepsIndex` | ext_authz/internal/cache/replay.go:118-147 | in every run of calls one at a time the index is within `max`, and it has every live key exactly as long as no call has its SET carried out and the reply lost on a key that is neither live nor indexed |
| `SwitchRuns.SwitchRunLiveKeys` | ext_authz/internal/cache/replay.go:118-147 | then at most `max` keys are alive after every call |
| `SwitchRuns.SwitchRefusedOnlyIfRecent` | ext_authz/internal/cache/replay.go:130-138 | in every run of calls one at a time a call that Redis refuses has an earlier one that wrote its identifier, no more than the time to live before |
| `SwitchRuns.FallbackRefusedOnlyIfRecent` | ext_authz/internal/cache/replay.go:140-147 | and a call that the fallback refuses has an earlier one that the fallback accepted, less than `2 * ttl` before |
| `ReplaySwitch.SerialIsARun` | ext_authz/internal/cache/replay_redis.go:120-177 | a call with an answered SET that runs alone is a run of the shared protocol, command by command |
| `ReplaySwitch.FallbackIsARun` | ext_authz/internal/cache/replay.go:130-140 | so is a call that falls back: a failed SET and one step of the fallback of its instance |
| `ReplaySwitch.SwitchIsARun` | ext_authz/internal/cache/replay.go:118-147 | whatever becomes of its SET, a call that runs alone is a run of the protocol with the same keys, fallback cache and answer, so that the bounds over all interleavings cover it |
| `Resp.Writer.WriteArrayCommand` | ext_authz/internal/cache/replay_redis.go:259-272 | appends exactly the encoding of the trimmed arguments |
| `Resp.Reader.ReadString` | ext_authz/internal/cache/replay_redis.go:274-284 | takes the bytes up to the next line feed, or reports an error at the end of the stream |
| `Resp.Reader.ReadFull` | ext_authz/internal/cache/replay_redis.go:305-312 | takes exactly the bytes asked for, or fails |
| `Resp.Reader.Read` | ext_authz/internal/cache/replay_redis.go:274-348 | the recursive reader over a connection answers, and moves on, as the reader on values does |
| `Resp.Reader.ReadArrayBody` | ext_authz/internal/cache/replay_redis.go:313-344 | the item loop appends the text of each item read, and stops at the first that fails |
| `Resp.ReadTakesPrefix` | ext_authz/internal/cache/replay_redis.go:274-348 | a successful read consumes a non-empty prefix of the stream and nothing else |
| `Resp.RoundTrip` | ext_authz/internal/cache/replay_redis.go:259-348 | for every argument list of arbitrary bytes and every following input, reading what was written gives the trimmed arguments and leaves that input |
| `Resp.StreamsAreUnique` | ext_authz/internal/cache/replay_redis.go:259-348 | two sequences of commands with one encoding are the same commands, argument by argument after trimming |
| `RespReplies.ReplyRoundTrip` | ext_authz/internal/cache/replay_redis.go:274-348 | a reply of any kind (status, error, signed 64-bit integer, bulk string of any bytes, nil, nil array, array nested to any depth) is read back as it was meant and leaves what follows; an error in it at any depth makes the read fail |
| `RespReplies.SetAnswered` | ext_authz/internal/cache/replay_redis.go:132-142 | of all replies to SET exactly the nil ones are refusals and exactly the status `OK`, in any case, is an acceptance; the rest are errors |
| `RespReplies.CountAnswered` | ext_authz/internal/cache/replay_redis.go:149-155 | only an integer reply is taken for a count, and for the one that was sent |
| `RespReplies.VictimsAnswered` | ext_authz/internal/cache/replay_redis.go:163-168 | the victims are the members that the server lists, in its order |
| `RespStreams.ReplyExtends` | ext_authz/internal/cache/replay_redis.go:274-348 | what has been read stays read when more bytes arrive, which are left for the next read |
| `RespStreams.Incomplete` | ext_authz/internal/cache/replay_redis.go:274-348 | every proper prefix of a reply is an error: nothing is taken for an answer before its last byte |
| `RespStreams.BareLine` | ext_authz/internal/cache/replay_redis.go:284 | the first line of a reply may end without its carriage return |
| `RespStreams.TrailerDropped` | ext_authz/internal/cache/replay_redis.go:305-312 | whatever follows the bytes of a bulk string on their last line is dropped |
| `RespStreams.NotAReply` | ext_authz/internal/cache/replay_redis.go:286-347 | an unknown first byte, or a number or length that is none, is an error |
| `Decimal.AtoiOfItoa` | ext_authz/internal/cache/replay_redis.go:259-300 | a printed length parses back to itself |
| `RateLimit.RateLimiter.Allow` | ext_authz/internal/cache/rate.go:26-64 | table and answer are those of one call on values: unlimited, refused for a blank identity, unlimited for a non-positive window, else served by the bucket of its key |
| `RateLimit.KeyInjective` | ext_authz/internal/cache/rate.go:38 | the composite key determines limit, trimmed identity and window in milliseconds, even when the identity contains vertical bars |
| `RateLimit.AnswerBucket` | ext_authz/internal/cache/rate.go:43-63 | a call changes the bucket of its own triple and of no other |
| `RateLimit.Isolation` | ext_authz/internal/cache/rate.go:26-64 | the answer to a call is the one it gets when all calls of other triples are deleted from the run |
| `RateLimit.TrackSpaced` | ext_authz/internal/cache/rate.go:45-63 | in every run buckets hold at most `max` allowed calls and open at least a window apart |
| `RateLimit.SlidingBound` | ext_authz/internal/cache/rate.go:26-64 | any half-open interval as long as the shortest window asked for has at most `2 * max - 1` allowed calls of one triple |
| `RateLimit.WholeMillisBound` | ext_authz/internal/cache/rate.go:26-64 | for a window of whole milliseconds this holds of every run, without a condition on the other calls |
| `RateLimit.BoundIsAttained` | ext_authz/internal/cache/rate.go:26-64 | for every limit and every window of two units or more a run does allow `2 * max - 1` calls in such an interval |
| `RateLimit.SharedExceedsBound` | ext_authz/internal/cache/rate.go:38 | for every limit and every window of more than a nanosecond with a fraction of a millisecond, a run that shares the bucket with a shorter window allows `2 * max` calls in an interval of the window |
| `RateLimit.BoundedExactly` | ext_authz/internal/cache/rate.go:26-64 | so the bound holds of every run exactly for the windows of whole milliseconds, and of one nanosecond |
| `RateLimit.RefusedOnlyIfFull` | ext_authz/internal/cache/rate.go:58-60 | a call is refused only if an interval as long as its window, and open at its time, already has `max` allowed calls of its triple |
| `RateLimit.Uncounted` | ext_authz/internal/cache/rate.go:26-36 | without a positive limit or window everything is allowed, and with a positive limit nothing without an identity, in that order of tests |
| `StringLists.NormalizeStrings` | ext_authz/internal/auth/policy.go:539-549 | the loop keeps the trimmed non-blank values and sorts them |
| `StringLists.SearchStrings` | ext_authz/internal/auth/policy.go:551-554 | the binary search loop ends where the recursive search does |
| `StringLists.DedupeList` | ext_authz/internal/auth/policy.go:556-574 | the in-place compaction leaves the sorted distinct non-empty values at the front of the array |
| `StringLists.CompactInPlace` | ext_authz/internal/auth/policy.go:560-573 | the compaction loop on any array, read before it is overwritten |
| `StringLists.DedupeIsSet` | ext_authz/internal/auth/policy.go:556-574 | the result is strictly increasing and has exactly the non-empty elements |
| `StringLists.NormalizeIdempotent` | ext_authz/internal/auth/policy.go:539-549 | a normalised list is sorted and trimmed, and is its own normal form |
| `StringLists.InListIsMembership` | ext_authz/internal/auth/policy.go:551-554 | on a sorted list binary search answers membership |
| `StringLists.NormalizedMembership` | ext_authz/internal/auth/policy.go:539-554 | after normalisation it answers membership among the trimmed, non-blank configured values |
| `StringLists.SortPermutes` | ext_authz/internal/auth/policy.go:548 | sorting is an ordered permutation |
| `Conditions.AllMeansEvery` | ext_authz/internal/auth/policy.go:626-636 | `all` holds exactly when every condition does, the empty list included |
| `Conditions.AnyMeansSome` | ext_authz/internal/auth/policy.go:638-648 | a non-empty `any` holds exactly when some condition does |
| `Conditions.NotMeans` | ext_authz/internal/auth/policy.go:650-659 | `not` holds exactly when its condition fails |
| `Conditions.NotExistsNeverHolds` | ext_authz/internal/auth/policy.go:614-622 | `not_exists` is never satisfied, whether its fact resolves or not |
| `Conditions.DoubleNegation` | ext_authz/internal/auth/policy.go:650-659 | double negation cancels through the evaluator |
| `Conditions.DeMorgan` | ext_authz/internal/auth/policy.go:593-659 | both of De Morgan's laws hold through the evaluator exactly for the non-empty lists: an empty `any` is satisfied like an empty `all` |
| `Conditions.ComparesGrows` | ext_authz/internal/auth/policy.go:789-902 | every operator but `neq` and `not_exists` survives more actual values |
| `Conditions.PositiveIsMonotone` | ext_authz/internal/auth/policy.go:593-659 | a satisfied tree without `not`, `neq` and `not_exists` stays satisfied when facts resolve to more values |
| `Conditions.ResolveGrows` | ext_authz/internal/auth/policy.go:664-734 | a token with more audiences and scopes resolves every fact to more values |
| `Conditions.MoreScopesNeverHurt` | ext_authz/internal/auth/policy.go:593-734 | granting a token more scopes or audiences never makes it fail a positive constraint |
| `ConditionLaws.ExistsMeans` | ext_authz/internal/auth/policy.go:797-798 | `exists` holds of every fact that resolves |
| `ConditionLaws.EqMeans` | ext_authz/internal/auth/policy.go:803-810 | `eq`: some actual value equals the shown text of the operand after case folding |
| `ConditionLaws.NeqMeans` | ext_authz/internal/auth/policy.go:812-819 | `neq`: no actual value does |
| `ConditionLaws.InMeans` | ext_authz/internal/auth/policy.go:821-833 | `in`: some actual value equals, after case folding, a text that the operand offers |
| `ConditionLaws.ContainsMeans` | ext_authz/internal/auth/policy.go:835-842 | `contains`: some actual value has the operand as a substring after case folding |
| `ConditionLaws.MatchesMeans` | ext_authz/internal/auth/policy.go:844-855 | `matches`: the operand compiles, and its expression matches some actual value |
| `ConditionLaws.GtMeans` | ext_authz/internal/auth/policy.go:865-881 | `gt`: there is a bound, and some actual value reads as a number above the first one |
| `ConditionLaws.GteMeans` | ext_authz/internal/auth/policy.go:882-885 | `gte`: at or above it |
| `ConditionLaws.LtMeans` | ext_authz/internal/auth/policy.go:886-889 | `lt`: below it |
| `ConditionLaws.LteMeans` | ext_authz/internal/auth/policy.go:890-893 | `lte`: at or below it |
| `ConditionLaws.BetweenMeans` | ext_authz/internal/auth/policy.go:894-897 | `between`: there are two bounds, and some actual value reads as a number from the first to the second |
| `ConditionLaws.EqXorNeq` | ext_authz/internal/auth/policy.go:803-819 | for a fact with values exactly one of `eq` and `neq` holds |
| `ConditionLaws.OrderIsTotal` | ext_authz/internal/auth/policy.go:865-893 | for one value that reads as a number, `gt` and `lte` exclude and complete each other, and so do `lt` and `gte` |
| `ConditionLaws.BetweenIsBoth` | ext_authz/internal/auth/policy.go:894-897 | for one value, `between` is `gte` the first bound and `lte` the second |
| `ConditionLaws.UnknownFails` | ext_authz/internal/auth/policy.go:606-622 | a leaf without a fact or an operator, with an operator that is not known, or with a fact that does not resolve fails |
| `ConditionLaws.CombinedMeans` | ext_authz/internal/auth/policy.go:593-659 | which of `all`, `any` and `not` a condition is evaluated by, and what each then means |
| `ConditionLaws.TokenFactMeans` | ext_authz/internal/auth/policy.go:690-725 | each named fact about the token offers exactly its field, trimmed and without blanks, under both of its names |
| `ConditionLaws.ClaimFactMeans` | ext_authz/internal/auth/policy.go:726-733 | any other fact about the token offers the value at the end of its path of keys, and resolves to nothing if the path leads nowhere |
| `ConditionLaws.CertFactMeans` | ext_authz/internal/auth/policy.go:736-769 | each fact about the certificate offers exactly its field |
| `ConditionLaws.RequestFactMeans` | ext_authz/internal/auth/policy.go:771-786 | each fact about the request, and that nothing else resolves |
| `Policy.PolicyConfig.Normalize` | ext_authz/internal/auth/policy.go:136-150 | the policy becomes its normal form, field by field and rule by rule |
| `Policy.PolicyConfig.NormalizeRuleValue` | ext_authz/internal/auth/policy.go:161-204 | methods upper-cased, lists trimmed, cleaned and sorted, claim keys lower-cased, action lower-cased |
| `Policy.PolicyConfig.NormalizeClaimMap` | ext_authz/internal/auth/policy.go:187-197 | the loop over the claim map builds the normal form of the map |
| `Policy.PolicyConfig.AllMatchingRules` | ext_authz/internal/auth/policy.go:301-309 | the rules that match, in order |
| `Policy.PolicyConfig.Evaluate` | ext_authz/internal/auth/policy.go:206-289 | the imperative scan decides as the declarative reading says, and leaves the policy as it is |
| `Policy.PolicyConfig.Scan` | ext_authz/internal/auth/policy.go:239-288 | the loop with its fallback finds the first deciding rule, or falls back to the last matching one, or to the default |
| `Policy.PolicyConfig.ApplyPolicyRule` | ext_authz/internal/auth/policy.go:311-352 | what one rule writes into decision and scopes, and whether the scan goes on |
| `Policy.MatchingKeeps` | ext_authz/internal/auth/policy.go:301-309 | dropping rules that do not match changes neither the deciding nor the last matching rule |
| `Policy.AllowedIff` | ext_authz/internal/auth/policy.go:206-289 | allowed exactly when the global rule is satisfied and the default does not deny under it, and some rule that matches, is satisfied and does not deny comes before every other deciding rule, or no rule matches and the default does not deny; 200 exactly then, else 403 |
| `Policy.DenyRuleDenies` | ext_authz/internal/auth/policy.go:254-260 | a deny rule that is reached denies even when its conditions fail |
| `Policy.UndecidedIsDenied` | ext_authz/internal/auth/policy.go:262-276 | when rules match and none decides, the request is denied with the last matching rule's failure, even under default allow |
| `Policy.NoResidue` | ext_authz/internal/auth/policy.go:240-268 | around a deciding rule, the undecided rules before it and all rules after it can be deleted or replaced without any effect on the whole decision |
| `Policy.NormalizedClaims` | ext_authz/internal/auth/policy.go:187-197 | the normalised claim map has distinct keys and exactly the last entry of each non-blank key, with normalised values |
| `Policy.NormalizePolicyIdempotent` | ext_authz/internal/auth/policy.go:136-204 | a normalised policy is its own normal form |
| `Policy.LoadedMembership` | ext_authz/internal/auth/policy.go:376-425 | in a loaded rule every list test answers membership in the trimmed, non-blank configured values |
| `PolicyLaws.AllowedAsWritten` | ext_authz/internal/auth/policy.go:206-289 | the decision of a loaded policy in the fields of the policy as written: allowed exactly when the global conditions are met and the default does not deny under them, and some rule whose path, prefix and methods fit, whose subject, certificate, claim and constraint conditions are met and whose action is not deny comes before every other rule that ends the scan, or no rule fits and the default does not deny |
| `PolicyLaws.SoleRule` | ext_authz/internal/auth/policy.go:206-289 | a rule on its own under default deny allows exactly the requests that fit it and meet its conditions |
| `PolicyLaws.MisfitIsIgnored` | ext_authz/internal/auth/policy.go:354-374 | a rule that names another path, a prefix that the path does not have, or other methods can be deleted without any effect on any decision |
| `PolicyLaws.UnfitIsIgnored` | ext_authz/internal/auth/policy.go:354-374 | the same of rules as they are written, before loading |
| `PolicyLaws.LoadedFits` | ext_authz/internal/auth/policy.go:354-374 | a loaded rule matches exactly the requests that fit its path, prefix and methods as written |
| `PolicyLaws.LoadedMet` | ext_authz/internal/auth/policy.go:376-408 | the conditions of a loaded rule hold exactly when the token subject, the certificate subject, every claim and the constraint meet what is written; constraints see an empty request |
| `PolicyLaws.ClaimsMet` | ext_authz/internal/auth/policy.go:391-425 | the claim conditions hold exactly when for every configured claim, the last spelling of its key counting, the token carries one of the listed values |
| `PolicyLaws.LimitAsWritten` | ext_authz/internal/auth/policy.go:509-537 | an allowed request is limited as the granting rule as written says, or else as the global rule says, with a minute and the subject as defaults |
| `Scopes.ValidateScopes` | ext_authz/internal/auth/jwt.go:251-286 | nothing to require passes; else no token scopes is unauthorized, and a required scope that is not among them is forbidden; the map from which scopes are deleted ends empty exactly when all are covered |
| `Scopes.DecisionScopes` | ext_authz/internal/auth/policy.go:236-288 | the scopes of an allowing decision of a loaded policy are exactly those of the global and the deciding rule as written |
| `Scopes.ScopeGate` | ext_authz/server.go:145-148 | for a loaded policy the gate passes exactly when nothing is required, or the token has scopes and every non-blank server, global and deciding-rule scope is among them |
| `ServerLaws.AllowedHasScopes` | ext_authz/server.go:141-148 | from the policy as written: an allowed request has every scope that the server, the global rule and the granting rule ask for, and one that is authenticated, allowed by the policy and lacks one is denied with 401 when its token has no scopes and 403 otherwise |
| `ServerLaws.ScopesAsWritten` | ext_authz/internal/auth/policy.go:236-288 | the scopes of an allowing decision are exactly those of the global and of the granting rule as written |
| `Dpop.EffectiveMaxAge` | ext_authz/internal/auth/dpop.go:44-47 | the effective maximal age is positive: a positive setting is kept, and any other is the default |
| `Dpop.EffectiveSkew` | ext_authz/internal/auth/dpop.go:49-55 | the effective skew is the nearest value between nothing and two seconds |
| `Dpop.ProofAccepted` | ext_authz/internal/auth/dpop.go:44-142 | a proof is accepted exactly when its form, key and token hash are in order, it has an identifier, it was issued at most the maximal age ago and at most the skew ahead, and it answers the nonce, if one is asked for, up to white space and case |
| `Dpop.ProofRefused` | ext_authz/internal/auth/dpop.go:122-135 | a proof whose form, key and hash are in order is forbidden exactly for another nonce than the one asked for; a bad time or a missing nonce is unauthorized |
| `Dpop.ValidWindow` | ext_authz/internal/auth/dpop.go:44-55 | two validations of one proof, whatever the nonces, are no further apart than maximal age and skew together |
| `Dpop.DefaultsCover` | ext_authz/server.go:230-231 | the default cache lifetime covers the default window and nearly three minutes of delay |
| `Server.AuthzServer.CheckClient` | ext_authz/server.go:50-78 | the gates on configuration, certificate, revocation, token and binding, in order |
| `Server.AuthzServer.CheckProof` | ext_authz/server.go:87-115 | nonce, validation, rotation and proof mark: which fault is reported, what the nonce is afterwards, and that the proof cache takes a step exactly when the proof is valid |
| `Server.AuthzServer.MarkFault` | ext_authz/server.go:480-485 | the status for each answer of a cache |
| `Server.AuthzServer.CheckHolder` | ext_authz/server.go:117-128 | the holder-of-key gate applies to a token with a key and without a thumbprint |
| `Server.AuthzServer.CheckPolicy` | ext_authz/server.go:130-148 | the policy decides first, then the scopes of server and decision |
| `Server.AuthzServer.EnforceRateLimit` | ext_authz/server.go:249-289 | the limiter is asked exactly when the decision limits and an identity is known; status 401 or 429 |
| `ServerLaws.LimitIdentityMeans` | ext_authz/server.go:266-289 | the identity that a limit counts by is the attribute that the rule names, if the request has it, and otherwise the token subject, or the certificate subject; none exactly if all are blank |
| `Server.SharedLimit` | ext_authz/server.go:266-289 | two callers count against one limit only if they share a non-blank token subject, certificate subject or thumbprint |
| `Server.AuthzServer.CurrentNonce` | ext_authz/server.go:359-373 | the nonce stays while it is set and not expired, and is made anew otherwise |
| `Server.AuthzServer.RotateNonce` | ext_authz/server.go:375-380 | a new nonce with its full time to live |
| `Server.AuthzServer.Check` | ext_authz/server.go:46-163 | the answer is that of the first gate that fails; nonce, proof cache, limiter and token cache each change only if their gate is reached, and then by one step of their own relation |
| `ServerLaws.AllowedExactly` | ext_authz/server.go:46-163 | `Check` allows exactly when client, proof and holder are in order and the proof is new, the policy allows, the token has the required scopes, the limit is not reached, and the token has an identifier that the cache does not hold |
| `ServerLaws.AllowedAnswer` | ext_authz/server.go:158-162 | an allowed request is told its token and certificate subject, and a nonce that is not expired, which a passed proof replaces and any other request leaves while it lasts |
| `ServerLaws.DeniedWith` | ext_authz/server.go:130-156 | after authentication the status says which gate refused, in the order policy, scopes, limit, replay |
| `ServerLaws.Unauthenticated` | ext_authz/server.go:50-128 | before it, the status is that of the first check that fails: configuration, certificate, revocation, token, binding, proof replay, holder |
| `Pipeline.TokenTurnLogs` | ext_authz/server.go:154-156 | a token mark logs an acceptance exactly when its request goes on to be allowed |
| `Pipeline.TokensStep` | ext_authz/server.go:46-163 | every step of every concurrent request keeps grants, token log and allowed requests in correspondence |
| `Pipeline.AllowedIffConsumed` | ext_authz/server.go:141-162 | in every concurrent run the token cache has accepted one identifier for each allowed request and none for any other: a denied request never consumes a token (a request past its token mark can only be answered allow) |
| `Pipeline.ReplayAcrossAllows` | ext_authz/server.go:154-162 | two requests with one token are both allowed within the time to live only if as many other tokens as the cache holds were allowed in between |
| `Pipeline.ProofsStep` | ext_authz/server.go:87-115 | every step keeps passes and proof log in correspondence, and every request past validation validated |
| `Pipeline.ProofPassesOnce` | ext_authz/server.go:87-115 | a DPoP proof passes its stage twice only if as many other proofs as the cache holds passed in between, when the cache covers the validity window and the delay between validation and mark; any interleaving, any nonces |
| `PipelineLaws.AllowedIsAuthorized` | ext_authz/server.go:46-163 | in every concurrent run an allowed request has client and holder in order, is allowed by the policy, has the scopes that server, global rule and granting rule ask for, and had a valid proof at a time before |
| `PipelineLaws.PassInWindow` | ext_authz/internal/auth/dpop.go:198-214 | in every concurrent run each proof that passes was validated at a time within maximal age and skew of its `iat` |
| `PipelineLaws.NonceIsFresh` | ext_authz/server.go:359-380 | in every concurrent run the nonce that a request reads is the first one, not expired, or was made at most its time to live before |
| `PipelineLaws.LimitsAreTable` | ext_authz/server.go:249-264 | the limiter of a concurrent run is that of the sequence of questions its requests have asked |
| `PipelineLaws.LimitHolds` | ext_authz/server.go:249-264 | so over all concurrent requests at most `2 * max - 1` of one limit, identity and window get past the limiter in any interval of a window of whole milliseconds |
| `PipelineLaws.LimitedMustAsk` | ext_authz/server.go:249-264 | and nobody whose decision has a limit gets past it without asking |
| `NonceUse.NonceStep` | ext_authz/server.go:359-380 | the nonce changes only when it is rotated, or when it is asked for while blank or expired, and then to the new one |
| `NonceUse.ReadValidated` | ext_authz/server.go:88-103 | a request validates against the nonce that it read, however many others have rotated it since |
| `NonceUse.SecondPassesExactly` | ext_authz/server.go:88-108 | when new nonces differ after trimming and case folding, a proof that passed for one request passes the nonce check of another that reads later exactly when no nonce is made between the two readings |
| `NonceUse.ValidatedTwice` | ext_authz/server.go:88-108 | one proof is validated for two requests only if the second has read its nonce before the first rotates it |
| `NonceUse.NonceAdmitsTwo` | ext_authz/server.go:88-108 | that case is real: from the start of a server two requests that read before either rotates are both validated, so that only the proof cache tells a proof from its copy |
| `CheckRefines.ChecksClient` | ext_authz/server.go:46-163 | what `Check` promises, unfolded gate by gate in the order of the small steps |
| `CheckRefines.CheckIsARun` | ext_authz/server.go:46-163 | every call of `Check` is a run of the concurrent pipeline in which no other request moves, with the same stores and answer |
| `SignatureHeader.SplitSignatureParameters` | ext_authz/internal/auth/hok.go:276-303 | the loop with its three variables gives the parts of the text |
| `SignatureHeader.SplitIsSplit` | ext_authz/internal/auth/hok.go:276-303 | joined with commas the parts give the text back, and no part has a comma outside quotes and escapes |
| `SignatureHeader.SplitCharacterised` | ext_authz/internal/auth/hok.go:276-303 | the parts are the only list with these properties whose parts but the last close their quotes |
| `SignatureHeader.ParseSignatureHeader` | ext_authz/internal/auth/hok.go:229-274 | the map loop: the result and each of the four faults |
| `SignatureHeader.ParseParameter` | ext_authz/internal/auth/hok.go:242-264 | one part: blank, a key with its value, or a fault |
| `SignatureHeader.UnquoteEscaped` | ext_authz/internal/auth/hok.go:258-262 | unquoting an escaped value gives the value, for all bytes |
| `SignatureHeader.HeaderRoundTrip` | ext_authz/internal/auth/hok.go:229-303 | a printed list of parameters is read back as the map of its pairs, whatever bytes the values have; only `signature` must be among the keys |
| `SignatureHeader.DistinctMap` | ext_authz/internal/auth/hok.go:264 | with distinct keys that map holds exactly the pairs |
| `HeaderLaws.HeaderAccepted` | ext_authz/internal/auth/hok.go:229-274 | for every text: accepted exactly when it is not blank, each part between its commas is blank or gives a key a value, and some part gives `signature` one; every key then has exactly the value that the last part with it gives |
| `HeaderLaws.HeaderRejected` | ext_authz/internal/auth/hok.go:229-274 | for every text: a blank one is a missing header; else the first part that cannot be read decides, for its quotes or its form; else the signature is missing |
| `HeaderLaws.PartMeans` | ext_authz/internal/auth/hok.go:242-264 | a part is split at its first equals sign, both sides are trimmed and not blank, and a value that starts with a quote is unquoted |
| `UnquoteLaws.QuotedPieces` | ext_authz/internal/auth/hok.go:258-262 | every escape of the notation (named, octal, hexadecimal, both rune forms) and UTF-8 as it is stands for what it should |
| `UnquoteLaws.QuotedRefused` | ext_authz/internal/auth/hok.go:258-262 | no closing quote, text after it, a bare line break or an unknown escape makes the text invalid, whatever comes before |
| `UnquoteLaws.NumbersRefused` | ext_authz/internal/auth/hok.go:258-262 | so do surrogates, numbers beyond the last code point and octal numbers beyond a byte |
| `SigningString.BuildSigningString` | ext_authz/internal/auth/hok.go:167-210 | the loop over the header list: the signing string and each of the three faults |
| `SigningString.LineValue` | ext_authz/internal/auth/hok.go:188-203 | the value of one line, with the fallback of `host` to the host of the request |
| `SigningString.SignedExactly` | ext_authz/internal/auth/hok.go:167-210 | signed exactly when there is a method, the list names something and everything it names has a value; otherwise the fault says which fails and names the first missing header |
| `SigningString.HeaderMeans` | ext_authz/internal/auth/hok.go:191-222 | a header contributes the words of the first header of its name in any case, one space apart; a missing or blank `host` gives way to the host of the request |
| `SigningString.NamesMean` | ext_authz/internal/auth/hok.go:180-185 | the names signed are those of the list, trimmed, in lower case and without blanks |
| `SigningString.NormalFormKeepsWords` | ext_authz/internal/auth/hok.go:224-227 | two header values have one normal form exactly when they have the same words |
| `SigningString.NormalFormIsOneLine` | ext_authz/internal/auth/hok.go:224-227 | a normal form has no line break |
| `SigningString.SigningInjective` | ext_authz/internal/auth/hok.go:167-227 | for one list of signed headers two requests have one signing string exactly when they agree on the effective value of every signed header, unless the request target and the host are both signed and each has a line break in one of the requests |
| `SigningString.TargetDetermined` | ext_authz/internal/auth/hok.go:188-190 | for methods without spaces, agreement on the request target is agreement on method and path |
| `SigningString.SpaceInMethodCollides` | ext_authz/internal/auth/hok.go:188-190 | with a space in the method two requests that differ in method and path have one signing string |
| `SigningString.LineBreaksCollide` | ext_authz/internal/auth/hok.go:188-203 | with a line break in the path of one request and in the fallback host of the other, two requests that differ have one signing string |
| `Text.TrimIsTight` | ext_authz/internal/cache/replay.go:124 | a trimmed string has no white space at its ends and trimming it again changes nothing |

## Left out

- RedisAccept.AcceptedAtMostOncePerSource: the window is `ttl` rounded down to whole milliseconds, as PX rounds it, and an identifier that some DEL or some fallback evicts within the interval is excluded.
- RateLimit.SlidingBound: the interval is as long as the shortest window of the calls that share the key; `RateLimit.BoundedExactly` says for which windows this is no restriction.
- Pipeline.ReplayAcrossAllows: is about the in-memory cache; with the Redis backend the number of acceptances is bounded by the theorems of `RedisAccept`.
- Resp.RoundTrip: argument counts and lengths within 64 bits. Array items that are integers, nil or arrays are read as empty texts, as in the code (`RespReplies.ReplyRoundTrip`).
- SignatureHeader.HeaderRoundTrip: keys without white space around them and without `=`, `,`, `"` and the backslash; values of bytes.
- SigningString.SigningInjective: requests with line breaks in both the signed request target and the signed host are excluded; `SigningString.LineBreaksCollide` gives pairs of them with one signing string.
- Policy.PolicyConfig.Evaluate: reasons are constructors of a datatype and not English sentences.
- Server.AuthzServer.Check: header lookup, the request URL and the texts of denials are not part of the model; the limiter and both caches are always present, with the in-memory cache as in a service without Redis.
- Redis authentication, database selection, connections, timeouts and URL parsing (ext_authz/internal/cache/replay_redis.go:24-117, 195-241): input and output.
- A RESP length large enough to exhaust memory when it is allocated.
- Keys of unexpected Redis types, and identifiers expiring within the index: the index forgets a member only by eviction, as in the code.
- JWT parsing, X.509, PEM, key parsing, thumbprints and signatures (ext_authz/internal/auth/mtls.go, pem.go, jwt.go, dpop.go, hok.go): cryptography.
- Token confirmation and scope extraction from raw claims (ext_authz/internal/auth/jwt.go:120-249): would add only easy members.
- ext_authz/internal/auth/binding.go, crl.go and jwks.go: single comparisons and caches that keep the last good value.
- Environment parsing, logging and the construction of the server (ext_authz/server.go:198-247, 291-357).
- ext_authz/cmd/server/main.go: a near-duplicate of the pipeline that does not mark tokens.
- backend/routes/abac.py: a second evaluator for display, which differs from the Go engine in several respects.
- Frontend, Flask routes, Keycloak clients, the DPoP token proxy, scripts and deployment files.
