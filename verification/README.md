# Verified model of the shared core

Dafny models of the algorithms in `core/`: the sliding-window rate limiter, the distributed circuit breaker and the
connector that drives it, the duplicate-request lock, the managed session, the rendering of SQL parameters for the
log, redaction, and the body-size gate. `dafny verify dfyconfig.toml` checks all of it.

Redis is a small set of atomic commands over a key; the clock, key expiry and other workers are steps of an
environment. Where the code runs step by step, it is a class or a method over that environment: other workers'
steps come from an arbitrary schedule and may fall between any two commands. Time is a shared counter in
milliseconds, `uuid4` gives fresh numbers, sha256 is injective.

## What is proved

**Rate limiter** (`SlidingWindow*`). Any number of workers interleave per command. On one clock, admitted hits that
commit within `d` ms of reading it, and whose scores pairwise differ by less than the window minus `d`, number at
most `limit`; the bound is shown to be tight for every limit, every window and every `d`. With arbitrary clocks the
set stays within `limit`, every admission linearises at its EXEC, and aborted attempts are charged one to one to
other workers' changes, at most twice the number of workers per admission. A hit that no other worker disturbs
answers, in every field, like a limiter that never trims or expires anything, and Retry-After is the least whole
number of seconds after which such a hit is admitted. `Hit` is the retry loop itself, proved to be a run of that
machine.

**Circuit breaker** (`CircuitBreaker*`, `Connector`). The class over the hash of optional fields refines a
four-state machine, on which the run properties are proved: exactly what is refused, half-open admissions and
successes, the failure chain, the lifetime of the hash, and the cooldown, which holds if and only if no admitted
call was outstanding when the breaker opened.
`CircuitBreakerCommands` interleaves per command; a call that nobody interrupts is shown to be the whole-call step.

**Body lock** (`BodyLock`). At most one handler per body within its lock's lifetime, and no DELETE of another's
lock, for exactly those delays between SET and DELETE that are shorter than the expiry.

**Redaction** (`Json*`, `Redaction*`). The result is the one normal form that looks like the value along every
visible path; which keys are masked is stated word by word, and which strings are opened by a grammar of JSON texts
that the parser is proved to read exactly. On graphs, the result is that of the tree if and only if nothing visible
is shared.

**Session** (`ManagedSession`), **size gate** (`RequestSize`) and **SQL rendering** (`SqlRendering*`): see the table.

## Where the code differs from what it suggests

- The breaker's configuration says that `timeout_threshold` consecutive timeouts open it
  (core/infra/circuit_breaker.py:21). On an empty hash they never do: `int("None")` raises inside `record_failure`
  and the handler swallows it, so failures are lost until a success has written the hash.
  `ThresholdFailuresOpenIffSeeded` gives the exact condition.
- Replacing "$n" down to "$1" one after another (core/db/session_manager.py:46-48) is meant to keep "$1" from eating
  "$10", but "$1$16" with the value 5 for the last parameter becomes "$15" and is replaced again.
  `RendersRightIffNothingOvertakes` gives the exact condition on the statement.
- The key list has "set-cookie", but keys are compared after dashes became underscores
  (core/logging/redaction.py:12-25), so that entry matches nothing (`SetCookieNeverMatches`).
- The TRUE/FALSE branch of `_format_sql_param` (core/db/session_manager.py:23-26) is unreachable, because a Python
  bool is an int; `Format` renders `True`.
- A container that is merely shared, not cyclic, is also rendered as `<recursive ...>` the second time
  (core/logging/redaction.py:44-47), as `SharedIsNotRecursive` shows; `TreeIffUnshared` gives the exact condition.
- base-fastapi/tests/test_rate_limit.py:13 imports names that the limiter's module no longer has; the model follows
  the module.

## Model

| member | source | states |
|---|---|---|
| SlidingWindowRaces.AdmissionsInAWindow | core/rate_limiter/rate_limit.py:77-116 | on one clock, timely admitted hits with scores closer than 1000 * window_seconds minus d number at most limit, in every interleaving, whatever is trimmed or expires |
| SlidingWindowRaces.TheBoundIsTight | core/rate_limiter/rate_limit.py:79-116 | for every limit, window and delay d up to the window some run admits limit + 1 timely hits whose scores differ by at most the window minus d |
| SlidingWindowRaces.CommitIsLinearised | core/rate_limiter/rate_limit.py:83-133 | with any clocks, a commit used the count and oldest score of the set at that instant, and remaining is limit minus the size it then has; a failed EXEC changes nothing and follows another's change |
| SlidingWindowRaces.RefusalIsLinearised | core/rate_limiter/rate_limit.py:87-111 | in every interleaving a refusal leaves nothing remaining and gives the least whole seconds until an admission of the set at its ZRANGE leaves the window; 1 and 0 if the set has gone since ZCARD |
| SlidingWindowRaces.AbortsAreCharged | core/rate_limiter/rate_limit.py:113-137 | every abort is charged to a change by another step since its WATCH, one worker never twice to one change; hence at most n per change and 2n per admission |
| SlidingWindowInvariants.ReachableInv | core/rate_limiter/rate_limit.py:79-137 | in every run the set has at most limit members, all logged, and every current watcher knows the current set |
| SlidingWindowInvariants.ReachableClock | core/rate_limiter/rate_limit.py:76-115 | on one clock no admission leaves the set while it is inside the window, and the key expires exactly two windows after its last write |
| SlidingWindowSolo.HitAnswersLikeTheLog | core/rate_limiter/rate_limit.py:75-133 | an undisturbed hit that takes less than the window is refused iff limit logged admissions have a score above now minus 1000 * window_seconds, answers with what then remains, and is logged exactly when admitted |
| SlidingWindowSolo.RoomOpensWithTheOldest | core/rate_limiter/rate_limit.py:91-111 | after a refusal there is room at t exactly if t is at least oldest + window |
| SlidingWindowSolo.RetryAfterIsLeast | core/rate_limiter/rate_limit.py:176-184 | Retry-After lies in 1..window_seconds and is the least whole number of seconds that makes room |
| SlidingWindowSolo.RetryAfterIsExact | core/rate_limiter/rate_limit.py:91-111 | a second undisturbed hit at any later time, nothing admitted between, is refused iff all admissions that the first one saw are still inside the window, that is, k whole seconds later, iff k < Retry-After |
| SlidingWindowSolo.ResetIsLeast | core/rate_limiter/rate_limit.py:187-195 | the reset lies in 1..window_seconds and is the least whole number of seconds until an admission, the new one included, leaves the window |
| SlidingWindow.BackoffClosedForm | core/rate_limiter/rate_limit.py:134-137 | m sleeps take 10(2^m - 1) ms up to m = 4 and 150 + 100(m - 4) ms after |
| SlidingWindow.OldestScore | core/rate_limiter/rate_limit.py:88-90 | the lowest score of the set, or None exactly if it is empty |
| SlidingWindowHit.Hit | core/rate_limiter/rate_limit.py:69-141 | at most max(retries, 1) attempts, one member added iff the answer is not exceeded, the answer is the machine's, invalid limits raise first, the RuntimeError is unreachable |
| SlidingWindowHit.Observe | core/rate_limiter/rate_limit.py:80-90 | the commands up to ZRANGE, with any interference between them, move the worker as in the machine and add nothing |
| SlidingWindowHit.SharedRedis.Execute | core/rate_limiter/rate_limit.py:113-116 | the transaction commits iff the watched version is current, and then adds one fresh member |
| CircuitBreaker.RedisCircuitBreaker.AllowRequest | core/infra/circuit_breaker.py:53-99 | on a well-formed hash the decision and the new hash are those of the four-state machine, and nothing is swallowed |
| CircuitBreaker.RedisCircuitBreaker.RecordFailure | core/infra/circuit_breaker.py:101-142 | the hash moves as in the four-state machine and stays well-formed; the update is swallowed iff the hash is absent |
| CircuitBreaker.RedisCircuitBreaker.RecordSuccess | core/infra/circuit_breaker.py:148-180 | the hash moves as in the four-state machine and stays well-formed |
| CircuitBreaker.RedisCircuitBreaker.OpenFor | core/infra/circuit_breaker.py:182-193 | the six fields and the expiry of a hash that has just opened |
| CircuitBreakerRuns.RefusedOnlyInCooldownOrAsEvenProbe | core/infra/circuit_breaker.py:58-91 | over all runs from an empty hash, a request is refused iff it falls into the cooldown of the failure that opened the breaker or is an even probe of a half-open episode; the hash is there exactly until two of the longer of window and cooldown after the last renewal |
| CircuitBreakerRuns.NoRefusalUntilOpening | core/infra/circuit_breaker.py:58-63 | from CLOSED or an empty hash nothing is refused until a failure opens the breaker |
| CircuitBreakerRuns.SuccessCloses | core/infra/circuit_breaker.py:165-174 | a success leaves CLOSED with no failures and a new expiry, on an empty hash too, unless HALF_OPEN needs more successes |
| CircuitBreakerRuns.DisabledNeverRefuses | core/infra/circuit_breaker.py:55-56 | switched off, the breaker refuses nothing and writes nothing |
| CircuitBreakerRuns.HalfOpenEpisodes | core/infra/circuit_breaker.py:148-174 | over all runs, in HALF_OPEN the admitted probes are half of those asked, rounded up, the counter is the successes of the episode and below the threshold; CLOSED exactly on the last one, OPEN exactly on a failure |
| CircuitBreakerRuns.OnlySuccessSeeds | core/infra/circuit_breaker.py:101-137 | from an empty hash, without a success, every run leaves it empty and every request is allowed |
| CircuitBreakerRuns.ThresholdFailuresOpenIffSeeded | core/infra/circuit_breaker.py:113-127 | threshold failures at any times within the window of each other open the breaker iff the hash is present at the first of them |
| CircuitBreakerRuns.CooldownIffNothingOutstanding | core/infra/circuit_breaker.py:65-70 | with any clients nothing is admitted before the cooldown ends, iff no admitted call was outstanding |
| CircuitBreakerRuns.NoMoveInCooldown | core/infra/circuit_breaker.py:65-70 | with nothing outstanding, no sequence of requests within the cooldown changes the breaker or is admitted |
| CircuitBreakerRuns.NothingReachedInCooldown | core/infra/connectors/base_client.py:105-134 | for calls made one at a time, once one has opened the breaker none that starts before the cooldown ends reaches the HTTP client or moves the breaker, and the first one after that does while the hash lives |
| CircuitBreakerRuns.FailureCountIsTheChain | core/infra/circuit_breaker.py:113-135 | for calls made one at a time, failure_count is the chain of recorded failures without a long gap, and the breaker opens exactly when it reaches the threshold |
| CircuitBreakerCommands.AdmittedPerCommand | core/infra/circuit_breaker.py:72-91 | with calls interleaved per command, n increments and r zeroings admit at most (n + r) / 2 |
| CircuitBreakerCommands.AnswerPerCommand | core/infra/circuit_breaker.py:59-99 | per command and for any hash, allow_request refuses iff it finds a deadline still to come or counts an even probe; a deadline that has gone meanwhile lets it pass |
| CircuitBreakerCommands.UninterruptedAllow | core/infra/circuit_breaker.py:53-91 | an uninterrupted allow_request is the whole-call step and gives its answer, in every mode |
| CircuitBreakerCommands.UninterruptedFailure | core/infra/circuit_breaker.py:101-136 | an uninterrupted record_failure is the whole-call step |
| CircuitBreakerCommands.UninterruptedSuccess | core/infra/circuit_breaker.py:148-174 | an uninterrupted record_success is the whole-call step |
| Connector.BaseAsyncHttpConnector.Request | core/infra/connectors/base_client.py:105-185 | the HTTP client is reached iff the breaker admits, and the outcome is recorded as timeout, 5xx, 429, other response or not at all on the state that any calls of other clients have left in the meantime |
| Connector.WhatCounts | core/infra/connectors/base_client.py:135-184 | timeouts, 429 and 5xx count towards OPEN, any other response clears the count, other exceptions leave the breaker alone |
| BodyLock.ExclusiveIffDeleteBeforeExpiry | core/middlewares/idempotency_request.py:40-58 | every run with DELETEs at most D after their SET has one handler per body and steals no lock, iff D is below 600 s |
| BodyLock.RunKeepsOwned | core/middlewares/idempotency_request.py:40-58 | in timely runs every handler younger than 600 s owns the lock of its body, handlers that raise unrestricted |
| BodyLock.LateDelete | core/middlewares/idempotency_request.py:58 | a late DELETE removes another request's lock and lets a third one in beside it |
| BodyLock.LockLifetime | core/middlewares/idempotency_request.py:40-58 | a body stays locked exactly 600 s from its SET or until a request with it responds; turning a duplicate away and raising leave the lock alone |
| BodyLock.Dispatch | core/middlewares/idempotency_request.py:8-59 | exactly POST, PUT, PATCH and DELETE with a body lock; else one SET, 409 iff it found the lock taken, DELETE after a response, none after an exception |
| SqlRenderingLimits.RendersRightIffNothingOvertakes | core/db/session_manager.py:44-48 | counting down equals substitution at once for all dollar-free parameters, iff no "$j" directly follows a "$k" with j > 10k |
| SqlRenderingLimits.OvertakingShows | core/db/session_manager.py:46-48 | the parameters for which an overtaking statement is rendered wrongly |
| SqlRenderingLimits.FirstThenSixteenth | core/db/session_manager.py:46-48 | "$1$16" with sixteen parameters is such a statement |
| SqlRenderingProofs.CountDownIsSubstitution | core/db/session_manager.py:46-48 | without overtaking, counting down is substitution at once for any values |
| SqlRendering.PiecesExist | core/db/session_manager.py:45-48 | every statement in which each "$" starts a placeholder in range has the form the theorem is about |
| SqlRendering.Render | core/db/session_manager.py:46-48 | the loop computes the countdown of replacements |
| SqlRendering.IntegersAreDecimal | core/db/session_manager.py:23-24 | an integer is written in decimal without leading zeros, with a sign iff it is negative |
| SqlRendering.MarkIsDollarAndDecimal | core/db/session_manager.py:48 | the placeholder of the k-th parameter is a dollar sign and k in decimal |
| SqlRendering.OthersAreWritten | core/db/session_manager.py:20-27 | None, floats, booleans and texts, the latter in quotes |
| ManagedSession.Manage | core/db/session_manager.py:58-90 | the commit, callbacks, rollback and close on every path, in order, and what is raised |
| ManagedSession.RunAll | core/db/session_manager.py:71-77 | the live loop runs a prefix of the final list, each callback once and in order, and all of it unless one raises past Exception |
| ManagedSession.SessionPromises | core/db/session_manager.py:64-90 | closed exactly once and last; callbacks only after a returned commit and never with a rollback; a failing body or commit is rolled back |
| ManagedSession.TraceOnEachPath | core/db/session_manager.py:64-90 | what the session is asked to do on each path, written out |
| ManagedSession.WhatIsRaised | core/db/session_manager.py:79-90 | nothing is raised iff body, commit, callbacks and close allow it; an Exception of body or commit comes out as one, or as what the failing rollback raises; whatever goes past Exception comes out so |
| ManagedSession.DrainedIsTheLiveList | core/db/session_manager.py:71-77 | what runs is the registered callbacks and then, in order, what those that ran added through an older handle |
| ManagedSession.AppendedGrows | core/db/callbacks_after_commit.py:9-14 | a registration joins the running list iff it is made through an older handle |
| ManagedSession.NothingIsSkipped | core/db/session_manager.py:71-77 | callbacks that raise ordinary exceptions stop nothing |
| ManagedSession.RunCallback | core/db/callbacks_after_commit.py:13-14 | a registration through an older handle extends the running list, one through a new handle does not |
| ManagedSession.CallBackAfterCommit.constructor | core/db/callbacks_after_commit.py:7-11 | handles of one session share its list until it is popped |
| Redaction.Reparsed | core/logging/redaction.py:32-39 | what a string is read as weighs less than the string, whatever its text, which is why the recursion ends |
| Redaction.RedactionIsANormalForm | core/logging/redaction.py:28-62 | the result has no string that reads as a container, no list over 100, no unmasked sensitive key; the normal forms are the fixed points; a second pass changes nothing |
| RedactionFaces.RedactionIsTheNormalForm | core/logging/redaction.py:28-62 | the result is the one normal form that shows the same leaves, keys in order and lengths up to 100 as the value along every path of harmless keys, embedded JSON included |
| RedactionRules.SensitiveSpellings | core/logging/redaction.py:7-25 | a key is sensitive iff it is, up to case and dash for underscore, one of eleven words or ends in "_token" |
| RedactionRules.SpellingDoesNotMatter | core/logging/redaction.py:23-25 | keys that differ only in case or in dash for underscore are judged alike |
| RedactionRules.ListedKeysAreMasked | core/logging/redaction.py:49-57 | whatever stands under one of these words, in any spelling, becomes "[REDACTED]" |
| RedactionRules.EntriesByKey | core/logging/redaction.py:49-57 | every entry keeps its place and key; its value is masked if the key is sensitive, and else redacted |
| RedactionRules.ItemsUpToAHundred | core/logging/redaction.py:59-60 | the first hundred items of a list are redacted in place, the others dropped |
| JsonSound.LoadsReadsTheGrammar | core/logging/redaction.py:36 | the modelled parser returns v exactly for the JSON texts of v: the grammar of RFC 8259 with NaN and Infinity, in any spelling and with any blanks, later pairs overwriting earlier ones |
| JsonText.PairOfCodePoint | core/logging/redaction.py:36 | in that grammar a surrogate pair means the code point whose excess over the basic plane it spells in twice ten bits |
| RedactionStrings.ReparsedIffEmbedded | core/logging/redaction.py:32-36 | a string is read as v iff it is a JSON text of an object or array v in whitespace |
| RedactionStrings.EmbeddedTextIsRedacted | core/logging/redaction.py:32-39 | a string that embeds an object or array is redacted as that value, any other string is left alone |
| Redaction.SecretsDoNotMatter | core/logging/redaction.py:49-57 | values that differ only under sensitive keys, at any depth and inside embedded JSON, redact to the same result |
| Redaction.SetCookieNeverMatches | core/logging/redaction.py:7-25 | the judgement of a key is the same without the entry "set-cookie" |
| Redaction.SetCookieIsHarmless | core/logging/redaction.py:23-25 | a key spelled like Set-Cookie is not judged sensitive |
| RedactionGraph.EachContainerOnce | core/logging/redaction.py:41-60 | on any finite graph, cyclic or shared, each container is expanded at most once |
| RedactionGraph.TreeIffUnshared | core/logging/redaction.py:41-60 | the result is that of the tree iff no container is seen on two ways and none was visited before, where nothing under sensitive keys or behind the hundredth item is seen; then exactly the containers seen are expanded |
| RedactionGraph.SharedIsNotRecursive | core/logging/redaction.py:44-47 | one list twice in another, without a cycle, is rendered as recursive the second time, unlike its tree |
| RedactionGraph.RedactFrom | core/logging/redaction.py:28-62 | the recursion over the shared visited set computes the walk and adds exactly the expanded containers |
| RequestSize.DeliveredWithinLimit | core/middlewares/request_size.py:34-41 | for every chunking and every way of receiving on, a prefix of the body of at most max_body_bytes is delivered, and all that has come in while it fits |
| RequestSize.ProgressIsGated | core/middlewares/request_size.py:25-44 | every application, however it catches, goes on or raises again, sees the gated messages only, gets max_body_bytes at most, and what it sends passes in its order |
| RequestSize.WholeBodyPassesIffItFits | core/middlewares/request_size.py:34-41 | a body passes message by message unchanged iff it is within the limit |
| RequestSize.RaisesForever | core/middlewares/request_size.py:38-40 | once over the limit exactly the further body messages raise again |
| RequestSize.OversizeIsTooMuch | core/middlewares/request_size.py:38-47 | RequestTooLarge escapes only after a body over the limit |
| RequestSize.RaisingEnds | core/middlewares/request_size.py:43-47 | an application ends exactly by raising: its own error, a RequestTooLarge it does not catch, or one it raises again |
| RequestSize.FirstContentLengthDecides | core/middlewares/request_size.py:51-58 | the first Content-Length header in any case decides, even if its value is no number |
| RequestSize.Handle | core/middlewares/request_size.py:15-47 | 413 without the application for a large Content-Length; else 413 exactly if the exception escapes before a response has started, uncaught or raised again later |
| RequestSize.RunApplication | core/middlewares/request_size.py:25-44 | any application sees the gated messages and only its own messages are sent |

## Left out

- Redis outages: the fail-open branches for errors other than the parse error are not modelled.
- The moment of expiry: in the limiter an expired key may stay visible for a while, which allows more runs than Redis has; an expiry counts as a change that aborts watchers, as in Redis 6.0.9 and later.
- Different limits or windows on one key, `reset_at` (a second clock reading; the seconds until the reset are modelled), floating-point rounding in `math.ceil`.
- `_trim_window` and `_window_reset_after_seconds` (core/rate_limiter/rate_limit.py:155-167): in-memory helpers that `hit` does not use.
- Whole calls of the breaker take place at one instant in `CircuitBreaker` and `CircuitBreakerRuns`; a hash that was not written by them, which may lack fields, is not covered there.
- Connector: URL joining, header merging, the call semaphore and log formatting.
- BodyLock.ExclusiveIffDeleteBeforeExpiry: a handler is counted until 600 s after its SET; one that raises later than that may overlap with a successor, whose lock it does not touch.
- SQL rendering: named parameters, the newline replacement and strip before the loop, and text values that contain "$".
- ManagedSession: a callback's registrations are a finite tree given in advance, so a callback that registers itself for ever is not covered; AutoSession tokens and engine routing.
- JSON: lone surrogates are read as U+FFFD, and Python's limits on depth and digits are absent.
- Redaction: case folding and whitespace are those of ASCII, dictionary keys are strings, and the reuse of object ids of freed parse results is absent.
- RedactionGraph: strings in the graph hold no JSON containers; objects that are no containers are scalars.
- RequestSize: an application that raises RequestTooLarge without ever having caught it; non-HTTP scopes, which pass straight through; the parsing of a Content-Length value is given.
- Key building, client addresses, settings, lifespans, gRPC, telemetry, Celery, PDF and storage tools: configuration and I/O.
