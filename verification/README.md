# CrptApi rate limiter, modelled in Dafny

`CrptApi` is a client for the CRPT document API. Before each `createDocument`
request it calls `RateLimiter.acquire()`. This is a sliding-window limiter:
it admits at most `limit` calls within any `windowMillis` milliseconds and
makes the other callers sleep. This project models that limiter and the
argument checks of the client's constructor.

The limiter is modelled as a state machine.

- A `Limiter` holds the window, the limit and the log of admission timestamps, oldest first.
- `Prune` is `cleanOld(now)`.
- `Step` is one iteration of the `while (true)` loop inside `acquire()`, at the clock reading `now`. It
  returns one of three outcomes:
  - `Admitted` with the new state;
  - `Retry`, the `waitFor <= 0` branch, which prunes again and loops at once;
  - `Wait(waitFor)`, the `this.wait(waitFor)` branch.

The monitor lock means that, however many threads call `acquire()`, the limiter
sees one loop iteration after another. `Safety.Run` folds `Step` over a sequence
of clock readings, so every interleaving of callers is some run.
`Acquire` is the whole loop of a single caller, driven by the readings its clock gives.

Java `long` arithmetic is modelled exactly (`JavaLong.Sub` wraps modulo 2^64).
Clock readings are `Millis`: longs that are not negative, as
`System.currentTimeMillis()` returns after 1970. So `now - t` cannot wrap,
but `windowMillis - (now - oldest)` can.

Main results:

- `Safety.SafetyTheorem`: for a limiter built by `New` and a clock that never runs backwards, every
  window of `windowMillis` milliseconds holds at most `limit` admissions.
- `RateLimiter.WaitIsExact`: the computed delay is exact. After a `Wait`, the next step admits exactly when the
  clock has advanced by at least `waitFor`.
- `RateLimiter.StepRetryIff`: the `waitFor <= 0` branch is taken only when that subtraction overflows.
  That needs a log entry more than `Long.MAX_VALUE - windowMillis` milliseconds in
  the future.

Modules: `JavaLong` and `Results` (shared), `TimeUnits` (`TimeUnit.toMillis(1)`),
`RateLimiter`, `Windows` (counting admissions in a window), `Safety` (runs)
and `CrptApi` (the constructor).

## Model

| member | source | states |
|---|---|---|
| JavaLong.Sub | src/main/java/io/bellyasoff/CrptApi.java:112 | the result is the true difference or differs from it by exactly 2^64, and equals it whenever it fits in a long |
| JavaLong.SubOfReadings | src/main/java/io/bellyasoff/CrptApi.java:126 | the difference of two clock readings never wraps, and is negative exactly when the first is earlier |
| TimeUnits.ToMillisOfOne | src/main/java/io/bellyasoff/CrptApi.java:59 | one unit converts to the whole number of milliseconds it contains, truncated: result times 10^6 is at most the unit's nanoseconds, and result plus one times 10^6 exceeds it |
| TimeUnits.ToMillisOfOneZeroIff | src/main/java/io/bellyasoff/CrptApi.java:59 | the window is 0 exactly for units shorter than a millisecond, namely nanoseconds and microseconds |
| RateLimiter.New | src/main/java/io/bellyasoff/CrptApi.java:94-99 | construction succeeds iff window and limit are both positive; the window check comes first and its message wins; on success the fields are the arguments and the log is empty |
| RateLimiter.StalePrefix | src/main/java/io/bellyasoff/CrptApi.java:124-133 | cleanOld removes exactly the longest run of stale entries at the front: each of them is stale, and the first entry kept is not |
| RateLimiter.PruneKeepsSuffix | src/main/java/io/bellyasoff/CrptApi.java:124-133 | the pruned log is a suffix of the log, everything dropped was stale, and a nonempty result starts with a fresh entry |
| RateLimiter.PruneSortedKeepsOnlyFresh | src/main/java/io/bellyasoff/CrptApi.java:125-131 | on an ordered log every entry kept is fresh, not merely the first |
| RateLimiter.PruneSortedIsFresh | src/main/java/io/bellyasoff/CrptApi.java:125-131 | on an ordered log cleanOld equals the independent filter of fresh entries, so no fresh entry is lost |
| RateLimiter.PruneIdempotent | src/main/java/io/bellyasoff/CrptApi.java:124-133 | pruning twice at the same instant gives the same log as pruning once |
| RateLimiter.Step | src/main/java/io/bellyasoff/CrptApi.java:103-120 | one loop iteration keeps window and limit, and a sleep is for a positive delay |
| RateLimiter.StepAdmitsNow | src/main/java/io/bellyasoff/CrptApi.java:105-109 | an admission leaves a nonempty log of at most limit entries whose last entry is now |
| RateLimiter.StepAdmission | src/main/java/io/bellyasoff/CrptApi.java:105-112 | a step admits iff the pruned log has fewer than limit entries; it then appends exactly now and the length grows by one to at most limit; otherwise the log changes only by pruning |
| RateLimiter.StepWaitFor | src/main/java/io/bellyasoff/CrptApi.java:110-118 | a sleep is for windowMillis - (now - oldest), positive, and at most windowMillis exactly when the oldest entry is not in the future |
| RateLimiter.StepRetryIff | src/main/java/io/bellyasoff/CrptApi.java:111-116 | the re-prune-and-continue branch is taken iff the log is full and its head lies more than Long.MAX_VALUE - windowMillis ahead of now |
| RateLimiter.RetryThroughOverflow | src/main/java/io/bellyasoff/CrptApi.java:111-116 | that branch is reachable: window 1, limit 1, a log entry at Long.MAX_VALUE and a reading of 0 |
| RateLimiter.NoRetryWhenNotAhead | src/main/java/io/bellyasoff/CrptApi.java:105-116 | with no log entry in the future the branch is unreachable and every sleep is at most one window |
| RateLimiter.StepKeepsGood | src/main/java/io/bellyasoff/CrptApi.java:104-120 | a step keeps the log ordered, not ahead of the clock and within the limit |
| RateLimiter.StepLater | src/main/java/io/bellyasoff/CrptApi.java:104-118 | a good limiter stepped at a later reading stays good, never retries and sleeps at most one window |
| RateLimiter.FullAdmitsWhenHeadStale | src/main/java/io/bellyasoff/CrptApi.java:104-109 | a log filled to the limit admits iff its oldest entry has left the window |
| RateLimiter.WaitIsExact | src/main/java/io/bellyasoff/CrptApi.java:110-118 | after a sleep of waitFor, the next step admits iff the clock has advanced by at least waitFor |
| RateLimiter.Acquire | src/main/java/io/bellyasoff/CrptApi.java:101-122 | the loop ends admitted with its last reading at the log's tail and the log within the limit, or runs out of readings; with an ordered clock the limiter stays good and no sleep exceeds one window |
| Safety.Extend | src/main/java/io/bellyasoff/CrptApi.java:103-120 | one iteration by any caller keeps window and limit and makes the history of admissions at most one entry longer |
| Safety.Run | src/main/java/io/bellyasoff/CrptApi.java:101-122 | iterations at n clock readings, in any interleaving of callers, keep window and limit and admit at most n times |
| Safety.RunWithinLimit | src/main/java/io/bellyasoff/CrptApi.java:101-133 | whatever the clock does, even running backwards, the log never holds more than limit entries |
| Safety.StepAccounted | src/main/java/io/bellyasoff/CrptApi.java:103-133 | one iteration keeps the ledger: the log is the tail of the admission history, everything older has left the window, and no window holds more than limit admissions |
| Safety.RunAccounted | src/main/java/io/bellyasoff/CrptApi.java:101-133 | every run from an empty log under a non-decreasing clock keeps that ledger |
| Safety.SafetyTheorem | src/main/java/io/bellyasoff/CrptApi.java:89-134 | from a newly built limiter and a non-decreasing clock, admissions are ordered and every window of windowMillis holds at most limit of them, whatever the interleaving |
| Safety.ExtendSerial | src/main/java/io/bellyasoff/CrptApi.java:103-133 | with limit 1 an iteration keeps the log holding just the latest admission, and admits only a window after it |
| Safety.RunSerial | src/main/java/io/bellyasoff/CrptApi.java:101-133 | with limit 1, over any clock, the log holds just the latest admission and all admissions are pairwise a window apart |
| Safety.LimitOneSerializes | src/main/java/io/bellyasoff/CrptApi.java:89-134 | with limit 1 and any clock, even one running backwards, any two admissions are at least windowMillis apart |
| Safety.ZigZagAdmitsAll | src/main/java/io/bellyasoff/CrptApi.java:104-133 | with limit 2, five readings that alternately jump a window ahead and fall back behind the newest entry are all admitted, because cleanOld never removes an entry ahead of the clock |
| Safety.BackwardClockOverfillsWindow | src/main/java/io/bellyasoff/CrptApi.java:101-133 | with window 1000 and limit 2, readings 0, 10000, 500, 11000, 700 are all admitted and the window (-300, 700] holds three of them |
| Safety.RunKeepsGood | src/main/java/io/bellyasoff/CrptApi.java:101-133 | over any run with a non-decreasing clock the log stays ordered and within the limit |
| Safety.TwoCallsAdmitted | src/main/java/io/bellyasoff/CrptApi.java:104-109 | with a one-second window and limit 2, two calls at the same instant are both admitted |
| Safety.ThirdCallWaits | src/main/java/io/bellyasoff/CrptApi.java:110-118 | a third call at that instant sleeps for the full 1000 ms without changing the log |
| Safety.ThirdCallAfterWaiting | src/main/java/io/bellyasoff/CrptApi.java:103-109 | woken 1000 ms later it finds both entries stale and is admitted into an otherwise empty log |
| CrptApi.New | src/main/java/io/bellyasoff/CrptApi.java:53-61 | the client is built iff requestLimit is positive and the unit is at least a millisecond; a bad limit reports the client's message, a sub-millisecond unit the limiter's window message; on success the limiter has window toMillis(1), limit requestLimit and an empty log |
| CrptApi.NewWithDefaultUrl | src/main/java/io/bellyasoff/CrptApi.java:49-51 | the two-argument constructor succeeds under the same condition and posts to the default URL |
| CrptApi.NewFailsIff | src/main/java/io/bellyasoff/CrptApi.java:54-59 | construction fails iff requestLimit <= 0 or the unit is nanoseconds or microseconds; otherwise the window is exactly the unit's length in milliseconds |

## Left out

- `synchronized`, `this.wait(waitFor)` and `InterruptedException`. These are thread coordination. The lock is modelled by running one loop iteration at a time, and the sleep becomes the `Wait` outcome. Spurious and late wake-ups need nothing extra: the next iteration uses whatever clock reading comes next.
- `System.currentTimeMillis()`. Clock readings are parameters: one per `Step`, and a sequence for `Acquire` and `Run`.
- Negative clock readings. `Millis` is restricted to readings at or after 1970.
- `createDocument`: the HTTP request, `httpClient.send` and the call to `acquire()` before it. This is network I/O through a library that is not shown.
- `serializePayload`. It goes through Jackson and `Map.of`, which are foreign code with an unspecified field order.
- `main`. It is a demo entry point.
- The `Objects.requireNonNull` checks. Dafny values cannot be null, so a `NullPointerException` cannot arise.
- RateLimiter.Acquire: its contract describes the limiter it leaves and the delays it sleeps. It does not state that it equals `Safety.Run` over the same readings. The safety results are stated over `Run`, which covers every interleaving, including a single caller's loop.
- The `waitFor <= 0` branch reads as if it handles a clock that moved or a head that went stale after the prune. In the code the prune runs in the same critical section with the same `now`, so neither can happen. The branch is reached only through `long` overflow, and the model follows the code (`RateLimiter.StepRetryIff`).
- Safety.SafetyTheorem: the window bound holds only for a clock that never runs backwards. `System.currentTimeMillis()` does not promise that: it follows the wall clock, which can be set back. Under a clock that runs backwards the bound fails (`Safety.BackwardClockOverfillsWindow`). What still holds is that the log stays within the limit (`Safety.RunWithinLimit`) and that a limit of 1 spaces admissions a window apart (`Safety.LimitOneSerializes`).
- A sleep is often assumed to be bounded by the window. The code guarantees this only when no log entry lies in the future of the current reading. `RateLimiter.StepWaitFor` states the exact condition.
