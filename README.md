# Circuit breaker state machine, verified in Dafny

This project models the `CircuitBreaker` class of an Android app's network
layer. The breaker wraps a suspending network call. It blocks calls while a
dependency is failing and lets a limited number of probe calls through once
a reset timeout has passed. The phases are `CLOSED`, `OPEN` and `HALF_OPEN`.
The breaker keeps four mutable fields: `state`, `failureCount`,
`lastFailureTime` and `halfOpenAttempts`. Its configuration is fixed at
construction: `name`, `failureThreshold`, `resetTimeout` (milliseconds) and
`halfOpenMaxAttempts`.

Files:

- `jvm.dfy` (module `Jvm`): Kotlin `Int` and `Long` as the newtypes `int32`
  and `int64`. It writes out the wrap-around of `++` and of `Long`
  subtraction, and the truncating `Long` division by 1000.
- `breaker_spec.dfy` (module `BreakerSpec`): each locked critical section as
  a pure function over a `Snapshot` of the four fields. `Admit` is the
  admission block of `execute`; `OnSuccess`, `OnFailure` and `StatsOf` match
  the source methods. `Inv` is the invariant that every reachable snapshot
  keeps. `Run` applies a sequence of critical sections. Calls that are in
  flight at the same time on one breaker interleave this way.
- `circuit_breaker.dfy` (module `Breaker`): the class `CircuitBreaker`, with
  the four `var` fields and the configuration as `const` fields. Its methods
  update the fields in place. Each method is proved to leave exactly the
  snapshot that the matching `BreakerSpec` function gives. `Execute` is one
  call to `execute` that runs alone. The block's outcome and the two clock
  readings are parameters. `KtorScenario` is a client that uses only the
  method contracts.
- `breaker_properties.dfy` (module `BreakerProperties`): lemmas about single
  transitions and about runs. They cover the threshold, the timeout, the
  probe budget, and a scenario with the configuration wired for the Ktor
  client (`di/NetworkModule.kt:44-51`: threshold 3, timeout 30000 ms,
  2 probes).

The clock (`System.currentTimeMillis()`) is an input `now`. Admission reads
it once; `onFailure` reads it again when the failure is recorded.

### Behaviour worth knowing

- `halfOpenMaxAttempts` is documented as the "Allowed test requests during
  recovery" (`CircuitBreaker.kt:17`), and the Ktor breaker is commented
  "Allow 2 test attempts" (`NetworkModule.kt:49`). Yet the `OPEN -> HALF_OPEN`
  branch of the `when` (`CircuitBreaker.kt:76-78`) admits the call that makes
  the transition without counting it, and does not go on to the `HALF_OPEN`
  branch. So up to `halfOpenMaxAttempts + 1` calls run as probes in one
  half-open episode (`ProbesPerEpisode`, `KtorThreeProbesRun`): the Ktor
  breaker lets three through.
- The `HALF_OPEN` comment (`CircuitBreaker.kt:60-63`) says a failed test
  reopens the circuit. `onFailure` also increments `halfOpenAttempts` a
  second time (`CircuitBreaker.kt:173`), so a probe admitted inside the
  half-open phase that fails has been counted twice
  (`FailedProbeCountedTwice`).
- `halfOpenAttempts <= halfOpenMaxAttempts` holds while `HALF_OPEN`
  (`HalfOpenWithinBudget`). After a failed probe an `OPEN` breaker can hold
  `halfOpenMaxAttempts + 1`; the next half-open episode starts again from 0.
- `failureCount` is an `Int` whose `++` wraps. While the breaker is `OPEN` or
  `HALF_OPEN` nothing resets it, so after 2^31 - 1 failures with no success
  or reset in between the next failure makes it negative
  (`CounterWrapsAtIntMax`). Below that it stays non-negative and grows by at
  most one per failure (`FailureCountBounded`).
- The constructor checks no ranges. `Inv` is stated for every
  configuration; the ranges some lemmas assume (`failureThreshold >= 1`,
  `halfOpenMaxAttempts >= 0`) are written in their `requires`.
- The rejection's "retry in N seconds" is `(resetTimeout - elapsed) / 1000`
  in `Long` arithmetic. If the clock went back a long way since the last
  failure, the subtraction can wrap. The model keeps the wrap. The wait is
  proved to be the remaining time in whole seconds, and never negative, when
  `0 <= lastFailureTime <= now` (`OpenRejectsBeforeTimeout`).

## Model

| member | source | states |
|---|---|---|
| `Jvm.Inc` | app/src/main/java/com/example/circuitbreaker/data/circuitbreaker/CircuitBreaker.kt:162 | Kotlin `Int` `++`: the result is congruent to x + 1 modulo 2^32; it is x + 1 below `Int.MAX_VALUE` and wraps to `Int.MIN_VALUE` at it |
| `Jvm.SubLong` | app/src/main/java/com/example/circuitbreaker/data/circuitbreaker/CircuitBreaker.kt:75 | Kotlin `Long` subtraction: congruent to a - b modulo 2^64, and exactly a - b when that fits in a `Long` |
| `Jvm.MillisToSeconds` | app/src/main/java/com/example/circuitbreaker/data/circuitbreaker/CircuitBreaker.kt:80 | `Long` division by 1000 truncates toward zero: for ms >= 0 the result r is non-negative and 1000r <= ms < 1000r + 1000; for ms < 0 it is the mirror image |
| `BreakerSpec.Admit` | app/src/main/java/com/example/circuitbreaker/data/circuitbreaker/CircuitBreaker.kt:70-98 | admission keeps the invariant, never changes `failureCount` or `lastFailureTime`, changes nothing when it rejects, and an admitted call runs with the breaker closed or half-open |
| `BreakerSpec.OnSuccess` | app/src/main/java/com/example/circuitbreaker/data/circuitbreaker/CircuitBreaker.kt:125-152 | a success never touches `lastFailureTime`; it leaves an open breaker open and any other breaker closed with `failureCount` 0; it keeps the invariant under every configuration |
| `BreakerSpec.OnFailure` | app/src/main/java/com/example/circuitbreaker/data/circuitbreaker/CircuitBreaker.kt:160-193 | a failure increments `failureCount` (with `Int` wrap) and sets `lastFailureTime` to the time of the failure; it never leaves the breaker half-open; it keeps the invariant |
| `BreakerSpec.StatsOf` | app/src/main/java/com/example/circuitbreaker/data/circuitbreaker/CircuitBreaker.kt:212-221 | the statistics record carries the breaker's name and threshold, and its other four fields are exactly the current snapshot |
| `BreakerSpec.Run` | app/src/main/java/com/example/circuitbreaker/data/circuitbreaker/CircuitBreaker.kt:68-116 | any interleaving of admissions, reports and resets keeps the invariant, and yields one decision per admission |
| `Breaker.CircuitBreaker.constructor` | app/src/main/java/com/example/circuitbreaker/data/circuitbreaker/CircuitBreaker.kt:21-47 | a new breaker keeps the given configuration (or the Kotlin defaults "CircuitBreaker", 5, 60000 ms, 3) and starts `CLOSED` with `failureCount`, `lastFailureTime` and `halfOpenAttempts` all 0, satisfying the invariant |
| `Breaker.CircuitBreaker.Admit` | app/src/main/java/com/example/circuitbreaker/data/circuitbreaker/CircuitBreaker.kt:70-98 | the in-place admission block returns the decision and leaves the fields that `BreakerSpec.Admit` gives for the old fields and `now`; it keeps the invariant |
| `Breaker.CircuitBreaker.OnSuccess` | app/src/main/java/com/example/circuitbreaker/data/circuitbreaker/CircuitBreaker.kt:125-152 | the fields afterwards are `BreakerSpec.OnSuccess` of the fields before; it keeps the invariant |
| `Breaker.CircuitBreaker.OnFailure` | app/src/main/java/com/example/circuitbreaker/data/circuitbreaker/CircuitBreaker.kt:160-193 | the fields afterwards are `BreakerSpec.OnFailure` of the fields before and the failure time; it keeps the invariant |
| `Breaker.CircuitBreaker.Execute` | app/src/main/java/com/example/circuitbreaker/data/circuitbreaker/CircuitBreaker.kt:68-117 | the block is invoked exactly when admission says Proceed. If not invoked, the call fails with the rejection and no field changes. If invoked, the block's value is returned or its exception is rethrown unchanged, and the fields are those after admission followed by the success or failure report |
| `Breaker.CircuitBreaker.GetState` | app/src/main/java/com/example/circuitbreaker/data/circuitbreaker/CircuitBreaker.kt:200 | returns the current `state` |
| `Breaker.CircuitBreaker.GetFailureCount` | app/src/main/java/com/example/circuitbreaker/data/circuitbreaker/CircuitBreaker.kt:205 | returns the current `failureCount` |
| `Breaker.CircuitBreaker.GetStats` | app/src/main/java/com/example/circuitbreaker/data/circuitbreaker/CircuitBreaker.kt:212-221 | returns a record whose fields equal the current name, state, failure count, threshold, last failure time and probe count |
| `Breaker.CircuitBreaker.Reset` | app/src/main/java/com/example/circuitbreaker/data/circuitbreaker/CircuitBreaker.kt:228-234 | from any state: `CLOSED`, `failureCount` 0, `halfOpenAttempts` 0, `lastFailureTime` 0, the initial snapshot, and the invariant holds |
| `BreakerProperties.ClosedAdmitsUnchanged` | app/src/main/java/com/example/circuitbreaker/data/circuitbreaker/CircuitBreaker.kt:96 | in `CLOSED`, admission always proceeds and changes no field |
| `BreakerProperties.OpenRejectsBeforeTimeout` | app/src/main/java/com/example/circuitbreaker/data/circuitbreaker/CircuitBreaker.kt:74-84 | in `OPEN` before the timeout, the call is rejected as open and no field changes. If the clock has not gone back, the wait reported is the remaining milliseconds in whole seconds, rounded down, and is at least 0 |
| `BreakerProperties.OpenAdmitsProbeAfterTimeout` | app/src/main/java/com/example/circuitbreaker/data/circuitbreaker/CircuitBreaker.kt:75-78 | in `OPEN` once the timeout has passed, the call proceeds, the state becomes `HALF_OPEN` with `halfOpenAttempts` 0, and `failureCount` and `lastFailureTime` are untouched |
| `BreakerProperties.HalfOpenAdmission` | app/src/main/java/com/example/circuitbreaker/data/circuitbreaker/CircuitBreaker.kt:87-94 | in `HALF_OPEN` a call proceeds if and only if `halfOpenAttempts < halfOpenMaxAttempts`. It then increments `halfOpenAttempts` by exactly 1 and changes nothing else. Otherwise it is rejected as testing recovery and nothing changes |
| `BreakerProperties.HalfOpenWithinBudget` | app/src/main/java/com/example/circuitbreaker/data/circuitbreaker/CircuitBreaker.kt:87-94 | in every reachable `HALF_OPEN` snapshot, 0 <= `halfOpenAttempts` <= `halfOpenMaxAttempts` |
| `BreakerProperties.SuccessEffects` | app/src/main/java/com/example/circuitbreaker/data/circuitbreaker/CircuitBreaker.kt:125-152 | on success: `HALF_OPEN` becomes `CLOSED` with both counters 0; `CLOSED` only zeroes `failureCount`; `OPEN` changes nothing; `lastFailureTime` is never touched |
| `BreakerProperties.SuccessIdempotent` | app/src/main/java/com/example/circuitbreaker/data/circuitbreaker/CircuitBreaker.kt:139-145 | a second success report changes nothing further |
| `BreakerProperties.FailureEffects` | app/src/main/java/com/example/circuitbreaker/data/circuitbreaker/CircuitBreaker.kt:160-193 | on failure `failureCount` goes up by one and `lastFailureTime` becomes the failure time. `CLOSED` opens if and only if the new count reaches the threshold. `HALF_OPEN` reopens and increments `halfOpenAttempts` again. `OPEN` stays open |
| `BreakerProperties.FailedProbeCountedTwice` | app/src/main/java/com/example/circuitbreaker/data/circuitbreaker/CircuitBreaker.kt:93 | a probe admitted inside `HALF_OPEN` that then fails leaves the breaker `OPEN` with `halfOpenAttempts` increased by two |
| `BreakerProperties.ReachableKeepsInv` | app/src/main/java/com/example/circuitbreaker/data/circuitbreaker/CircuitBreaker.kt:33-47 | every snapshot reachable from a new breaker satisfies the invariant: `CLOSED` implies `halfOpenAttempts` 0 and a failure count below the threshold (when the threshold is at least 1), and `HALF_OPEN` implies a probe count within the budget |
| `BreakerProperties.ResetForgetsHistory` | app/src/main/java/com/example/circuitbreaker/data/circuitbreaker/CircuitBreaker.kt:228-234 | after a reset anywhere in a run of interleaved events, the final snapshot is the one a new breaker reaches on the events after the reset, and the decisions are those before the reset followed by a new breaker's |
| `BreakerProperties.FailureCountBounded` | app/src/main/java/com/example/circuitbreaker/data/circuitbreaker/CircuitBreaker.kt:161-162 | over any run in which the count cannot reach `Int.MAX_VALUE`, `failureCount` stays non-negative and ends at most its start plus the number of failures |
| `BreakerProperties.CounterWrapsAtIntMax` | app/src/main/java/com/example/circuitbreaker/data/circuitbreaker/CircuitBreaker.kt:161-162 | a failure with `failureCount` at `Int.MAX_VALUE` leaves it at `Int.MIN_VALUE` |
| `BreakerProperties.FailuresKeepOpen` | app/src/main/java/com/example/circuitbreaker/data/circuitbreaker/CircuitBreaker.kt:188-191 | an `OPEN` breaker stays open under any number of failures and records the time of the last one |
| `BreakerProperties.FailuresFromClosed` | app/src/main/java/com/example/circuitbreaker/data/circuitbreaker/CircuitBreaker.kt:178-187 | from `CLOSED` with k failures counted, n more failures keep it closed while k + n < threshold and open it otherwise; up to the threshold the count is exactly k + n |
| `BreakerProperties.ThresholdFailuresOpen` | app/src/main/java/com/example/circuitbreaker/data/circuitbreaker/CircuitBreaker.kt:178-187 | from `CLOSED` with count 0, consecutive failures open the breaker if and only if there are at least `failureThreshold` of them |
| `BreakerProperties.OpenRejectsUntilTimeout` | app/src/main/java/com/example/circuitbreaker/data/circuitbreaker/CircuitBreaker.kt:74-84 | any number of admissions before the timeout are all rejected and leave an `OPEN` breaker unchanged |
| `BreakerProperties.HalfOpenAdmitsBudget` | app/src/main/java/com/example/circuitbreaker/data/circuitbreaker/CircuitBreaker.kt:87-94 | in `HALF_OPEN`, a run of admissions lets through exactly min(calls, probes left) and stays half-open |
| `BreakerProperties.ProbesPerEpisode` | app/src/main/java/com/example/circuitbreaker/data/circuitbreaker/CircuitBreaker.kt:73-94 | admissions to an `OPEN` breaker with no report in between let through at most `halfOpenMaxAttempts + 1` calls. Once the timeout has passed at the first of them, exactly min(calls, `halfOpenMaxAttempts + 1`) run |
| `BreakerProperties.KtorOpenThenRecover` | app/src/main/java/com/example/circuitbreaker/di/NetworkModule.kt:44-51 | with threshold 3 and timeout 30 s: three failures open the breaker, a call 1 s later is rejected with 29 s to wait, a call at 30 s proceeds half-open, and its success closes the breaker with counters 0 |
| `BreakerProperties.KtorProbeFails` | app/src/main/java/com/example/circuitbreaker/data/circuitbreaker/CircuitBreaker.kt:160-177 | a failing first probe reopens the breaker at the failure time with `halfOpenAttempts` 1 |
| `BreakerProperties.KtorThreeProbesRun` | app/src/main/java/com/example/circuitbreaker/di/NetworkModule.kt:44-51 | with a budget of 2 probes, four simultaneous calls after the timeout give Proceed, Proceed, Proceed, then a testing-recovery rejection |
| `Breaker.KtorScenario` | app/src/main/java/com/example/circuitbreaker/di/NetworkModule.kt:44-51 | through the class methods alone: three failing calls open the Ktor breaker, a call 1 s later is rejected with 29 s to wait and the block does not run, a failing probe reopens it with one probe counted, a successful probe closes it with both counters 0, and a reset zeroes the last failure time |
| `Breaker.DefaultBreaker` | app/src/main/java/com/example/circuitbreaker/data/circuitbreaker/CircuitBreaker.kt:21-26 | a breaker built with no arguments is named "CircuitBreaker", has threshold 5, timeout 60000 ms and 3 probes, and starts closed with all counters 0 |

## Left out

- The coroutine `Mutex` and `withLock`: each critical section is one
  function or method call. `Run` covers interleavings of whole critical
  sections, which is what the lock guarantees. True parallelism is not
  modelled.
- The unlocked reads in `getState`, `getFailureCount` and `getStats`: a read
  that races with an update is not modelled, since the model has no
  parallelism.
- `System.currentTimeMillis()`: it is the `now` parameter. `Execute` takes
  one reading for admission and one for the failure report.
- `Log` calls and the exception message texts. `Rejection` keeps which
  message it is and the seconds value in it.
- Cancellation: a `CancellationException` is an `Exception`, so it is one
  more `Threw` outcome.
- `Throwable`s that are not `Exception`s (JVM `Error`s): these bypass the
  `catch` and no failure is recorded. They are not modelled.
- The suspending block itself: its result is the `Outcome` parameter of
  `Execute`. In `Run`, a report event stands for it.
- `CircuitBreakerInterceptor` (the `runBlocking` bridge), the Ktor and
  Retrofit clients, the repository, the view model and the UI screens: these
  are plumbing and display with no breaker logic. They are not part of this
  model.
- Dependency wiring in `NetworkModule.kt` and `App.kt`: only the Ktor
  breaker's configuration constants are used, as test values.
