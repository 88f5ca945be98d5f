/** The circuit breaker's state machine as pure functions over a snapshot of
    its four mutable fields. Each function is one locked critical section of
    `CircuitBreaker`: the admission block at the top of `execute`,
    `onSuccess`, `onFailure` and `reset`. The wall clock is the parameter
    `now`. `Run` applies a sequence of such sections, which is how calls that
    are in flight at the same time interleave on one breaker. */
module BreakerSpec {
  import opened Jvm

  /** `CircuitBreaker.State` */
  datatype State = Closed | Open | HalfOpen

  /** The constructor parameters; Kotlin checks none of their ranges. */
  datatype Config = Config(
    name: string,
    failureThreshold: int32,
    resetTimeout: int64,
    halfOpenMaxAttempts: int32)

  /** The values of the fields `state`, `failureCount`, `lastFailureTime`
      and `halfOpenAttempts` at one instant. */
  datatype Snapshot = Snapshot(
    state: State,
    failureCount: int32,
    lastFailureTime: int64,
    halfOpenAttempts: int32)

  /** Why admission threw `CircuitBreakerOpenException`: the circuit is open
      and the reset timeout has `remainingSeconds` to go, or the half-open
      probe budget is used up. The message text itself is not modelled. */
  datatype Rejection = OpenFor(remainingSeconds: int64) | TestingRecovery

  /** The outcome of admission: run the block, or throw. */
  datatype Decision = Proceed | Reject(reason: Rejection)

  datatype Admitted = Admitted(decision: Decision, next: Snapshot)

  /** `CircuitBreakerStats` */
  datatype Stats = Stats(
    name: string,
    state: State,
    failureCount: int32,
    failureThreshold: int32,
    lastFailureTime: int64,
    halfOpenAttempts: int32)

  /** The field initialisers of `CircuitBreaker`, also what `reset` restores. */
  function Initial(): Snapshot
  {
    Snapshot(Closed, 0, 0, 0)
  }

  /** The invariant every reachable snapshot keeps, for any configuration.
      When `failureThreshold >= 1` and `halfOpenMaxAttempts >= 0` (the
      constructor checks neither) it reads: a closed breaker has used no
      probes and has seen fewer consecutive failures than the threshold,
      and a half-open breaker has used at most its probe budget. */
  ghost predicate Inv(c: Config, s: Snapshot)
  {
    (s.state == Closed ==>
       s.halfOpenAttempts == 0 &&
       0 <= s.failureCount && (s.failureCount == 0 || s.failureCount < c.failureThreshold)) &&
    (s.state == HalfOpen ==>
       0 <= s.halfOpenAttempts &&
       (s.halfOpenAttempts == 0 || s.halfOpenAttempts <= c.halfOpenMaxAttempts))
  }

  /** Admission at time `now`. The transition OPEN -> HALF_OPEN lets this
      call through without consuming a probe: the `when` does not fall
      through to the HALF_OPEN branch. */
  function Admit(c: Config, s: Snapshot, now: int64): (a: Admitted)
    ensures Inv(c, s) ==> Inv(c, a.next)
    ensures a.next.failureCount == s.failureCount
    ensures a.next.lastFailureTime == s.lastFailureTime
    ensures a.decision.Reject? ==> a.next == s
    ensures a.decision.Proceed? ==> a.next.state == (if s.state == Closed then Closed else HalfOpen)
  {
    match s.state
    case Closed => Admitted(Proceed, s)
    case Open =>
      var elapsed := SubLong(now, s.lastFailureTime);
      if elapsed >= c.resetTimeout then
        Admitted(Proceed, s.(state := HalfOpen, halfOpenAttempts := 0))
      else
        Admitted(Reject(OpenFor(MillisToSeconds(SubLong(c.resetTimeout, elapsed)))), s)
    case HalfOpen =>
      if s.halfOpenAttempts >= c.halfOpenMaxAttempts then
        Admitted(Reject(TestingRecovery), s)
      else
        Admitted(Proceed, s.(halfOpenAttempts := Inc(s.halfOpenAttempts)))
  }

  /** `onSuccess`: the block returned normally. */
  function OnSuccess(s: Snapshot): (t: Snapshot)
    ensures t.lastFailureTime == s.lastFailureTime
    ensures t.state == (if s.state == Open then Open else Closed)
    ensures s.state != Open ==> t.failureCount == 0
    ensures forall c :: Inv(c, s) ==> Inv(c, t)
  {
    match s.state
    case HalfOpen => s.(state := Closed, failureCount := 0, halfOpenAttempts := 0)
    case Closed => s.(failureCount := 0)
    case Open => s
  }

  /** `onFailure`: the block threw an `Exception`, observed at time `now`. */
  function OnFailure(c: Config, s: Snapshot, now: int64): (t: Snapshot)
    ensures t.failureCount == Inc(s.failureCount)
    ensures t.lastFailureTime == now
    ensures t.state != HalfOpen
    ensures Inv(c, s) ==> Inv(c, t)
  {
    var counted := s.(failureCount := Inc(s.failureCount), lastFailureTime := now);
    match s.state
    case HalfOpen => counted.(halfOpenAttempts := Inc(s.halfOpenAttempts), state := Open)
    case Closed =>
      if counted.failureCount >= c.failureThreshold then counted.(state := Open) else counted
    case Open => counted
  }

  /** `getStats` */
  function StatsOf(c: Config, s: Snapshot): (st: Stats)
    ensures st.name == c.name && st.failureThreshold == c.failureThreshold
    ensures Snapshot(st.state, st.failureCount, st.lastFailureTime, st.halfOpenAttempts) == s
  {
    Stats(c.name, s.state, s.failureCount, c.failureThreshold, s.lastFailureTime, s.halfOpenAttempts)
  }

  /** One locked critical section on the breaker: an admission check, the
      report of a block that returned or threw, or a manual `reset`. */
  datatype Event = AdmitAt(now: int64) | Succeeded | FailedAt(now: int64) | ManualReset

  /** The snapshot after a run of events, and the admission decisions taken
      along the way, in order. */
  datatype Trace = Trace(final: Snapshot, decisions: seq<Decision>)

  function CountAdmissions(evs: seq<Event>): nat
  {
    if evs == [] then 0 else (if evs[0].AdmitAt? then 1 else 0) + CountAdmissions(evs[1..])
  }

  function CountFailures(evs: seq<Event>): nat
  {
    if evs == [] then 0 else (if evs[0].FailedAt? then 1 else 0) + CountFailures(evs[1..])
  }

  /** The events `evs` applied one after another from `s`. */
  function Run(c: Config, s: Snapshot, evs: seq<Event>): (tr: Trace)
    ensures Inv(c, s) ==> Inv(c, tr.final)
    ensures |tr.decisions| == CountAdmissions(evs)
    decreases |evs|
  {
    if evs == [] then Trace(s, [])
    else
      match evs[0]
      case AdmitAt(now) =>
        var a := Admit(c, s, now);
        var rest := Run(c, a.next, evs[1..]);
        Trace(rest.final, [a.decision] + rest.decisions)
      case Succeeded => Run(c, OnSuccess(s), evs[1..])
      case FailedAt(now) => Run(c, OnFailure(c, s, now), evs[1..])
      case ManualReset => Run(c, Initial(), evs[1..])
  }

  /** How many of the decisions let the block run. */
  function CountProceeds(ds: seq<Decision>): (n: nat)
    ensures n <= |ds|
  {
    if ds == [] then 0 else (if ds[0].Proceed? then 1 else 0) + CountProceeds(ds[1..])
  }
}
