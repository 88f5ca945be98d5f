/** `CircuitBreaker`: the object that guards a wrapped call. Its four `var`
    fields are updated in place by the admission block of `execute`, by
    `onSuccess`, `onFailure` and `reset`; each method below is proved to
    leave the fields as the matching function of `BreakerSpec` says. */
module Breaker {
  import opened Jvm
  import Spec = BreakerSpec

  /** What the wrapped block did when it ran: returned a value or threw an
      `Exception`. */
  datatype Outcome<T, E> = Returned(value: T) | Threw(exception: E)

  /** What `execute` hands back to its caller: the block's value, a
      `CircuitBreakerOpenException` thrown before the block ran, or the
      block's own exception rethrown unchanged. */
  datatype CallResult<T, E> =
    | Value(value: T)
    | BreakerOpen(reason: Spec.Rejection)
    | Rethrown(exception: E)

  class CircuitBreaker {
    const name: string
    const failureThreshold: int32
    const resetTimeout: int64
    const halfOpenMaxAttempts: int32

    var failureCount: int32
    var lastFailureTime: int64
    var halfOpenAttempts: int32
    var state: Spec.State

    function Config(): Spec.Config
    {
      Spec.Config(name, failureThreshold, resetTimeout, halfOpenMaxAttempts)
    }

    function Snapshot(): Spec.Snapshot
      reads this
    {
      Spec.Snapshot(state, failureCount, lastFailureTime, halfOpenAttempts)
    }

    ghost predicate Valid()
      reads this
    {
      Spec.Inv(Config(), Snapshot())
    }

    /** The Kotlin parameter defaults are kept: a breaker built with no
        arguments is named "CircuitBreaker", opens after 5 failures, waits
        one minute and allows 3 probes. */
    constructor (
      name: string := "CircuitBreaker",
      failureThreshold: int32 := 5,
      resetTimeout: int64 := 60000,
      halfOpenMaxAttempts: int32 := 3)
      ensures Config() == Spec.Config(name, failureThreshold, resetTimeout, halfOpenMaxAttempts)
      ensures state == Spec.Closed && failureCount == 0 && lastFailureTime == 0 && halfOpenAttempts == 0
      ensures Snapshot() == Spec.Initial()
      ensures Valid()
    {
      this.name := name;
      this.failureThreshold := failureThreshold;
      this.resetTimeout := resetTimeout;
      this.halfOpenMaxAttempts := halfOpenMaxAttempts;
      failureCount := 0;
      lastFailureTime := 0;
      halfOpenAttempts := 0;
      state := Spec.Closed;
    }

    /** The locked admission block of `execute`, run at time `now`. */
    method Admit(now: int64) returns (d: Spec.Decision)
      requires Valid()
      modifies this
      ensures Valid()
      ensures Spec.Admit(Config(), old(Snapshot()), now) == Spec.Admitted(d, Snapshot())
    {
      match state
      case Open =>
        var timeSinceLastFailure := SubLong(now, lastFailureTime);
        if timeSinceLastFailure >= resetTimeout {
          state := Spec.HalfOpen;
          halfOpenAttempts := 0;
          d := Spec.Proceed;
        } else {
          var remainingTime := MillisToSeconds(SubLong(resetTimeout, timeSinceLastFailure));
          d := Spec.Reject(Spec.OpenFor(remainingTime));
        }
      case HalfOpen =>
        if halfOpenAttempts >= halfOpenMaxAttempts {
          d := Spec.Reject(Spec.TestingRecovery);
        } else {
          halfOpenAttempts := Inc(halfOpenAttempts);
          d := Spec.Proceed;
        }
      case Closed =>
        d := Spec.Proceed;
    }

    /** `onSuccess` */
    method OnSuccess()
      requires Valid()
      modifies this
      ensures Valid()
      ensures Snapshot() == Spec.OnSuccess(old(Snapshot()))
    {
      match state
      case HalfOpen =>
        state := Spec.Closed;
        failureCount := 0;
        halfOpenAttempts := 0;
      case Closed =>
        failureCount := 0;
      case Open =>
    }

    /** `onFailure`, with the failure observed at time `now`. */
    method OnFailure(now: int64)
      requires Valid()
      modifies this
      ensures Valid()
      ensures Snapshot() == Spec.OnFailure(Config(), old(Snapshot()), now)
    {
      failureCount := Inc(failureCount);
      lastFailureTime := now;
      match state
      case HalfOpen =>
        halfOpenAttempts := Inc(halfOpenAttempts);
        state := Spec.Open;
      case Closed =>
        if failureCount >= failureThreshold {
          state := Spec.Open;
        }
      case Open =>
    }

    /** `execute`, for one call that runs alone: admission at `start`, then
        the block with outcome `block` (only if admitted), then the report
        of that outcome at `end`. Calls that overlap are `Spec.Run`. */
    method Execute<T, E>(start: int64, block: Outcome<T, E>, end: int64) returns (r: CallResult<T, E>, invoked: bool)
      requires Valid()
      modifies this
      ensures Valid()
      ensures invoked <==> Spec.Admit(Config(), old(Snapshot()), start).decision.Proceed?
      ensures !invoked ==> r == BreakerOpen(Spec.Admit(Config(), old(Snapshot()), start).decision.reason)
      ensures !invoked ==> Snapshot() == old(Snapshot())
      ensures invoked ==> r == (match block case Returned(v) => Value(v) case Threw(e) => Rethrown(e))
      ensures invoked ==> (
        var admitted := Spec.Admit(Config(), old(Snapshot()), start).next;
        Snapshot() ==
          match block
          case Returned(_) => Spec.OnSuccess(admitted)
          case Threw(_) => Spec.OnFailure(Config(), admitted, end))
    {
      var d := Admit(start);
      if d.Reject? {
        return BreakerOpen(d.reason), false;
      }
      invoked := true;
      match block
      case Returned(v) =>
        OnSuccess();
        r := Value(v);
      case Threw(e) =>
        OnFailure(end);
        r := Rethrown(e);
    }

    /** `getState` */
    method GetState() returns (s: Spec.State)
      ensures s == state
    {
      s := state;
    }

    /** `getFailureCount` */
    method GetFailureCount() returns (n: int32)
      ensures n == failureCount
    {
      n := failureCount;
    }

    /** `getStats`: a record of the configuration and the current fields. */
    method GetStats() returns (st: Spec.Stats)
      ensures st.name == name && st.failureThreshold == failureThreshold
      ensures st.state == state && st.failureCount == failureCount
      ensures st.lastFailureTime == lastFailureTime && st.halfOpenAttempts == halfOpenAttempts
    {
      st := Spec.StatsOf(Config(), Snapshot());
    }

    /** `reset`: back to the initial fields from any state. */
    method Reset()
      modifies this
      ensures Valid()
      ensures state == Spec.Closed && failureCount == 0 && halfOpenAttempts == 0 && lastFailureTime == 0
      ensures Snapshot() == Spec.Initial()
    {
      state := Spec.Closed;
      failureCount := 0;
      halfOpenAttempts := 0;
      lastFailureTime := 0;
    }
  }

  /** A client of the class: the breaker wired for the Ktor client
      (threshold 3, timeout 30 s, two probes) goes through three failures,
      a rejected call, a probe that fails, a probe that succeeds, and a
      manual reset. Only the methods' contracts are used. `recovered` is
      the statistics after the successful probe, `afterReset` those after
      the reset. */
  method KtorScenario() returns (recovered: Spec.Stats, afterReset: Spec.Stats)
    ensures recovered == Spec.Stats("KtorCircuitBreaker", Spec.Closed, 0, 3, 33500, 0)
    ensures afterReset == Spec.Stats("KtorCircuitBreaker", Spec.Closed, 0, 3, 0, 0)
  {
    var b := new CircuitBreaker("KtorCircuitBreaker", 3, 30000, 2);
    var r, ran := b.Execute<int, string>(1000, Threw("timeout"), 1000);
    assert ran && r == Rethrown("timeout");
    r, ran := b.Execute(2000, Threw("timeout"), 2000);
    r, ran := b.Execute(3000, Threw("timeout"), 3000);
    assert b.state == Spec.Open && b.failureCount == 3 && b.lastFailureTime == 3000;

    r, ran := b.Execute(4000, Returned(7), 4000);
    assert !ran && r == BreakerOpen(Spec.OpenFor(29));

    r, ran := b.Execute(33000, Threw("timeout"), 33500);
    assert ran && b.state == Spec.Open && b.halfOpenAttempts == 1 && b.lastFailureTime == 33500;

    r, ran := b.Execute(63500, Returned(7), 63600);
    assert ran && r == Value(7);
    recovered := b.GetStats();

    b.Reset();
    afterReset := b.GetStats();
  }

  /** A breaker built with the Kotlin defaults. */
  method DefaultBreaker() returns (st: Spec.Stats, timeout: int64, probes: int32)
    ensures st == Spec.Stats("CircuitBreaker", Spec.Closed, 0, 5, 0, 0)
    ensures timeout == 60000 && probes == 3
  {
    var b := new CircuitBreaker();
    st := b.GetStats();
    timeout, probes := b.resetTimeout, b.halfOpenMaxAttempts;
  }
}
