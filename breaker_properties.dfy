/** What the circuit breaker's transitions promise, one critical section at a
    time and over runs of interleaved critical sections. */
module BreakerProperties {
  import opened Jvm
  import opened BreakerSpec

  // ---------------------------------------------------------------------
  // Admission
  // ---------------------------------------------------------------------

  /** A closed breaker lets every call run and changes nothing. */
  lemma ClosedAdmitsUnchanged(c: Config, s: Snapshot, now: int64)
    requires s.state == Closed
    ensures Admit(c, s, now) == Admitted(Proceed, s)
  {
  }

  /** An open breaker whose reset timeout has not yet passed rejects the call
      and changes nothing. On a clock that has not gone back since the last
      failure, the reported wait is the remaining timeout in whole seconds,
      rounded down, and is never negative. */
  lemma OpenRejectsBeforeTimeout(c: Config, s: Snapshot, now: int64)
    requires s.state == Open
    requires SubLong(now, s.lastFailureTime) < c.resetTimeout
    ensures Admit(c, s, now).next == s
    ensures Admit(c, s, now).decision.Reject? && Admit(c, s, now).decision.reason.OpenFor?
    ensures 0 <= s.lastFailureTime <= now ==>
      var remaining := Admit(c, s, now).decision.reason.remainingSeconds as int;
      var left := c.resetTimeout as int - (now as int - s.lastFailureTime as int);
      0 <= remaining && remaining * 1000 <= left < remaining * 1000 + 1000
  {
    if 0 <= s.lastFailureTime <= now {
      var elapsed := SubLong(now, s.lastFailureTime);
      assert elapsed as int == now as int - s.lastFailureTime as int;
      assert SubLong(c.resetTimeout, elapsed) as int == c.resetTimeout as int - elapsed as int;
    }
  }

  /** Once the reset timeout has passed, an open breaker turns half-open with
      a fresh probe count and lets this call run as a probe; the failure
      record is untouched. */
  lemma OpenAdmitsProbeAfterTimeout(c: Config, s: Snapshot, now: int64)
    requires s.state == Open
    requires SubLong(now, s.lastFailureTime) >= c.resetTimeout
    ensures Admit(c, s, now) == Admitted(Proceed, s.(state := HalfOpen, halfOpenAttempts := 0))
  {
  }

  /** A half-open breaker lets a call run exactly when probes are left, and
      then uses up exactly one; otherwise it rejects and changes nothing. */
  lemma HalfOpenAdmission(c: Config, s: Snapshot, now: int64)
    requires s.state == HalfOpen
    ensures Admit(c, s, now).decision.Proceed? <==> s.halfOpenAttempts < c.halfOpenMaxAttempts
    ensures s.halfOpenAttempts < c.halfOpenMaxAttempts ==>
      Admit(c, s, now).next.halfOpenAttempts as int == s.halfOpenAttempts as int + 1 &&
      Admit(c, s, now).next == s.(halfOpenAttempts := Admit(c, s, now).next.halfOpenAttempts)
    ensures s.halfOpenAttempts >= c.halfOpenMaxAttempts ==>
      Admit(c, s, now) == Admitted(Reject(TestingRecovery), s)
  {
  }

  /** While half-open, the probe count stays within the budget. */
  lemma HalfOpenWithinBudget(c: Config, s: Snapshot)
    requires Inv(c, s) && s.state == HalfOpen && c.halfOpenMaxAttempts >= 0
    ensures 0 <= s.halfOpenAttempts <= c.halfOpenMaxAttempts
  {
  }

  // ---------------------------------------------------------------------
  // Reports
  // ---------------------------------------------------------------------

  /** A success closes a half-open breaker with zeroed counters, zeroes the
      failure count of a closed one, is ignored by an open one, and never
      touches the time of the last failure. */
  lemma SuccessEffects(s: Snapshot)
    ensures s.state == HalfOpen ==>
      OnSuccess(s) == Snapshot(Closed, 0, s.lastFailureTime, 0)
    ensures s.state == Closed ==> OnSuccess(s) == s.(failureCount := 0)
    ensures s.state == Open ==> OnSuccess(s) == s
  {
  }

  /** Reporting success twice is the same as reporting it once. */
  lemma SuccessIdempotent(s: Snapshot)
    ensures OnSuccess(OnSuccess(s)) == OnSuccess(s)
  {
  }

  /** A failure always counts one more failure and stamps its time; a closed
      breaker opens exactly when the new count reaches the threshold, a
      half-open one reopens and counts its probe a second time, an open one
      stays open. */
  lemma FailureEffects(c: Config, s: Snapshot, now: int64)
    ensures OnFailure(c, s, now).failureCount == Inc(s.failureCount)
    ensures OnFailure(c, s, now).lastFailureTime == now
    ensures s.state == Closed ==>
      OnFailure(c, s, now).halfOpenAttempts == s.halfOpenAttempts &&
      (OnFailure(c, s, now).state == Open <==> Inc(s.failureCount) >= c.failureThreshold) &&
      OnFailure(c, s, now).state != HalfOpen
    ensures s.state == HalfOpen ==>
      OnFailure(c, s, now).state == Open &&
      OnFailure(c, s, now).halfOpenAttempts == Inc(s.halfOpenAttempts)
    ensures s.state == Open ==>
      OnFailure(c, s, now).state == Open &&
      OnFailure(c, s, now).halfOpenAttempts == s.halfOpenAttempts
  {
  }

  /** A probe that is admitted inside the half-open phase and then fails has
      advanced the probe count by two: once at admission, once in
      `onFailure` (a budget of `Int.MAX_VALUE` would wrap the second time). */
  lemma FailedProbeCountedTwice(c: Config, s: Snapshot, now: int64, later: int64)
    requires Inv(c, s) && s.state == HalfOpen
    requires s.halfOpenAttempts < c.halfOpenMaxAttempts && c.halfOpenMaxAttempts as int < INT_MAX
    ensures var t := OnFailure(c, Admit(c, s, now).next, later);
      t.state == Open && t.halfOpenAttempts as int == s.halfOpenAttempts as int + 2
  {
  }

  // ---------------------------------------------------------------------
  // Runs of interleaved critical sections
  // ---------------------------------------------------------------------

  ghost predicate AllFailures(evs: seq<Event>)
  {
    forall i :: 0 <= i < |evs| ==> evs[i].FailedAt?
  }

  ghost predicate AllAdmissions(evs: seq<Event>)
  {
    forall i :: 0 <= i < |evs| ==> evs[i].AdmitAt?
  }

  /** Every snapshot reachable from a new breaker keeps the invariant. */
  lemma ReachableKeepsInv(c: Config, evs: seq<Event>)
    ensures Inv(c, Run(c, Initial(), evs).final)
  {
  }

  /** A `reset` in the middle of a run forgets everything that happened
      before it: what follows behaves exactly as on a new breaker, and the
      decisions taken are those before the reset followed by those of a new
      breaker. */
  lemma {:induction false} ResetForgetsHistory(c: Config, s: Snapshot, pre: seq<Event>, post: seq<Event>)
    ensures Run(c, s, pre + [ManualReset] + post).final == Run(c, Initial(), post).final
    ensures Run(c, s, pre + [ManualReset] + post).decisions ==
      Run(c, s, pre).decisions + Run(c, Initial(), post).decisions
    decreases |pre|
  {
    var evs := pre + [ManualReset] + post;
    if pre == [] {
      assert evs == [ManualReset] + post;
      assert evs[1..] == post;
    } else {
      assert evs[0] == pre[0];
      assert evs[1..] == pre[1..] + [ManualReset] + post;
      match pre[0]
      case AdmitAt(now) =>
        var a := Admit(c, s, now);
        ResetForgetsHistory(c, a.next, pre[1..], post);
        assert Run(c, s, evs).decisions == [a.decision] + Run(c, a.next, evs[1..]).decisions;
      case Succeeded =>
        ResetForgetsHistory(c, OnSuccess(s), pre[1..], post);
      case FailedAt(now) =>
        ResetForgetsHistory(c, OnFailure(c, s, now), pre[1..], post);
      case ManualReset =>
        ResetForgetsHistory(c, Initial(), pre[1..], post);
    }
  }

  /** The failure counter counts failures: over a run in which the counter
      cannot reach `Int.MAX_VALUE`, it stays non-negative and grows by at most
      one per failure (a success or reset may bring it back to 0). Beyond that
      bound the `Int` increment wraps and the counter goes negative
      (`CounterWrapsAtIntMax`). */
  lemma {:induction false} FailureCountBounded(c: Config, s: Snapshot, evs: seq<Event>)
    requires 0 <= s.failureCount as int
    requires s.failureCount as int + CountFailures(evs) <= INT_MAX
    ensures 0 <= Run(c, s, evs).final.failureCount as int <= s.failureCount as int + CountFailures(evs)
    decreases |evs|
  {
    if evs != [] {
      match evs[0]
      case AdmitAt(now) =>
        FailureCountBounded(c, Admit(c, s, now).next, evs[1..]);
      case Succeeded =>
        FailureCountBounded(c, OnSuccess(s), evs[1..]);
      case FailedAt(now) =>
        FailureCountBounded(c, OnFailure(c, s, now), evs[1..]);
      case ManualReset =>
        FailureCountBounded(c, Initial(), evs[1..]);
    }
  }

  /** One failure more than `Int.MAX_VALUE` with no success in between leaves
      a negative failure count. */
  lemma CounterWrapsAtIntMax(c: Config, now: int64)
    ensures OnFailure(c, Snapshot(Open, INT_MAX as int32, 0, 0), now).failureCount as int == INT_MIN
  {
  }

  /** An open breaker stays open under any number of failures, and
      remembers the time of the last one. */
  lemma {:induction false} FailuresKeepOpen(c: Config, s: Snapshot, evs: seq<Event>)
    requires s.state == Open && AllFailures(evs)
    ensures Run(c, s, evs).final.state == Open
    ensures evs != [] ==> Run(c, s, evs).final.lastFailureTime == evs[|evs| - 1].now
    ensures Run(c, s, evs).decisions == []
    decreases |evs|
  {
    if evs != [] {
      FailuresKeepOpen(c, OnFailure(c, s, evs[0].now), evs[1..]);
      if |evs| > 1 {
        assert evs[1..][|evs[1..]| - 1] == evs[|evs| - 1];
      }
    }
  }

  /** From a closed breaker that has counted `failureCount` failures, each
      further failure is counted; the breaker stays closed while the count is
      below the threshold and is open from the failure that reaches it on. */
  lemma {:induction false} FailuresFromClosed(c: Config, s: Snapshot, evs: seq<Event>)
    requires s.state == Closed && AllFailures(evs)
    requires 0 <= s.failureCount < c.failureThreshold
    ensures Run(c, s, evs).final.state ==
      (if s.failureCount as int + |evs| < c.failureThreshold as int then Closed else Open)
    ensures s.failureCount as int + |evs| <= c.failureThreshold as int ==>
      Run(c, s, evs).final.failureCount as int == s.failureCount as int + |evs|
    decreases |evs|
  {
    if evs != [] {
      var t := OnFailure(c, s, evs[0].now);
      assert t.failureCount as int == s.failureCount as int + 1;
      if t.state == Open {
        FailuresKeepOpen(c, t, evs[1..]);
        if |evs| == 1 {
          assert Run(c, t, evs[1..]).final == t;
        }
      } else {
        FailuresFromClosed(c, t, evs[1..]);
      }
    }
  }

  /** `failureThreshold` consecutive failures open a fresh (or freshly
      successful) closed breaker, and fewer leave it closed. */
  lemma ThresholdFailuresOpen(c: Config, s: Snapshot, evs: seq<Event>)
    requires c.failureThreshold >= 1
    requires s.state == Closed && s.failureCount == 0 && AllFailures(evs)
    ensures Run(c, s, evs).final.state == Open <==> |evs| >= c.failureThreshold as int
    ensures |evs| <= c.failureThreshold as int ==> Run(c, s, evs).final.failureCount as int == |evs|
  {
    FailuresFromClosed(c, s, evs);
  }

  /** An open breaker rejects every admission that comes before the reset
      timeout has passed, and none of them changes it. */
  lemma {:induction false} OpenRejectsUntilTimeout(c: Config, s: Snapshot, evs: seq<Event>)
    requires s.state == Open && AllAdmissions(evs)
    requires forall i :: 0 <= i < |evs| ==> SubLong(evs[i].now, s.lastFailureTime) < c.resetTimeout
    ensures Run(c, s, evs).final == s
    ensures CountProceeds(Run(c, s, evs).decisions) == 0
    decreases |evs|
  {
    if evs != [] {
      assert SubLong(evs[0].now, s.lastFailureTime) < c.resetTimeout;
      OpenRejectsUntilTimeout(c, s, evs[1..]);
    }
  }

  function Min(a: int, b: int): int { if a < b then a else b }

  function Budget(c: Config, used: int32): nat
  {
    if used < c.halfOpenMaxAttempts then c.halfOpenMaxAttempts as int - used as int else 0
  }

  /** In a half-open breaker, a run of admissions lets exactly as many calls
      run as probes are left in the budget (or fewer, if fewer arrive); the
      breaker stays half-open throughout. */
  lemma {:induction false} HalfOpenAdmitsBudget(c: Config, s: Snapshot, evs: seq<Event>)
    requires s.state == HalfOpen && 0 <= s.halfOpenAttempts && AllAdmissions(evs)
    ensures Run(c, s, evs).final.state == HalfOpen
    ensures CountProceeds(Run(c, s, evs).decisions) == Min(|evs|, Budget(c, s.halfOpenAttempts))
    decreases |evs|
  {
    if evs != [] {
      var a := Admit(c, s, evs[0].now);
      HalfOpenAdmitsBudget(c, a.next, evs[1..]);
      var rest := Run(c, a.next, evs[1..]);
      assert Run(c, s, evs).decisions == [a.decision] + rest.decisions;
      assert ([a.decision] + rest.decisions)[1..] == rest.decisions;
    }
  }

  /** Calls that reach an open breaker at the same time, once its reset
      timeout has passed: `halfOpenMaxAttempts + 1` of them run, not
      `halfOpenMaxAttempts`, because the call that turns the breaker half-open
      is let through without being counted as a probe. With no report in
      between, nothing ever lets more through than that. */
  lemma {:induction false} ProbesPerEpisode(c: Config, s: Snapshot, evs: seq<Event>)
    requires s.state == Open && AllAdmissions(evs)
    ensures CountProceeds(Run(c, s, evs).decisions) <= 1 + Budget(c, 0)
    ensures evs != [] && SubLong(evs[0].now, s.lastFailureTime) >= c.resetTimeout ==>
      CountProceeds(Run(c, s, evs).decisions) == Min(|evs|, 1 + Budget(c, 0))
    decreases |evs|
  {
    if evs != [] {
      var a := Admit(c, s, evs[0].now);
      var rest := Run(c, a.next, evs[1..]);
      assert Run(c, s, evs).decisions == [a.decision] + rest.decisions;
      assert ([a.decision] + rest.decisions)[1..] == rest.decisions;
      if a.decision.Proceed? {
        HalfOpenAdmitsBudget(c, a.next, evs[1..]);
      } else {
        ProbesPerEpisode(c, s, evs[1..]);
      }
    }
  }

  // ---------------------------------------------------------------------
  // The breaker wired for the Ktor client: threshold 3, timeout 30 s,
  // two probes.
  // ---------------------------------------------------------------------

  function KtorConfig(): Config
  {
    Config("KtorCircuitBreaker", 3, 30000, 2)
  }

  /** Three failures open the breaker; a call one second after the third is
      rejected with 29 seconds to wait; a call 30 seconds after it is let
      through as a probe; the probe's success closes the breaker again. */
  lemma KtorOpenThenRecover()
    ensures var tripped := Run(KtorConfig(), Initial(), [FailedAt(1000), FailedAt(2000), FailedAt(3000)]).final;
      tripped == Snapshot(Open, 3, 3000, 0) &&
      Admit(KtorConfig(), tripped, 4000) == Admitted(Reject(OpenFor(29)), tripped) &&
      Admit(KtorConfig(), tripped, 33000) == Admitted(Proceed, Snapshot(HalfOpen, 3, 3000, 0)) &&
      OnSuccess(Snapshot(HalfOpen, 3, 3000, 0)) == Snapshot(Closed, 0, 3000, 0)
  {
    var evs := [FailedAt(1000), FailedAt(2000), FailedAt(3000)];
    assert Run(KtorConfig(), Initial(), evs) == Run(KtorConfig(), Snapshot(Closed, 1, 1000, 0), evs[1..]);
    assert evs[1..][1..] == [FailedAt(3000)];
  }

  /** A probe that fails reopens the breaker at the time of the failure and
      leaves one probe counted. */
  lemma KtorProbeFails()
    ensures OnFailure(KtorConfig(), Snapshot(HalfOpen, 3, 3000, 0), 34000) == Snapshot(Open, 4, 34000, 1)
  {
  }

  /** Four calls arriving together once the timeout has passed: three run,
      the fourth is rejected. */
  lemma KtorThreeProbesRun()
    ensures Run(KtorConfig(), Snapshot(Open, 3, 3000, 0),
                [AdmitAt(33000), AdmitAt(33000), AdmitAt(33000), AdmitAt(33000)]).decisions
            == [Proceed, Proceed, Proceed, Reject(TestingRecovery)]
  {
    var evs := [AdmitAt(33000), AdmitAt(33000), AdmitAt(33000), AdmitAt(33000)];
    assert evs[1..] == [AdmitAt(33000), AdmitAt(33000), AdmitAt(33000)];
    assert evs[1..][1..] == [AdmitAt(33000), AdmitAt(33000)];
    assert evs[1..][1..][1..] == [AdmitAt(33000)];
  }
}
