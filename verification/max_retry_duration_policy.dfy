/**
 A retry policy bounded by duration: after each failed attempt, another
 attempt is allowed while the time elapsed since the execution started is at
 most the policy's maximum retry duration.

 The policy and its executions are immutable values. The clock is a
 parameter `now`. An execution keeps only its start instant; the bound is
 passed in again on every decision, because the Java execution is an inner
 class that reads its enclosing policy's field each time rather than copying
 it at start.
 */
module MaxRetryDurationPolicy {
  import opened Time

  /** The bound a policy has when none is given: three seconds' worth of nanoseconds. */
  const DefaultMaxRetryDuration: int := OfSeconds(3)

  const NotPositiveMessage: string := "Max retry duration must be positive"

  datatype Policy = Policy(maxRetryDuration: int)

  /** The class invariant: the bound is strictly positive. */
  predicate Valid(p: Policy)
  {
    p.maxRetryDuration > 0
  }

  /** The exception `Assert.isTrue` raises on a failed check. */
  datatype Error = IllegalArgument(message: string)

  datatype Result<T> = Success(value: T) | Failure(error: Error)

  /**
   The effect of a call to the setter: the policy as it is after the call,
   and whether the call threw. The bound is assigned only after the check
   has passed, so a rejected call leaves the policy as it was.
   */
  datatype SetOutcome = Assigned(after: Policy) | Rejected(after: Policy, error: Error)

  /** The no-argument constructor. */
  function NewPolicy(): (p: Policy)
    ensures p.maxRetryDuration == 3_000_000_000
    ensures Valid(p)
  {
    Policy(DefaultMaxRetryDuration)
  }

  /** `setMaxRetryDuration`: rejects a zero or negative duration before assigning. */
  function SetMaxRetryDuration(p: Policy, d: int): (r: SetOutcome)
    ensures r.Assigned? <==> d > 0
    ensures r.Assigned? ==> r.after == p.(maxRetryDuration := d)
    ensures r.Rejected? ==> r.after == p && r.error == IllegalArgument(NotPositiveMessage)
    ensures Valid(p) ==> Valid(r.after)
  {
    var positive := d > 0;
    if positive then Assigned(p.(maxRetryDuration := d))
    else Rejected(p, IllegalArgument(NotPositiveMessage))
  }

  /**
   The one-argument constructor: a default-initialised object passed through
   the setter. If the setter throws, no policy is constructed.
   */
  function NewPolicyWith(d: int): (r: Result<Policy>)
    ensures r.Success? <==> d > 0
    ensures r.Success? ==> Valid(r.value) && r.value.maxRetryDuration == d
    ensures r.Failure? ==> r.error == IllegalArgument(NotPositiveMessage)
  {
    match SetMaxRetryDuration(NewPolicy(), d)
    case Assigned(q) => Success(q)
    case Rejected(_, e) => Failure(e)
  }

  /** `toString` reports the bound in whole milliseconds. */
  function MaxRetryDurationMillis(p: Policy): (m: int)
    requires Valid(p)
    ensures m >= 0
    ensures m * NanosPerMilli <= p.maxRetryDuration < (m + 1) * NanosPerMilli
  {
    ToMillis(p.maxRetryDuration)
  }

  /** One retry sequence: its start instant, fixed when it is created. */
  datatype Execution = Execution(retryStartTime: int)

  /** `start()`: a fresh execution stamped with the current instant. */
  function Start(p: Policy, now: int): (e: Execution)
    ensures e.retryStartTime == now
  {
    Execution(now)
  }

  /** The last instant at which `e` still allows a retry under the bound of `p`. */
  function Deadline(p: Policy, e: Execution): int
  {
    e.retryStartTime + p.maxRetryDuration
  }

  /**
   `shouldRetry(throwable)` at instant `now`, reading the CURRENT bound of the
   enclosing policy `p`. The throwable is accepted and not inspected.
   An execution is Active while this holds and Expired once it no longer does.
   */
  function ShouldRetry<T>(p: Policy, e: Execution, throwable: T, now: int): (b: bool)
    ensures b <==> now <= Deadline(p, e)
  {
    var currentRetryDuration := Between(e.retryStartTime, now);
    Compare(currentRetryDuration, p.maxRetryDuration) <= 0
  }

  // ---------------------------------------------------------------------------
  // Properties of the decision rule
  // ---------------------------------------------------------------------------

  /** The comparison is inclusive: the deadline itself is allowed, one nanosecond later is not. */
  lemma ShouldRetryBoundary<T>(p: Policy, e: Execution, throwable: T)
    ensures ShouldRetry(p, e, throwable, e.retryStartTime + p.maxRetryDuration)
    ensures !ShouldRetry(p, e, throwable, e.retryStartTime + p.maxRetryDuration + 1)
  {
  }

  /** The decision does not depend on the throwable. */
  lemma ShouldRetryIgnoresThrowable<T, U>(p: Policy, e: Execution, t: T, u: U, now: int)
    ensures ShouldRetry(p, e, t, now) == ShouldRetry(p, e, u, now)
  {
  }

  /** With the bound fixed, Expired is terminal: a refusal at `now` is a refusal at every later instant. */
  lemma ExpiredIsTerminal<T, U>(p: Policy, e: Execution, t: T, u: U, now: int, later: int)
    requires now <= later
    requires !ShouldRetry(p, e, t, now)
    ensures !ShouldRetry(p, e, u, later)
  {
  }

  /** Elapsed time of zero or less (including a clock that moved backwards) always allows a retry. */
  lemma NonPositiveElapsedRetries<T>(p: Policy, e: Execution, throwable: T, now: int)
    requires Valid(p)
    requires Between(e.retryStartTime, now) <= 0
    ensures ShouldRetry(p, e, throwable, now)
  {
  }

  /** An execution is Active at the instant it is started. */
  lemma FreshExecutionIsActive<T>(p: Policy, throwable: T, now: int)
    requires Valid(p)
    ensures Start(p, now).retryStartTime == now
    ensures ShouldRetry(p, Start(p, now), throwable, now)
  {
  }

  /** A larger bound never turns an allowed retry into a refused one. */
  lemma ShouldRetryMonotoneInBound<T>(p: Policy, q: Policy, e: Execution, throwable: T, now: int)
    requires p.maxRetryDuration <= q.maxRetryDuration
    ensures ShouldRetry(p, e, throwable, now) ==> ShouldRetry(q, e, throwable, now)
  {
  }

  /**
   The bound is read when the decision is made, not when the execution is
   started: after a successful setter call, an existing execution is judged
   against the new bound.
   */
  lemma SetterAffectsExistingExecutions<T>(p: Policy, d: int, start: int, throwable: T, now: int)
    requires SetMaxRetryDuration(p, d).Assigned?
    ensures (ShouldRetry(SetMaxRetryDuration(p, d).after, Start(p, start), throwable, now)
             <==> now - start <= d)
  {
  }

  /** Raising the bound after `start()` can turn a refusal into an allowed retry. */
  lemma RaisingBoundRevivesExpiredExecution()
    ensures var p := NewPolicy();
            var e := Start(p, 0);
            var q := SetMaxRetryDuration(p, OfSeconds(5)).after;
            !ShouldRetry(p, e, (), OfSeconds(4)) && ShouldRetry(q, e, (), OfSeconds(4))
  {
  }

  // ---------------------------------------------------------------------------
  // Properties of configuration
  // ---------------------------------------------------------------------------

  /** The one-argument constructor applies exactly the setter's check to the default policy. */
  lemma ConstructorAgreesWithSetter(d: int)
    ensures NewPolicyWith(d).Success? <==> SetMaxRetryDuration(NewPolicy(), d).Assigned?
    ensures NewPolicyWith(d).Success? ==> NewPolicyWith(d).value == SetMaxRetryDuration(NewPolicy(), d).after
  {
  }

  /** Setting the same bound twice is the same as setting it once. */
  lemma SetterIdempotent(p: Policy, d: int)
    ensures SetMaxRetryDuration(SetMaxRetryDuration(p, d).after, d).after == SetMaxRetryDuration(p, d).after
  {
  }

  /** Only the last accepted setter call determines the bound. */
  lemma LastAcceptedSetterWins(p: Policy, d1: int, d2: int)
    requires d2 > 0
    ensures SetMaxRetryDuration(SetMaxRetryDuration(p, d1).after, d2).after == SetMaxRetryDuration(p, d2).after
  {
  }

  // ---------------------------------------------------------------------------
  // Concrete scenarios
  // ---------------------------------------------------------------------------

  /** Default policy started at 0: at 1 s a retry is allowed, at 3.5 s it is refused. */
  lemma DefaultPolicyScenario()
    ensures var p := NewPolicy();
            var e := Start(p, 0);
            && ShouldRetry(p, e, (), OfSeconds(1))
            && !ShouldRetry(p, e, (), 3_500_000_000)
            && MaxRetryDurationMillis(p) == 3000
  {
  }

  /** A bound of -1 s is rejected and the previous bound is kept. */
  lemma NegativeBoundScenario()
    ensures var p := NewPolicy();
            var r := SetMaxRetryDuration(p, OfSeconds(-1));
            r.Rejected? && r.after.maxRetryDuration == 3_000_000_000
    ensures NewPolicyWith(0).Failure?
  {
  }
}
