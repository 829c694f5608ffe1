# Duration-bounded retry policy

A Dafny model of Spring Framework's `MaxRetryDurationPolicy`
(`org.springframework.core.retry.support`). The policy holds a maximum retry
duration (default 3 seconds, always positive). `start()` creates an execution
for one retry sequence; the execution remembers the instant it was created.
After each failed attempt the caller asks the execution `shouldRetry(throwable)`.
The answer is true exactly when the time elapsed since the start instant is at
most the policy's bound. The comparison is inclusive, and the throwable is not
inspected.

Modelling choices:

- Instants and durations are integers counting nanoseconds (module `Time`).
  `LocalDateTime.now()` becomes an explicit parameter `now`, and
  `Duration.between`, `Duration.compareTo` and `Duration.toMillis` become
  integer operations. `toMillis` truncates toward zero, and the model writes
  that out.
- The policy (`Policy`) and the execution (`Execution`) are immutable values.
  The setter returns a `SetOutcome`, which holds the policy as it stands after
  the call and says whether the call threw `IllegalArgumentException`. The check
  runs before the assignment, so a rejected call leaves the policy as it was.
  The one-argument constructor returns a `Result`, because a throwing
  constructor produces no object.
- The execution is a non-static inner class. It reads the enclosing policy's
  bound on every `shouldRetry` call, so a setter call after `start()` changes
  the answers of executions that already exist. `ShouldRetry` therefore takes
  the policy as an argument, and the execution stores only its start instant.
  An alternative design would copy the bound into the execution at start. The
  model does not do that, because the code does not.
- Module `RetrySequence` follows one execution through a series of calls. Keep
  the bound fixed and let the instants never go backwards. Then the answers are
  a block of `true` followed by a block of `false`: the execution is Active, then
  Expired for good.

## Model

| member | source | states |
|---|---|---|
| MaxRetryDurationPolicy.NewPolicy | spring-core/src/main/java/org/springframework/core/retry/support/MaxRetryDurationPolicy.java:38-50 | a policy made with no argument has a bound of exactly 3 s (3,000,000,000 ns), and that bound is valid (positive) |
| MaxRetryDurationPolicy.SetMaxRetryDuration | spring-core/src/main/java/org/springframework/core/retry/support/MaxRetryDurationPolicy.java:65-69 | the setter succeeds if and only if the duration is positive. On success the bound becomes that duration and nothing else changes. On failure it throws IllegalArgument("Max retry duration must be positive") and the policy is unchanged. A valid policy stays valid either way |
| MaxRetryDurationPolicy.NewPolicyWith | spring-core/src/main/java/org/springframework/core/retry/support/MaxRetryDurationPolicy.java:57-59 | the one-argument constructor succeeds exactly for positive durations. It then yields a valid policy whose bound is that duration; otherwise it fails with the setter's error |
| MaxRetryDurationPolicy.ConstructorAgreesWithSetter | spring-core/src/main/java/org/springframework/core/retry/support/MaxRetryDurationPolicy.java:57-59 | the constructor accepts and builds exactly what the setter accepts and builds when applied to a default policy |
| MaxRetryDurationPolicy.SetterIdempotent | spring-core/src/main/java/org/springframework/core/retry/support/MaxRetryDurationPolicy.java:65-69 | setting the same duration twice leaves the policy as setting it once does |
| MaxRetryDurationPolicy.LastAcceptedSetterWins | spring-core/src/main/java/org/springframework/core/retry/support/MaxRetryDurationPolicy.java:65-69 | after an accepted setter call, the policy is the same whatever any earlier setter call did |
| MaxRetryDurationPolicy.NegativeBoundScenario | spring-core/src/main/java/org/springframework/core/retry/support/MaxRetryDurationPolicy.java:65-69 | setting -1 s on a default policy is rejected, and the 3 s bound is kept. Constructing with 0 fails |
| Time.ToMillis | spring-core/src/main/java/org/springframework/core/retry/support/MaxRetryDurationPolicy.java:78 | the millisecond count of a duration truncates toward zero: for d >= 0 it is the largest m >= 0 with m*10^6 <= d, and for d < 0 the smallest m <= 0 with d <= m*10^6 |
| MaxRetryDurationPolicy.MaxRetryDurationMillis | spring-core/src/main/java/org/springframework/core/retry/support/MaxRetryDurationPolicy.java:76-79 | the millisecond figure that toString reports is non-negative and is the number of whole milliseconds in the bound: m*10^6 <= bound < (m+1)*10^6 |
| MaxRetryDurationPolicy.Start | spring-core/src/main/java/org/springframework/core/retry/support/MaxRetryDurationPolicy.java:72-74 | start() yields a new execution whose start instant is the clock reading at the moment of the call (the field initializer at line 87) |
| Time.Compare | spring-core/src/main/java/org/springframework/core/retry/support/MaxRetryDurationPolicy.java:92 | the comparison of two durations is negative, zero or positive exactly when the first is shorter than, equal to or longer than the second |
| MaxRetryDurationPolicy.ShouldRetry | spring-core/src/main/java/org/springframework/core/retry/support/MaxRetryDurationPolicy.java:89-93 | a retry is allowed if and only if the call instant is no later than the start instant plus the policy's current bound |
| MaxRetryDurationPolicy.ShouldRetryBoundary | spring-core/src/main/java/org/springframework/core/retry/support/MaxRetryDurationPolicy.java:91-92 | the comparison is inclusive: a call at start + bound is allowed, and a call at start + bound + 1 ns is refused |
| MaxRetryDurationPolicy.ShouldRetryIgnoresThrowable | spring-core/src/main/java/org/springframework/core/retry/support/MaxRetryDurationPolicy.java:90-92 | two calls at the same instant give the same answer, whatever throwables they pass |
| MaxRetryDurationPolicy.ExpiredIsTerminal | spring-core/src/main/java/org/springframework/core/retry/support/MaxRetryDurationPolicy.java:91-92 | with the bound fixed, a refusal at instant t means a refusal at every instant t' >= t: Expired is terminal |
| MaxRetryDurationPolicy.NonPositiveElapsedRetries | spring-core/src/main/java/org/springframework/core/retry/support/MaxRetryDurationPolicy.java:91-92 | with a valid (positive) bound, zero or negative elapsed time always allows a retry. Negative elapsed time means the clock moved backwards |
| MaxRetryDurationPolicy.FreshExecutionIsActive | spring-core/src/main/java/org/springframework/core/retry/support/MaxRetryDurationPolicy.java:72-92 | start() stamps the execution with the current instant. A call at that same instant is allowed for every valid policy |
| MaxRetryDurationPolicy.ShouldRetryMonotoneInBound | spring-core/src/main/java/org/springframework/core/retry/support/MaxRetryDurationPolicy.java:92 | a larger bound never turns an allowed retry into a refused one |
| MaxRetryDurationPolicy.SetterAffectsExistingExecutions | spring-core/src/main/java/org/springframework/core/retry/support/MaxRetryDurationPolicy.java:85-92 | after an accepted setter call with d, an execution started earlier allows a retry exactly when elapsed <= d. The bound is read at call time, not at start |
| MaxRetryDurationPolicy.RaisingBoundRevivesExpiredExecution | spring-core/src/main/java/org/springframework/core/retry/support/MaxRetryDurationPolicy.java:85-92 | take a default policy and an execution started at 0. A call at 4 s is refused. After the bound is raised to 5 s, the same execution allows the call at 4 s |
| MaxRetryDurationPolicy.DefaultPolicyScenario | spring-core/src/main/java/org/springframework/core/retry/support/MaxRetryDurationPolicy.java:38-92 | with the default policy and a start at 0, a call at 1 s is allowed and a call at 3.5 s is refused. toString reports 3000 ms |
| RetrySequence.Decisions | spring-core/src/main/java/org/springframework/core/retry/support/MaxRetryDurationPolicy.java:87-92 | a series of calls on one execution gets one answer per call. Each answer is what shouldRetry gives at that call's instant |
| RetrySequence.ActiveThenExpired | spring-core/src/main/java/org/springframework/core/retry/support/MaxRetryDurationPolicy.java:87-92 | with a fixed bound and non-decreasing call instants, the answers are k trues followed only by falses. Here k is the number of calls made no later than the deadline |
| RetrySequence.RefusalIsFinal | spring-core/src/main/java/org/springframework/core/retry/support/MaxRetryDurationPolicy.java:87-92 | in such a series, once a call is refused, every later call is refused too |

## Left out

- Reading the clock (`LocalDateTime.now()` at the execution's creation and in `shouldRetry`): it is the parameter `now`. No claim is made about how real clock readings behave.
- The calendar and time-zone semantics of `LocalDateTime`, and the seconds/nanoseconds representation inside `java.time.Duration`: both are plain integer nanoseconds.
- Overflow of `Duration.toMillis` (an `ArithmeticException` beyond the range of a Java `long`) is not modelled. The bound is an unbounded integer.
- A `null` duration passed to the setter or the constructor is not modelled. Durations here are values, and the call would fail with a `NullPointerException` before the check.
- The text of both `toString` methods. Only the millisecond figure of the bound is modelled, and the execution's `toString` is left out.
- The `RetryPolicy` and `RetryExecution` interfaces and the retry loop that drives them are not part of this model. `Assert.isTrue` is modelled as the `Rejected`/`Failure` outcome carrying its message.
- Sharing a policy between threads, and the visibility of a setter call to other threads: the model is sequential.
