/**
 The life of one execution under repeated `shouldRetry` calls.

 The caller consults the execution once per failed attempt. As long as the
 policy's bound is not changed in between and the instants of the calls do
 not go backwards, the answers form a run of allowed retries followed by a
 run of refusals: Active first, then Expired for good.
 */
module RetrySequence {
  import opened MaxRetryDurationPolicy

  /** One `shouldRetry` call: the throwable it is given and the instant it is made. */
  datatype Query<T> = Query(throwable: T, at: int)

  /** The instants of the calls never go backwards. */
  predicate Chronological<T>(qs: seq<Query<T>>)
  {
    forall i, j :: 0 <= i <= j < |qs| ==> qs[i].at <= qs[j].at
  }

  /** The answers an execution gives to a series of calls under a fixed policy. */
  function Decisions<T>(p: Policy, e: Execution, qs: seq<Query<T>>): (r: seq<bool>)
    ensures |r| == |qs|
    ensures forall i :: 0 <= i < |qs| ==> r[i] == ShouldRetry(p, e, qs[i].throwable, qs[i].at)
  {
    if |qs| == 0 then []
    else [ShouldRetry(p, e, qs[0].throwable, qs[0].at)] + Decisions(p, e, qs[1..])
  }

  /**
   How many of the calls in `qs` are made no later than the execution's
   deadline under `p`, that is, how many of them `ShouldRetry` allows. For a
   chronological series these are exactly its first `k` calls.
   */
  function AllowedCount<T>(p: Policy, e: Execution, qs: seq<Query<T>>): (k: nat)
    ensures k <= |qs|
  {
    if |qs| == 0 then 0
    else (if qs[0].at <= Deadline(p, e) then 1 else 0) + AllowedCount(p, e, qs[1..])
  }

  /** Every call made past the deadline is counted as refused. */
  lemma {:induction false} NoneAllowedPastDeadline<T>(p: Policy, e: Execution, qs: seq<Query<T>>)
    requires forall i :: 0 <= i < |qs| ==> Deadline(p, e) < qs[i].at
    ensures AllowedCount(p, e, qs) == 0
  {
    if |qs| > 0 {
      NoneAllowedPastDeadline(p, e, qs[1..]);
    }
  }

  /**
   Under a fixed bound and a clock that does not go backwards, the answers
   are `k` allowed retries followed only by refusals, where `k` is the number
   of calls made no later than the deadline.
   */
  lemma {:induction false} ActiveThenExpired<T>(p: Policy, e: Execution, qs: seq<Query<T>>)
    requires Chronological(qs)
    ensures var k := AllowedCount(p, e, qs);
            Decisions(p, e, qs) == seq(k, _ => true) + seq(|qs| - k, _ => false)
  {
    if |qs| > 0 {
      var rest := qs[1..];
      assert Chronological(rest) by {
        forall i, j | 0 <= i <= j < |rest|
          ensures rest[i].at <= rest[j].at
        {
          assert rest[i] == qs[i + 1] && rest[j] == qs[j + 1];
        }
      }
      ActiveThenExpired(p, e, rest);
      var k := AllowedCount(p, e, rest);
      if qs[0].at <= Deadline(p, e) {
        assert [true] + seq(k, _ => true) == seq(k + 1, _ => true);
      } else {
        assert forall i :: 0 <= i < |rest| ==> Deadline(p, e) < rest[i].at by {
          forall i | 0 <= i < |rest|
            ensures Deadline(p, e) < rest[i].at
          {
            assert rest[i] == qs[i + 1];
          }
        }
        NoneAllowedPastDeadline(p, e, rest);
        assert [false] + seq(|rest|, _ => false) == seq(|qs|, _ => false);
      }
    }
  }

  /** Once a call is refused, every later call of the series is refused too. */
  lemma RefusalIsFinal<T>(p: Policy, e: Execution, qs: seq<Query<T>>, i: int, j: int)
    requires Chronological(qs)
    requires 0 <= i <= j < |qs|
    requires !Decisions(p, e, qs)[i]
    ensures !Decisions(p, e, qs)[j]
  {
  }
}
