/**
 * The retry policy of `_retry_request` (scrapper.py and scrapper_peru21.py), as a function of
 * the outcomes the network gives to successive attempts.
 */
module Retry {
  /** What one call of the wrapped function does: returns, raises a RequestException, or raises anything else. */
  datatype CallOutcome<T> = Returned(value: T) | NetworkError | OtherError

  /**
   * What `_retry_request` does: returns a value, re-raises the last RequestException, re-raises
   * another exception, or falls out of an empty attempt loop and returns None.
   */
  datatype RetryResult<T> = Value(v: T) | RaisedNetwork | RaisedOther | NoAttempt

  /** The result, the number of calls made and the sleeps requested between them. */
  datatype Trace<T> = Trace(result: RetryResult<T>, attempts: nat, waits: seq<int>)

  function Pow2(k: nat): (p: nat)
    ensures p >= 1
  {
    if k == 0 then 1 else 2 * Pow2(k - 1)
  }

  /** The backoff schedule for the first n failed attempts: delay, 2*delay, 4*delay, ... */
  function Schedule(delay: int, n: nat): (w: seq<int>)
    ensures |w| == n
  {
    if n == 0 then [] else Schedule(delay, n - 1) + [delay * Pow2(n - 1)]
  }

  /**
   * Attempts `attempt`, `attempt + 1`, ... of the loop; attempt i is answered by `answer(start + i)`,
   * `start` being the number of requests the session had made before.
   */
  function RetryFrom<T>(answer: nat -> CallOutcome<T>, start: nat, maxRetries: int, delay: int, attempt: nat): Trace<T>
    requires attempt < maxRetries
    decreases maxRetries - attempt
  {
    match answer(start + attempt)
    case Returned(v) => Trace(Value(v), attempt + 1, [])
    case OtherError => Trace(RaisedOther, attempt + 1, [])
    case NetworkError =>
      if attempt < maxRetries - 1 then
        var rest := RetryFrom(answer, start, maxRetries, delay, attempt + 1);
        Trace(rest.result, rest.attempts, [delay * Pow2(attempt)] + rest.waits)
      else
        Trace(RaisedNetwork, attempt + 1, [])
  }

  function RetryCall<T>(answer: nat -> CallOutcome<T>, start: nat, maxRetries: int, delay: int): Trace<T> {
    if maxRetries <= 0 then Trace(NoAttempt, 0, []) else RetryFrom(answer, start, maxRetries, delay, 0)
  }

  /** Before attempt `attempt`: the earlier attempts all raised a RequestException and slept by the schedule. */
  ghost predicate Pending<T>(answer: nat -> CallOutcome<T>, start: nat, maxRetries: int, delay: int, attempt: nat)
    requires attempt < maxRetries
  {
    var rest := RetryFrom(answer, start, maxRetries, delay, attempt);
    RetryCall(answer, start, maxRetries, delay) == Trace(rest.result, rest.attempts, Schedule(delay, attempt) + rest.waits)
  }

  /** What attempt `attempt` decides: the whole run ends with it, or the next attempt is pending. */
  lemma AttemptDecides<T>(answer: nat -> CallOutcome<T>, start: nat, maxRetries: int, delay: int, attempt: nat)
    requires attempt < maxRetries && Pending(answer, start, maxRetries, delay, attempt)
    ensures var t := RetryCall(answer, start, maxRetries, delay);
      match answer(start + attempt)
      case Returned(v) => t == Trace(Value(v), attempt + 1, Schedule(delay, attempt))
      case OtherError => t == Trace(RaisedOther, attempt + 1, Schedule(delay, attempt))
      case NetworkError =>
        if attempt < maxRetries - 1 then Pending(answer, start, maxRetries, delay, attempt + 1)
        else t == Trace(RaisedNetwork, attempt + 1, Schedule(delay, attempt))
  {
    if answer(start + attempt).NetworkError? && attempt < maxRetries - 1 {
      var rest := RetryFrom(answer, start, maxRetries, delay, attempt + 1);
      assert Schedule(delay, attempt) + ([delay * Pow2(attempt)] + rest.waits)
          == Schedule(delay, attempt + 1) + rest.waits;
    } else {
      assert Schedule(delay, attempt) + [] == Schedule(delay, attempt);
    }
  }

  /** The shape of the attempts from `attempt` on. */
  lemma {:induction false} RetryFromShape<T>(answer: nat -> CallOutcome<T>, start: nat, maxRetries: int, delay: int, attempt: nat)
    requires attempt < maxRetries
    ensures var t := RetryFrom(answer, start, maxRetries, delay, attempt);
      && attempt < t.attempts <= maxRetries
      && (forall n :: start + attempt <= n < start + t.attempts - 1 ==> answer(n).NetworkError?)
      && |t.waits| == t.attempts - 1 - attempt
      && (forall j :: 0 <= j < |t.waits| ==> t.waits[j] == delay * Pow2(attempt + j))
      && match answer(start + t.attempts - 1)
         case Returned(v) => t.result == Value(v)
         case OtherError => t.result == RaisedOther
         case NetworkError => t.result == RaisedNetwork && t.attempts == maxRetries
    decreases maxRetries - attempt
  {
    var t := RetryFrom(answer, start, maxRetries, delay, attempt);
    if answer(start + attempt).NetworkError? && attempt < maxRetries - 1 {
      RetryFromShape(answer, start, maxRetries, delay, attempt + 1);
      var rest := RetryFrom(answer, start, maxRetries, delay, attempt + 1);
      assert t.waits == [delay * Pow2(attempt)] + rest.waits;
      forall j | 0 <= j < |t.waits|
        ensures t.waits[j] == delay * Pow2(attempt + j)
      {
        if j > 0 {
          assert t.waits[j] == rest.waits[j - 1];
        }
      }
    }
  }

  /**
   * The retry policy: with max_retries <= 0 nothing is called and the result is None; otherwise
   * between 1 and max_retries calls are made, every call but the last raised a RequestException,
   * the i-th sleep is retry_delay * 2^i, and the last call decides the result: its value, its
   * non-network exception re-raised at once, or its RequestException re-raised, which happens
   * only on call number max_retries.
   */
  lemma RetryPolicy<T>(answer: nat -> CallOutcome<T>, start: nat, maxRetries: int, delay: int)
    ensures var t := RetryCall(answer, start, maxRetries, delay);
      && (t.result.NoAttempt? <==> maxRetries <= 0)
      && (maxRetries <= 0 ==> t.attempts == 0 && t.waits == [])
      && (maxRetries >= 1 ==>
          && 1 <= t.attempts <= maxRetries
          && (forall n :: start <= n < start + t.attempts - 1 ==> answer(n).NetworkError?)
          && t.waits == Schedule(delay, t.attempts - 1)
          && match answer(start + t.attempts - 1)
             case Returned(v) => t.result == Value(v)
             case OtherError => t.result == RaisedOther
             case NetworkError => t.result == RaisedNetwork && t.attempts == maxRetries)
  {
    if maxRetries >= 1 {
      var t := RetryFrom(answer, start, maxRetries, delay, 0);
      assert RetryCall(answer, start, maxRetries, delay) == t;
      RetryFromShape(answer, start, maxRetries, delay, 0);
      ScheduleMatches(delay, t.attempts - 1, t.waits);
    }
  }

  /** A sequence of sleeps that follows the backoff doubling term by term is the schedule. */
  lemma ScheduleMatches(delay: int, n: nat, w: seq<int>)
    requires |w| == n && forall j :: 0 <= j < |w| ==> w[j] == delay * Pow2(j)
    ensures w == Schedule(delay, n)
  {
    ScheduleIndex(delay, n);
    assert forall j :: 0 <= j < n ==> w[j] == Schedule(delay, n)[j];
  }

  /** A value returned by the wrapper is the value of the last call made. */
  lemma ValueOfLastCall<T>(answer: nat -> CallOutcome<T>, start: nat, maxRetries: int, delay: int)
    ensures var t := RetryCall(answer, start, maxRetries, delay);
      t.result.Value? ==> t.attempts >= 1 && answer(start + t.attempts - 1) == Returned(t.result.v)
  {
    if maxRetries >= 1 {
      RetryFromShape(answer, start, maxRetries, delay, 0);
    }
  }

  lemma {:induction false} ScheduleIndex(delay: int, n: nat)
    ensures forall j :: 0 <= j < n ==> Schedule(delay, n)[j] == delay * Pow2(j)
  {
    if n > 0 {
      ScheduleIndex(delay, n - 1);
    }
  }

  /** Each sleep is twice the one before it: the backoff is exponential. */
  lemma ScheduleDoubles(delay: int, n: nat, j: nat)
    requires j + 1 < n
    ensures Schedule(delay, n)[j + 1] == 2 * Schedule(delay, n)[j]
  {
    ScheduleIndex(delay, n);
    assert Pow2(j + 1) == 2 * Pow2(j);
  }
}
