/**
 * The `retry` decorator of service/utils/retry.py: call the wrapped
 * function up to `tries` times, sleeping between attempts with a delay that
 * grows geometrically.
 *
 * What the n-th call (from 0) of the wrapped function does is the parameter
 * `attempt(n)`; which exceptions are retried (`isinstance(e,
 * exception_types)`) is the parameter `retryable`. Delays are integers and
 * the sleeps are returned as the list of requested delays.
 */
module Retry {
  import opened Wrappers

  /** A Python exception: its class name and `str(e)`. */
  datatype Exc = Exc(kind: string, message: string)

  /** One call of the wrapped function: it returns a value or raises. */
  datatype Attempt<T> = Returned(value: T) | Raised(exc: Exc)

  /** How `wrapper` ends: with a value or by raising. */
  datatype Outcome<T> = Value(value: T) | Raise(exc: Exc)

  function Pow(b: int, n: nat): int {
    if n == 0 then 1 else b * Pow(b, n - 1)
  }

  /** `_delay *= backoff` moves the delay one power of `backoff` on. */
  lemma DelayStep(delay: int, backoff: int, n: nat)
    ensures delay * Pow(backoff, n) * backoff == delay * Pow(backoff, n + 1)
  {
  }

  /** What `wrapper` answers when its last call ended as `a`. */
  function Settle<T>(a: Attempt<T>): (r: Outcome<T>)
    ensures a.Returned? <==> r.Value?
    ensures a.Returned? ==> r.value == a.value
    ensures a.Raised? ==> r.exc == a.exc
  {
    match a
    case Returned(v) => Value(v)
    case Raised(e) => Raise(e)
  }

  /** The `RuntimeError` raised when the function was never called. */
  function Exhausted(funcName: string): Exc {
    Exc("RuntimeError", "Retries exhausted for " + funcName)
  }

  /**
   * `wrapper`: `calls` is how often the wrapped function ran and `sleeps`
   * the delays slept, in order.
   */
  method Retry<T>(attempt: nat -> Attempt<T>, retryable: Exc -> bool, tries: int,
                  delay: int, backoff: int, funcName: string)
    returns (r: Outcome<T>, calls: nat, sleeps: seq<int>)
    // never more than `tries` calls; none, and a RuntimeError, when `tries <= 0`
    ensures calls <= if tries > 0 then tries else 0
    ensures tries <= 0 ==> calls == 0 && sleeps == [] && r == Raise(Exhausted(funcName))
    ensures tries > 0 ==> calls >= 1
    // every call but the last raised an exception that is retried
    ensures forall j :: 0 <= j < calls - 1 ==> attempt(j).Raised? && retryable(attempt(j).exc)
    // the last call decides: its value, or its exception re-raised
    ensures calls > 0 ==> r == Settle(attempt(calls - 1))
    // stopping before `tries` calls means a success or an exception not retried
    ensures 0 < calls < tries ==> attempt(calls - 1).Returned? || !retryable(attempt(calls - 1).exc)
    // one sleep between consecutive calls, the n-th of `delay * backoff^n`
    ensures |sleeps| == if calls > 0 then calls - 1 else 0
    ensures forall i :: 0 <= i < |sleeps| ==> sleeps[i] == delay * Pow(backoff, i)
  {
    var left := tries;
    var d := delay;
    var lastExc: Option<Exc> := None;
    calls, sleeps := 0, [];
    while left > 0
      invariant tries > 0 ==> left == tries - calls && left > 0
      invariant tries <= 0 ==> calls == 0 && left == tries
      invariant lastExc.Some? <==> calls > 0
      invariant lastExc.Some? ==> attempt(calls - 1) == Raised(lastExc.value)
      invariant forall j :: 0 <= j < calls ==> attempt(j).Raised? && retryable(attempt(j).exc)
      invariant |sleeps| == calls
      invariant d == delay * Pow(backoff, calls)
      invariant forall i :: 0 <= i < |sleeps| ==> sleeps[i] == delay * Pow(backoff, i)
      decreases left
    {
      var a := attempt(calls);
      calls := calls + 1;
      if a.Returned? {
        return Value(a.value), calls, sleeps;
      }
      if !retryable(a.exc) {
        return Raise(a.exc), calls, sleeps;
      }
      lastExc := Some(a.exc);
      left := left - 1;
      if left <= 0 {
        break;
      }
      sleeps := sleeps + [d];
      DelayStep(delay, backoff, calls - 1);
      d := d * backoff;
    }
    if lastExc.Some? {
      return Raise(lastExc.value), calls, sleeps;
    }
    return Raise(Exhausted(funcName)), calls, sleeps;
  }
}
