/** Bounded retries of a synchronous request. */
module Retry {
  import opened Wrappers

  datatype Outcome<+R, +E> = Returned(value: R) | Threw(error: E)

  /** What `onPreRetry` does with an error and the number of retries so far: it may throw itself. */
  type Hook<!E> = (E, nat) -> Option<E>

  /** How often the executor may run: once when retries are not asked for, and otherwise twice more
      than the number given, because the counter is compared before it is raised. */
  function MaxRuns(maxRetries: Option<int>): nat {
    if maxRetries.Some? && maxRetries.value >= 1 then maxRetries.value + 2 else 1
  }

  /** Whether the hook throws on the error of run n. */
  predicate Stops<R, E>(outcomes: nat -> Outcome<R, E>, onPreRetry: Option<Hook<E>>, n: nat) {
    onPreRetry.Some? && outcomes(n).Threw? && onPreRetry.value(outcomes(n).error, n).Some?
  }

  /** Run n threw and another run followed. */
  predicate Retried<R, E>(outcomes: nat -> Outcome<R, E>, onPreRetry: Option<Hook<E>>, n: nat) {
    outcomes(n).Threw? && !Stops(outcomes, onPreRetry, n)
  }

  /** No earlier run was stopped by the hook. */
  ghost predicate Unstopped<R, E>(outcomes: nat -> Outcome<R, E>, onPreRetry: Option<Hook<E>>,
                                  n: nat) {
    forall i: nat :: i < n ==> !Stops(outcomes, onPreRetry, i)
  }

  /** How the last run ends a call: with its return, with its error when no run is left, or with the
      error that the hook throws in between. */
  predicate EndsWith<R(==), E(==)>(outcomes: nat -> Outcome<R, E>, maxRetries: Option<int>,
                                   onPreRetry: Option<Hook<E>>, last: nat, r: Outcome<R, E>) {
    if outcomes(last).Returned? || last + 1 == MaxRuns(maxRetries) then r == outcomes(last)
    else
      Stops(outcomes, onPreRetry, last)
      && r == Threw(onPreRetry.value(outcomes(last).error, last).value)
  }

  /** One call of `retryRequest`. The executor's outcome may differ from run to run; `outcomes(n)` is
      that of run n, counted from 0. */
  class RetryRequest<R(==), E(==)> {
    const outcomes: nat -> Outcome<R, E>
    const maxRetries: Option<int>
    const onPreRetry: Option<Hook<E>>
    var retriesCount: nat
    ghost var announced: seq<(E, nat)>    // the calls of onPreRetry

    constructor (outcomes: nat -> Outcome<R, E>, maxRetries: Option<int>, onPreRetry: Option<Hook<E>>)
      ensures this.outcomes == outcomes && this.maxRetries == maxRetries
      ensures this.onPreRetry == onPreRetry
      ensures retriesCount == 0 && announced == []
    {
      this.outcomes, this.maxRetries, this.onPreRetry := outcomes, maxRetries, onPreRetry;
      retriesCount, announced := 0, [];
    }

    /** With a hook, the first `n` errors were announced in order, numbered from 0. */
    ghost predicate Announced(n: nat)
      reads this
    {
      && |announced| == (if onPreRetry.Some? then n else 0)
      && forall i: nat :: i < |announced| && outcomes(i).Threw? ==>
           announced[i] == (outcomes(i).error, i)
    }

    method RetryHandler() returns (r: Outcome<R, E>)
      requires retriesCount < MaxRuns(maxRetries) && Announced(retriesCount)
      requires forall n: nat :: n < retriesCount ==> Retried(outcomes, onPreRetry, n)
      modifies this
      ensures retriesCount < MaxRuns(maxRetries)
      ensures forall n: nat :: n < retriesCount ==> Retried(outcomes, onPreRetry, n)
      ensures EndsWith(outcomes, maxRetries, onPreRetry, retriesCount, r)
      ensures Announced(if outcomes(retriesCount).Returned? || retriesCount + 1 == MaxRuns(maxRetries)
                        then retriesCount else retriesCount + 1)
      decreases MaxRuns(maxRetries) - retriesCount
    {
      r := outcomes(retriesCount);
      if r.Threw? {
        if maxRetries.Some? && maxRetries.value != 0 && retriesCount <= maxRetries.value {
          if onPreRetry.Some? {
            announced := announced + [(r.error, retriesCount)];
            var thrown := onPreRetry.value(r.error, retriesCount);
            if thrown.Some? {
              return Threw(thrown.value);
            }
          }
          retriesCount := retriesCount + 1;
          r := RetryHandler();
        }
      }
    }
  }

  /** A whole call: every run before the last threw and was followed by another; the last one ends
      it; and each error that led to a retry, or to a throw of the hook, was announced in order. */
  method Request<R(==), E(==)>(outcomes: nat -> Outcome<R, E>, maxRetries: Option<int>,
                               onPreRetry: Option<Hook<E>>)
    returns (r: Outcome<R, E>, runs: nat, ghost announced: seq<(E, nat)>)
    ensures 1 <= runs <= MaxRuns(maxRetries)
    ensures maxRetries.None? || maxRetries.value <= 0 ==> runs == 1 && r == outcomes(0)
    ensures maxRetries.Some? && maxRetries.value > 0 ==> runs <= maxRetries.value + 2
    ensures maxRetries.Some? && maxRetries.value > 0 && onPreRetry.None?
            && (forall n: nat :: n <= maxRetries.value + 1 ==> outcomes(n).Threw?) ==>
              runs == maxRetries.value + 2
    ensures forall n: nat :: n < runs - 1 ==> outcomes(n).Threw?
    ensures r.Returned? || onPreRetry.None? ==> r == outcomes(runs - 1)
    ensures r != outcomes(runs - 1) ==>
              outcomes(runs - 1).Threw? && r.Threw? && onPreRetry.Some?
              && onPreRetry.value(outcomes(runs - 1).error, runs - 1) == Some(r.error)
    ensures forall n: nat :: n < runs - 1 ==> Retried(outcomes, onPreRetry, n)
    ensures EndsWith(outcomes, maxRetries, onPreRetry, runs - 1, r)
    ensures r.Threw? <==>
            forall n: nat :: n < MaxRuns(maxRetries) && Unstopped(outcomes, onPreRetry, n) ==>
                               outcomes(n).Threw?
    ensures forall i: nat :: i < |announced| && outcomes(i).Threw? ==>
              announced[i] == (outcomes(i).error, i)
    ensures |announced| == if onPreRetry.None? then 0
                           else if outcomes(runs - 1).Returned? || runs == MaxRuns(maxRetries) then runs - 1
                           else runs
  {
    var request := new RetryRequest(outcomes, maxRetries, onPreRetry);
    r := request.RetryHandler();
    runs := request.retriesCount + 1;
    announced := request.announced;
    forall i: nat | i < runs - 1 ensures outcomes(i).Threw? && !Stops(outcomes, onPreRetry, i) {
      assert Retried(outcomes, onPreRetry, i);
    }
    if r.Threw? {
      forall n: nat | n < MaxRuns(maxRetries) && Unstopped(outcomes, onPreRetry, n)
        ensures outcomes(n).Threw?
      {
        if n < runs - 1 { assert Retried(outcomes, onPreRetry, n); }
      }
    }
  }
}
