/** Failure-compatible Option and Result datatypes, and a first-failure
    traversal that maps a fallible step over a sequence. */
module Wrappers {

  datatype Option<+T> = None | Some(value: T) {

    /** Returns the value in Some, or the default when None. */
    function GetOr(default: T): T {
      match this
      case Some(v) => v
      case None => default
    }
  }

  /** The outcome of a step that can fail; usable with `:-`. */
  datatype Result<+R, +E> = Success(value: R) | Failure(error: E) {

    predicate IsFailure() {
      Failure?
    }

    function PropagateFailure<U>(): Result<U, E>
      requires Failure?
    {
      Failure(error)
    }

    function Extract(): R
      requires Success?
    {
      value
    }
  }

  /** Applies `f` to each element in order and stops at the first failure,
      the way a loop that appends results and lets an exception escape does.
      On success the results line up one-to-one with the inputs; on failure
      the error is the one raised by the first failing element. */
  function Traverse<A, B(==), E(==)>(xs: seq<A>, f: A -> Result<B, E>): (r: Result<seq<B>, E>)
    ensures r.Success? <==> forall i :: 0 <= i < |xs| ==> f(xs[i]).Success?
    ensures r.Success? ==> |r.value| == |xs|
    ensures r.Success? ==> forall i :: 0 <= i < |xs| ==> f(xs[i]) == Success(r.value[i])
    ensures r.Failure? ==>
              exists i :: 0 <= i < |xs| && f(xs[i]) == Failure(r.error)
                          && forall j :: 0 <= j < i ==> f(xs[j]).Success?
  {
    if |xs| == 0 then
      Success([])
    else
      match f(xs[0])
      case Failure(e) => Failure(e)
      case Success(y) =>
        match Traverse(xs[1..], f)
        case Failure(e) =>
          assert forall j :: 1 <= j <= |xs[1..]| ==> xs[1..][j - 1] == xs[j];
          Failure(e)
        case Success(ys) => Success([y] + ys)
  }
}
