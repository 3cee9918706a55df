/** Failure-carrying datatypes shared by the other modules. */
module Wrappers {

  /** A value that may be absent: a missing dictionary key, or an unset maximum. */
  datatype Option<+T> = None | Some(value: T)

  /** The outcome of an operation that either computes a value or raises an error. */
  datatype Result<+R, +E> = Success(value: R) | Failure(error: E)

  /**
   * Applies `f` to every element in order, as a list comprehension does:
   * all results when every call succeeds, else the error of the first call that fails.
   */
  function MapAll<A, B(==), E(==)>(f: A -> Result<B, E>, xs: seq<A>): (r: Result<seq<B>, E>)
    ensures r.Success? <==> forall i :: 0 <= i < |xs| ==> f(xs[i]).Success?
    ensures r.Success? ==> |r.value| == |xs|
    ensures r.Success? ==> forall i :: 0 <= i < |xs| ==> Success(r.value[i]) == f(xs[i])
    ensures r.Failure? ==> exists i :: 0 <= i < |xs| && Failure(r.error) == f(xs[i])
                                       && forall j :: 0 <= j < i ==> f(xs[j]).Success?
    decreases |xs|
  {
    if xs == [] then Success([])
    else
      match f(xs[0])
      case Failure(e) => Failure(e)
      case Success(y) =>
        match MapAll(f, xs[1..])
        case Failure(e) =>
          var i :| 0 <= i < |xs| - 1 && Failure(e) == f(xs[1..][i])
                   && forall j :: 0 <= j < i ==> f(xs[1..][j]).Success?;
          assert Failure(e) == f(xs[i + 1]);
          Failure(e)
        case Success(ys) => Success([y] + ys)
  }
}
