/** Failure-carrying values shared by the importer model, and the one
    iteration scheme the importer uses twice: apply a fallible step to every
    element in order, stopping at the first failure (a Python comprehension
    or loop in which an element raises). */
module Results {

  datatype Option<T> = None | Some(value: T)

  datatype Result<T, E> = Success(value: T) | Failure(error: E) {
    predicate IsFailure() { Failure? }

    function PropagateFailure<U>(): Result<U, E>
      requires Failure?
    {
      Failure(error)
    }

    function Extract(): T
      requires Success?
    {
      value
    }
  }

  /** Applies `f` to the elements of `xs` from first to last; the whole
      fails with the error of the first element on which `f` fails. */
  function MapResult<A, B, E>(f: A -> Result<B, E>, xs: seq<A>): Result<seq<B>, E>
    decreases |xs|
  {
    if xs == [] then Success([])
    else
      match MapResult(f, xs[..|xs| - 1])
      case Failure(e) => Failure(e)
      case Success(ys) =>
        match f(xs[|xs| - 1])
        case Failure(e) => Failure(e)
        case Success(y) => Success(ys + [y])
  }

  /** Success exactly when every element succeeds, and then one result per
      element, in order. */
  lemma {:induction false} MapResultSuccess<A, B, E>(f: A -> Result<B, E>, xs: seq<A>)
    ensures MapResult(f, xs).Success? <==> forall i :: 0 <= i < |xs| ==> f(xs[i]).Success?
    ensures MapResult(f, xs).Success? ==>
              |MapResult(f, xs).value| == |xs| &&
              forall i :: 0 <= i < |xs| ==> f(xs[i]) == Success(MapResult(f, xs).value[i])
    decreases |xs|
  {
    if xs != [] {
      var init := xs[..|xs| - 1];
      MapResultSuccess(f, init);
      assert forall i :: 0 <= i < |init| ==> init[i] == xs[i];
    }
  }

  /** A failure is the failure of the first element that fails. */
  lemma {:induction false} MapResultFirstFailure<A, B, E>(f: A -> Result<B, E>, xs: seq<A>)
    requires MapResult(f, xs).Failure?
    ensures exists i :: 0 <= i < |xs| && f(xs[i]) == Failure(MapResult(f, xs).error) &&
                        forall j :: 0 <= j < i ==> f(xs[j]).Success?
    decreases |xs|
  {
    var init := xs[..|xs| - 1];
    assert forall i :: 0 <= i < |init| ==> init[i] == xs[i];
    if MapResult(f, init).Failure? {
      MapResultFirstFailure(f, init);
      var i :| 0 <= i < |init| && f(init[i]) == Failure(MapResult(f, init).error) &&
               forall j :: 0 <= j < i ==> f(init[j]).Success?;
      assert f(xs[i]) == Failure(MapResult(f, xs).error);
    } else {
      MapResultSuccess(f, init);
      var last := |xs| - 1;
      assert f(xs[last]) == Failure(MapResult(f, xs).error);
    }
  }

  /** Once a prefix has failed, the rest of the sequence is never looked at. */
  lemma {:induction false} MapResultPrefixFailure<A, B, E>(f: A -> Result<B, E>, xs: seq<A>, n: nat)
    requires n <= |xs| && MapResult(f, xs[..n]).Failure?
    ensures MapResult(f, xs) == MapResult(f, xs[..n])
    decreases |xs| - n
  {
    if n < |xs| {
      var init := xs[..|xs| - 1];
      assert init[..n] == xs[..n];
      MapResultPrefixFailure(f, init, n);
    } else {
      assert xs[..n] == xs;
    }
  }

  /** Extending a successful prefix by one element. */
  lemma MapResultStep<A, B, E>(f: A -> Result<B, E>, xs: seq<A>, n: nat)
    requires n < |xs|
    ensures MapResult(f, xs[..n + 1]) ==
              match MapResult(f, xs[..n])
              case Failure(e) => Failure(e)
              case Success(ys) =>
                match f(xs[n])
                case Failure(e) => Failure(e)
                case Success(y) => Success(ys + [y])
  {
    assert xs[..n + 1][..n] == xs[..n];
  }
}
