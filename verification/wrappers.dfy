/** Optional values and results, standing for Python's `None` and for raised exceptions. */
module Wrappers {

  datatype Option<+T> = None | Some(value: T)

  datatype Result<+R, +E> = Success(value: R) | Failure(error: E)

  /** Where a run of steps stopped: the results of the steps before, the element whose step failed, and its error. */
  datatype Stopped<+R, +T, +E> = Stopped(done: seq<R>, at: T, error: E)

  /**
   * Runs `step` over `xs` in order, as a loop whose body may raise: the results of
   * every step, or where the first failing step stopped the run.
   */
  function Sequence<T, R, E>(xs: seq<T>, step: T -> Result<R, E>): Result<seq<R>, Stopped<R, T, E>> {
    if xs == [] then Success([])
    else
      match Sequence(xs[..|xs| - 1], step)
      case Failure(s) => Failure(s)
      case Success(rs) =>
        match step(xs[|xs| - 1])
        case Failure(e) => Failure(Stopped(rs, xs[|xs| - 1], e))
        case Success(r) => Success(rs + [r])
  }

  /** On success there is one result per element, each the result of its step. */
  lemma {:induction false} SequenceSuccess<T, R, E>(xs: seq<T>, step: T -> Result<R, E>)
    ensures Sequence(xs, step).Success? ==>
      |Sequence(xs, step).value| == |xs| &&
      forall i :: 0 <= i < |xs| ==> step(xs[i]) == Success(Sequence(xs, step).value[i])
  {
    if xs != [] {
      var init := xs[..|xs| - 1];
      SequenceSuccess(init, step);
      assert forall i :: 0 <= i < |init| ==> init[i] == xs[i];
    }
  }

  /**
   * The run fails exactly when some step fails. It then stops at the first failing
   * element, with that step's error and the results of all the steps before it.
   */
  lemma {:induction false} SequenceFailure<T, R, E>(xs: seq<T>, step: T -> Result<R, E>)
    ensures Sequence(xs, step).Failure? <==> exists i :: 0 <= i < |xs| && step(xs[i]).Failure?
    ensures Sequence(xs, step).Failure? ==>
      var s := Sequence(xs, step).error;
      exists i :: 0 <= i < |xs| && xs[i] == s.at && step(xs[i]) == Failure(s.error)
        && Sequence(xs[..i], step) == Success(s.done)
        && forall j :: 0 <= j < i ==> step(xs[j]).Success?
  {
    if xs != [] {
      var init := xs[..|xs| - 1];
      SequenceFailure(init, step);
      assert forall i :: 0 <= i < |init| ==> init[i] == xs[i];
      if Sequence(init, step).Success? {
        SequenceSuccess(init, step);
      } else {
        var s := Sequence(init, step).error;
        var i :| 0 <= i < |init| && init[i] == s.at && step(init[i]) == Failure(s.error)
          && Sequence(init[..i], step) == Success(s.done)
          && forall j :: 0 <= j < i ==> step(init[j]).Success?;
        assert init[..i] == xs[..i];
      }
    }
  }

  /** Once a prefix fails, the whole run fails with the same error. */
  lemma {:induction false} SequenceFailurePersists<T, R, E>(xs: seq<T>, k: nat, step: T -> Result<R, E>)
    requires k <= |xs|
    requires Sequence(xs[..k], step).Failure?
    ensures Sequence(xs, step) == Sequence(xs[..k], step)
    decreases |xs| - k
  {
    if k < |xs| {
      assert xs[..k + 1][..k] == xs[..k];
      SequenceFailurePersists(xs, k + 1, step);
    } else {
      assert xs[..k] == xs;
    }
  }

  lemma SequenceSnoc<T, R, E>(xs: seq<T>, k: nat, step: T -> Result<R, E>)
    requires k < |xs|
    ensures Sequence(xs[..k + 1], step) ==
      match Sequence(xs[..k], step)
      case Failure(s) => Failure(s)
      case Success(rs) =>
        match step(xs[k])
        case Failure(e) => Failure(Stopped(rs, xs[k], e))
        case Success(r) => Success(rs + [r])
  {
    assert xs[..k + 1][..k] == xs[..k];
  }
}
