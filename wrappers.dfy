/** Failure-carrying values, and a fact about sets, shared by every module of the model. */
module Wrappers {

  datatype Option<T> = None | Some(value: T)

  /** A Go `(value, error)` return: either the value, or the error's text. */
  datatype Result<T> = Ok(value: T) | Err(msg: string)

  /** A bare Go `error`: nil, or the error's text. */
  datatype Outcome = Pass | Fail(msg: string)

  /** A use case's result together with the calls it made to its collaborators, in order. */
  datatype Traced<R, C> = Traced(result: R, calls: seq<C>)

  /** A non-empty set of keys has a member to pick, as a walk over a Go map does. */
  lemma SomeKey(s: set<int>)
    requires s != {}
    ensures exists k :: k in s
  {
    if forall k :: k !in s {
      assert false;
    }
  }
}
