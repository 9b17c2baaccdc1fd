/** Results and texts shared by the modules. */
module Wrappers {

  /** The end of a C string. */
  const NUL := 0 as char

  /** No element stands twice. */
  predicate Distinct(s: seq<nat>) {
    forall i, j :: 0 <= i < j < |s| ==> s[i] != s[j]
  }

  datatype Option<+T> = None | Some(value: T)

  /** What a kernel routine does: it returns, or it panics and never returns. */
  datatype Outcome<+T> = Done(value: T) | Panic {
    predicate IsFailure() {
      Panic?
    }

    function PropagateFailure<U>(): Outcome<U>
      requires Panic?
    {
      Panic
    }

    function Extract(): T
      requires Done?
    {
      value
    }
  }
}
