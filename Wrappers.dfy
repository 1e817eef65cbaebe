/** Small value-level helpers shared by the other modules. */
module Wrappers {

  /** The optional value used where the system returns "nothing" through a null pointer or a short buffer. */
  datatype Option<+T> = None | Some(value: T)

  /** No element of the sequence occurs twice. */
  predicate Distinct<T(==)>(s: seq<T>)
  {
    forall i, j :: 0 <= i < j < |s| ==> s[i] != s[j]
  }
}
