/** What most modules below need: optional values and lists without repetition. */
module Basics {

  /** None stands for an exception the code raises, or for a key that is absent. */
  datatype Option<T> = None | Some(value: T)

  ghost predicate Distinct<T>(s: seq<T>) {
    forall i, j :: 0 <= i < j < |s| ==> s[i] != s[j]
  }
}
