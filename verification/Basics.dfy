/** What several components share. */
module Basics {

  datatype Option<T> = None | Some(value: T)

  ghost predicate NoDup(s: seq<int>) {
    forall i, j :: 0 <= i < j < |s| ==> s[i] != s[j]
  }
}
