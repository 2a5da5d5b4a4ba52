// What several models share.

module Basics {
  datatype Option<+T> = None | Some(value: T)

  /** The colors of a header. */
  datatype Color = White | Gray | Black | Blue

  /** Max_wosize: the largest size of a block on a 64-bit host. */
  const MAX_WOSIZE: nat := 0x3F_FFFF_FFFF_FFFF

  ghost predicate Distinct<T>(s: seq<T>) {
    forall i, j :: 0 <= i < j < |s| ==> s[i] != s[j]
  }
}
