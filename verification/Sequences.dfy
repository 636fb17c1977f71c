/** Small vocabulary on sequences. */
module Sequences {

  ghost predicate Distinct<T>(r: seq<T>) {
    forall i, j :: 0 <= i < j < |r| ==> r[i] != r[j]
  }

  /** `r` without its element at `i`. */
  function Dropped<T>(r: seq<T>, i: nat): seq<T>
    requires i < |r|
  {
    r[..i] + r[i + 1..]
  }
}
