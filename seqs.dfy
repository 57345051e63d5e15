/** Facts about sequences shared by the filters of the model. */
module Seqs {

  /** `a` is `b` with some elements left out, order kept (the result shape of `Array.prototype.filter`). */
  ghost predicate IsSubsequence<T>(a: seq<T>, b: seq<T>)
    decreases |b|
  {
    |a| == 0 ||
    (|b| > 0 &&
     ((a[|a| - 1] == b[|b| - 1] && IsSubsequence(a[..|a| - 1], b[..|b| - 1])) ||
      IsSubsequence(a, b[..|b| - 1])))
  }
}
