/** What several modules share. */
module Basics {

  datatype Option<+T> = None | Some(value: T)

  function Min(a: int, b: int): int { if a < b then a else b }

  function Max(a: int, b: int): int { if a < b then b else a }

  function Abs(v: int): nat { if v < 0 then -v else v }

  function Signed(negative: bool, u: int): int { if negative then -u else u }

  lemma MulMono(a: int, b: int, p: int)
    requires a <= b && p >= 0
    ensures a * p <= b * p
  {
  }

  function Flatten<T>(parts: seq<seq<T>>): seq<T> {
    if parts == [] then [] else Flatten(parts[..|parts| - 1]) + parts[|parts| - 1]
  }

  // Every sequence of `a` followed by its counterpart in `b`.
  function Extended<T>(a: seq<seq<T>>, b: seq<seq<T>>): (s: seq<seq<T>>)
    requires |a| == |b|
    ensures |s| == |a|
  {
    seq(|a|, c requires 0 <= c < |a| => a[c] + b[c])
  }
}
