/** Facts about the in-place "replace at i, then maybe splice out i" step that both
    reverse-index loops of the sketch perform. Stated once, for any element type. */
module Splice {

  /** Writes `x` at index `i`; splices index `i` out when `keep` is false. */
  function ReplaceOrRemove<T>(r: seq<T>, i: int, x: T, keep: bool): (r': seq<T>)
    requires 0 <= i < |r|
    ensures |r'| == if keep then |r| else |r| - 1
    ensures r'[..i] == r[..i]
    ensures r'[i..] == (if keep then [x] else []) + r[i + 1..]
  {
    var replaced := r[..i] + [x] + r[i + 1..];
    assert replaced[..i] == r[..i] && replaced[i + 1..] == r[i + 1..];
    if keep then replaced else replaced[..i] + replaced[i + 1..]
  }
}
