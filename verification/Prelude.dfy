/** Small notions shared by several models. */
module Prelude {
  datatype Option<+T> = None | Some(value: T)

  datatype Result<+T, +E> = Ok(value: T) | Err(error: E)

  /** `a` and `b` are complementary subsequences of `all`: nothing lost, nothing reordered. */
  ghost predicate Interleaves<T>(all: seq<T>, a: seq<T>, b: seq<T>) {
    if all == [] then a == [] && b == []
    else
      || (a != [] && a[0] == all[0] && Interleaves(all[1..], a[1..], b))
      || (b != [] && b[0] == all[0] && Interleaves(all[1..], a, b[1..]))
  }

  ghost predicate Distinct<T>(s: seq<T>) {
    forall i, j :: 0 <= i < j < |s| ==> s[i] != s[j]
  }
}
