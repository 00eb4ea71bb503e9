/** Searching a sequence, as `std::find` / `std::find_if` with an equality predicate do. */
module Seqs {
  import opened Wrappers

  /** The position of the first element equal to `x`, `None` when there is none. */
  function IndexOf<T(==)>(xs: seq<T>, x: T): (r: Option<nat>)
    ensures r.None? <==> x !in xs
    ensures r.Some? ==> r.value < |xs| && xs[r.value] == x && x !in xs[..r.value]
    decreases |xs|
  {
    if xs == [] then None
    else if xs[0] == x then Some(0)
    else
      var r := IndexOf(xs[1..], x);
      if r.None? then None
      else
        assert xs[..r.value + 1] == [xs[0]] + xs[1..][..r.value];
        Some(r.value + 1)
  }

  /** No element occurs twice. */
  predicate Distinct<T(==)>(xs: seq<T>) {
    forall j, j' :: 0 <= j < j' < |xs| ==> xs[j] != xs[j']
  }

  /** In a sequence without repeats the first element does not occur again. */
  lemma HeadNotInTail<T>(xs: seq<T>)
    requires Distinct(xs) && xs != []
    ensures xs[0] !in xs[1..]
  {
    forall j | 0 <= j < |xs| - 1 ensures xs[1..][j] != xs[0] {
      assert xs[1..][j] == xs[j + 1];
    }
  }
}
