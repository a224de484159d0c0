/** Comparison functions of the caller and the sorted insertion they induce. */
module Ordering {
  import opened Seqs

  type Comparator<!T> = (T, T) -> int

  predicate Leq<T>(cmp: Comparator<T>, a: T, b: T) {
    cmp(a, b) <= 0
  }

  /** `cmp` is a total preorder on the elements of `s`. */
  ghost predicate TotalPreorder<T>(cmp: Comparator<T>, s: set<T>) {
    && (forall a, b {:trigger Leq(cmp, a, b)} :: a in s && b in s ==> Leq(cmp, a, b) || Leq(cmp, b, a))
    && (forall a, b, c {:trigger Leq(cmp, a, b), Leq(cmp, b, c)} ::
          a in s && b in s && c in s && Leq(cmp, a, b) && Leq(cmp, b, c) ==> Leq(cmp, a, c))
  }

  /** The first index from `i` on whose element compares greater than `x`. */
  function UpperIndex<T>(s: seq<T>, x: T, cmp: Comparator<T>, i: nat): (k: nat)
    requires i <= |s|
    ensures i <= k <= |s|
    ensures forall j {:trigger s[j]} :: i <= j < k ==> cmp(s[j], x) <= 0
    ensures k < |s| ==> cmp(s[k], x) > 0
    decreases |s| - i
  {
    if i == |s| || cmp(s[i], x) > 0 then i else UpperIndex(s, x, cmp, i + 1)
  }

  /** Where sorted insertion puts `x`: before the first greater element. */
  function InsertSorted<T>(s: seq<T>, x: T, cmp: Comparator<T>): seq<T> {
    InsertAt(s, UpperIndex(s, x, cmp, 0), x)
  }
}
