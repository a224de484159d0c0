/** Bottom-up mergesort as a function, sorted insertion, and the theorem that both produce
    the unique stable sort of their input. */
module StableSort {
  import opened Seqs
  import opened Ordering

  // ----- sorted, stable, and uniqueness -----

  ghost predicate Sorted<T>(s: seq<T>, cmp: Comparator<T>) {
    forall i, j {:trigger s[i], s[j]} :: 0 <= i < j < |s| ==> Leq(cmp, s[i], s[j])
  }

  predicate Equivalent<T>(cmp: Comparator<T>, a: T, b: T) {
    Leq(cmp, a, b) && Leq(cmp, b, a)
  }

  /** The elements of `s` that compare equal to `x`, in their order. */
  function Class<T>(s: seq<T>, x: T, cmp: Comparator<T>): seq<T> {
    if s == [] then []
    else (if Equivalent(cmp, s[0], x) then [s[0]] else []) + Class(s[1..], x, cmp)
  }

  /** `t` lists elements that compare equal in the same order as `s`. */
  ghost predicate SameClasses<T>(s: seq<T>, t: seq<T>, cmp: Comparator<T>, S: set<T>) {
    forall x {:trigger Class(s, x, cmp)} :: x in S ==> Class(s, x, cmp) == Class(t, x, cmp)
  }

  /** `t` is a stable sort of `s`. */
  ghost predicate StableSortOf<T>(t: seq<T>, s: seq<T>, cmp: Comparator<T>, S: set<T>) {
    Sorted(t, cmp) && multiset(t) == multiset(s) && SameClasses(s, t, cmp, S)
  }

  lemma ClassStep<T>(s: seq<T>, e: T, rest: seq<T>, x: T, cmp: Comparator<T>)
    requires s != [] && s[0] == e && s[1..] == rest
    ensures Class(s, x, cmp) == (if Equivalent(cmp, e, x) then [e] else []) + Class(rest, x, cmp)
  {
  }

  lemma {:induction false} ClassConcat<T>(s: seq<T>, t: seq<T>, x: T, cmp: Comparator<T>)
    ensures Class(s + t, x, cmp) == Class(s, x, cmp) + Class(t, x, cmp)
  {
    if s == [] {
      assert s + t == t;
    } else {
      var rest := s[1..] + t;
      assert (s + t)[0] == s[0] && (s + t)[1..] == rest;
      ClassConcat(s[1..], t, x, cmp);
      ClassStep(s + t, s[0], rest, x, cmp);
    }
  }

  lemma {:induction false} ClassEmpty<T>(s: seq<T>, x: T, cmp: Comparator<T>)
    requires forall i :: 0 <= i < |s| ==> !Equivalent(cmp, s[i], x)
    ensures Class(s, x, cmp) == []
  {
    if s != [] {
      ClassEmpty(s[1..], x, cmp);
    }
  }

  lemma {:induction false} ClassMembers<T>(s: seq<T>, x: T, cmp: Comparator<T>)
    ensures forall y :: y in Class(s, x, cmp) ==> y in s && Equivalent(cmp, y, x)
    ensures forall y :: y in s && Equivalent(cmp, y, x) ==> y in Class(s, x, cmp)
  {
    if s != [] {
      ClassMembers(s[1..], x, cmp);
    }
  }

  /** The head of one sequence occurs in the other, so the other head is not greater. */
  lemma HeadNotGreater<T>(s: seq<T>, t: seq<T>, cmp: Comparator<T>, S: set<T>)
    requires TotalPreorder(cmp, S) && Elems(s) <= S && Elems(t) <= S
    requires s != [] && Sorted(t, cmp) && SameClasses(s, t, cmp, S)
    ensures t != [] && Leq(cmp, t[0], s[0]) && s[0] in t
  {
    assert s[0] in Elems(s);
    ClassMembers(s, s[0], cmp);
    ClassMembers(t, s[0], cmp);
    assert Leq(cmp, s[0], s[0]);
    assert s[0] in Class(t, s[0], cmp);
    var i :| 0 <= i < |t| && t[i] == s[0];
    assert t[0] in Elems(t);
  }

  /** A sequence has at most one stable sort. */
  lemma {:induction false} StableSortUnique<T>(s: seq<T>, t: seq<T>, cmp: Comparator<T>, S: set<T>)
    requires TotalPreorder(cmp, S) && Elems(s) <= S && Elems(t) <= S
    requires Sorted(s, cmp) && Sorted(t, cmp) && SameClasses(s, t, cmp, S)
    ensures s == t
  {
    if s == [] {
      if t != [] {
        HeadNotGreater(t, s, cmp, S);
      }
    } else {
      HeadNotGreater(s, t, cmp, S);
      HeadNotGreater(t, s, cmp, S);
      assert s[0] in Elems(s);
      assert Class(s, s[0], cmp)[0] == s[0];
      assert Class(t, s[0], cmp)[0] == t[0];
      forall x | x in S
        ensures Class(s[1..], x, cmp) == Class(t[1..], x, cmp)
      {
        TailClass(s, t, x, cmp);
      }
      forall x | x in s[1..] ensures x in S { assert x in Elems(s); }
      forall x | x in t[1..] ensures x in S { assert x in Elems(t); }
      StableSortUnique(s[1..], t[1..], cmp, S);
    }
  }

  lemma TailClass<T>(s: seq<T>, t: seq<T>, x: T, cmp: Comparator<T>)
    requires s != [] && t != [] && s[0] == t[0] && Class(s, x, cmp) == Class(t, x, cmp)
    ensures Class(s[1..], x, cmp) == Class(t[1..], x, cmp)
  {
    var a, b := Class(s[1..], x, cmp), Class(t[1..], x, cmp);
    if Equivalent(cmp, s[0], x) {
      assert a == ([s[0]] + a)[1..] && b == ([s[0]] + b)[1..];
    } else {
      assert [] + a == a && [] + b == b;
    }
  }

  // ----- sorted insertion -----

  /** Inserting the elements of `s` one by one into an empty list. */
  function InsertAll<T>(s: seq<T>, cmp: Comparator<T>): seq<T> {
    if s == [] then [] else InsertSorted(InsertAll(s[..|s| - 1], cmp), s[|s| - 1], cmp)
  }

  lemma InsertKeepsSorted<T>(s: seq<T>, x: T, cmp: Comparator<T>, S: set<T>)
    requires TotalPreorder(cmp, S) && Elems(s) <= S && x in S && Sorted(s, cmp)
    ensures Sorted(InsertSorted(s, x, cmp), cmp)
  {
    var k := UpperIndex(s, x, cmp, 0);
    var r := InsertSorted(s, x, cmp);
    GreaterFrom(s, x, cmp, S);
    forall i, j | 0 <= i < j < |r|
      ensures Leq(cmp, r[i], r[j])
    {
      assert i != k ==> r[i] == s[if i < k then i else i - 1];
      assert j != k ==> r[j] == s[if j < k then j else j - 1];
    }
  }

  /** From the insertion point on, all elements are strictly greater. */
  lemma GreaterFrom<T>(s: seq<T>, x: T, cmp: Comparator<T>, S: set<T>)
    requires TotalPreorder(cmp, S) && Elems(s) <= S && x in S && Sorted(s, cmp)
    ensures forall j {:trigger s[j]} :: UpperIndex(s, x, cmp, 0) <= j < |s| ==>
              !Leq(cmp, s[j], x) && Leq(cmp, x, s[j])
  {
    var k := UpperIndex(s, x, cmp, 0);
    forall j {:trigger s[j]} | k <= j < |s|
      ensures !Leq(cmp, s[j], x) && Leq(cmp, x, s[j])
    {
      assert s[k] in Elems(s) && s[j] in Elems(s);
      assert Leq(cmp, s[k], x) || Leq(cmp, x, s[k]);
      if k < j {
        assert Leq(cmp, s[k], s[j]);
      }
    }
  }

  /** Nothing behind the insertion point of `x` compares equal to anything `x` does. */
  lemma NoneBehind<T>(s: seq<T>, x: T, y: T, cmp: Comparator<T>, S: set<T>)
    requires TotalPreorder(cmp, S) && Elems(s) <= S && x in S && y in S && Sorted(s, cmp)
    requires Equivalent(cmp, x, y)
    ensures Class(s[UpperIndex(s, x, cmp, 0)..], y, cmp) == []
  {
    var k := UpperIndex(s, x, cmp, 0);
    var hi := s[k..];
    GreaterFrom(s, x, cmp, S);
    forall i | 0 <= i < |hi|
      ensures !Equivalent(cmp, hi[i], y)
    {
      assert hi[i] == s[k + i] && s[k + i] in Elems(s);
    }
    ClassEmpty(hi, y, cmp);
  }

  lemma InsertKeepsClasses<T>(s: seq<T>, x: T, y: T, cmp: Comparator<T>, S: set<T>)
    requires TotalPreorder(cmp, S) && Elems(s) <= S && x in S && y in S && Sorted(s, cmp)
    ensures Class(InsertSorted(s, x, cmp), y, cmp) == Class(s, y, cmp) + Class([x], y, cmp)
  {
    var k := UpperIndex(s, x, cmp, 0);
    SplitClass(s, k, x, y, cmp);
    if Equivalent(cmp, x, y) {
      NoneBehind(s, x, y, cmp, S);
    } else {
      ClassEmpty([x], y, cmp);
    }
    Regroup(Class(s[..k], y, cmp), Class([x], y, cmp), Class(s[k..], y, cmp));
  }

  lemma SplitClass<T>(s: seq<T>, k: nat, x: T, y: T, cmp: Comparator<T>)
    requires k <= |s|
    ensures Class(InsertAt(s, k, x), y, cmp)
            == Class(s[..k], y, cmp) + Class([x], y, cmp) + Class(s[k..], y, cmp)
    ensures Class(s, y, cmp) == Class(s[..k], y, cmp) + Class(s[k..], y, cmp)
  {
    var lo, hi := s[..k], s[k..];
    assert s == lo + hi && InsertAt(s, k, x) == lo + [x] + hi;
    ClassConcat(lo, hi, y, cmp);
    ClassConcat(lo + [x], hi, y, cmp);
    ClassConcat(lo, [x], y, cmp);
  }

  /** Two neighbours can be exchanged when one of them is empty. */
  lemma Regroup<T>(a: seq<T>, e: seq<T>, b: seq<T>)
    requires e == [] || b == []
    ensures a + e + b == a + b + e
  {
  }

  /** Sorted insertion of all elements is a stable sort. */
  lemma {:induction false} InsertAllStable<T>(s: seq<T>, cmp: Comparator<T>, S: set<T>)
    requires TotalPreorder(cmp, S) && Elems(s) <= S
    ensures StableSortOf(InsertAll(s, cmp), s, cmp, S)
  {
    if s != [] {
      var n := |s| - 1;
      var init, x := s[..n], s[n];
      assert s == init + [x];
      assert x in Elems(s) && forall y :: y in Elems(init) ==> y in Elems(s);
      InsertAllStable(init, cmp, S);
      InsertStable(InsertAll(init, cmp), init, x, cmp, S);
    }
  }

  /** One more element, inserted into a stable sort of the elements before it. */
  lemma InsertStable<T>(t: seq<T>, init: seq<T>, x: T, cmp: Comparator<T>, S: set<T>)
    requires TotalPreorder(cmp, S) && Elems(init) <= S && x in S && StableSortOf(t, init, cmp, S)
    ensures StableSortOf(InsertSorted(t, x, cmp), init + [x], cmp, S)
  {
    MultisetElems(t, init);
    InsertKeepsSorted(t, x, cmp, S);
    InsertMembers(t, UpperIndex(t, x, cmp, 0), x);
    forall y | y in S
      ensures Class(init + [x], y, cmp) == Class(InsertSorted(t, x, cmp), y, cmp)
    {
      InsertKeepsClasses(t, x, y, cmp, S);
      ClassConcat(init, [x], y, cmp);
    }
  }

  lemma InsertMembers<T>(t: seq<T>, k: nat, x: T)
    requires k <= |t|
    ensures multiset(InsertAt(t, k, x)) == multiset(t) + multiset{x}
  {
    assert t == t[..k] + t[k..];
  }

  lemma MultisetElems<T>(s: seq<T>, t: seq<T>)
    requires multiset(s) == multiset(t)
    ensures Elems(s) == Elems(t) && |s| == |t|
  {
    forall x
      ensures x in s <==> x in t
    {
      assert x in multiset(s) <==> x in multiset(t);
    }
    assert |multiset(s)| == |s| && |multiset(t)| == |t|;
  }

  // ----- bottom-up mergesort -----

  /** Merging the runs `s[p..m]` and `s[q..b]`; on ties the left run goes first. */
  function MergeRuns<T>(s: seq<T>, p: nat, m: nat, q: nat, b: nat, cmp: Comparator<T>): (r: seq<T>)
    requires p <= m <= q <= b <= |s|
    ensures |r| == (m - p) + (b - q)
    decreases (m - p) + (b - q)
  {
    if p == m && q == b then []
    else if p == m then [s[q]] + MergeRuns(s, p, m, q + 1, b, cmp)
    else if q == b || cmp(s[p], s[q]) <= 0 then [s[p]] + MergeRuns(s, p + 1, m, q, b, cmp)
    else [s[q]] + MergeRuns(s, p, m, q + 1, b, cmp)
  }

  /** One pass over `s` from `a` on: merges neighbouring runs of length `size`. */
  function MergePass<T>(s: seq<T>, a: nat, size: nat, cmp: Comparator<T>): (r: seq<T>)
    requires a <= |s| && size >= 1
    ensures |r| == |s| - a
    decreases |s| - a
  {
    if a == |s| then []
    else
      var m := Min(a + size, |s|);
      var b := Min(m + size, |s|);
      MergeRuns(s, a, m, m, b, cmp) + MergePass(s, b, size, cmp)
  }

  /** The passes with runs of length `size`, `2 * size`, ... until one merge suffices. */
  function SortFrom<T>(s: seq<T>, size: nat, cmp: Comparator<T>): (r: seq<T>)
    requires size >= 1
    ensures |r| == |s|
    decreases |s| - size
  {
    var r := MergePass(s, 0, size, cmp);
    if |s| <= 2 * size then r else SortFrom(r, 2 * size, cmp)
  }

  function MergeSorted<T>(s: seq<T>, cmp: Comparator<T>): seq<T> {
    SortFrom(s, 1, cmp)
  }

  /** `s[lo..hi]` is sorted. */
  ghost predicate SortedRange<T>(s: seq<T>, lo: nat, hi: nat, cmp: Comparator<T>)
    requires hi <= |s|
  {
    forall i, j {:trigger s[i], s[j]} :: lo <= i < j < hi ==> Leq(cmp, s[i], s[j])
  }

  /** From `a` on, `s` consists of sorted runs of length `size`. */
  ghost predicate RunsSorted<T>(s: seq<T>, a: nat, size: nat, cmp: Comparator<T>)
    requires size >= 1
    decreases |s| - a
  {
    a < |s| ==> SortedRange(s, a, Min(a + size, |s|), cmp) && RunsSorted(s, a + size, size, cmp)
  }

  lemma {:induction false} MergeMembers<T>(s: seq<T>, p: nat, m: nat, q: nat, b: nat, cmp: Comparator<T>, r: seq<T>)
    requires p <= m <= q <= b <= |s| && r == MergeRuns(s, p, m, q, b, cmp)
    ensures multiset(r) == multiset(s[p..m]) + multiset(s[q..b])
    decreases (m - p) + (b - q)
  {
    if p == m && q == b {
    } else if p == m || (q < b && cmp(s[p], s[q]) > 0) {
      var rest := MergeRuns(s, p, m, q + 1, b, cmp);
      MergeMembers(s, p, m, q + 1, b, cmp, rest);
      TakenRight(s, p, m, q, b, rest, r);
    } else {
      var rest := MergeRuns(s, p + 1, m, q, b, cmp);
      MergeMembers(s, p + 1, m, q, b, cmp, rest);
      TakenLeft(s, p, m, q, b, rest, r);
    }
  }

  lemma TakenLeft<T>(s: seq<T>, p: nat, m: nat, q: nat, b: nat, rest: seq<T>, r: seq<T>)
    requires p < m <= q <= b <= |s| && multiset(rest) == multiset(s[p + 1..m]) + multiset(s[q..b])
    requires r == [s[p]] + rest
    ensures multiset(r) == multiset(s[p..m]) + multiset(s[q..b])
  {
    MultisetSlice(s, p, m);
  }

  lemma TakenRight<T>(s: seq<T>, p: nat, m: nat, q: nat, b: nat, rest: seq<T>, r: seq<T>)
    requires p <= m <= q < b <= |s| && multiset(rest) == multiset(s[p..m]) + multiset(s[q + 1..b])
    requires r == [s[q]] + rest
    ensures multiset(r) == multiset(s[p..m]) + multiset(s[q..b])
  {
    MultisetSlice(s, q, b);
  }

  lemma MultisetSlice<T>(s: seq<T>, lo: nat, hi: nat)
    requires lo < hi <= |s|
    ensures multiset(s[lo..hi]) == multiset{s[lo]} + multiset(s[lo + 1..hi])
  {
    assert s[lo..hi] == [s[lo]] + s[lo + 1..hi];
  }

  /** Putting a lower bound in front of a sorted sequence. */
  lemma SortedCons<T>(x: T, s: seq<T>, cmp: Comparator<T>)
    requires Sorted(s, cmp) && forall y :: y in s ==> Leq(cmp, x, y)
    ensures Sorted([x] + s, cmp)
  {
    var r := [x] + s;
    forall i, j | 0 <= i < j < |r|
      ensures Leq(cmp, r[i], r[j])
    {
      assert r[j] == s[j - 1];
      assert i > 0 ==> r[i] == s[i - 1];
    }
  }

  lemma {:induction false} MergeSortsRuns<T>(s: seq<T>, p: nat, m: nat, q: nat, b: nat, cmp: Comparator<T>, S: set<T>)
    requires TotalPreorder(cmp, S) && Elems(s) <= S
    requires p <= m <= q <= b <= |s| && SortedRange(s, p, m, cmp) && SortedRange(s, q, b, cmp)
    ensures Sorted(MergeRuns(s, p, m, q, b, cmp), cmp)
    decreases (m - p) + (b - q)
  {
    if p == m && q == b {
    } else if p == m || (q < b && cmp(s[p], s[q]) > 0) {
      MergeSortsRuns(s, p, m, q + 1, b, cmp, S);
      HeadFirst(s, q, p, m, q + 1, b, cmp, S, MergeRuns(s, p, m, q + 1, b, cmp));
    } else {
      MergeSortsRuns(s, p + 1, m, q, b, cmp, S);
      HeadFirst(s, p, p + 1, m, q, b, cmp, S, MergeRuns(s, p + 1, m, q, b, cmp));
    }
  }

  lemma HeadFirst<T>(s: seq<T>, h: nat, p: nat, m: nat, q: nat, b: nat, cmp: Comparator<T>, S: set<T>, rest: seq<T>)
    requires TotalPreorder(cmp, S) && Elems(s) <= S
    requires p <= m <= q <= b <= |s| && h < |s|
    requires SortedRange(s, p, m, cmp) && SortedRange(s, q, b, cmp)
    requires p < m ==> Leq(cmp, s[h], s[p]) || !Leq(cmp, s[p], s[h])
    requires q < b ==> Leq(cmp, s[h], s[q]) || !Leq(cmp, s[q], s[h])
    requires rest == MergeRuns(s, p, m, q, b, cmp) && Sorted(rest, cmp)
    ensures Sorted([s[h]] + rest, cmp)
  {
    HeadIsLeast(s, h, p, m, q, b, cmp, S);
    SortedCons(s[h], rest, cmp);
  }

  /** An element below the heads of both runs is below everything merged from them. */
  lemma HeadIsLeast<T>(s: seq<T>, h: nat, p: nat, m: nat, q: nat, b: nat, cmp: Comparator<T>, S: set<T>)
    requires TotalPreorder(cmp, S) && Elems(s) <= S
    requires p <= m <= q <= b <= |s| && h < |s|
    requires SortedRange(s, p, m, cmp) && SortedRange(s, q, b, cmp)
    requires p < m ==> Leq(cmp, s[h], s[p]) || !Leq(cmp, s[p], s[h])
    requires q < b ==> Leq(cmp, s[h], s[q]) || !Leq(cmp, s[q], s[h])
    ensures forall y :: y in MergeRuns(s, p, m, q, b, cmp) ==> Leq(cmp, s[h], y)
  {
    var r := MergeRuns(s, p, m, q, b, cmp);
    MergeMembers(s, p, m, q, b, cmp, r);
    forall y | y in r
      ensures Leq(cmp, s[h], y)
    {
      assert y in multiset(r);
      assert y in s[p..m] || y in s[q..b];
      assert s[h] in Elems(s);
      if y in s[p..m] {
        var i :| p <= i < m && s[i] == y;
        BelowRun(s, h, p, i, cmp, S);
      } else {
        var i :| q <= i < b && s[i] == y;
        BelowRun(s, h, q, i, cmp, S);
      }
    }
  }

  lemma BelowRun<T>(s: seq<T>, h: nat, lo: nat, i: nat, cmp: Comparator<T>, S: set<T>)
    requires TotalPreorder(cmp, S) && Elems(s) <= S
    requires h < |s| && lo <= i < |s| && SortedRange(s, lo, i + 1, cmp)
    requires Leq(cmp, s[h], s[lo]) || !Leq(cmp, s[lo], s[h])
    ensures Leq(cmp, s[h], s[i])
  {
    assert s[h] in Elems(s) && s[lo] in Elems(s) && s[i] in Elems(s);
    assert Leq(cmp, s[h], s[lo]);
    assert lo < i ==> Leq(cmp, s[lo], s[i]);
  }

  /** Merging keeps elements that compare equal in their order, the left run first. */
  lemma {:induction false} MergeKeepsClasses<T>(s: seq<T>, p: nat, m: nat, q: nat, b: nat, x: T,
                                                cmp: Comparator<T>, S: set<T>)
    requires TotalPreorder(cmp, S) && Elems(s) <= S && x in S
    requires p <= m <= q <= b <= |s| && SortedRange(s, p, m, cmp)
    ensures Class(MergeRuns(s, p, m, q, b, cmp), x, cmp) == Class(s[p..m], x, cmp) + Class(s[q..b], x, cmp)
    decreases (m - p) + (b - q)
  {
    if p == m && q == b {
    } else if p == m || (q < b && cmp(s[p], s[q]) > 0) {
      MergeKeepsClasses(s, p, m, q + 1, b, x, cmp, S);
      RightFirst(s, p, m, q, b, MergeRuns(s, p, m, q + 1, b, cmp), x, cmp, S);
    } else {
      MergeKeepsClasses(s, p + 1, m, q, b, x, cmp, S);
      LeftFirst(s, p, m, q, b, MergeRuns(s, p + 1, m, q, b, cmp), x, cmp);
    }
  }

  lemma LeftFirst<T>(s: seq<T>, p: nat, m: nat, q: nat, b: nat, rest: seq<T>, x: T, cmp: Comparator<T>)
    requires p < m <= q <= b <= |s|
    requires Class(rest, x, cmp) == Class(s[p + 1..m], x, cmp) + Class(s[q..b], x, cmp)
    ensures Class([s[p]] + rest, x, cmp) == Class(s[p..m], x, cmp) + Class(s[q..b], x, cmp)
  {
    ClassCons(s[p], rest, x, cmp);
    ClassSlice(s, p, m, x, cmp);
  }

  lemma RightFirst<T>(s: seq<T>, p: nat, m: nat, q: nat, b: nat, rest: seq<T>, x: T,
                      cmp: Comparator<T>, S: set<T>)
    requires TotalPreorder(cmp, S) && Elems(s) <= S && x in S
    requires p <= m <= q < b <= |s| && SortedRange(s, p, m, cmp)
    requires p < m ==> cmp(s[p], s[q]) > 0
    requires Class(rest, x, cmp) == Class(s[p..m], x, cmp) + Class(s[q + 1..b], x, cmp)
    ensures Class([s[q]] + rest, x, cmp) == Class(s[p..m], x, cmp) + Class(s[q..b], x, cmp)
  {
    ClassCons(s[q], rest, x, cmp);
    ClassSlice(s, q, b, x, cmp);
    var e := if Equivalent(cmp, s[q], x) then [s[q]] else [];
    if Equivalent(cmp, s[q], x) {
      LeftRunGreater(s, p, m, q, x, cmp, S);
    }
    Regrouped(e, Class(s[p..m], x, cmp), Class(s[q + 1..b], x, cmp));
  }

  lemma Regrouped<T>(e: seq<T>, a: seq<T>, b: seq<T>)
    requires e == [] || a == []
    ensures e + (a + b) == a + (e + b)
  {
  }

  lemma ClassCons<T>(h: T, s: seq<T>, x: T, cmp: Comparator<T>)
    ensures Class([h] + s, x, cmp) == (if Equivalent(cmp, h, x) then [h] else []) + Class(s, x, cmp)
  {
    assert ([h] + s)[1..] == s;
  }

  lemma ClassSlice<T>(s: seq<T>, lo: nat, hi: nat, x: T, cmp: Comparator<T>)
    requires lo < hi <= |s|
    ensures Class(s[lo..hi], x, cmp)
            == (if Equivalent(cmp, s[lo], x) then [s[lo]] else []) + Class(s[lo + 1..hi], x, cmp)
  {
    assert s[lo..hi] == [s[lo]] + s[lo + 1..hi];
    ClassCons(s[lo], s[lo + 1..hi], x, cmp);
  }

  /** When the right head is taken first, nothing in the left run compares equal to it. */
  lemma LeftRunGreater<T>(s: seq<T>, p: nat, m: nat, q: nat, x: T, cmp: Comparator<T>, S: set<T>)
    requires TotalPreorder(cmp, S) && Elems(s) <= S && x in S
    requires p <= m <= q < |s| && SortedRange(s, p, m, cmp)
    requires p < m ==> cmp(s[p], s[q]) > 0
    requires Equivalent(cmp, s[q], x)
    ensures Class(s[p..m], x, cmp) == []
  {
    var c := s[p..m];
    assert s[q] in Elems(s);
    forall i | 0 <= i < |c|
      ensures !Equivalent(cmp, c[i], x)
    {
      assert c[i] == s[p + i] && s[p + i] in Elems(s) && s[p] in Elems(s);
      assert !Leq(cmp, s[p], s[q]);
      assert i > 0 ==> Leq(cmp, s[p], s[p + i]);
      assert Leq(cmp, x, s[q]);
    }
    ClassEmpty(c, x, cmp);
  }

  // ----- a whole pass and the whole sort -----

  lemma {:induction false} RunsShift<T>(m: seq<T>, r: seq<T>, i: nat, w: nat, cmp: Comparator<T>)
    requires w >= 1 && RunsSorted(r, i, w, cmp)
    ensures RunsSorted(m + r, |m| + i, w, cmp)
    decreases |r| - i
  {
    var t := m + r;
    if i < |r| {
      RunsShift(m, r, i + w, w, cmp);
      var hi := Min(|m| + i + w, |t|);
      forall j, k {:trigger t[j], t[k]} | |m| + i <= j < k < hi
        ensures Leq(cmp, t[j], t[k])
      {
        assert t[j] == r[j - |m|] && t[k] == r[k - |m|];
      }
    }
  }

  lemma {:induction false} PassSortsRuns<T>(s: seq<T>, a: nat, size: nat, cmp: Comparator<T>, S: set<T>)
    requires TotalPreorder(cmp, S) && Elems(s) <= S
    requires a <= |s| && size >= 1 && RunsSorted(s, a, size, cmp)
    ensures RunsSorted(MergePass(s, a, size, cmp), 0, 2 * size, cmp)
    decreases |s| - a
  {
    if a < |s| {
      var m := Min(a + size, |s|);
      var b := Min(m + size, |s|);
      var first, rest := MergeRuns(s, a, m, m, b, cmp), MergePass(s, b, size, cmp);
      SecondRun(s, a, size, cmp);
      MergeSortsRuns(s, a, m, m, b, cmp, S);
      PassSortsRuns(s, b, size, cmp, S);
      RunInFront(first, rest, 2 * size, cmp);
    }
  }

  /** A sorted run in front; only the last run may be shorter than the others. */
  lemma RunInFront<T>(first: seq<T>, rest: seq<T>, w: nat, cmp: Comparator<T>)
    requires w >= 1 && Sorted(first, cmp) && RunsSorted(rest, 0, w, cmp)
    requires 0 < |first| <= w && (|first| < w ==> rest == [])
    ensures RunsSorted(first + rest, 0, w, cmp)
  {
    var r := first + rest;
    RunsShift(first, rest, 0, w, cmp);
    assert |r| > 0 && Min(w, |r|) == |first|;
    forall j, k {:trigger r[j], r[k]} | 0 <= j < k < |first|
      ensures Leq(cmp, r[j], r[k])
    {
      assert r[j] == first[j] && r[k] == first[k];
    }
  }

  /** The run after a run is sorted too, and so are all runs after both. */
  lemma SecondRun<T>(s: seq<T>, a: nat, size: nat, cmp: Comparator<T>)
    requires size >= 1 && a < |s| && RunsSorted(s, a, size, cmp)
    ensures var m := Min(a + size, |s|); var b := Min(m + size, |s|);
            && SortedRange(s, a, m, cmp) && SortedRange(s, m, b, cmp) && RunsSorted(s, b, size, cmp)
  {
    var m := Min(a + size, |s|);
    if m == a + size {
      assert RunsSorted(s, m, size, cmp);
    }
  }

  lemma {:induction false} PassMembers<T>(s: seq<T>, a: nat, size: nat, cmp: Comparator<T>, r: seq<T>)
    requires a <= |s| && size >= 1 && r == MergePass(s, a, size, cmp)
    ensures multiset(r) == multiset(s[a..])
    decreases |s| - a
  {
    if a == |s| {
      assert r == s[a..];
    } else {
      var m := Min(a + size, |s|);
      var b := Min(m + size, |s|);
      var first, rest := MergeRuns(s, a, m, m, b, cmp), MergePass(s, b, size, cmp);
      PassMembers(s, b, size, cmp, rest);
      assert r == first + rest;
      JoinParts(first, rest, s, a, m, b, cmp, r);
    }
  }

  lemma JoinParts<T>(first: seq<T>, rest: seq<T>, s: seq<T>, a: nat, m: nat, b: nat, cmp: Comparator<T>, r: seq<T>)
    requires a <= m <= b <= |s| && r == first + rest
    requires first == MergeRuns(s, a, m, m, b, cmp) && multiset(rest) == multiset(s[b..])
    ensures multiset(r) == multiset(s[a..])
  {
    MergeMembers(s, a, m, m, b, cmp, first);
    assert s[a..] == s[a..m] + s[m..b] + s[b..];
  }

  lemma {:induction false} PassKeepsClasses<T>(s: seq<T>, a: nat, size: nat, x: T, cmp: Comparator<T>, S: set<T>,
                                            r: seq<T>)
    requires TotalPreorder(cmp, S) && Elems(s) <= S && x in S
    requires a <= |s| && size >= 1 && RunsSorted(s, a, size, cmp) && r == MergePass(s, a, size, cmp)
    ensures Class(r, x, cmp) == Class(s[a..], x, cmp)
    decreases |s| - a
  {
    if a < |s| {
      var m := Min(a + size, |s|);
      var b := Min(m + size, |s|);
      var first, rest := MergeRuns(s, a, m, m, b, cmp), MergePass(s, b, size, cmp);
      assert r == first + rest;
      PassKeepsClasses(s, b, size, x, cmp, S, rest);
      FirstKeepsClasses(s, a, size, x, cmp, S, m, b, first);
      ClassesJoin(s, a, m, b, x, cmp, first, rest);
    }
  }

  lemma FirstKeepsClasses<T>(s: seq<T>, a: nat, size: nat, x: T, cmp: Comparator<T>, S: set<T>, m: nat, b: nat,
                             first: seq<T>)
    requires TotalPreorder(cmp, S) && Elems(s) <= S && x in S
    requires a < |s| && size >= 1 && RunsSorted(s, a, size, cmp)
    requires m == Min(a + size, |s|) && b == Min(m + size, |s|) && first == MergeRuns(s, a, m, m, b, cmp)
    ensures Class(first, x, cmp) == Class(s[a..m], x, cmp) + Class(s[m..b], x, cmp)
  {
    SecondRun(s, a, size, cmp);
    MergeKeepsClasses(s, a, m, m, b, x, cmp, S);
  }

  lemma ClassesJoin<T>(s: seq<T>, a: nat, m: nat, b: nat, x: T, cmp: Comparator<T>, first: seq<T>, rest: seq<T>)
    requires a <= m <= b <= |s|
    requires Class(first, x, cmp) == Class(s[a..m], x, cmp) + Class(s[m..b], x, cmp)
    requires Class(rest, x, cmp) == Class(s[b..], x, cmp)
    ensures Class(first + rest, x, cmp) == Class(s[a..], x, cmp)
  {
    ClassConcat(first, rest, x, cmp);
    ThreeParts(s, a, m, b, x, cmp);
  }

  lemma ThreeParts<T>(s: seq<T>, a: nat, m: nat, b: nat, x: T, cmp: Comparator<T>)
    requires a <= m <= b <= |s|
    ensures Class(s[a..], x, cmp) == Class(s[a..m], x, cmp) + Class(s[m..b], x, cmp) + Class(s[b..], x, cmp)
  {
    assert s[a..] == s[a..m] + s[m..b] + s[b..];
    ClassConcat(s[a..m] + s[m..b], s[b..], x, cmp);
    ClassConcat(s[a..m], s[m..b], x, cmp);
  }

  lemma {:induction false} RunsOfOne<T>(s: seq<T>, a: nat, cmp: Comparator<T>)
    ensures RunsSorted(s, a, 1, cmp)
    decreases |s| - a
  {
    if a < |s| {
      RunsOfOne(s, a + 1, cmp);
    }
  }

  lemma {:induction false} SortFromMembers<T>(s: seq<T>, size: nat, cmp: Comparator<T>)
    requires size >= 1
    ensures multiset(SortFrom(s, size, cmp)) == multiset(s)
    decreases |s| - size
  {
    var r := MergePass(s, 0, size, cmp);
    assert s[0..] == s;
    PassMembers(s, 0, size, cmp, r);
    if |s| > 2 * size {
      SortFromMembers(r, 2 * size, cmp);
    }
  }

  lemma {:induction false} SortFromStable<T>(s: seq<T>, size: nat, cmp: Comparator<T>, S: set<T>)
    requires TotalPreorder(cmp, S) && Elems(s) <= S
    requires size >= 1 && RunsSorted(s, 0, size, cmp)
    ensures StableSortOf(SortFrom(s, size, cmp), s, cmp, S)
    decreases |s| - size
  {
    var r := MergePass(s, 0, size, cmp);
    assert s[0..] == s;
    PassMembers(s, 0, size, cmp, r);
    PassSortsRuns(s, 0, size, cmp, S);
    forall x {:trigger Class(s, x, cmp)} | x in S
      ensures Class(s, x, cmp) == Class(r, x, cmp)
    {
      PassKeepsClasses(s, 0, size, x, cmp, S, r);
    }
    if |s| > 2 * size {
      MultisetElems(r, s);
      SortFromStable(r, 2 * size, cmp, S);
    }
  }

  /** The mergesort is a stable sort, for every input and every total preorder. */
  lemma MergeSortedStable<T>(s: seq<T>, cmp: Comparator<T>, S: set<T>)
    requires TotalPreorder(cmp, S) && Elems(s) <= S
    ensures StableSortOf(MergeSorted(s, cmp), s, cmp, S)
  {
    RunsOfOne(s, 0, cmp);
    SortFromStable(s, 1, cmp, S);
  }

  /** Inserting in order one by one gives the same list as appending all and sorting. */
  lemma InsertAllIsMergeSorted<T>(s: seq<T>, cmp: Comparator<T>)
    requires TotalPreorder(cmp, Elems(s))
    ensures InsertAll(s, cmp) == MergeSorted(s, cmp)
  {
    var S := Elems(s);
    InsertAllStable(s, cmp, S);
    MergeSortedStable(s, cmp, S);
    var t, u := InsertAll(s, cmp), MergeSorted(s, cmp);
    MultisetElems(t, s);
    MultisetElems(u, s);
    assert SameClasses(t, u, cmp, S) by {
      forall x {:trigger Class(t, x, cmp)} | x in S
        ensures Class(t, x, cmp) == Class(u, x, cmp)
      {
        assert Class(s, x, cmp) == Class(t, x, cmp);
      }
    }
    StableSortUnique(t, u, cmp, S);
  }

  // ----- what sorting means -----

  /** Elements of a class are in it in their order. */
  lemma {:induction false} ClassOrder<T>(s: seq<T>, x: T, cmp: Comparator<T>, i: nat, j: nat)
    returns (a: nat, b: nat)
    requires i < j < |s| && Equivalent(cmp, s[i], x) && Equivalent(cmp, s[j], x)
    ensures a < b < |Class(s, x, cmp)| && Class(s, x, cmp)[a] == s[i] && Class(s, x, cmp)[b] == s[j]
  {
    var c := Class(s[1..], x, cmp);
    if i > 0 {
      a, b := ClassOrder(s[1..], x, cmp, i - 1, j - 1);
      if Equivalent(cmp, s[0], x) {
        assert Class(s, x, cmp) == [s[0]] + c;
        a, b := a + 1, b + 1;
      } else {
        assert Class(s, x, cmp) == c;
      }
    } else {
      ClassMembers(s[1..], x, cmp);
      assert s[1..][j - 1] == s[j];
      var k :| 0 <= k < |c| && c[k] == s[j];
      assert Class(s, x, cmp) == [s[0]] + c;
      a, b := 0, k + 1;
    }
  }

  ghost predicate NoTwice<T>(s: seq<T>) {
    forall i, j {:trigger s[i], s[j]} :: 0 <= i < j < |s| ==> s[i] != s[j]
  }

  lemma {:induction false} ClassDistinct<T>(s: seq<T>, x: T, cmp: Comparator<T>)
    requires NoTwice(s)
    ensures NoTwice(Class(s, x, cmp))
  {
    if s != [] {
      var rest, c := s[1..], Class(s[1..], x, cmp);
      assert forall i :: 0 <= i < |rest| ==> rest[i] == s[i + 1];
      ClassDistinct(rest, x, cmp);
      ClassMembers(rest, x, cmp);
      if Equivalent(cmp, s[0], x) {
        assert Class(s, x, cmp) == [s[0]] + c && s[0] !in c;
      } else {
        assert Class(s, x, cmp) == c;
      }
    }
  }

  /** No pair of the sorted list compares greater, and two elements that compare equal stay in their
      order. This says of the comparison only which results are positive. */
  lemma SortOrders<T>(s: seq<T>, cmp: Comparator<T>)
    requires forall a, b {:trigger cmp(a, b)} :: a in s && b in s ==> cmp(a, b) <= 0 || cmp(b, a) <= 0
    requires forall a, b, c {:trigger cmp(a, b), cmp(b, c)} ::
               a in s && b in s && c in s && cmp(a, b) <= 0 && cmp(b, c) <= 0 ==> cmp(a, c) <= 0
    ensures var r := MergeSorted(s, cmp);
            && multiset(r) == multiset(s)
            && forall i, j {:trigger r[i], r[j]} :: 0 <= i < j < |r| ==> cmp(r[i], r[j]) <= 0
  {
    MergeSortedStable(s, cmp, Elems(s));
    var r := MergeSorted(s, cmp);
    forall i, j {:trigger r[i], r[j]} | 0 <= i < j < |r|
      ensures cmp(r[i], r[j]) <= 0
    {
      assert Leq(cmp, r[i], r[j]);
    }
  }

  lemma SortIsStable<T>(s: seq<T>, cmp: Comparator<T>, i: nat, j: nat, p: nat, q: nat)
    requires forall a, b {:trigger cmp(a, b)} :: a in s && b in s ==> cmp(a, b) <= 0 || cmp(b, a) <= 0
    requires forall a, b, c {:trigger cmp(a, b), cmp(b, c)} ::
               a in s && b in s && c in s && cmp(a, b) <= 0 && cmp(b, c) <= 0 ==> cmp(a, c) <= 0
    requires forall k, l {:trigger s[k], s[l]} :: 0 <= k < l < |s| ==> s[k] != s[l]
    requires i < j < |s| && cmp(s[i], s[j]) <= 0 && cmp(s[j], s[i]) <= 0
    requires p < |MergeSorted(s, cmp)| && MergeSorted(s, cmp)[p] == s[i]
    requires q < |MergeSorted(s, cmp)| && MergeSorted(s, cmp)[q] == s[j]
    ensures p < q
  {
    var r, x := MergeSorted(s, cmp), s[i];
    MergeSortedStable(s, cmp, Elems(s));
    assert Class(s, x, cmp) == Class(r, x, cmp);
    InOrderInClass(s, r, x, cmp, i, j, p, q);
  }

  lemma InOrderInClass<T>(s: seq<T>, r: seq<T>, x: T, cmp: Comparator<T>, i: nat, j: nat, p: nat, q: nat)
    requires Class(s, x, cmp) == Class(r, x, cmp)
    requires NoTwice(s) && i < j < |s| && Equivalent(cmp, s[i], x) && Equivalent(cmp, s[j], x)
    requires p < |r| && r[p] == s[i] && q < |r| && r[q] == s[j]
    ensures p < q
  {
    if q < p {
      ClassDistinct(s, x, cmp);
      var a, b := ClassOrder(s, x, cmp, i, j);
      var c, d := ClassOrder(r, x, cmp, q, p);
    }
  }
}
