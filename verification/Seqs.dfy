/** Sequence operations shared by the models. */
module Seqs {

  function Min(a: nat, b: nat): nat {
    if a < b then a else b
  }

  ghost function Elems<T>(s: seq<T>): set<T> {
    set x | x in s
  }

  /** A mark that instantiates the quantifier of Distinct, which otherwise stays inert. */
  predicate Pair(i: int, j: int) {
    true
  }

  /** No element occurs twice. */
  ghost predicate Distinct<T>(s: seq<T>) {
    forall i, j {:trigger Pair(i, j)} :: Pair(i, j) && 0 <= i < j < |s| ==> s[i] != s[j]
  }

  lemma DistinctPairs<T>(s: seq<T>)
    requires Distinct(s)
    ensures forall i, j {:trigger s[i], s[j]} :: 0 <= i < j < |s| ==> s[i] != s[j]
  {
    forall i, j | 0 <= i < j < |s|
      ensures s[i] != s[j]
    {
      assert Pair(i, j);
    }
  }

  function RemoveAt<T>(s: seq<T>, k: nat): (r: seq<T>)
    requires k < |s|
    ensures |r| == |s| - 1
    ensures forall i {:trigger r[i]} :: 0 <= i < |r| ==> r[i] == if i < k then s[i] else s[i + 1]
  {
    s[..k] + s[k + 1..]
  }

  function InsertAt<T>(s: seq<T>, k: nat, x: T): (r: seq<T>)
    requires k <= |s|
    ensures |r| == |s| + 1 && r[k] == x
    ensures forall i {:trigger r[i]} :: 0 <= i < |r| && i != k ==> r[i] == if i < k then s[i] else s[i - 1]
  {
    s[..k] + [x] + s[k..]
  }

  lemma RemoveAtElems<T>(s: seq<T>, k: nat)
    requires k < |s|
    ensures Elems(s) == Elems(RemoveAt(s, k)) + {s[k]}
  {
    var r := RemoveAt(s, k);
    forall x | x in s && x != s[k]
      ensures x in r
    {
      var j :| 0 <= j < |s| && s[j] == x;
      assert r[if j < k then j else j - 1] == x;
    }
    forall x | x in r
      ensures x in s
    {
      var i :| 0 <= i < |r| && r[i] == x;
      assert x == s[if i < k then i else i + 1];
    }
  }

  lemma DistinctRemoveAt<T>(s: seq<T>, k: nat)
    requires k < |s| && Distinct(s)
    ensures Distinct(RemoveAt(s, k))
    ensures Elems(RemoveAt(s, k)) == Elems(s) - {s[k]}
  {
    DistinctPairs(s);
    RemoveAtElems(s, k);
    var r := RemoveAt(s, k);
    forall i, j | 0 <= i < j < |r|
      ensures r[i] != r[j]
    {
      assert r[i] == s[if i < k then i else i + 1];
      assert r[j] == s[if j < k then j else j + 1];
    }
    forall i | 0 <= i < |r|
      ensures r[i] != s[k]
    {
      assert r[i] == s[if i < k then i else i + 1];
    }
  }

  lemma DistinctInsertAt<T>(s: seq<T>, k: nat, x: T)
    requires k <= |s| && Distinct(s) && x !in s
    ensures Distinct(InsertAt(s, k, x))
    ensures Elems(InsertAt(s, k, x)) == Elems(s) + {x}
  {
    DistinctPairs(s);
    var r := InsertAt(s, k, x);
    RemoveAtElems(r, k);
    assert RemoveAt(r, k) == s;
    forall i, j | 0 <= i < j < |r|
      ensures r[i] != r[j]
    {
      assert i != k ==> r[i] == s[if i < k then i else i - 1];
      assert j != k ==> r[j] == s[if j < k then j else j - 1];
    }
  }

  lemma InsertAtMember<T>(s: seq<T>, k: nat, x: T, y: T)
    requires k <= |s|
    ensures y in InsertAt(s, k, x) <==> y in s || y == x
  {
    var r := InsertAt(s, k, x);
    assert r[k] == x;
    if y in s {
      var i :| 0 <= i < |s| && s[i] == y;
      assert r[if i < k then i else i + 1] == y;
    }
    if y in r {
      var i :| 0 <= i < |r| && r[i] == y;
      assert i != k ==> r[i] == s[if i < k then i else i - 1];
    }
  }

  lemma {:induction false} DistinctMultiplicity<T>(s: seq<T>, n: nat, x: T)
    requires Distinct(s) && n <= |s|
    ensures multiset(s[..n])[x] <= 1
  {
    if n > 0 {
      DistinctMultiplicity(s, n - 1, x);
      assert s[..n] == s[..n - 1] + [s[n - 1]];
      DistinctPairs(s);
      assert s[n - 1] !in s[..n - 1];
    }
  }

  /** A permutation of a sequence without repetition has none. */
  lemma DistinctPermuted<T>(s: seq<T>, t: seq<T>)
    requires Distinct(s) && multiset(t) == multiset(s)
    ensures Distinct(t)
  {
    forall i, j | 0 <= i < j < |t|
      ensures t[i] != t[j]
    {
      if t[i] == t[j] {
        DistinctMultiplicity(s, |s|, t[i]);
        assert s[..|s|] == s;
        Twice(t, i, j);
      }
    }
  }

  lemma Twice<T>(t: seq<T>, i: nat, j: nat)
    requires i < j < |t| && t[i] == t[j]
    ensures multiset(t)[t[i]] >= 2
  {
    assert t == t[..j] + ([t[j]] + t[j + 1..]);
    assert t[i] in t[..j];
  }

  lemma DistinctCons<T>(s: seq<T>, x: T)
    requires Distinct(s) && x !in s
    ensures Distinct([x] + s)
  {
    assert InsertAt(s, 0, x) == [x] + s;
    DistinctInsertAt(s, 0, x);
  }

  ghost function IndexOf<T>(s: seq<T>, x: T): (k: nat)
    requires x in s
    ensures k < |s| && s[k] == x
  {
    var k: nat :| k < |s| && s[k] == x;
    k
  }

  /** `s` without its occurrence of `x`. */
  ghost function Without<T>(s: seq<T>, x: T): seq<T>
    requires x in s
  {
    RemoveAt(s, IndexOf(s, x))
  }

  lemma WithoutElems<T>(s: seq<T>, x: T)
    requires Distinct(s) && x in s
    ensures Distinct(Without(s, x)) && Elems(Without(s, x)) == Elems(s) - {x}
  {
    DistinctRemoveAt(s, IndexOf(s, x));
  }

  lemma WithoutFront<T>(s: seq<T>, x: T)
    requires x !in s
    ensures Without([x] + s, x) == s
  {
    assert forall i :: 0 <= i < |s| ==> ([x] + s)[i + 1] == s[i] != x;
    assert RemoveAt([x] + s, 0) == s;
  }

  lemma WithoutInserted<T>(s: seq<T>, k: nat, x: T)
    requires x !in s && k <= |s|
    ensures Without(InsertAt(s, k, x), x) == s
  {
    var r := InsertAt(s, k, x);
    assert forall i :: 0 <= i < |r| && i != k ==> r[i] == s[if i < k then i else i - 1] != x;
    assert RemoveAt(r, k) == s;
  }
}
