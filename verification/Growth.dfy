/** What bucket expansion computes: where every handle goes, and what the counters of the
    expansion heuristic mean. */
module Growth {
  import opened Bits
  import opened Seqs
  import opened Handles
  import opened Buckets
  import opened Expansion

  // ----- the split of the old chains -----

  /** The handles among the first `t` of `c` that select bucket `j` of `n`, last first. */
  function Dealing(c: seq<Handle>, j: nat, n: nat, t: nat): seq<Handle>
    requires t <= |c| && n > 0
  {
    if t == 0 then []
    else if BucketOf(c[t - 1].hashv, n) == j then [c[t - 1]] + Dealing(c, j, n, t - 1)
    else Dealing(c, j, n, t - 1)
  }

  lemma {:induction false} DealtChain(chains: seq<seq<Handle>>, c: seq<Handle>, t: nat, j: nat)
    requires j < |chains| && t <= |c|
    ensures Dealt(chains, c, t)[j] == Dealing(c, j, |chains|, t) + chains[j]
  {
    if t > 0 {
      DealtChain(chains, c, t - 1, j);
    }
  }

  lemma {:induction false} DealingNone(c: seq<Handle>, j: nat, n: nat, t: nat)
    requires n > 0 && t <= |c|
    requires forall i :: 0 <= i < t ==> BucketOf(c[i].hashv, n) != j
    ensures Dealing(c, j, n, t) == []
  {
    if t > 0 {
      DealingNone(c, j, n, t - 1);
    }
  }

  /** A handle of old bucket `i` goes to new bucket `i`, or to `i + n` when the next bit of
      its hash is set. */
  lemma NewBucket(h: Handle, i: nat, k: nat)
    requires BucketOf(h.hashv, Pow2(k)) == i
    ensures BucketOf(h.hashv, 2 * Pow2(k)) == if TestBit(h.hashv, k) then i + Pow2(k) else i
  {
    NextBitDecides(h.hashv, k);
  }

  /** The old bucket whose handles can reach new bucket `j`. */
  function Home(j: nat, n: nat): nat {
    if j < n then j else j - n
  }

  lemma OtherHome(olds: seq<seq<Handle>>, S: set<Handle>, i: nat, j: nat, k: nat)
    requires Placed(olds, S) && |olds| == Pow2(k) && i < |olds| && j < 2 * |olds| && Home(j, |olds|) != i
    ensures Dealing(olds[i], j, 2 * |olds|, |olds[i]|) == []
  {
    var c := olds[i];
    ChainFacts(olds, S, i);
    forall u | 0 <= u < |c|
      ensures BucketOf(c[u].hashv, 2 * |olds|) != j
    {
      NewBucket(c[u], i, k);
    }
    DealingNone(c, j, 2 * |olds|, |c|);
  }

  lemma {:induction false} DealtAllChain(olds: seq<seq<Handle>>, S: set<Handle>, i: nat, j: nat, k: nat)
    requires Placed(olds, S) && |olds| == Pow2(k) && i <= |olds| && j < 2 * |olds|
    ensures var home := Home(j, |olds|);
            DealtAll(Empties(2 * |olds|), olds, i)[j]
            == if home < i then Dealing(olds[home], j, 2 * |olds|, |olds[home]|) else []
  {
    if i > 0 {
      var before := DealtAll(Empties(2 * |olds|), olds, i - 1);
      var c := olds[i - 1];
      DealtAllChain(olds, S, i - 1, j, k);
      DealtChain(before, c, |c|, j);
      if Home(j, |olds|) != i - 1 {
        OtherHome(olds, S, i - 1, j, k);
      }
    }
  }

  /** New chain `j` consists of the handles of its one old chain that select it, in
      reverse order. */
  lemma DoubledChain(olds: seq<seq<Handle>>, S: set<Handle>, j: nat, k: nat)
    requires Placed(olds, S) && |olds| == Pow2(k) && j < 2 * |olds|
    ensures var home := Home(j, |olds|);
            Doubled(olds)[j] == Dealing(olds[home], j, 2 * |olds|, |olds[home]|)
  {
    DealtAllChain(olds, S, |olds|, j, k);
  }

  lemma {:induction false} DealingSplits(c: seq<Handle>, i: nat, j: nat, n: nat, t: nat,
                                            a': seq<Handle>, b': seq<Handle>)
    requires n > 0 && t <= |c| && i != j && a' == Dealing(c, i, n, t) && b' == Dealing(c, j, n, t)
    requires forall u :: 0 <= u < t ==> BucketOf(c[u].hashv, n) == i || BucketOf(c[u].hashv, n) == j
    ensures multiset(a') + multiset(b') == multiset(c[..t])
  {
    if t > 0 {
      var a, b, x := Dealing(c, i, n, t - 1), Dealing(c, j, n, t - 1), c[t - 1];
      DealingSplits(c, i, j, n, t - 1, a, b);
      assert (a' == [x] + a && b' == b) || (a' == a && b' == [x] + b);
      assert c[..t] == c[..t - 1] + [x];
      SplitStep(a, b, c[..t - 1], x, a', b');
    }
  }

  lemma SplitStep<T>(a: seq<T>, b: seq<T>, whole: seq<T>, x: T, a': seq<T>, b': seq<T>)
    requires multiset(a) + multiset(b) == multiset(whole)
    requires (a' == [x] + a && b' == b) || (a' == a && b' == [x] + b)
    ensures multiset(a') + multiset(b') == multiset(whole + [x])
  {
  }

  /** Nothing is lost or duplicated: old chain `i` is split exactly into new chains `i` and
      `i + n`. */
  lemma DoubledSplits(olds: seq<seq<Handle>>, S: set<Handle>, i: nat, k: nat)
    requires Placed(olds, S) && |olds| == Pow2(k) && i < |olds|
    ensures multiset(Doubled(olds)[i]) + multiset(Doubled(olds)[i + |olds|]) == multiset(olds[i])
  {
    var n, c := |olds|, olds[i];
    DoubledChain(olds, S, i, k);
    DoubledChain(olds, S, i + n, k);
    ChainFacts(olds, S, i);
    forall u | 0 <= u < |c|
      ensures BucketOf(c[u].hashv, 2 * n) == i || BucketOf(c[u].hashv, 2 * n) == i + n
    {
      NewBucket(c[u], i, k);
    }
    DealingSplits(c, i, i + n, 2 * n, |c|, Doubled(olds)[i], Doubled(olds)[i + n]);
    assert c[..|c|] == c;
  }

  lemma {:induction false} DealingMembers(c: seq<Handle>, j: nat, n: nat, t: nat, h: Handle)
    requires n > 0 && t <= |c|
    ensures h in Dealing(c, j, n, t) <==> h in c[..t] && BucketOf(h.hashv, n) == j
  {
    if t > 0 {
      DealingMembers(c, j, n, t - 1, h);
      assert c[..t] == c[..t - 1] + [c[t - 1]];
    }
  }

  /** The next bit of its hash decides which half of the new array a handle is in. */
  lemma SplitByNextBit(olds: seq<seq<Handle>>, S: set<Handle>, i: nat, k: nat, h: Handle)
    requires Placed(olds, S) && |olds| == Pow2(k) && i < |olds|
    ensures h in Doubled(olds)[i] <==> h in olds[i] && !TestBit(h.hashv, k)
    ensures h in Doubled(olds)[i + |olds|] <==> h in olds[i] && TestBit(h.hashv, k)
  {
    var n, c := |olds|, olds[i];
    DoubledChain(olds, S, i, k);
    DoubledChain(olds, S, i + n, k);
    DealingMembers(c, i, 2 * n, |c|, h);
    DealingMembers(c, i + n, 2 * n, |c|, h);
    assert c[..|c|] == c;
    ChainFacts(olds, S, i);
    if h in c {
      NewBucket(h, i, k);
    }
  }

  // ----- counting -----

  lemma {:induction false} DistinctSize<T>(s: seq<T>, i: nat)
    requires Distinct(s) && i <= |s|
    ensures |Elems(s[..i])| == i
  {
    if i > 0 {
      DistinctSize(s, i - 1);
      DistinctPairs(s);
      assert s[..i] == s[..i - 1] + [s[i - 1]];
      OneMore(s[..i - 1], s[i - 1]);
    }
  }

  lemma OneMore<T>(s: seq<T>, x: T)
    requires x !in s
    ensures |Elems(s + [x])| == |Elems(s)| + 1
  {
    assert Elems(s + [x]) == Elems(s) + {x};
  }

  /** The handles of buckets below `i` whose position in their chain is `ideal` or more. */
  ghost function BeyondBelow(chains: seq<seq<Handle>>, S: set<Handle>, ideal: nat, i: nat): set<Handle>
    requires Placed(chains, S)
  {
    set x | x in S && BucketOf(x.hashv, |chains|) < i && PositionOf(chains, S, x) >= ideal
  }

  /** The position of a handle in its chain. */
  ghost function PositionOf(chains: seq<seq<Handle>>, S: set<Handle>, x: Handle): (k: nat)
    requires Placed(chains, S) && x in S
    ensures k < |chains[BucketOf(x.hashv, |chains|)]| && chains[BucketOf(x.hashv, |chains|)][k] == x
  {
    InItsChain(chains, S, x);
    IndexOf(chains[BucketOf(x.hashv, |chains|)], x)
  }

  /** Only its own position holds a handle. */
  lemma PositionIs(chains: seq<seq<Handle>>, S: set<Handle>, b: nat, k: nat)
    requires Placed(chains, S) && b < |chains| && k < |chains[b]|
    ensures chains[b][k] in S && BucketOf(chains[b][k].hashv, |chains|) == b
    ensures PositionOf(chains, S, chains[b][k]) == k
  {
    ChainFacts(chains, S, b);
    DistinctPairs(chains[b]);
  }

  /** The handles of one chain from position `ideal` on. */
  lemma BeyondOne(chains: seq<seq<Handle>>, S: set<Handle>, ideal: nat, b: nat)
    requires Placed(chains, S) && b < |chains|
    ensures var rest := if ideal < |chains[b]| then chains[b][ideal..] else [];
            && |Elems(rest)| == Over(|chains[b]|, ideal)
            && BeyondBelow(chains, S, ideal, b + 1) == BeyondBelow(chains, S, ideal, b) + Elems(rest)
            && BeyondBelow(chains, S, ideal, b) !! Elems(rest)
  {
    var c := chains[b];
    var rest := if ideal < |c| then c[ideal..] else [];
    ChainFacts(chains, S, b);
    DistinctRest(c, ideal);
    forall x
      ensures x in Elems(rest) <==>
                x in S && BucketOf(x.hashv, |chains|) == b && PositionOf(chains, S, x) >= ideal
    {
      if x in rest {
        var k :| 0 <= k < |rest| && rest[k] == x;
        PositionIs(chains, S, b, ideal + k);
      }
      if x in S && BucketOf(x.hashv, |chains|) == b && PositionOf(chains, S, x) >= ideal {
        assert rest[PositionOf(chains, S, x) - ideal] == x;
      }
    }
  }

  lemma DistinctRest<T>(s: seq<T>, k: nat)
    requires Distinct(s)
    ensures var rest := if k < |s| then s[k..] else []; |Elems(rest)| == |rest|
  {
    if k < |s| {
      var rest := s[k..];
      DistinctPairs(s);
      assert Distinct(rest) by {
        forall i, j | 0 <= i < j < |rest|
          ensures rest[i] != rest[j]
        {
          assert rest[i] == s[k + i] && rest[j] == s[k + j];
        }
      }
      DistinctSize(rest, |rest|);
      assert rest[..|rest|] == rest;
    }
  }

  lemma {:induction false} BeyondCount(chains: seq<seq<Handle>>, S: set<Handle>, ideal: nat, i: nat)
    requires Placed(chains, S) && i <= |chains|
    ensures ExcessUpTo(chains, ideal, i) == |BeyondBelow(chains, S, ideal, i)|
  {
    if i > 0 {
      BeyondCount(chains, S, ideal, i - 1);
      NextBeyond(chains, S, ideal, i - 1);
    }
  }

  lemma NextBeyond(chains: seq<seq<Handle>>, S: set<Handle>, ideal: nat, b: nat)
    requires Placed(chains, S) && b < |chains|
    ensures |BeyondBelow(chains, S, ideal, b + 1)| == |BeyondBelow(chains, S, ideal, b)| + Over(|chains[b]|, ideal)
  {
    BeyondOne(chains, S, ideal, b);
  }

  /** The excess is the number of handles whose position in their chain is `ideal` or more. */
  lemma ExcessIsBeyond(chains: seq<seq<Handle>>, S: set<Handle>, ideal: nat)
    requires Placed(chains, S)
    ensures Excess(chains, ideal) == |set x | x in S && PositionOf(chains, S, x) >= ideal|
  {
    BeyondCount(chains, S, ideal, |chains|);
    assert BeyondBelow(chains, S, ideal, |chains|) == set x | x in S && PositionOf(chains, S, x) >= ideal;
  }

  /** The bucket counts add up to the number of handles. */
  lemma CountsAddUp(chains: seq<seq<Handle>>, S: set<Handle>)
    requires Placed(chains, S)
    ensures Excess(chains, 0) == |S|
  {
    ExcessIsBeyond(chains, S, 0);
    assert S == set x | x in S && PositionOf(chains, S, x) >= 0;
  }

  // ----- the heuristic -----

  /** What expand_mult is after growing to `count`: the smaller of the excess over `ideal`
      and the number of ideal chains needed to hold `count`, rounded up. */
  lemma {:induction false} MultMeaning(count: nat, ideal: nat)
    requires ideal >= 1
    ensures var m := MultAfter(count, ideal);
            if count <= ideal then m == 0
            else 1 <= m <= count - ideal && (m - 1) * ideal < count && (count <= m * ideal || m == count - ideal)
  {
    if count > 0 {
      MultMeaning(count - 1, ideal);
      if count > ideal {
        MultStep(MultAfter(count - 1, ideal), count, ideal);
      }
    }
  }

  lemma MultStep(m: nat, count: nat, ideal: nat)
    requires ideal >= 1 && count > ideal
    requires if count - 1 <= ideal then m == 0
             else 1 <= m <= count - 1 - ideal && (m - 1) * ideal < count - 1
                  && (count - 1 <= m * ideal || m == count - 1 - ideal)
    ensures count > m * ideal ==>
              m + 1 <= count - ideal && m * ideal < count && (count <= (m + 1) * ideal || m + 1 == count - ideal)
    ensures count <= m * ideal ==> 1 <= m <= count - ideal && (m - 1) * ideal < count
  {
    assert (m + 1) * ideal == m * ideal + ideal;
  }

  /** No bucket holds more than `expand_mult + 1` ideal chains, and expand_mult is 0 exactly
      for the buckets of ideal length. */
  lemma MultBounds(count: nat, ideal: nat)
    requires ideal >= 1
    ensures count <= (MultAfter(count, ideal) + 1) * ideal
    ensures MultAfter(count, ideal) == 0 <==> count <= ideal
  {
    MultMeaning(count, ideal);
    var m := MultAfter(count, ideal);
    assert (m + 1) * ideal == m * ideal + ideal;
    if m == count - ideal {
      AtLeastTimes(m, ideal);
    }
  }

  lemma AtLeastTimes(m: nat, ideal: nat)
    requires ideal >= 1
    ensures m * ideal >= m
  {
    assert m * ideal == m + m * (ideal - 1);
  }

  /** Both facts for every bucket of a table that has expanded to `2^lb` buckets for `n` items. */
  lemma ExpandedBuckets(bkts: array<Bucket>, n: nat, lb: nat)
    requires n >= 1 && MultsOk(bkts, IdealChain(n, lb))
    ensures var ideal := IdealChain(n, lb);
            forall j {:trigger bkts[j]} :: 0 <= j < bkts.Length ==>
              && bkts[j].count <= (bkts[j].expandMult + 1) * ideal
              && (bkts[j].expandMult == 0 <==> bkts[j].count <= ideal)
  {
    var ideal := IdealChain(n, lb);
    IdealChainIsCeiling(n, lb);
    MultFacts(bkts, ideal);
    forall j {:trigger bkts[j]} | 0 <= j < bkts.Length
      ensures bkts[j].count <= (bkts[j].expandMult + 1) * ideal
      ensures bkts[j].expandMult == 0 <==> bkts[j].count <= ideal
    {
      MultBounds(bkts[j].count, ideal);
    }
  }

  /** The number of buckets after `e` expansions. */
  lemma {:induction false} BucketCount(e: nat)
    ensures Pow2(5 + e) == 32 * Pow2(e)
  {
    if e == 0 {
      assert Pow2(5) == 2 * Pow2(4) && Pow2(4) == 2 * Pow2(3) && Pow2(3) == 2 * Pow2(2);
      assert Pow2(2) == 2 * Pow2(1) && Pow2(1) == 2 * Pow2(0);
    } else {
      BucketCount(e - 1);
    }
  }
}
