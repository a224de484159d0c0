/** HASH_EXPAND_BUCKETS: doubling the bucket array and relinking every handle in place. */
module Expansion {
  import opened Bits
  import opened Seqs
  import opened Handles
  import opened Buckets

  // ----- what the relinking computes -----

  /** The new chains after the first `t` handles of `c` have been dealt to them, each to
      the front of the chain its hash selects. */
  function Dealt(chains: seq<seq<Handle>>, c: seq<Handle>, t: nat): (r: seq<seq<Handle>>)
    requires |chains| > 0 && t <= |c|
    ensures |r| == |chains|
  {
    if t == 0 then chains
    else
      var d := Dealt(chains, c, t - 1);
      var b := BucketOf(c[t - 1].hashv, |d|);
      d[b := [c[t - 1]] + d[b]]
  }

  /** The new chains after the first `i` old chains have been dealt. */
  function DealtAll(chains: seq<seq<Handle>>, olds: seq<seq<Handle>>, i: nat): (r: seq<seq<Handle>>)
    requires |chains| > 0 && i <= |olds|
    ensures |r| == |chains|
  {
    if i == 0 then chains
    else Dealt(DealtAll(chains, olds, i - 1), olds[i - 1], |olds[i - 1]|)
  }

  function Empties(n: nat): (r: seq<seq<Handle>>)
    ensures |r| == n
    ensures forall j {:trigger r[j]} :: 0 <= j < n ==> r[j] == []
  {
    seq(n, _ => [])
  }

  /** The chains after doubling the number of buckets. */
  function Doubled(chains: seq<seq<Handle>>): (r: seq<seq<Handle>>)
    requires |chains| > 0
    ensures |r| == 2 * |chains|
  {
    DealtAll(Empties(2 * |chains|), chains, |chains|)
  }

  /** The expand_mult a bucket reaches by growing to `count` handles one by one. */
  function MultAfter(count: nat, ideal: nat): nat {
    if count == 0 then 0
    else
      var m := MultAfter(count - 1, ideal);
      if count > ideal && count > m * ideal then m + 1 else m
  }

  /** Handles beyond the first `ideal` of their chain, over the first `i` chains. */
  function ExcessUpTo(chains: seq<seq<Handle>>, ideal: nat, i: nat): nat
    requires i <= |chains|
  {
    if i == 0 then 0 else ExcessUpTo(chains, ideal, i - 1) + Over(|chains[i - 1]|, ideal)
  }

  /** Handles beyond the first `ideal` of their chain; with `ideal == 0`, all handles. */
  function Excess(chains: seq<seq<Handle>>, ideal: nat): nat {
    ExcessUpTo(chains, ideal, |chains|)
  }

  function Over(count: nat, ideal: nat): nat {
    if count > ideal then count - ideal else 0
  }

  lemma OverNext(count: nat, ideal: nat)
    ensures Over(count + 1, ideal) == Over(count, ideal) + (if count >= ideal then 1 else 0)
  {
  }

  lemma {:induction false} ExcessUpdateUpTo(chains: seq<seq<Handle>>, b: nat, c: seq<Handle>, ideal: nat, i: nat)
    requires b < |chains| && i <= |chains|
    ensures ExcessUpTo(chains[b := c], ideal, i)
            == ExcessUpTo(chains, ideal, i)
               + (if b < i then Over(|c|, ideal) - Over(|chains[b]|, ideal) else 0)
  {
    if i > 0 {
      ExcessUpdateUpTo(chains, b, c, ideal, i - 1);
    }
  }

  lemma ExcessUpdate(chains: seq<seq<Handle>>, b: nat, c: seq<Handle>, ideal: nat)
    requires b < |chains|
    ensures Excess(chains[b := c], ideal) == Excess(chains, ideal) - Over(|chains[b]|, ideal) + Over(|c|, ideal)
  {
    ExcessUpdateUpTo(chains, b, c, ideal, |chains|);
  }

  lemma {:induction false} ExcessEmpties(n: nat, ideal: nat, i: nat)
    requires i <= n
    ensures ExcessUpTo(Empties(n), ideal, i) == 0
  {
    if i > 0 {
      ExcessEmpties(n, ideal, i - 1);
    }
  }

  /** The ideal chain length for `n` items in `2^lb` buckets, as shift and mask. */
  function IdealChain(n: nat, lb: nat): nat {
    Shr(n, lb) + (if And(n, Pow2(lb) - 1) != 0 then 1 else 0)
  }

  /** It rounds the quotient up: chains of this length suffice for all items, and shorter ones
      do not. */
  lemma IdealChainIsCeiling(n: nat, lb: nat)
    ensures IdealChain(n, lb) == CeilDiv(n, Pow2(lb))
    ensures n <= IdealChain(n, lb) * Pow2(lb)
    ensures IdealChain(n, lb) > 0 ==> (IdealChain(n, lb) - 1) * Pow2(lb) < n
  {
    MaskIsModShiftIsDiv(n, lb);
    DivModSplit(n, lb);
    var d, q, r := Pow2(lb), Shr(n, lb), And(n, Pow2(lb) - 1);
    CeilingBounds(n, d, q, r);
    assert r == 0 ==> IdealChain(n, lb) == q;
    assert r != 0 ==> IdealChain(n, lb) == q + 1;
  }

  /** More than half of the items are in non-ideal positions. */
  predicate Ineffective(nonideal: nat, items: nat): (r: bool)
    ensures r <==> nonideal > items / 2
  {
    nonideal > Shr(items, 1)
  }

  // ----- the macro -----

  /** Every bucket's expand_mult is what its count calls for. */
  ghost predicate MultsOk(bkts: array<Bucket>, ideal: nat)
    reads bkts
  {
    forall j {:trigger Slot(j)} :: Slot(j) && 0 <= j < bkts.Length ==>
      bkts[j].expandMult == MultAfter(bkts[j].count, ideal)
  }

  /** The forward links of `c`, all that the traversal of an old chain relies on. */
  ghost predicate NextLinked(c: seq<Handle>)
    reads c`hhNext
  {
    forall i {:trigger c[i].hhNext} :: 0 <= i < |c| ==> c[i].hhNext == At(c, i + 1)
  }

  /** Raises a bucket's expand_mult. */
  method RaiseMult(bkts: array<Bucket>, b: nat, ghost chains: seq<seq<Handle>>, ghost P: set<Handle>)
    requires BucketsOver(bkts, chains, P, b) && b < bkts.Length
    modifies bkts
    ensures BucketsOver(bkts, chains, P, b)
    ensures bkts[b] == old(bkts[b]).(expandMult := old(bkts[b].expandMult) + 1)
    ensures forall j :: 0 <= j < bkts.Length && j != b ==> bkts[j] == old(bkts[j])
  {
    AllBucketFacts(bkts, chains, P, b);
    bkts[b] := bkts[b].(expandMult := bkts[b].expandMult + 1);
  }

  lemma MultFacts(bkts: array<Bucket>, ideal: nat)
    requires MultsOk(bkts, ideal)
    ensures forall j {:trigger bkts[j]} :: 0 <= j < bkts.Length ==>
              bkts[j].expandMult == MultAfter(bkts[j].count, ideal)
  {
    forall j | 0 <= j < bkts.Length
      ensures bkts[j].expandMult == MultAfter(bkts[j].count, ideal)
    {
      assert Slot(j);
    }
  }

  /** Counts one more handle in bucket `b` and tallies it if its position is not ideal. */
  method CountIn(bkts: array<Bucket>, b: nat, ideal: nat, nonideal: nat,
                 ghost chains: seq<seq<Handle>>, ghost P: set<Handle>)
    returns (nonideal': nat)
    requires BucketsOk(bkts, chains, P) && MultsOk(bkts, ideal) && b < bkts.Length
    modifies bkts
    ensures BucketsOver(bkts, chains, P, b) && MultsOk(bkts, ideal)
    ensures nonideal' == nonideal + (if |chains[b]| >= ideal then 1 else 0)
  {
    MultFacts(bkts, ideal);
    CountUp(bkts, b, chains, P);
    nonideal' := nonideal;
    if bkts[b].count > ideal {
      nonideal' := nonideal' + 1;
      if bkts[b].count > bkts[b].expandMult * ideal {
        RaiseMult(bkts, b, chains, P);
      }
    }
  }

  /** The body of the inner loop: moves one handle to its new bucket. */
  method MoveHandle(h: Handle, bkts: array<Bucket>, ideal: nat, nonideal: nat,
                    ghost chains: seq<seq<Handle>>, ghost P: set<Handle>)
    returns (nonideal': nat, ghost chains': seq<seq<Handle>>)
    requires BucketsOk(bkts, chains, P) && MultsOk(bkts, ideal) && nonideal == Excess(chains, ideal)
    requires h !in P
    modifies bkts, h`hhPrev, h`hhNext, P`hhPrev
    ensures BucketsOk(bkts, chains', P + {h}) && MultsOk(bkts, ideal) && nonideal' == Excess(chains', ideal)
    ensures var b := BucketOf(h.hashv, |chains|); chains' == chains[b := [h] + chains[b]]
  {
    var b := BucketOf(h.hashv, bkts.Length);
    chains' := chains[b := [h] + chains[b]];
    ExcessUpdate(chains, b, [h] + chains[b], ideal);
    OverNext(|chains[b]|, ideal);
    PlacedPush(chains, P, h);
    nonideal' := CountIn(bkts, b, ideal, nonideal, chains, P);
    LinkFront(bkts, h, b, chains, P);
  }

  /** The inner loop: empties one old chain. */
  method MoveChain(first: Handle?, bkts: array<Bucket>, ideal: nat, nonideal: nat,
                   ghost c: seq<Handle>, ghost chains: seq<seq<Handle>>, ghost P: set<Handle>)
    returns (nonideal': nat, ghost chains': seq<seq<Handle>>)
    requires BucketsOk(bkts, chains, P) && MultsOk(bkts, ideal) && nonideal == Excess(chains, ideal)
    requires first == At(c, 0) && NextLinked(c) && Distinct(c) && Elems(c) !! P
    modifies bkts, c`hhPrev, c`hhNext, P`hhPrev
    ensures BucketsOk(bkts, chains', P + Elems(c)) && MultsOk(bkts, ideal) && nonideal' == Excess(chains', ideal)
    ensures chains' == Dealt(chains, c, |c|)
  {
    nonideal', chains' := nonideal, chains;
    var thh := first;
    ghost var t, Q := 0, P;
    DistinctPairs(c);
    while thh != null
      invariant 0 <= t <= |c| && thh == At(c, t)
      invariant P <= Q <= P + Elems(c)
      invariant forall i {:trigger c[i]} :: 0 <= i < |c| ==> (c[i] in Q <==> i < t)
      invariant forall i {:trigger c[i].hhNext} :: t <= i < |c| ==> c[i].hhNext == At(c, i + 1)
      invariant BucketsOk(bkts, chains', Q) && MultsOk(bkts, ideal)
      invariant nonideal' == Excess(chains', ideal)
      invariant chains' == Dealt(chains, c, t)
      decreases |c| - t
    {
      var nxt := thh.hhNext;
      nonideal', chains' := MoveHandle(thh, bkts, ideal, nonideal', chains', Q);
      Q := Q + {thh};
      t := t + 1;
      thh := nxt;
    }
    assert Q == P + Elems(c);
  }

  /** `Q` holds exactly the handles of the first `i` old chains. */
  ghost predicate MovedUpTo(chains: seq<seq<Handle>>, i: nat, Q: set<Handle>) {
    forall k {:trigger Slot(k)} :: Slot(k) && 0 <= k < |chains| ==>
      forall u {:trigger chains[k][u]} :: 0 <= u < |chains[k]| ==> (chains[k][u] in Q <==> k < i)
  }

  /** The old chains from bucket `i` on can still be traversed. */
  ghost predicate Ahead(chains: seq<seq<Handle>>, i: nat, S: set<Handle>)
    reads S`hhNext
  {
    forall k {:trigger Slot(k)} :: Slot(k) && i <= k < |chains| ==> InSet(chains[k], S) && NextLinked(chains[k])
  }

  lemma MovedFacts(chains: seq<seq<Handle>>, i: nat, Q: set<Handle>)
    requires MovedUpTo(chains, i, Q)
    ensures forall k, u {:trigger chains[k][u]} :: 0 <= k < |chains| && 0 <= u < |chains[k]| ==>
              (chains[k][u] in Q <==> k < i)
  {
    forall k, u | 0 <= k < |chains| && 0 <= u < |chains[k]|
      ensures chains[k][u] in Q <==> k < i
    {
      assert Slot(k);
    }
  }

  lemma AheadFacts(chains: seq<seq<Handle>>, i: nat, S: set<Handle>)
    requires Ahead(chains, i, S)
    ensures forall k {:trigger chains[k]} :: i <= k < |chains| ==> InSet(chains[k], S) && NextLinked(chains[k])
  {
    forall k | i <= k < |chains|
      ensures InSet(chains[k], S) && NextLinked(chains[k])
    {
      assert Slot(k);
    }
  }

  lemma EmptyBuckets(bkts: array<Bucket>)
    requires bkts.Length > 0
    requires forall j {:trigger bkts[j]} :: 0 <= j < bkts.Length ==> bkts[j] == Bucket(null, 0, 0)
    ensures BucketsOk(bkts, Empties(bkts.Length), {})
  {
  }

  /** The zeroed array the macro allocates. */
  method NewBuckets(n: nat) returns (bkts: array<Bucket>)
    requires n > 0
    ensures fresh(bkts) && bkts.Length == n
    ensures forall j {:trigger bkts[j]} :: 0 <= j < n ==> bkts[j] == Bucket(null, 0, 0)
    ensures BucketsOk(bkts, Empties(n), {})
  {
    bkts := new Bucket[n](_ => Bucket(null, 0, 0));
    EmptyBuckets(bkts);
  }

  lemma StartAhead(olds: array<Bucket>, chains: seq<seq<Handle>>, S: set<Handle>)
    requires BucketsOk(olds, chains, S)
    ensures MovedUpTo(chains, 0, {}) && Ahead(chains, 0, S)
    ensures forall i {:trigger chains[i]} :: 0 <= i < |chains| ==> olds[i].hhHead == At(chains[i], 0)
  {
    AllBucketFacts(olds, chains, S, -1);
  }

  /** The state of the outer loop before old bucket `i`: its handles so far are `Q`. */
  ghost predicate Progress(bkts: array<Bucket>, ideal: nat, nonideal: nat, i: nat, chains: seq<seq<Handle>>,
                           S: set<Handle>, news: seq<seq<Handle>>, Q: set<Handle>)
    reads bkts, S`hhPrev, S`hhNext
  {
    && Q <= S
    && MovedUpTo(chains, i, Q)
    && Ahead(chains, i, S)
    && BucketsOk(bkts, news, Q)
    && MultsOk(bkts, ideal)
    && nonideal == Excess(news, ideal)
  }

  /** One iteration of the outer loop: empties old bucket `i`. */
  method MoveBucket(first: Handle?, bkts: array<Bucket>, ideal: nat, nonideal: nat, ghost i: nat,
                    ghost chains: seq<seq<Handle>>, ghost S: set<Handle>,
                    ghost news: seq<seq<Handle>>, ghost Q: set<Handle>)
    returns (nonideal': nat, ghost news': seq<seq<Handle>>, ghost Q': set<Handle>)
    requires Placed(chains, S) && i < |chains| && first == At(chains[i], 0)
    requires Progress(bkts, ideal, nonideal, i, chains, S, news, Q)
    modifies bkts, S`hhPrev, S`hhNext
    ensures Progress(bkts, ideal, nonideal', i + 1, chains, S, news', Q')
    ensures news' == Dealt(news, chains[i], |chains[i]|)
  {
    ghost var c := chains[i];
    AheadFacts(chains, i, S);
    MovedFacts(chains, i, Q);
    ChainFacts(chains, S, i);
    assert Elems(c) <= S && Elems(c) !! Q;
    nonideal', news' := MoveChain(first, bkts, ideal, nonideal, c, news, Q);
    forall k | i < k < |chains|
      ensures InSet(chains[k], S) && NextLinked(chains[k])
    {
      ChainsDisjoint(chains, S, k, i);
    }
    Q' := Q + Elems(c);
    forall k, u | 0 <= k < |chains| && 0 <= u < |chains[k]|
      ensures chains[k][u] in Q' <==> k < i + 1
    {
      if k != i {
        ChainsDisjoint(chains, S, k, i);
      }
    }
  }

  /** The outer loop over the old buckets, relinking every handle of `S` into a new array
      of twice the size. */
  method Redistribute(olds: array<Bucket>, ideal: nat, ghost chains: seq<seq<Handle>>, ghost S: set<Handle>)
    returns (bkts: array<Bucket>, nonideal: nat)
    requires BucketsOk(olds, chains, S)
    modifies S`hhPrev, S`hhNext
    ensures fresh(bkts) && BucketsOk(bkts, Doubled(chains), S)
    ensures MultsOk(bkts, ideal) && nonideal == Excess(Doubled(chains), ideal)
  {
    var n := olds.Length;
    bkts := NewBuckets(2 * n);
    nonideal := 0;
    ghost var news, Q: set<Handle> := Empties(2 * n), {};
    ExcessEmpties(2 * n, ideal, 2 * n);
    StartAhead(olds, chains, S);
    var i := 0;
    while i < n
      invariant 0 <= i <= n
      invariant forall k {:trigger chains[k]} :: 0 <= k < n ==> olds[k].hhHead == At(chains[k], 0)
      invariant Progress(bkts, ideal, nonideal, i, chains, S, news, Q)
      invariant news == DealtAll(Empties(2 * n), chains, i)
    {
      nonideal, news, Q := MoveBucket(olds[i].hhHead, bkts, ideal, nonideal, i, chains, S, news, Q);
      i := i + 1;
    }
    MovedFacts(chains, n, Q);
    AllMoved(chains, S, Q);
  }

  lemma AllMoved(chains: seq<seq<Handle>>, S: set<Handle>, Q: set<Handle>)
    requires Placed(chains, S) && Q <= S
    requires forall k, u {:trigger chains[k][u]} :: 0 <= k < |chains| && 0 <= u < |chains[k]| ==> chains[k][u] in Q
    ensures Q == S
  {
    forall x | x in S
      ensures x in Q
    {
      var b := BucketOf(x.hashv, |chains|);
      InItsChain(chains, S, x);
      var u :| 0 <= u < |chains[b]| && chains[b][u] == x;
      assert chains[b][u] in Q;
    }
  }
}
