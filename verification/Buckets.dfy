/** The bucket array of a table and the two ways a handle enters and leaves its chain. */
module Buckets {
  import opened Bits
  import opened Seqs
  import opened Handles

  datatype Bucket = Bucket(hhHead: Handle?, count: nat, expandMult: nat)

  /** Marks that instantiate the quantifiers of Placed and BucketsOver, which otherwise
      stay inert: Slot for a bucket, Handled for a handle. */
  predicate Slot(b: int) {
    true
  }

  predicate Handled(x: Handle) {
    true
  }

  /** Which handles are in which chain: `S` holds exactly the handles of the chains, and
      every handle is in the chain its hash selects, once. */
  ghost predicate Placed(chains: seq<seq<Handle>>, S: set<Handle>) {
    && |chains| > 0
    && (forall x {:trigger Handled(x)} :: Handled(x) && x in S ==> x in chains[BucketOf(x.hashv, |chains|)])
    && (forall b {:trigger Slot(b)} :: Slot(b) && 0 <= b < |chains| ==>
          Distinct(chains[b]) && Selected(chains[b], b, |chains|, S))
  }

  /** All handles of chain `c` are in `S`, and their hashes select bucket `b` of `n`. */
  ghost predicate Selected(c: seq<Handle>, b: int, n: nat, S: set<Handle>)
    requires n > 0
  {
    forall i {:trigger c[i]} :: 0 <= i < |c| ==> c[i] in S && BucketOf(c[i].hashv, n) == b
  }

  predicate Holds(bucket: Bucket, chain: seq<Handle>, extra: nat) {
    bucket.hhHead == At(chain, 0) && bucket.count == |chain| + extra
  }

  /** The bucket array represents `chains`, whose handles are `S`, except that bucket
      `over` (if it is one) counts one handle too many. */
  ghost predicate BucketsOver(bkts: array<Bucket>, chains: seq<seq<Handle>>, S: set<Handle>, over: int)
    reads bkts, S`hhPrev, S`hhNext
  {
    && bkts.Length == |chains|
    && Placed(chains, S)
    && (forall b {:trigger Slot(b)} :: Slot(b) && 0 <= b < |chains| ==>
          && Holds(bkts[b], chains[b], if b == over then 1 else 0)
          && InSet(chains[b], S) && ChainLinked(chains[b]))
  }

  /** The bucket array represents `chains`, whose handles are `S`. */
  ghost predicate BucketsOk(bkts: array<Bucket>, chains: seq<seq<Handle>>, S: set<Handle>)
    reads bkts, S`hhPrev, S`hhNext
  {
    BucketsOver(bkts, chains, S, -1)
  }

  /** What the invariant says of one bucket. */
  lemma BucketFacts(bkts: array<Bucket>, chains: seq<seq<Handle>>, S: set<Handle>, over: int, b: nat)
    requires BucketsOver(bkts, chains, S, over) && b < |chains|
    ensures Holds(bkts[b], chains[b], if b == over then 1 else 0)
    ensures InSet(chains[b], S) && ChainLinked(chains[b])
    ensures Distinct(chains[b]) && Selected(chains[b], b, |chains|, S)
  {
    assert Slot(b);
  }

  /** What the invariant says of every bucket. */
  lemma AllBucketFacts(bkts: array<Bucket>, chains: seq<seq<Handle>>, S: set<Handle>, over: int)
    requires BucketsOver(bkts, chains, S, over)
    ensures forall b {:trigger chains[b]} :: 0 <= b < |chains| ==>
              && Holds(bkts[b], chains[b], if b == over then 1 else 0)
              && InSet(chains[b], S) && ChainLinked(chains[b])
  {
    forall b | 0 <= b < |chains|
      ensures Holds(bkts[b], chains[b], if b == over then 1 else 0)
      ensures InSet(chains[b], S) && ChainLinked(chains[b])
    {
      BucketFacts(bkts, chains, S, over, b);
    }
  }

  /** A handle of the table is in the chain its hash selects. */
  lemma InItsChain(chains: seq<seq<Handle>>, S: set<Handle>, x: Handle)
    requires Placed(chains, S) && x in S
    ensures x in chains[BucketOf(x.hashv, |chains|)]
  {
    assert Handled(x);
  }

  /** What Placed says of one chain. */
  lemma ChainFacts(chains: seq<seq<Handle>>, S: set<Handle>, b: nat)
    requires Placed(chains, S) && b < |chains|
    ensures Distinct(chains[b]) && Selected(chains[b], b, |chains|, S)
  {
    assert Slot(b);
  }

  ghost predicate InSet(c: seq<Handle>, S: set<Handle>) {
    forall i {:trigger c[i]} :: 0 <= i < |c| ==> c[i] in S
  }

  /** Counts one handle in bucket `b` that is not linked there (yet). */
  method CountUp(bkts: array<Bucket>, b: nat, ghost chains: seq<seq<Handle>>, ghost S: set<Handle>)
    requires BucketsOk(bkts, chains, S) && b < bkts.Length
    modifies bkts
    ensures BucketsOver(bkts, chains, S, b)
    ensures bkts[b] == old(bkts[b]).(count := |chains[b]| + 1)
    ensures forall j :: 0 <= j < bkts.Length && j != b ==> bkts[j] == old(bkts[j])
  {
    BucketFacts(bkts, chains, S, -1, b);
    bkts[b] := bkts[b].(count := bkts[b].count + 1);
  }

  lemma PlacedPush(chains: seq<seq<Handle>>, S: set<Handle>, h: Handle)
    requires Placed(chains, S) && h !in S
    ensures var b := BucketOf(h.hashv, |chains|);
            h !in chains[b] && Placed(chains[b := [h] + chains[b]], S + {h})
  {
    var n := |chains|;
    var b := BucketOf(h.hashv, n);
    var after := chains[b := [h] + chains[b]];
    forall x | x in S + {h}
      ensures x in after[BucketOf(x.hashv, n)]
    {
      if x != h {
        InItsChain(chains, S, x);
      }
    }
    ChainFacts(chains, S, b);
    DistinctCons(chains[b], h);
    forall a | 0 <= a < n
      ensures Distinct(after[a]) && Selected(after[a], a, n, S + {h})
    {
      ChainFacts(chains, S, a);
    }
  }

  lemma PlacedRemove(chains: seq<seq<Handle>>, S: set<Handle>, h: Handle, k: nat)
    requires Placed(chains, S) && h in S
    requires k < |chains[BucketOf(h.hashv, |chains|)]| && chains[BucketOf(h.hashv, |chains|)][k] == h
    ensures var b := BucketOf(h.hashv, |chains|);
            Placed(chains[b := RemoveAt(chains[b], k)], S - {h})
  {
    var n := |chains|;
    var b := BucketOf(h.hashv, n);
    var r := RemoveAt(chains[b], k);
    var after := chains[b := r];
    ChainFacts(chains, S, b);
    DistinctRemoveAt(chains[b], k);
    forall x | x in S - {h}
      ensures x in after[BucketOf(x.hashv, n)]
    {
      InItsChain(chains, S, x);
      assert x in chains[b] ==> x in Elems(r);
    }
    assert forall i :: 0 <= i < |r| ==> r[i] in Elems(r);
    forall a | 0 <= a < n
      ensures Distinct(after[a]) && Selected(after[a], a, n, S - {h})
    {
      ChainFacts(chains, S, a);
    }
  }

  /** The chains of two different buckets have no handle in common. */
  lemma ChainsDisjoint(chains: seq<seq<Handle>>, S: set<Handle>, a: nat, b: nat)
    requires Placed(chains, S) && a < |chains| && b < |chains| && a != b
    ensures forall i {:trigger chains[a][i]} :: 0 <= i < |chains[a]| ==> chains[a][i] !in chains[b]
  {
    ChainFacts(chains, S, a);
    ChainFacts(chains, S, b);
  }

  /** Relinks one chain so that `h` precedes its first handle. */
  method LinkBefore(h: Handle, first: Handle?, ghost c: seq<Handle>)
    requires ChainLinked(c) && Distinct(c) && h !in c && first == At(c, 0)
    modifies h`hhPrev, h`hhNext, c`hhPrev
    ensures ChainLinked([h] + c)
  {
    DistinctPairs(c);
    h.hhNext := first;
    h.hhPrev := null;
    if first != null {
      first.hhPrev := h;
    }
    ChainLinkedPush(c, h);
  }

  /** Puts `h`, which bucket `b` already counts, at the front of that bucket's chain, as
      both HASH_ADD_TO_BKT and the inner loop of HASH_EXPAND_BUCKETS do. */
  method LinkFront(bkts: array<Bucket>, h: Handle, b: nat, ghost chains: seq<seq<Handle>>, ghost S: set<Handle>)
    requires BucketsOver(bkts, chains, S, b)
    requires h !in S && b == BucketOf(h.hashv, bkts.Length)
    modifies bkts, h`hhPrev, h`hhNext, S`hhPrev
    ensures BucketsOk(bkts, chains[b := [h] + chains[b]], S + {h})
    ensures bkts[b] == old(bkts[b]).(hhHead := h)
    ensures forall j :: 0 <= j < bkts.Length && j != b ==> bkts[j] == old(bkts[j])
  {
    ghost var c := chains[b];
    AllBucketFacts(bkts, chains, S, b);
    ChainFacts(chains, S, b);
    PlacedPush(chains, S, h);
    LinkBefore(h, bkts[b].hhHead, c);
    bkts[b] := bkts[b].(hhHead := h);
    ghost var after := chains[b := [h] + c];
    forall j | 0 <= j < |after|
      ensures Holds(bkts[j], after[j], 0) && InSet(after[j], S + {h}) && ChainLinked(after[j])
    {
      if j != b {
        ChainsDisjoint(chains, S, j, b);
      }
    }
  }

  /** Relinks one chain so that its handle `h` is bypassed; the links of `h` stay. */
  method Bypass(h: Handle, ghost c: seq<Handle>, ghost k: nat)
    requires ChainLinked(c) && Distinct(c) && k < |c| && c[k] == h
    modifies c`hhPrev, c`hhNext
    ensures ChainLinked(RemoveAt(c, k))
    ensures h.hhPrev == old(h.hhPrev) && h.hhNext == old(h.hhNext)
  {
    DistinctPairs(c);
    if h.hhPrev != null {
      h.hhPrev.hhNext := h.hhNext;
    }
    if h.hhNext != null {
      h.hhNext.hhPrev := h.hhPrev;
    }
    ChainLinkedRemoveAt(c, k);
  }

  /** HASH_DEL_IN_BKT for a handle linked in chain `c`. */
  method DelInBkt(bkts: array<Bucket>, h: Handle, b: nat, ghost c: seq<Handle>, ghost k: nat)
    requires b < bkts.Length && bkts[b].count > 0
    requires ChainLinked(c) && Distinct(c) && k < |c| && c[k] == h
    modifies bkts, c`hhPrev, c`hhNext
    ensures ChainLinked(RemoveAt(c, k))
    ensures h.hhPrev == old(h.hhPrev) && h.hhNext == old(h.hhNext)
    ensures bkts[b] == Bucket(if old(bkts[b]).hhHead == h then At(c, k + 1) else old(bkts[b]).hhHead,
                              old(bkts[b]).count - 1, old(bkts[b]).expandMult)
    ensures forall j :: 0 <= j < bkts.Length && j != b ==> bkts[j] == old(bkts[j])
  {
    bkts[b] := bkts[b].(count := bkts[b].count - 1);
    if bkts[b].hhHead == h {
      bkts[b] := bkts[b].(hhHead := h.hhNext);
    }
    Bypass(h, c, k);
  }

  lemma BucketsAfterDelete(bkts: array<Bucket>, chains: seq<seq<Handle>>, S: set<Handle>, h: Handle, k: nat)
    requires bkts.Length == |chains| && Placed(chains, S) && h in S
    requires var b := BucketOf(h.hashv, |chains|);
             && k < |chains[b]| && chains[b][k] == h
             && Holds(bkts[b], RemoveAt(chains[b], k), 0)
             && ChainLinked(RemoveAt(chains[b], k))
    requires forall j {:trigger chains[j]} :: 0 <= j < |chains| && j != BucketOf(h.hashv, |chains|) ==>
               Holds(bkts[j], chains[j], 0) && ChainLinked(chains[j])
    ensures var b := BucketOf(h.hashv, |chains|);
            BucketsOk(bkts, chains[b := RemoveAt(chains[b], k)], S - {h})
  {
    PlacedRemove(chains, S, h, k);
    var b := BucketOf(h.hashv, |chains|);
    var after := chains[b := RemoveAt(chains[b], k)];
    forall j | 0 <= j < |after|
      ensures Holds(bkts[j], after[j], 0) && InSet(after[j], S - {h}) && ChainLinked(after[j])
    {
      ChainFacts(after, S - {h}, j);
    }
  }

  /** HASH_DEL_IN_BKT seen from the whole bucket array. The handle is either in its chain,
      or it has just been taken out by the same macro and HASH_ROLLBACK_BKT has put the
      bucket's count back up. */
  method TakeOut(bkts: array<Bucket>, h: Handle, b: nat, ghost chains: seq<seq<Handle>>, ghost S: set<Handle>)
    returns (ghost chains': seq<seq<Handle>>)
    requires bkts.Length == |chains| > 0 && b == BucketOf(h.hashv, bkts.Length)
    requires h in S ==> BucketsOk(bkts, chains, S)
    requires h !in S ==> BucketsOver(bkts, chains, S, b) && h.hhPrev == null && h.hhNext == null
    modifies bkts, S`hhPrev, S`hhNext, h`hhPrev, h`hhNext
    ensures BucketsOk(bkts, chains', S - {h})
    ensures h in S ==> h in chains[b] && chains' == chains[b := Without(chains[b], h)]
    ensures h !in S ==> chains' == chains
    ensures bkts[b].expandMult == old(bkts[b].expandMult) && bkts[b].count == old(bkts[b].count) - 1
    ensures forall j :: 0 <= j < bkts.Length && j != b ==> bkts[j] == old(bkts[j])
  {
    AllBucketFacts(bkts, chains, S, if h in S then -1 else b);
    ChainFacts(chains, S, b);
    if h in S {
      InItsChain(chains, S, h);
    }
    ghost var c := if h in S then chains[b] else [h];
    ghost var k := IndexOf(c, h);
    DelInBkt(bkts, h, b, c, k);
    forall j {:trigger chains[j]} | 0 <= j < |chains| && (j != b || h !in S)
      ensures Holds(bkts[j], chains[j], 0) && InSet(chains[j], S) && ChainLinked(chains[j])
    {
      if h in S {
        ChainsDisjoint(chains, S, j, b);
      }
    }
    if h in S {
      BucketsAfterDelete(bkts, chains, S, h, k);
      chains' := chains[b := RemoveAt(chains[b], k)];
    } else {
      assert S - {h} == S;
      chains' := chains;
    }
  }

  /** Two bucket arrays for the same chains with the same expand_mult fields are equal. */
  lemma SameBuckets(bkts: array<Bucket>, was: seq<Bucket>, chains: seq<seq<Handle>>, S: set<Handle>)
    requires BucketsOk(bkts, chains, S) && |was| == |chains|
    requires forall j {:trigger was[j]} :: 0 <= j < |was| ==>
               Holds(was[j], chains[j], 0) && was[j].expandMult == bkts[j].expandMult
    ensures bkts[..] == was
  {
    forall j | 0 <= j < |was|
      ensures bkts[j] == was[j]
    {
      BucketFacts(bkts, chains, S, -1, j);
    }
  }

  /** HASH_DEL_IN_BKT right after the handle was put at the front of its chain: the bucket
      array is as it was, `was`. */
  method TakeOutFront(bkts: array<Bucket>, h: Handle, b: nat, ghost chains: seq<seq<Handle>>,
                      ghost was: seq<Bucket>, ghost S: set<Handle>)
    requires b < |chains| && h !in S && h !in chains[b]
    requires BucketsOk(bkts, chains[b := [h] + chains[b]], S + {h}) && b == BucketOf(h.hashv, bkts.Length)
    requires |was| == |chains|
    requires forall j {:trigger was[j]} :: 0 <= j < |was| ==>
               Holds(was[j], chains[j], 0) && was[j].expandMult == bkts[j].expandMult
    modifies bkts, h`hhPrev, h`hhNext, S`hhPrev, S`hhNext
    ensures BucketsOk(bkts, chains, S) && bkts[..] == was
  {
    ghost var pushed := chains[b := [h] + chains[b]];
    WithoutFront(chains[b], h);
    assert S + {h} - {h} == S && pushed[b := chains[b]] == chains;
    ghost var _ := TakeOut(bkts, h, b, pushed, S + {h});
    SameBuckets(bkts, was, chains, S);
  }
}
