/** The hash table: buckets, application-order list, growth heuristic, Bloom filter and
    recovery from failed allocations. */
module HashTables {
  import opened Bits
  import opened Seqs
  import opened Handles
  import opened Buckets
  import opened Expansion
  import opened Growth
  import opened Bloom
  import opened Ordering
  import StableSort
  import MergeSort

  const HASH_INITIAL_NUM_BUCKETS: nat := 32
  const HASH_INITIAL_NUM_BUCKETS_LOG2: nat := 5
  const HASH_BKT_CAPACITY_THRESH: nat := 10

  /** Which allocations succeed during one call. */
  datatype Memory = Memory(table: bool, buckets: bool, bloom: bool, expansion: bool)

  const ENOUGH := Memory(true, true, true, true)

  /** The bucket array and the state of the growth heuristic. */
  datatype GrowthState = GrowthState(bkts: array<Bucket>, expansions: nat, log2: nat, ideal: nat, nonideal: nat,
                                     ineff: nat, off: bool)

  /** The four links of a handle. */
  datatype LinksOf = LinksOf(next: Handle?, prev: Handle?, hhNext: Handle?, hhPrev: Handle?)

  /** The links that `x` has in a hash with this list and these chains. */
  ghost function LinksIn(ord: seq<Handle>, chs: seq<seq<Handle>>, x: Handle): LinksOf
    requires |chs| > 0 && x in ord
  {
    var c := chs[BucketOf(x.hashv, |chs|)];
    if x !in c then LinksOf(null, null, null, null)
    else LinksOf(At(ord, IndexOf(ord, x) + 1), At(ord, IndexOf(ord, x) - 1),
                 At(c, IndexOf(c, x) + 1), At(c, IndexOf(c, x) - 1))
  }

  ghost function LinksFor(ord: seq<Handle>, chs: seq<seq<Handle>>): map<Handle, LinksOf>
    requires |chs| > 0
  {
    map x | x in ord :: LinksIn(ord, chs, x)
  }

  class HashTable {
    const useBloom: bool
    const bloomBits: nat

    var head: Handle?
    var tail: Handle?
    var buckets: array<Bucket>
    var numBuckets: nat
    var log2NumBuckets: nat
    var numItems: nat
    var idealChainMaxlen: nat
    var nonidealItems: nat
    var ineffExpands: nat
    var noexpand: bool
    var bloomBv: array<bv8>

    ghost var order: seq<Handle>         // the handles in application order
    ghost var chains: seq<seq<Handle>>   // the handles bucket by bucket
    ghost var expansions: nat            // how often this table has doubled

    constructor (useBloom: bool, bloomBits: nat)
      ensures Valid() && order == [] && fresh(buckets) && fresh(bloomBv)
      ensures this.useBloom == useBloom && this.bloomBits == bloomBits
    {
      this.useBloom, this.bloomBits := useBloom, bloomBits;
      head, tail := null, null;
      buckets, bloomBv := new Bucket[0], new bv8[0];
      numBuckets, log2NumBuckets, numItems := 0, 0, 0;
      idealChainMaxlen, nonidealItems, ineffExpands, noexpand := 0, 0, 0, false;
      order, chains, expansions := [], [], 0;
    }

    // ----- the representation invariant -----

    ghost predicate ListOk()
      reads `head, `tail, `order, order`prev, order`next
    {
      order != [] && Distinct(order) && head == order[0] && tail == order[|order| - 1] && AppLinked(order)
    }

    ghost predicate GrowthOk()
      reads `buckets, `numBuckets, `log2NumBuckets, `ineffExpands, `noexpand, `expansions
    {
      && buckets.Length == numBuckets == Pow2(log2NumBuckets)
      && log2NumBuckets == HASH_INITIAL_NUM_BUCKETS_LOG2 + expansions
      && ineffExpands <= 2
      && (noexpand <==> ineffExpands == 2)
    }

    ghost predicate BloomOk(s: seq<Handle>)
      reads `bloomBv, bloomBv
    {
      useBloom ==>
        && bloomBv.Length == ByteLen(bloomBits)
        && forall x :: x in s ==> Covers(bloomBv[..], bloomBits, x.hashv)
    }

    /** The two arrays of the table do not overlap. */
    ghost predicate Apart()
      reads `buckets, `bloomBv
    {
      (buckets as object) != (bloomBv as object)
    }

    /** A NULL head stands for the empty hash, which has no table. */
    ghost predicate Valid()
      reads this, order`prev, order`next, order`hhPrev, order`hhNext, buckets, bloomBv
    {
      if head == null then order == []
      else
        && ListOk()
        && BucketsOk(buckets, chains, Elems(order))
        && GrowthOk()
        && numItems == |order|
        && BloomOk(order)
        && Apart()
    }

    /** The links of all handles of the list. */
    ghost function Links(): map<Handle, LinksOf>
      reads `order, order`prev, order`next, order`hhPrev, order`hhNext
    {
      map x | x in order :: LinksOf(x.next, x.prev, x.hhNext, x.hhPrev)
    }

    /** The list and the chains determine every link of the structure. */
    lemma LinksDetermined()
      requires Valid() && head != null
      ensures Links() == LinksFor(order, chains)
    {
      forall x | x in order
        ensures LinksOf(x.next, x.prev, x.hhNext, x.hhPrev) == LinksIn(order, chains, x)
      {
        LinksAt(x);
      }
    }

    lemma LinksAt(x: Handle)
      requires Valid() && head != null && x in order
      ensures LinksOf(x.next, x.prev, x.hhNext, x.hhPrev) == LinksIn(order, chains, x)
    {
      ListLinks(x);
      ChainLinks(x);
    }

    lemma ListLinks(x: Handle)
      requires ListOk() && x in order
      ensures x.next == At(order, IndexOf(order, x) + 1) && x.prev == At(order, IndexOf(order, x) - 1)
    {
      assert order[IndexOf(order, x)] == x;
    }

    lemma ChainLinks(x: Handle)
      requires BucketsOk(buckets, chains, Elems(order)) && x in order
      ensures var c := chains[BucketOf(x.hashv, |chains|)];
              x in c && x.hhNext == At(c, IndexOf(c, x) + 1) && x.hhPrev == At(c, IndexOf(c, x) - 1)
    {
      var b := BucketOf(x.hashv, |chains|);
      InItsChain(chains, Elems(order), x);
      BucketFacts(buckets, chains, Elems(order), -1, b);
      assert chains[b][IndexOf(chains[b], x)] == x;
    }

    // ----- the application-order list -----

    /** HASH_APPEND_LIST. */
    method AppendList(h: Handle)
      requires ListOk() && h !in order
      modifies `tail, `order, order`next, h`next, h`prev
      ensures ListOk() && order == old(order) + [h]
    {
      DistinctPairs(order);
      h.next := null;
      h.prev := tail;
      tail.next := h;
      tail := h;
      ghost var s := order;
      order := InsertAt(s, |s|, h);
      DistinctInsertAt(s, |s|, h);
      AppLinkedInsertAt(s, |s|, h);
    }

    /** Links `h` into the list before `iter`. */
    method InsertBefore(iter: Handle, h: Handle, ghost k: nat)
      requires ListOk() && h !in order && k < |order| && order[k] == iter
      modifies `head, `order, order`next, order`prev, h`next, h`prev
      ensures ListOk() && order == InsertAt(old(order), k, h)
    {
      DistinctPairs(order);
      h.next := iter;
      h.prev := iter.prev;
      if h.prev != null {
        h.prev.next := h;
      } else {
        head := h;
      }
      iter.prev := h;
      ghost var s := order;
      order := InsertAt(s, k, h);
      DistinctInsertAt(s, k, h);
      AppLinkedInsertAt(s, k, h);
    }

    /** Takes `h` out of the list, which has other handles. */
    method UnlinkList(h: Handle)
      requires ListOk() && h in order && |order| > 1
      modifies `head, `tail, `order, order`next, order`prev
      ensures ListOk() && order == Without(old(order), h)
    {
      ghost var k := IndexOf(order, h);
      DistinctPairs(order);
      if h == tail {
        tail := h.prev;
      }
      if h.prev != null {
        h.prev.next := h.next;
      } else {
        head := h.next;
      }
      if h.next != null {
        h.next.prev := h.prev;
      }
      ghost var s := order;
      order := RemoveAt(s, k);
      DistinctRemoveAt(s, k);
      AppLinkedRemoveAt(s, k);
    }

    // ----- growth -----

    /** HASH_EXPAND_BUCKETS, with the outcome of its allocation. */
    method ExpandBuckets(alloc: bool, ghost S: set<Handle>) returns (oomed: bool)
      requires BucketsOk(buckets, chains, S) && GrowthOk() && !noexpand
      modifies `buckets, `numBuckets, `log2NumBuckets, `idealChainMaxlen, `nonidealItems,
               `ineffExpands, `noexpand, `chains, `expansions, S`hhPrev, S`hhNext
      ensures oomed == !alloc
      ensures oomed ==>
                && unchanged(this) && unchanged(S)
                && BucketsOk(buckets, chains, S) && GrowthOk()
      ensures !oomed ==>
                && fresh(buckets) && GrowthOk() && expansions == old(expansions) + 1
                && chains == Doubled(old(chains)) && BucketsOk(buckets, chains, S)
                && Grown(numItems, old(log2NumBuckets + 1), old(ineffExpands))
    {
      if !alloc {
        return true;
      }
      oomed := false;
      idealChainMaxlen := IdealChain(numItems, log2NumBuckets + 1);
      var news, nonideal := Redistribute(buckets, idealChainMaxlen, chains, S);
      Install(news, nonideal);
    }

    /** The end of the macro: puts the new bucket array in place and judges the expansion. */
    method Install(news: array<Bucket>, nonideal: nat)
      requires GrowthOk() && !noexpand && |chains| > 0
      requires news.Length == 2 * numBuckets
      modifies `buckets, `numBuckets, `log2NumBuckets, `nonidealItems, `ineffExpands, `noexpand, `chains, `expansions
      ensures GrowthOk() && buckets == news && nonidealItems == nonideal
      ensures expansions == old(expansions) + 1 && log2NumBuckets == old(log2NumBuckets) + 1
      ensures chains == Doubled(old(chains))
      ensures ineffExpands == if Ineffective(nonideal, numItems) then old(ineffExpands) + 1 else 0
    {
      nonidealItems := nonideal;
      numBuckets := numBuckets * 2;
      log2NumBuckets := log2NumBuckets + 1;
      buckets := news;
      ineffExpands := if Ineffective(nonidealItems, numItems) then ineffExpands + 1 else 0;
      if ineffExpands > 1 {
        noexpand := true;
      }
      chains := Doubled(chains);
      expansions := expansions + 1;
    }

    // ----- adding to a bucket -----

    /** The buckets represent `chains`, which hold `S`, and the growth state is consistent. */
    ghost predicate TableOk(S: set<Handle>)
      reads `buckets, `chains, `numBuckets, `log2NumBuckets, `ineffExpands, `noexpand, `expansions,
            buckets, S`hhPrev, S`hhNext
    {
      BucketsOk(buckets, chains, S) && GrowthOk()
    }

    /** The table has just doubled to `2^lb` buckets for `n` items, and the counters say what
        they are meant to. */
    ghost predicate Grown(n: nat, lb: nat, ineffBefore: nat)
      reads `idealChainMaxlen, `nonidealItems, `ineffExpands, `chains, `buckets, buckets
    {
      && idealChainMaxlen == IdealChain(n, lb)
      && nonidealItems == Excess(chains, idealChainMaxlen)
      && MultsOk(buckets, idealChainMaxlen)
      && ineffExpands == if Ineffective(nonidealItems, n) then ineffBefore + 1 else 0
    }

    ghost function Heuristic(): GrowthState
      reads `buckets, `expansions, `log2NumBuckets, `idealChainMaxlen, `nonidealItems, `ineffExpands, `noexpand
    {
      GrowthState(buckets, expansions, log2NumBuckets, idealChainMaxlen, nonidealItems, ineffExpands, noexpand)
    }

    /** What one add does to the bucket array and the heuristic: it doubles the array once, with
        all counters recomputed, or it changes neither. */
    ghost predicate GrewFrom(was: GrowthState, grew: bool)
      reads `buckets, `expansions, `log2NumBuckets, `idealChainMaxlen, `nonidealItems, `ineffExpands, `noexpand,
            `numItems, `chains, buckets
    {
      if grew then
        && !was.off && buckets != was.bkts
        && expansions == was.expansions + 1 && log2NumBuckets == was.log2 + 1
        && Grown(numItems, was.log2 + 1, was.ineff)
      else Heuristic() == was
    }

    /** In a table that has just expanded, no bucket holds more than `expand_mult + 1` ideal
        chains, and expand_mult is 0 exactly for the buckets of ideal length. */
    lemma GrownBuckets(was: GrowthState)
      requires Valid() && head != null && GrewFrom(was, true)
      ensures forall j {:trigger buckets[j]} :: 0 <= j < buckets.Length ==>
                && buckets[j].count <= (buckets[j].expandMult + 1) * idealChainMaxlen
                && (buckets[j].expandMult == 0 <==> buckets[j].count <= idealChainMaxlen)
    {
      ExpandedBuckets(buckets, numItems, was.log2 + 1);
    }

    /** The handles whose position in their chain is `ideal` or more. */
    ghost function NonIdeal(ideal: nat): set<Handle>
      requires Placed(chains, Elems(order))
      reads `chains, `order
    {
      set x | x in order && PositionOf(chains, Elems(order), x) >= ideal
    }

    /** What an expansion has found out: how many handles are not in one of the first
        ceil(items / buckets) positions of their chains. When these are more than half, the
        expansion was ineffective; two ineffective expansions in a row switch growth off. */
    lemma GrownJudgement(was: GrowthState)
      requires Valid() && head != null && GrewFrom(was, true)
      ensures (idealChainMaxlen - 1) * buckets.Length < |order| <= idealChainMaxlen * buckets.Length
      ensures nonidealItems == |NonIdeal(idealChainMaxlen)|
      ensures ineffExpands == if 2 * |NonIdeal(idealChainMaxlen)| > |order| then was.ineff + 1 else 0
      ensures noexpand <==> ineffExpands == 2
    {
      IdealChainIsCeiling(numItems, was.log2 + 1);
      ExcessIsBeyond(chains, Elems(order), idealChainMaxlen);
      assert NonIdeal(idealChainMaxlen)
          == set x | x in Elems(order) && PositionOf(chains, Elems(order), x) >= idealChainMaxlen;
    }

    /** One more handle in bucket `b` makes the table expand. */
    predicate Expands(b: nat)
      requires b < buckets.Length
      reads `buckets, `noexpand, buckets
    {
      ExpandsWithout(b, 0)
    }

    /** One more handle in bucket `b` makes the table expand, after `less` of its handles have
        been deleted. */
    predicate ExpandsWithout(b: nat, less: nat)
      requires b < buckets.Length
      reads `buckets, `noexpand, buckets
    {
      && buckets[b].count - less + 1 >= (buckets[b].expandMult + 1) * HASH_BKT_CAPACITY_THRESH
      && !noexpand
    }

    /** The handles of bucket `b`: those whose hash leaves `b` when divided by the number of buckets. */
    lemma BucketHolds(b: nat)
      requires Valid() && head != null && b < buckets.Length
      ensures Elems(chains[b]) == set x | x in order && x.hashv % buckets.Length == b
      ensures buckets[b].count == |chains[b]| == |Elems(chains[b])|
    {
      var S := Elems(order);
      BucketFacts(buckets, chains, S, -1, b);
      DistinctSize(chains[b], |chains[b]|);
      assert chains[b][..|chains[b]|] == chains[b];
      forall x
        ensures x in Elems(chains[b]) <==> x in order && x.hashv % buckets.Length == b
      {
        MaskIsModShiftIsDiv(if x in order || x in chains[b] then x.hashv else 0, log2NumBuckets);
        if x in order && x.hashv % buckets.Length == b {
          InItsChain(chains, S, x);
        }
      }
    }

    /** There are 32 buckets to start with, and twice as many after every expansion. When growth is
        on, a bucket makes the table expand with its tenth handle, or, if it has been given a
        multiplier, with ten times as many and more. */
    lemma ExpandsWhen(b: nat, less: nat)
      requires Valid() && head != null && b < buckets.Length && less <= |chains[b]|
      ensures buckets.Length == 32 * Pow2(expansions)
      ensures ExpandsWithout(b, less) <==>
                !noexpand && |set x | x in order && x.hashv % buckets.Length == b| - less + 1
                             >= 10 * (buckets[b].expandMult + 1)
    {
      BucketHolds(b);
      BucketCount(expansions);
    }

    /** The chains after `h` is put at the front of its bucket. */
    ghost function Pushed(h: Handle): seq<seq<Handle>>
      requires |chains| > 0
      reads `chains
    {
      var b := BucketOf(h.hashv, |chains|);
      chains[b := [h] + chains[b]]
    }

    /** The unconditional part of HASH_ADD_TO_BKT. */
    method Push(h: Handle, b: nat, ghost S: set<Handle>)
      requires TableOk(S) && h !in S && b == BucketOf(h.hashv, buckets.Length)
      modifies `chains, buckets, h`hhPrev, h`hhNext, S`hhPrev
      ensures TableOk(S + {h}) && chains == old(Pushed(h))
      ensures buckets[b] == old(buckets[b]).(count := old(buckets[b].count) + 1, hhHead := h)
      ensures forall j :: 0 <= j < buckets.Length && j != b ==> buckets[j] == old(buckets[j])
    {
      ghost var before := chains;
      BucketFacts(buckets, chains, S, -1, b);
      PlacedPush(chains, S, h);
      CountUp(buckets, b, before, S);
      LinkFront(buckets, h, b, before, S);
      chains := before[b := [h] + before[b]];
    }

    /** Takes `h` back out after the expansion it called for failed. */
    method Unpush(h: Handle, b: nat, ghost before: seq<seq<Handle>>, ghost was: seq<Bucket>, ghost S: set<Handle>)
      requires TableOk(S + {h}) && h !in S && b == BucketOf(h.hashv, buckets.Length)
      requires |before| == |chains| && h !in before[b] && chains == before[b := [h] + before[b]]
      requires |was| == |before|
      requires forall j {:trigger was[j]} :: 0 <= j < |was| ==>
                 Holds(was[j], before[j], 0) && was[j].expandMult == buckets[j].expandMult
      modifies `chains, buckets, h`hhPrev, h`hhNext, S`hhPrev, S`hhNext
      ensures TableOk(S) && chains == before && buckets[..] == was
    {
      TakeOutFront(buckets, h, b, before, was, S);
      chains := before;
    }

    /** HASH_ADD_TO_BKT. */
    method AddToBkt(h: Handle, b: nat, alloc: bool, ghost S: set<Handle>) returns (oomed: bool)
      requires TableOk(S) && h !in S && b == BucketOf(h.hashv, buckets.Length)
      modifies `buckets, `numBuckets, `log2NumBuckets, `idealChainMaxlen, `nonidealItems,
               `ineffExpands, `noexpand, `chains, `expansions,
               buckets, h`hhPrev, h`hhNext, S`hhPrev, S`hhNext
      ensures oomed <==> old(Expands(b)) && !alloc
      ensures GrewFrom(old(Heuristic()), old(Expands(b)) && alloc)
      ensures oomed ==> TableOk(S) && chains == old(chains) && buckets[..] == old(buckets[..])
      ensures !oomed ==> TableOk(S + {h})
      ensures !old(Expands(b)) ==> chains == old(Pushed(h))
      ensures old(Expands(b)) && alloc ==> chains == Doubled(old(Pushed(h))) && fresh(buckets)
    {
      ghost var was, before := buckets[..], chains;
      AllBucketFacts(buckets, chains, S, -1);
      PlacedPush(chains, S, h);
      oomed := false;
      Push(h, b, S);
      if buckets[b].count >= (buckets[b].expandMult + 1) * HASH_BKT_CAPACITY_THRESH && !noexpand {
        oomed := ExpandBuckets(alloc, S + {h});
        if oomed {
          Unpush(h, b, before, was, S);
        }
      }
    }

    // ----- deleting -----

    /** Bucket `b` counts `h`, which is in no chain; the chains hold `S`. */
    ghost predicate RolledBack(h: Handle, b: nat, S: set<Handle>)
      reads `buckets, `chains, `numBuckets, `log2NumBuckets, `ineffExpands, `noexpand, `expansions,
            h, buckets, S`hhPrev, S`hhNext
    {
      && h !in S && h.hhPrev == null && h.hhNext == null
      && BucketsOver(buckets, chains, S, b) && GrowthOk()
    }

    /** One handle less is counted in the bucket of `h`; no expand_mult has changed. */
    ghost predicate OneLess(was: seq<Bucket>, h: Handle)
      reads `buckets, buckets
    {
      && |was| == buckets.Length > 0
      && forall j {:trigger was[j]} :: 0 <= j < |was| ==>
           && buckets[j].expandMult == was[j].expandMult
           && buckets[j].count == was[j].count - (if j == BucketOf(h.hashv, |was|) then 1 else 0)
    }

    /** The bucket part of HASH_DELETE_HH. */
    method DeleteFromBucket(h: Handle, ghost S: set<Handle>, ghost linked: bool)
      requires GrowthOk() && numItems > 0
      requires if linked then TableOk(S) && h in S else RolledBack(h, BucketOf(h.hashv, numBuckets), S)
      modifies `chains, `numItems, buckets, S`hhPrev, S`hhNext, h`hhPrev, h`hhNext
      ensures TableOk(S - {h}) && numItems == old(numItems) - 1
      ensures old(ListOk()) ==> ListOk()
      ensures !linked ==> chains == old(chains)
      ensures OneLess(old(buckets[..]), h)
    {
      var b := BucketOf(h.hashv, numBuckets);
      chains := TakeOut(buckets, h, b, chains, S);
      numItems := numItems - 1;
    }

    /** HASH_DELETE_HH, of a handle of the table or of one that is being rolled back. */
    method DeleteHH(h: Handle, ghost linked: bool)
      requires ListOk() && h in order && GrowthOk() && numItems == |order|
      requires if linked then TableOk(Elems(order))
               else |order| > 1 && RolledBack(h, BucketOf(h.hashv, numBuckets), Elems(order) - {h})
      modifies `head, `tail, `order, `chains, `numItems, buckets,
               order`next, order`prev, order`hhPrev, order`hhNext
      ensures order == Without(old(order), h)
      ensures |old(order)| == 1 ==> head == null && order == []
      ensures |old(order)| > 1 ==> ListOk() && TableOk(Elems(order)) && numItems == |order|
      ensures !linked ==> chains == old(chains)
      ensures |old(order)| > 1 ==> OneLess(old(buckets[..]), h)
    {
      ghost var S := Elems(order);
      WithoutElems(order, h);
      if h.prev == null && h.next == null {
        head := null;
        assert order == [h];
        order := RemoveAt(order, IndexOf(order, h));
      } else {
        assert |order| > 1;
        UnlinkList(h);
        assert S - {h} - {h} == S - {h};
        DeleteFromBucket(h, if linked then S else S - {h}, linked);
      }
    }

    // ----- adding -----

    /** HASH_ROLLBACK_BKT. */
    method RollbackBkt(h: Handle, b: nat, ghost S: set<Handle>)
      requires TableOk(S) && h !in S && b < buckets.Length
      modifies buckets, h`hhPrev, h`hhNext
      ensures RolledBack(h, b, S)
      ensures forall j :: 0 <= j < buckets.Length ==> buckets[j].expandMult == old(buckets[j].expandMult)
    {
      CountUp(buckets, b, chains, S);
      h.hhNext := null;
      h.hhPrev := null;
    }

    /** The recovery of HASH_ADD_TO_TABLE: takes `h`, already out of its chain, out of the
        list as well and corrects the counters. */
    method RecoverAdd(h: Handle, ghost rest: seq<Handle>)
      requires ListOk() && h in order && |order| > 1 && numItems == |order|
      requires TableOk(Elems(order) - {h})
      requires BloomOk(rest) && Apart()
      modifies `head, `tail, `order, `chains, `numItems, buckets,
               order`next, order`prev, order`hhPrev, order`hhNext
      ensures ListOk() && order == Without(old(order), h) && numItems == |order|
      ensures TableOk(Elems(order)) && chains == old(chains)
      ensures buckets[..] == old(buckets[..]) && bloomBv[..] == old(bloomBv[..])
      ensures BloomOk(rest) && Apart() && Heuristic() == old(Heuristic())
    {
      ghost var was := buckets[..];
      AllBucketFacts(buckets, chains, Elems(order) - {h}, -1);
      var b := BucketOf(h.hashv, numBuckets);
      RollbackBkt(h, b, Elems(order) - {h});
      DeleteHH(h, false);
      SameBuckets(buckets, was, chains, Elems(order));
    }

    /** HASH_BLOOM_ADD for the handle that completes the list `rest`. */
    method Commit(h: Handle, ghost rest: seq<Handle>)
      requires ListOk() && TableOk(Elems(order)) && numItems == |order|
      requires BloomOk(rest) && Apart() && Elems(order) == Elems(rest) + {h}
      modifies bloomBv
      ensures Valid() && BloomKeeps(old(bloomBv[..]))
    {
      if useBloom {
        BitSet(bloomBv, BitIndex(h.hashv, bloomBits));
      }
      BloomJoin(h, rest);
    }

    /** No bit of the filter `was` has been cleared. */
    ghost predicate BloomKeeps(was: seq<bv8>)
      reads `bloomBv, bloomBv
    {
      |was| == bloomBv.Length && forall i: nat {:trigger BitTest(was, i)} ::
        i / 8 < |was| && BitTest(was, i) ==> BitTest(bloomBv[..], i)
    }

    lemma BloomJoin(h: Handle, rest: seq<Handle>)
      requires BloomOk(rest) && BloomOk([h]) && Elems(order) == Elems(rest) + {h}
      ensures BloomOk(order)
    {
      forall x | x in order
        ensures x in rest || x == h
      {
        assert x in Elems(order);
      }
    }

    /** Counts the new item and puts it in its bucket; the list and the filter stay. */
    method CountAndPush(h: Handle, alloc: bool, ghost rest: seq<Handle>, ghost S: set<Handle>)
      returns (oomed: bool)
      requires TableOk(S) && h !in S
      requires ListOk() && BloomOk(rest) && Apart()
      modifies `numItems, `buckets, `numBuckets, `log2NumBuckets, `idealChainMaxlen, `nonidealItems,
               `ineffExpands, `noexpand, `chains, `expansions,
               buckets, h`hhPrev, h`hhNext, S`hhPrev, S`hhNext
      ensures numItems == old(numItems) + 1 && bloomBv[..] == old(bloomBv[..])
      ensures ListOk() && BloomOk(rest) && Apart()
      ensures oomed <==> old(Expands(BucketOf(h.hashv, buckets.Length))) && !alloc
      ensures oomed ==> TableOk(S) && chains == old(chains) && buckets[..] == old(buckets[..])
      ensures !oomed ==> TableOk(S + {h})
      ensures GrewFrom(old(Heuristic()), old(Expands(BucketOf(h.hashv, buckets.Length))) && alloc)
      ensures buckets == old(buckets) || fresh(buckets)
    {
      var b := BucketOf(h.hashv, numBuckets);
      numItems := numItems + 1;
      oomed := AddToBkt(h, b, alloc, S);
      assert Apart();
    }

    /** `h` is already in the list of a hash whose other handles are `rest`, but neither
        counted nor in a bucket. */
    ghost predicate Listed(h: Handle, rest: seq<Handle>)
      reads this, order, rest, buckets, bloomBv
    {
      && ListOk() && h in order && rest == Without(order, h) && numItems == |rest|
      && Elems(rest) == Elems(order) - {h} && TableOk(Elems(rest)) && BloomOk(rest) && Apart()
    }

    /** HASH_ADD_TO_TABLE (HASH_NONFATAL_OOM), for a handle already in the list. */
    method AddToTable(h: Handle, alloc: bool, ghost rest: seq<Handle>) returns (oomed: bool)
      requires Listed(h, rest)
      requires rest == [] ==> !Expands(BucketOf(h.hashv, buckets.Length))
      modifies this, buckets, bloomBv, order`next, order`prev, order`hhPrev, order`hhNext
      ensures bloomBv == old(bloomBv) && BloomKeeps(old(bloomBv[..]))
      ensures oomed <==> old(Expands(BucketOf(h.hashv, buckets.Length))) && !alloc
      ensures Valid() && head != null
      ensures order == if oomed then rest else old(order)
      ensures GrewFrom(old(Heuristic()), old(Expands(BucketOf(h.hashv, buckets.Length))) && alloc)
      ensures buckets == old(buckets) || fresh(buckets)
      ensures oomed ==>
                && chains == old(chains) && buckets[..] == old(buckets[..])
                && bloomBv[..] == old(bloomBv[..])
    {
      ghost var S := Elems(rest);
      assert Elems(order) == S + {h};
      oomed := CountAndPush(h, alloc, rest, S);
      if oomed {
        RecoverAdd(h, rest);
      } else {
        Commit(h, rest);
      }
    }

    /** The allocations of HASH_MAKE_TABLE. */
    predicate TableAllocates(mem: Memory) {
      mem.table && mem.buckets && (useBloom ==> mem.bloom)
    }

    /** The growth state of a new table. */
    ghost predicate NewGrowth()
      reads `buckets, `expansions, `log2NumBuckets, `idealChainMaxlen, `nonidealItems, `ineffExpands, `noexpand
    {
      Heuristic() == GrowthState(buckets, 0, HASH_INITIAL_NUM_BUCKETS_LOG2, 0, 0, 0, false)
    }

    /** The zeroed table header. */
    method ResetCounters(h: Handle)
      modifies `tail, `numBuckets, `log2NumBuckets, `numItems, `idealChainMaxlen, `nonidealItems,
               `ineffExpands, `noexpand, `chains, `expansions
      ensures tail == h && numItems == 0 && NewGrowth()
      ensures numBuckets == HASH_INITIAL_NUM_BUCKETS && chains == Empties(HASH_INITIAL_NUM_BUCKETS)
    {
      tail, numItems := h, 0;
      numBuckets, log2NumBuckets := HASH_INITIAL_NUM_BUCKETS, HASH_INITIAL_NUM_BUCKETS_LOG2;
      idealChainMaxlen, nonidealItems, ineffExpands, noexpand := 0, 0, 0, false;
      chains, expansions := Empties(HASH_INITIAL_NUM_BUCKETS), 0;
    }

    /** HASH_MAKE_TABLE for the first handle `h`. */
    method MakeTable(h: Handle, mem: Memory) returns (oomed: bool)
      requires head == null
      modifies `tail, `buckets, `numBuckets, `log2NumBuckets, `numItems, `idealChainMaxlen, `nonidealItems,
               `ineffExpands, `noexpand, `bloomBv, `chains, `expansions
      ensures oomed == !TableAllocates(mem) == !(mem.table && mem.buckets && (useBloom ==> mem.bloom))
      ensures !oomed ==>
                && fresh(buckets) && TableOk({}) && BloomOk([]) && Apart() && numItems == 0 && tail == h
                && chains == Empties(HASH_INITIAL_NUM_BUCKETS) && NewGrowth()
                && forall j {:trigger buckets[j]} :: 0 <= j < buckets.Length ==> buckets[j] == Bucket(null, 0, 0)
      ensures buckets == old(buckets) || fresh(buckets)
      ensures bloomBv == old(bloomBv) || fresh(bloomBv)
    {
      if !mem.table {
        return true;
      }
      ResetCounters(h);
      if !mem.buckets {
        return true;
      }
      if useBloom {
        if !mem.bloom {
          return true;
        }
        bloomBv := new bv8[ByteLen(bloomBits)](_ => 0);
      }
      oomed := false;
      buckets := NewBuckets(HASH_INITIAL_NUM_BUCKETS);
    }

    lemma OnlyHandle(h: Handle)
      ensures Distinct([h]) && Without<Handle>([h], h) == [] && Elems([h]) - {h} == Elems<Handle>([])
    {
      WithoutFront<Handle>([], h);
      assert [h] + [] == [h];
    }

    /** Makes `h` the list of a hash with a new, empty table. */
    method ListFirst(h: Handle, mem: Memory) returns (oomed: bool)
      requires head == null && order == []
      modifies this, h`next, h`prev
      ensures oomed <==> !TableAllocates(mem)
      ensures oomed ==> head == null && order == []
      ensures !oomed ==> Listed(h, []) && order == [h] && NewGrowth() && fresh(buckets)
      ensures !oomed ==> !Expands(BucketOf(h.hashv, buckets.Length))
      ensures buckets == old(buckets) || fresh(buckets)
      ensures bloomBv == old(bloomBv) || fresh(bloomBv)
    {
      h.next, h.prev := null, null;
      oomed := MakeTable(h, mem);
      if !oomed {
        head, order := h, [h];
        OnlyHandle(h);
      }
    }

    /** The first handle of a hash brings its table with it. */
    method AddFirst(h: Handle, mem: Memory) returns (oomed: bool)
      requires head == null && order == []
      modifies this, bloomBv, h`next, h`prev, h`hhPrev, h`hhNext
      ensures oomed <==> !TableAllocates(mem)
      ensures Valid() && order == if oomed then [] else [h]
      ensures buckets == old(buckets) || fresh(buckets)
      ensures bloomBv == old(bloomBv) || fresh(bloomBv)
      ensures !oomed ==> NewGrowth() && fresh(buckets)
    {
      oomed := ListFirst(h, mem);
      if !oomed {
        oomed := AddToTable(h, mem.expansion, []);
      }
    }

    /** Links `h` before `iter`, or at the end. */
    method LinkAt(h: Handle, iter: Handle?, ghost k: nat)
      requires ListOk() && h !in order && k <= |order| && iter == At(order, k)
      modifies `head, `tail, `order, order`next, order`prev, h`next, h`prev
      ensures ListOk() && order == InsertAt(old(order), k, h)
      ensures bloomBv[..] == old(bloomBv[..]) && buckets[..] == old(buckets[..])
    {
      if iter != null {
        InsertBefore(iter, h, k);
      } else {
        AppendList(h);
        assert order == InsertAt(old(order), k, h);
      }
    }

    /** The rest of the table is not affected by that. */
    method LinkBeside(h: Handle, iter: Handle?, ghost k: nat)
      requires Valid() && head != null && h !in order && k <= |order| && iter == At(order, k)
      modifies `head, `tail, `order, order`next, order`prev, h`next, h`prev
      ensures ListOk() && order == InsertAt(old(order), k, h) && numItems == |old(order)|
      ensures TableOk(Elems(old(order))) && BloomOk(old(order)) && Apart()
      ensures Heuristic() == old(Heuristic()) && unchanged(`bloomBv, `chains)
      ensures bloomBv[..] == old(bloomBv[..]) && buckets[..] == old(buckets[..])
    {
      LinkAt(h, iter, k);
    }

    /** The list part of an add; `target` is the list with `h`. */
    method EnlistAt(h: Handle, iter: Handle?, ghost k: nat, ghost target: seq<Handle>)
      requires Valid() && head != null && h !in order && k <= |order| && iter == At(order, k)
      requires target == InsertAt(order, k, h)
      requires h in target && Without(target, h) == order && Elems(order) == Elems(target) - {h}
      modifies `head, `tail, `order, order`next, order`prev, h`next, h`prev
      ensures Listed(h, old(order)) && order == target
      ensures Heuristic() == old(Heuristic()) && unchanged(`bloomBv, `chains)
      ensures bloomBv[..] == old(bloomBv[..]) && buckets[..] == old(buckets[..])
    {
      LinkBeside(h, iter, k);
    }

    /** The same for the list of a valid table. */
    method EnlistNext(h: Handle, iter: Handle?, ghost k: nat)
      requires Valid() && head != null && h !in order && k <= |order| && iter == At(order, k)
      modifies `head, `tail, `order, order`next, order`prev, h`next, h`prev
      ensures Listed(h, old(order)) && order == InsertAt(old(order), k, h)
      ensures forall i {:trigger order[i]} :: 0 <= i < |order| ==> order[i] in old(order) || order[i] == h
      ensures Heuristic() == old(Heuristic()) && unchanged(`bloomBv, `chains)
      ensures bloomBv[..] == old(bloomBv[..]) && buckets[..] == old(buckets[..])
      ensures Expands(BucketOf(h.hashv, buckets.Length)) == old(Expands(BucketOf(h.hashv, buckets.Length)))
    {
      ghost var rest := order;
      ghost var target := InsertAt(rest, k, h);
      InsertionFacts(rest, k, h, target);
      EnlistAt(h, iter, k, target);
    }

    lemma InsertionFacts(s: seq<Handle>, k: nat, h: Handle, target: seq<Handle>)
      requires Distinct(s) && k <= |s| && h !in s && target == InsertAt(s, k, h)
      ensures h in target && Without(target, h) == s && Elems(s) == Elems(target) - {h}
      ensures forall i {:trigger target[i]} :: 0 <= i < |target| ==> target[i] in s || target[i] == h
    {
      DistinctInsertAt(s, k, h);
      WithoutInserted(s, k, h);
    }

    /** Adds a further handle at position `k` of the list. A failed add leaves behind exactly
        what it found. */
    method AddNextAt(h: Handle, iter: Handle?, alloc: bool, ghost k: nat) returns (oomed: bool)
      requires Valid() && head != null && h !in order && k <= |order| && iter == At(order, k)
      modifies this, buckets, bloomBv, order`next, order`prev, order`hhPrev, order`hhNext,
               h`next, h`prev, h`hhPrev, h`hhNext
      ensures Valid() && head != null
      ensures order == if oomed then old(order) else InsertAt(old(order), k, h)
      ensures buckets == old(buckets) || fresh(buckets)
      ensures bloomBv == old(bloomBv) && BloomKeeps(old(bloomBv[..]))
      ensures oomed <==> old(Expands(BucketOf(h.hashv, buckets.Length))) && !alloc
      ensures GrewFrom(old(Heuristic()), old(Expands(BucketOf(h.hashv, buckets.Length))) && alloc)
      ensures oomed ==>
                && chains == old(chains) && buckets[..] == old(buckets[..])
                && bloomBv[..] == old(bloomBv[..]) && Links() == old(Links())
    {
      LinksDetermined();
      ghost var rest := order;
      EnlistNext(h, iter, k);
      oomed := AddToTable(h, alloc, rest);
      if oomed {
        LinksDetermined();
      }
    }

    /** HASH_ADD_KEYPTR_BYHASHVALUE: appends `h` to the list and puts it in its bucket.
        When an allocation fails, nothing is added. */
    method Add(h: Handle, mem: Memory) returns (oomed: bool)
      requires Valid() && h !in order
      modifies this, buckets, bloomBv, order`next, order`prev, order`hhPrev, order`hhNext,
               h`next, h`prev, h`hhPrev, h`hhNext
      ensures Valid()
      ensures order == if oomed then old(order) else old(order) + [h]
      ensures buckets == old(buckets) || fresh(buckets)
      ensures bloomBv == old(bloomBv) || fresh(bloomBv)
      ensures old(head) == null ==> (oomed <==> !TableAllocates(mem))
      ensures old(head) != null ==> (oomed <==> old(Expands(BucketOf(h.hashv, buckets.Length))) && !mem.expansion)
      ensures old(head) == null && !oomed ==> NewGrowth() && fresh(buckets)
      ensures oomed && old(head) != null ==>
                && chains == old(chains) && buckets[..] == old(buckets[..])
                && bloomBv[..] == old(bloomBv[..]) && Links() == old(Links())
      ensures old(head) != null ==>
                && GrewFrom(old(Heuristic()), old(Expands(BucketOf(h.hashv, buckets.Length))) && mem.expansion)
                && bloomBv == old(bloomBv) && BloomKeeps(old(bloomBv[..]))
    {
      if head == null {
        oomed := AddFirst(h, mem);
      } else {
        oomed := AddNextAt(h, null, mem.expansion, |order|);
        assert InsertAt(old(order), |old(order)|, h) == old(order) + [h];
      }
    }

    /** HASH_AKBI_INNER_LOOP: the first handle that compares greater than `h`. */
    method FindPosition(h: Handle, cmp: Comparator<Handle>) returns (iter: Handle?, ghost k: nat)
      requires ListOk()
      ensures k == UpperIndex(order, h, cmp, 0) && iter == At(order, k)
    {
      iter, k := head, 0;
      while iter != null
        invariant k <= |order| && iter == At(order, k)
        invariant UpperIndex(order, h, cmp, 0) == UpperIndex(order, h, cmp, k)
        decreases |order| - k
      {
        if cmp(iter, h) > 0 {
          break;
        }
        iter := iter.next;
        k := k + 1;
      }
    }

    /** HASH_ADD_KEYPTR_BYHASHVALUE_INORDER: as Add, but the handle goes before the first
        one that compares greater. */
    method AddInOrder(h: Handle, cmp: Comparator<Handle>, mem: Memory) returns (oomed: bool)
      requires Valid() && h !in order
      modifies this, buckets, bloomBv, order`next, order`prev, order`hhPrev, order`hhNext,
               h`next, h`prev, h`hhPrev, h`hhNext
      ensures Valid()
      ensures order == if oomed then old(order) else InsertSorted(old(order), h, cmp)
      ensures buckets == old(buckets) || fresh(buckets)
      ensures bloomBv == old(bloomBv) || fresh(bloomBv)
      ensures old(head) == null ==> (oomed <==> !TableAllocates(mem))
      ensures old(head) != null ==> (oomed <==> old(Expands(BucketOf(h.hashv, buckets.Length))) && !mem.expansion)
      ensures old(head) == null && !oomed ==> NewGrowth() && fresh(buckets)
      ensures oomed && old(head) != null ==>
                && chains == old(chains) && buckets[..] == old(buckets[..])
                && bloomBv[..] == old(bloomBv[..]) && Links() == old(Links())
      ensures old(head) != null ==>
                && GrewFrom(old(Heuristic()), old(Expands(BucketOf(h.hashv, buckets.Length))) && mem.expansion)
                && bloomBv == old(bloomBv) && BloomKeeps(old(bloomBv[..]))
    {
      if head == null {
        oomed := AddFirst(h, mem);
        assert [h] == InsertSorted([], h, cmp);
      } else {
        var iter, k := FindPosition(h, cmp);
        oomed := AddNextAt(h, iter, mem.expansion, k);
      }
    }

    // ----- removing and replacing -----

    /** HASH_DELETE. */
    method Delete(h: Handle)
      requires Valid() && h in order
      modifies `head, `tail, `order, `chains, `numItems, buckets,
               order`next, order`prev, order`hhPrev, order`hhNext
      ensures Valid()
      ensures order == Without(old(order), h)
      ensures forall i {:trigger order[i]} :: 0 <= i < |order| ==> order[i] in old(order) && order[i] != h
      ensures head != null ==> bloomBv[..] == old(bloomBv[..]) && OneLess(old(buckets[..]), h)
    {
      ghost var s := order;
      ListDistinct();
      WithoutFacts(s, h);
      DeleteHH(h, true);
    }

    lemma WithoutFacts(s: seq<Handle>, h: Handle)
      requires Distinct(s) && h in s
      ensures forall i {:trigger Without(s, h)[i]} :: 0 <= i < |Without(s, h)| ==>
                Without(s, h)[i] in s && Without(s, h)[i] != h
    {
      var r := Without(s, h);
      WithoutElems(s, h);
      forall i | 0 <= i < |r|
        ensures r[i] in s && r[i] != h
      {
        assert r[i] in Elems(r);
      }
    }

    /** HASH_REPLACE_BYHASHVALUE: deletes the handle with the key of `h`, if there is one, and
        appends `h`. A handle that is already in the table may only replace itself. */
    method Replace(h: Handle, mem: Memory) returns (replaced: Handle?, oomed: bool)
      requires Valid() && (h in order ==> UniqueKeys(order))
      modifies this, buckets, bloomBv, order`next, order`prev, order`hhPrev, order`hhNext,
               h`next, h`prev, h`hhPrev, h`hhNext
      ensures Valid()
      ensures replaced != null ==>
                replaced in old(order) && replaced.key == h.key && replaced.hashv == h.hashv
      ensures replaced == null ==> forall x :: x in old(order) ==> !(x.key == h.key && x.hashv == h.hashv)
      ensures var rest := if replaced == null then old(order) else Without<Handle>(old(order), replaced);
              && order == (if oomed then rest else rest + [h])
              && (rest == [] ==>
                    && (oomed <==> !TableAllocates(mem))
                    && (!oomed ==> NewGrowth() && fresh(buckets)))
              && (rest != [] ==>
                    var less := if replaced == null then 0 else 1;
                    var expands := old(ExpandsWithout(BucketOf(h.hashv, buckets.Length), less));
                    && (oomed <==> expands && !mem.expansion)
                    && GrewFrom(old(Heuristic()), expands && mem.expansion)
                    && bloomBv == old(bloomBv) && BloomKeeps(old(bloomBv[..]))
                    && (oomed ==> bloomBv[..] == old(bloomBv[..])))
      ensures buckets == old(buckets) || fresh(buckets)
      ensures bloomBv == old(bloomBv) || fresh(bloomBv)
    {
      replaced := FindByHashValue(h.key, h.hashv);
      if h in order {
        SameKeySame(order, h, replaced);
      }
      Evict(h, replaced);
      oomed := Add(h, mem);
    }

    /** The deletion in HASH_REPLACE, before `h` is added. */
    method Evict(h: Handle, replaced: Handle?)
      requires Valid() && (replaced != null ==> replaced in order && replaced.hashv == h.hashv)
      modifies `head, `tail, `order, `chains, `numItems, buckets,
               order`next, order`prev, order`hhPrev, order`hhNext
      ensures Valid()
      ensures order == if replaced == null then old(order) else Without<Handle>(old(order), replaced)
      ensures forall i {:trigger order[i]} :: 0 <= i < |order| ==> order[i] in old(order) && order[i] != replaced
      ensures head == null <==> order == []
      ensures order != [] ==>
                && old(head) != null && Heuristic() == old(Heuristic()) && bloomBv[..] == old(bloomBv[..])
                && Expands(BucketOf(h.hashv, buckets.Length))
                   == old(ExpandsWithout(BucketOf(h.hashv, buckets.Length), if replaced == null then 0 else 1))
    {
      if replaced != null {
        Delete(replaced);
      }
    }

    lemma ListDistinct()
      requires Valid()
      ensures Distinct(order)
    {
    }

    /** Sorts the list; `sorted` is what the mergesort makes of it. */
    method SortList(cmp: Comparator<Handle>, ghost sorted: seq<Handle>)
      requires ListOk() && sorted == StableSort.MergeSorted(order, cmp)
      modifies `head, `tail, `order, order`next, order`prev
      ensures ListOk() && order == sorted && Elems(sorted) == Elems(old(order)) && |sorted| == |old(order)|
    {
      ghost var L := order;
      assert forall i {:trigger L[i]} :: 0 <= i < |L| ==> L[i] in Elems(L);
      head, tail := MergeSort.Sort(head, cmp, L);
      order := sorted;
    }

    /** HASH_SRT: sorts the list and leaves the buckets alone. */
    method Sort(cmp: Comparator<Handle>)
      requires Valid()
      modifies `head, `tail, `order, order`next, order`prev
      ensures Valid()
      ensures order == StableSort.MergeSorted(old(order), cmp)
      ensures chains == old(chains) && buckets == old(buckets) && buckets[..] == old(buckets[..])
    {
      ghost var L, sorted := order, StableSort.MergeSorted(order, cmp);
      if head != null {
        SortList(cmp, sorted);
        BloomSame(L, sorted);
      }
    }

    lemma BloomSame(s: seq<Handle>, t: seq<Handle>)
      requires BloomOk(s) && Elems(s) == Elems(t)
      ensures BloomOk(t)
    {
      forall x | x in t
        ensures x in s
      {
        assert x in Elems(t);
      }
    }

    // ----- the table's own checker -----

    /** What the checker relies on: it can walk along the forward links of all buckets, whose chains
        are in `S`, and of the list. */
    ghost predicate Walkable(S: set<Handle>)
      reads this, order`next, buckets, S`hhNext
    {
      && buckets.Length == numBuckets == |chains|
      && (forall b {:trigger Slot(b)} :: Slot(b) && 0 <= b < |chains| ==>
            InSet(chains[b], S) && buckets[b].hhHead == At(chains[b], 0) && NextLinked(chains[b]))
      && head == At(order, 0)
      && (forall i {:trigger order[i].next} :: 0 <= i < |order| ==> order[i].next == At(order, i + 1))
    }

    /** The back links of a chain are right. */
    ghost predicate BackLinked(c: seq<Handle>)
      reads c`hhPrev
    {
      forall i {:trigger c[i].hhPrev} :: 0 <= i < |c| ==> c[i].hhPrev == At(c, i - 1)
    }

    ghost predicate ListBackLinked()
      reads `order, order`prev
    {
      forall i {:trigger order[i].prev} :: 0 <= i < |order| ==> order[i].prev == At(order, i - 1)
    }

    /** Bucket `b` counts its chain, whose back links are right. */
    ghost predicate BucketChecked(b: nat, S: set<Handle>)
      requires b < |chains| == buckets.Length
      reads `chains, `buckets, buckets, S`hhPrev
    {
      InSet(chains[b], S) && BackLinked(chains[b]) && buckets[b].count == |chains[b]|
    }

    /** HASH_FSCK on one bucket: whether the back links are right, and the chain's length. */
    method FsckChain(first: Handle?, ghost c: seq<Handle>) returns (ok: bool, count: nat)
      requires first == At(c, 0) && NextLinked(c)
      ensures ok <==> BackLinked(c)
      ensures ok ==> count == |c|
    {
      var thh, prev: Handle? := first, null;
      count := 0;
      while thh != null
        invariant count <= |c| && thh == At(c, count) && prev == At(c, count - 1)
        invariant forall i {:trigger c[i].hhPrev} :: 0 <= i < count ==> c[i].hhPrev == At(c, i - 1)
        decreases |c| - count
      {
        if prev != thh.hhPrev {
          assert c[count].hhPrev != At(c, count - 1);
          return false, count;
        }
        count := count + 1;
        prev := thh;
        thh := thh.hhNext;
      }
      ok := true;
    }

    /** HASH_FSCK on the list. */
    method FsckList() returns (ok: bool, count: nat)
      requires head == At(order, 0)
      requires forall i {:trigger order[i].next} :: 0 <= i < |order| ==> order[i].next == At(order, i + 1)
      ensures ok <==> ListBackLinked()
      ensures ok ==> count == |order|
    {
      var thh, prev: Handle? := head, null;
      count := 0;
      while thh != null
        invariant count <= |order| && thh == At(order, count) && prev == At(order, count - 1)
        invariant forall i {:trigger order[i].prev} :: 0 <= i < count ==> order[i].prev == At(order, i - 1)
        decreases |order| - count
      {
        if prev != thh.prev {
          assert order[count].prev != At(order, count - 1);
          return false, count;
        }
        count := count + 1;
        prev := thh;
        thh := thh.next;
      }
      ok := true;
    }

    /** HASH_FSCK on all buckets. */
    method FsckBuckets(ghost S: set<Handle>) returns (ok: bool, count: nat)
      requires Walkable(S)
      ensures ok <==> forall b: nat {:trigger BucketChecked(b, S)} :: b < |chains| ==> BucketChecked(b, S)
      ensures ok ==> count == Excess(chains, 0)
    {
      count := 0;
      var i := 0;
      while i < numBuckets
        invariant 0 <= i <= numBuckets && count == ExcessUpTo(chains, 0, i)
        invariant forall b: nat {:trigger BucketChecked(b, S)} :: b < i ==> BucketChecked(b, S)
      {
        assert Slot(i);
        var bktOk, bktCount := FsckChain(buckets[i].hhHead, chains[i]);
        if !bktOk || buckets[i].count != bktCount {
          assert !BucketChecked(i, S);
          return false, count;
        }
        count := count + bktCount;
        i := i + 1;
      }
      ok := true;
    }

    /** All that HASH_FSCK checks. */
    ghost predicate Checked(S: set<Handle>)
      requires |chains| == buckets.Length
      reads this, order`prev, buckets, S`hhPrev
    {
      && (forall b: nat {:trigger BucketChecked(b, S)} :: b < |chains| ==> BucketChecked(b, S))
      && ListBackLinked()
      && Excess(chains, 0) == numItems == |order|
    }

    /** HASH_FSCK finds nothing wrong exactly if all back links are right, every bucket counts its
        chain, and both the chains and the list have `num_items` handles. */
    method Fsck(ghost S: set<Handle>) returns (ok: bool)
      requires head != null ==> Walkable(S)
      ensures ok <==> head == null || Checked(S)
    {
      if head != null {
        var bktsOk, count := FsckBuckets(S);
        if !bktsOk || count != numItems {
          return false;
        }
        var listOk, length := FsckList();
        return listOk && length == numItems;
      }
      ok := true;
    }

    /** On a valid table, it finds nothing wrong. */
    lemma ValidIsChecked()
      requires Valid() && head != null
      ensures Walkable(Elems(order)) && Checked(Elems(order))
    {
      var S := Elems(order);
      AllBucketFacts(buckets, chains, S, -1);
      forall b | 0 <= b < |chains|
        ensures InSet(chains[b], S) && buckets[b].hhHead == At(chains[b], 0) && NextLinked(chains[b])
        ensures BucketChecked(b, S)
      {
        BucketFacts(buckets, chains, S, -1, b);
      }
      CountsAddUp(chains, S);
      DistinctSize(order, |order|);
      assert order[..|order|] == order;
    }

    // ----- looking up -----

    /** HASH_FIND_IN_BKT. */
    method FindInBkt(first: Handle?, key: Key, hashval: nat, ghost c: seq<Handle>) returns (out: Handle?)
      requires first == At(c, 0) && ChainLinked(c)
      ensures out == FirstMatch(c, key, hashval, 0)
    {
      out := first;
      ghost var t := 0;
      while out != null
        invariant 0 <= t <= |c| && out == At(c, t)
        invariant FirstMatch(c, key, hashval, 0) == FirstMatch(c, key, hashval, t)
        decreases |c| - t
      {
        if out.hashv == hashval && |out.key| == |key| {
          if out.key == key {
            break;
          }
        }
        out := out.hhNext;
        t := t + 1;
      }
    }

    /** HASH_FIND_BYHASHVALUE. The Bloom filter, if there is one, does not change the
        result: it is the first match of the bucket's chain. */
    method FindByHashValue(key: Key, hashval: nat) returns (out: Handle?)
      requires Valid()
      ensures out == if head == null then null
                     else FirstMatch(chains[BucketOf(hashval, |chains|)], key, hashval, 0)
      ensures out != null ==> out in order && out.key == key && out.hashv == hashval
      ensures out == null ==> forall x :: x in order ==> !(x.key == key && x.hashv == hashval)
    {
      out := null;
      if head != null {
        var b := BucketOf(hashval, numBuckets);
        ghost var c := chains[b];
        BucketFacts(buckets, chains, Elems(order), -1, b);
        FirstMatchIsMatch(c, key, hashval, 0);
        MatchIsInChain(key, hashval);
        if useBloom ==> Covers(bloomBv[..], bloomBits, hashval) {
          out := FindInBkt(buckets[b].hhHead, key, hashval, c);
        }
      }
    }

    /** Every handle with the hash is in the bucket that is searched. */
    lemma MatchIsInChain(key: Key, hashval: nat)
      requires Valid() && head != null
      ensures forall x :: x in order && x.hashv == hashval ==> x in chains[BucketOf(hashval, |chains|)]
      ensures forall x :: x in chains[BucketOf(hashval, |chains|)] ==> x in order
    {
      var b := BucketOf(hashval, |chains|);
      forall x | x in order && x.hashv == hashval
        ensures x in chains[b]
      {
        InItsChain(chains, Elems(order), x);
      }
      ChainFacts(chains, Elems(order), b);
    }
  }

  /** No two handles of `s` have the same key (and hash). */
  ghost predicate UniqueKeys(s: seq<Handle>) {
    forall x, y {:trigger Handled(x), Handled(y)} :: Handled(x) && Handled(y) ==>
      x in s && y in s && x.key == y.key && x.hashv == y.hashv ==> x == y
  }

  lemma SameKeySame(s: seq<Handle>, x: Handle, y: Handle?)
    requires UniqueKeys(s) && x in s
    ensures y != null && y in s && y.key == x.key && y.hashv == x.hashv ==> y == x
  {
    if y != null {
      assert Handled(x) && Handled(y);
    }
  }

  /** The first handle of `c` from position `i` on with this key and hash. */
  function FirstMatch(c: seq<Handle>, key: Key, hashval: nat, i: nat): Handle?
    requires i <= |c|
    decreases |c| - i
  {
    if i == |c| then null
    else if c[i].hashv == hashval && c[i].key == key then c[i]
    else FirstMatch(c, key, hashval, i + 1)
  }

  lemma {:induction false} FirstMatchIsMatch(c: seq<Handle>, key: Key, hashval: nat, i: nat)
    requires i <= |c|
    ensures var r := FirstMatch(c, key, hashval, i);
            && (r != null ==> r in c && r.key == key && r.hashv == hashval)
            && (r == null ==> forall j :: i <= j < |c| ==> !(c[j].key == key && c[j].hashv == hashval))
    decreases |c| - i
  {
    if i < |c| {
      FirstMatchIsMatch(c, key, hashval, i + 1);
    }
  }
}
