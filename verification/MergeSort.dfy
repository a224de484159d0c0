/** HASH_SRT: the in-place bottom-up mergesort of the application-order list. Each loop of
    the macro is one method, proved against the mergesort function of StableSort. */
module MergeSort {
  import opened Seqs
  import opened Handles
  import opened Ordering
  import opened StableSort

  /** `L` can still be traversed forward on `[p..m)` and from `q` on. */
  ghost predicate Remaining(L: seq<Handle>, p: int, m: int, q: int)
    reads L`next
  {
    forall i {:trigger L[i].next} :: 0 <= i < |L| && (p <= i < m || q <= i) ==> L[i].next == At(L, i + 1)
  }

  /** The output so far: doubly linked except that its last `next` is still open. */
  ghost predicate OutLinked(out: seq<Handle>)
    reads out`prev, out`next
  {
    && (forall i {:trigger out[i].next} :: 0 <= i < |out| - 1 ==> out[i].next == out[i + 1])
    && (forall i {:trigger out[i].prev} :: 0 <= i < |out| ==> out[i].prev == At(out, i - 1))
  }

  /** Exactly the handles of `L` outside `[p..m)` and before `q` are in the output. */
  ghost predicate Consumed(L: seq<Handle>, p: int, m: int, q: int, out: seq<Handle>) {
    && Elems(out) <= Elems(L)
    && (forall i {:trigger L[i]} :: 0 <= i < |L| ==> (L[i] in Elems(out) <==> !(p <= i < m || q <= i)))
  }

  /** The state of the merge: output `out`, with first and last handle `list` and `tail`. */
  ghost predicate Merging(L: seq<Handle>, p: int, m: int, q: int, out: seq<Handle>, list: Handle?, tail: Handle?)
    reads L`next, out`prev, out`next
  {
    && Remaining(L, p, m, q)
    && OutLinked(out) && Distinct(out)
    && Consumed(L, p, m, q, out)
    && list == At(out, 0) && tail == At(out, |out| - 1)
  }

  /** Appends `e` to the output. */
  method Emit(e: Handle, list: Handle?, tail: Handle?, ghost out: seq<Handle>)
    returns (list': Handle?, tail': Handle?)
    requires OutLinked(out) && Distinct(out) && e !in out
    requires list == At(out, 0) && tail == At(out, |out| - 1)
    modifies out`next, e`prev
    ensures OutLinked(out + [e]) && Distinct(out + [e])
    ensures list' == (out + [e])[0] && tail' == e
  {
    DistinctPairs(out);
    list' := list;
    if tail != null {
      tail.next := e;
    } else {
      list' := e;
    }
    e.prev := tail;
    tail' := e;
    DistinctInsertAt(out, |out|, e);
    assert InsertAt(out, |out|, e) == out + [e];
  }

  /** The counting loop: steps `insize` handles ahead, or to the end of the list. */
  method CountRun(p: Handle, insize: nat, ghost L: seq<Handle>, ghost a: nat)
    returns (q: Handle?, psize: nat)
    requires a < |L| && p == L[a] && insize >= 1 && Remaining(L, a, |L|, |L|)
    ensures psize == Min(a + insize, |L|) - a && q == At(L, a + psize)
  {
    q := p;
    psize := 0;
    var i := 0;
    while i < insize
      invariant 0 <= i <= insize && psize == i
      invariant a + i < |L| && q == L[a + i]
    {
      psize := psize + 1;
      q := q.next;
      if q == null {
        break;
      }
      i := i + 1;
    }
  }

  /** Emits the next handle of one of the two runs. */
  method TakeOne(e: Handle, list: Handle?, tail: Handle?, ghost L: seq<Handle>, ghost p: nat, ghost m: nat,
                 ghost q: nat, ghost left: bool, ghost out: seq<Handle>)
    returns (list': Handle?, tail': Handle?)
    requires p <= m <= q <= |L| && Distinct(L) && Merging(L, p, m, q, out, list, tail)
    requires if left then p < m && e == L[p] else q < |L| && e == L[q]
    modifies L`next, L`prev
    ensures Merging(L, if left then p + 1 else p, m, if left then q else q + 1, out + [e], list', tail')
  {
    ghost var i := if left then p else q;
    assert e !in Elems(out);
    OutWithin(L, p, m, q, out);
    list', tail' := Emit(e, list, tail, out);
    ConsumedStep(L, p, m, q, out, i);
  }

  lemma OutWithin(L: seq<Handle>, p: int, m: int, q: int, out: seq<Handle>)
    requires Consumed(L, p, m, q, out)
    ensures forall j {:trigger out[j]} :: 0 <= j < |out| ==> out[j] in L
  {
    forall j | 0 <= j < |out|
      ensures out[j] in L
    {
      assert out[j] in Elems(out);
    }
  }

  lemma ConsumedStep(L: seq<Handle>, p: int, m: int, q: int, out: seq<Handle>, i: int)
    requires Distinct(L) && Consumed(L, p, m, q, out) && 0 <= i < |L| && 0 <= p <= m <= q
    requires (i == p < m) || i == q
    ensures Consumed(L, if i == p < m then p + 1 else p, m, if i == p < m then q else q + 1, out + [L[i]])
  {
    DistinctPairs(L);
    assert Elems(out + [L[i]]) == Elems(out) + {L[i]};
    assert forall j :: 0 <= j < |L| && j != i ==> L[j] != L[i];
  }

  /** The choice in the merge loop: takes the next handle off one of the runs. */
  method Pick(p: Handle?, psize: nat, q: Handle?, qsize: nat, cmp: Comparator<Handle>,
              ghost L: seq<Handle>, ghost pi: nat, ghost m: nat, ghost qi: nat)
    returns (e: Handle, left: bool, p': Handle?, psize': nat, q': Handle?, qsize': nat)
    requires psize != 0 || (qsize != 0 && q != null)
    requires pi <= m <= qi <= |L| && psize == m - pi && Remaining(L, pi, m, qi)
    requires (psize != 0 ==> p == L[pi]) && q == At(L, qi)
    ensures left == (psize != 0 && (qsize == 0 || qi == |L| || cmp(L[pi], L[qi]) <= 0))
    ensures left ==> e == L[pi] && psize' == psize - 1 && p' == At(L, pi + 1) && q' == q && qsize' == qsize
    ensures !left ==> qsize > 0 && qi < |L| && e == L[qi] && qsize' == qsize - 1 && q' == At(L, qi + 1)
    ensures !left ==> psize' == psize && p' == p
  {
    p', psize', q', qsize' := p, psize, q, qsize;
    if psize == 0 {
      e, left := q, false;
    } else if qsize == 0 || q == null {
      e, left := p, true;
    } else if cmp(p, q) <= 0 {
      e, left := p, true;
    } else {
      e, left := q, false;
    }
    if left {
      p' := p.next;
      psize' := psize - 1;
    } else {
      q' := q.next;
      qsize' := qsize - 1;
    }
  }

  lemma EmitStep(out: seq<Handle>, e: Handle, rest: seq<Handle>)
    ensures out + ([e] + rest) == out + [e] + rest
  {
  }

  /** The cursors of the merge of `L[..m)` and `L[m..b)` stand at `pi` and `qi`. */
  ghost predicate Cursor(p: Handle?, psize: nat, q: Handle?, qsize: nat, insize: nat,
                         L: seq<Handle>, pi: nat, m: nat, qi: nat, b: nat)
  {
    && pi <= m <= qi <= b == Min(m + insize, |L|)
    && psize == m - pi && qsize == insize - (qi - m)
    && (psize != 0 ==> p == L[pi]) && q == At(L, qi)
  }

  /** The state of the merge loop, which is to extend the output to `target`. */
  ghost predicate MergeState(p: Handle?, psize: nat, q: Handle?, qsize: nat, insize: nat, cmp: Comparator<Handle>,
                             list: Handle?, tail: Handle?, L: seq<Handle>, pi: nat, m: nat, qi: nat, b: nat,
                             out: seq<Handle>, target: seq<Handle>)
    reads L`next, out`prev, out`next
  {
    && Cursor(p, psize, q, qsize, insize, L, pi, m, qi, b)
    && Merging(L, pi, m, qi, out, list, tail)
    && out + MergeRuns(L, pi, m, qi, b, cmp) == target
  }

  lemma EndMerge(p: Handle?, psize: nat, q: Handle?, qsize: nat, insize: nat, cmp: Comparator<Handle>,
                 list: Handle?, tail: Handle?, L: seq<Handle>, pi: nat, m: nat, qi: nat, b: nat,
                 out: seq<Handle>, target: seq<Handle>)
    requires MergeState(p, psize, q, qsize, insize, cmp, list, tail, L, pi, m, qi, b, out, target)
    requires psize == 0 && (qsize == 0 || q == null)
    ensures q == At(L, b) && Merging(L, b, b, b, out, list, tail) && out == target
  {
    assert pi == m && qi == b;
    assert out + [] == out;
  }

  /** The body of the merge loop. */
  method MergeStep(p: Handle?, psize: nat, q: Handle?, qsize: nat, insize: nat, cmp: Comparator<Handle>,
                   list: Handle?, tail: Handle?,
                   ghost L: seq<Handle>, ghost pi: nat, ghost m: nat, ghost qi: nat, ghost b: nat,
                   ghost out: seq<Handle>, ghost target: seq<Handle>)
    returns (p': Handle?, psize': nat, q': Handle?, qsize': nat, list': Handle?, tail': Handle?,
             ghost pi': nat, ghost qi': nat, ghost out': seq<Handle>)
    requires psize != 0 || (qsize != 0 && q != null)
    requires Distinct(L)
    requires MergeState(p, psize, q, qsize, insize, cmp, list, tail, L, pi, m, qi, b, out, target)
    modifies L`next, L`prev
    ensures MergeState(p', psize', q', qsize', insize, cmp, list', tail', L, pi', m, qi', b, out', target)
    ensures psize' + qsize' < psize + qsize
  {
    var e, left;
    e, left, p', psize', q', qsize' := Pick(p, psize, q, qsize, cmp, L, pi, m, qi);
    list', tail' := TakeOne(e, list, tail, L, pi, m, qi, left, out);
    pi', qi', out' := if left then pi + 1 else pi, if left then qi else qi + 1, out + [e];
    EmitStep(out, e, MergeRuns(L, pi', m, qi', b, cmp));
  }

  /** The merge loop: merges the run of `psize` handles at `p` with the up to `insize`
      handles at `q`, and leaves `q` behind both. */
  method MergeTwo(p0: Handle, psize0: nat, q0: Handle?, insize: nat, cmp: Comparator<Handle>,
                  list0: Handle?, tail0: Handle?,
                  ghost L: seq<Handle>, ghost a: nat, ghost m: nat, ghost b: nat,
                  ghost out0: seq<Handle>, ghost target: seq<Handle>)
    returns (q: Handle?, list: Handle?, tail: Handle?, ghost out: seq<Handle>)
    requires Distinct(L)
    requires MergeState(p0, psize0, q0, insize, insize, cmp, list0, tail0, L, a, m, m, b, out0, target)
    modifies L`next, L`prev
    ensures q == At(L, b) && Merging(L, b, b, b, out, list, tail) && out == target
  {
    var p: Handle?, psize, qsize := p0, psize0, insize;
    q, list, tail, out := q0, list0, tail0, out0;
    ghost var pi: nat, qi: nat := a, m;
    while psize != 0 || (qsize != 0 && q != null)
      invariant MergeState(p, psize, q, qsize, insize, cmp, list, tail, L, pi, m, qi, b, out, target)
      decreases psize + qsize
    {
      p, psize, q, qsize, list, tail, pi, qi, out :=
        MergeStep(p, psize, q, qsize, insize, cmp, list, tail, L, pi, m, qi, b, out, target);
    }
    EndMerge(p, psize, q, qsize, insize, cmp, list, tail, L, pi, m, qi, b, out, target);
  }

  lemma PassNext(L: seq<Handle>, a: nat, m: nat, b: nat, insize: nat, cmp: Comparator<Handle>,
                 out: seq<Handle>, target: seq<Handle>)
    requires a < |L| && insize >= 1 && m == Min(a + insize, |L|) && b == Min(m + insize, |L|)
    requires out + MergePass(L, a, insize, cmp) == MergePass(L, 0, insize, cmp)
    requires target == out + MergeRuns(L, a, m, m, b, cmp)
    ensures target + MergePass(L, b, insize, cmp) == MergePass(L, 0, insize, cmp)
  {
    PassStep(L, a, m, b, insize, cmp);
    Associate(out, MergeRuns(L, a, m, m, b, cmp), MergePass(L, b, insize, cmp));
  }

  lemma PassStep(L: seq<Handle>, a: nat, m: nat, b: nat, insize: nat, cmp: Comparator<Handle>)
    requires a < |L| && insize >= 1 && m == Min(a + insize, |L|) && b == Min(m + insize, |L|)
    ensures MergePass(L, a, insize, cmp) == MergeRuns(L, a, m, m, b, cmp) + MergePass(L, b, insize, cmp)
  {
  }

  lemma Associate(a: seq<Handle>, b: seq<Handle>, c: seq<Handle>)
    ensures a + (b + c) == a + b + c
  {
  }

  /** The state of a pass that has merged `L[..a)`. */
  ghost predicate PassState(L: seq<Handle>, a: nat, insize: nat, cmp: Comparator<Handle>,
                            out: seq<Handle>, list: Handle?, tail: Handle?)
    requires a <= |L| && insize >= 1
    reads L`next, out`prev, out`next
  {
    && Merging(L, a, a, a, out, list, tail)
    && out + MergePass(L, a, insize, cmp) == MergePass(L, 0, insize, cmp)
  }

  /** How many merges a pass has made when it stands at `a`. */
  predicate Counted(nmerges: nat, a: nat, insize: nat, length: nat) {
    && (nmerges == 0 ==> a == 0)
    && (nmerges == 1 ==> a == Min(2 * insize, length))
    && (nmerges > 1 ==> 2 * insize < length)
  }

  lemma CountMerge(nmerges: nat, a: nat, insize: nat, length: nat)
    requires Counted(nmerges, a, insize, length) && a < length && insize >= 1
    ensures Counted(nmerges + 1, Min(Min(a + insize, length) + insize, length), insize, length)
  {
  }

  /** The state of the loop over the runs, `p` being the start of the next one. */
  ghost predicate RunsState(p: Handle?, list: Handle?, tail: Handle?, nmerges: nat, insize: nat,
                            cmp: Comparator<Handle>, L: seq<Handle>, a: nat, out: seq<Handle>)
    reads L`next, out`prev, out`next
  {
    && a <= |L| && insize >= 1 && p == At(L, a)
    && PassState(L, a, insize, cmp, out, list, tail)
    && Counted(nmerges, a, insize, |L|)
  }

  /** The body of the loop over the runs. */
  method MergePair(p: Handle, insize: nat, cmp: Comparator<Handle>, list: Handle?, tail: Handle?, nmerges: nat,
                   ghost L: seq<Handle>, ghost a: nat, ghost out: seq<Handle>)
    returns (q: Handle?, list': Handle?, tail': Handle?, nmerges': nat, ghost b: nat, ghost out': seq<Handle>)
    requires Distinct(L) && RunsState(p, list, tail, nmerges, insize, cmp, L, a, out)
    modifies L`next, L`prev
    ensures RunsState(q, list', tail', nmerges', insize, cmp, L, b, out') && b > a
  {
    var psize;
    CountMerge(nmerges, a, insize, |L|);
    nmerges' := nmerges + 1;
    q, psize := CountRun(p, insize, L, a);
    ghost var m, target;
    m, b, target := StartMerge(p, psize, q, insize, cmp, list, tail, L, a, out);
    q, list', tail', out' := MergeTwo(p, psize, q, insize, cmp, list, tail, L, a, m, b, out, target);
  }

  /** What the next merge is to make of the output. */
  lemma StartMerge(p: Handle, psize: nat, q: Handle?, insize: nat, cmp: Comparator<Handle>,
                   list: Handle?, tail: Handle?, L: seq<Handle>, a: nat, out: seq<Handle>)
    returns (m: nat, b: nat, target: seq<Handle>)
    requires a < |L| && insize >= 1 && PassState(L, a, insize, cmp, out, list, tail)
    requires p == L[a] && psize == Min(a + insize, |L|) - a && q == At(L, a + psize)
    ensures MergeState(p, psize, q, insize, insize, cmp, list, tail, L, a, m, m, b, out, target)
    ensures b == Min(Min(a + insize, |L|) + insize, |L|) && a < b
    ensures target + MergePass(L, b, insize, cmp) == MergePass(L, 0, insize, cmp)
  {
    m := Min(a + insize, |L|);
    b := Min(m + insize, |L|);
    target := out + MergeRuns(L, a, m, m, b, cmp);
    assert target + MergePass(L, b, insize, cmp) == MergePass(L, 0, insize, cmp) by {
      PassNext(L, a, m, b, insize, cmp, out, target);
    }
    assert MergeState(p, psize, q, insize, insize, cmp, list, tail, L, a, m, m, b, out, target) by {
      ReadyToMerge(p, psize, q, insize, cmp, list, tail, L, a, m, b, out, target);
    }
  }

  lemma ReadyToMerge(p: Handle, psize: nat, q: Handle?, insize: nat, cmp: Comparator<Handle>,
                     list: Handle?, tail: Handle?, L: seq<Handle>, a: nat, m: nat, b: nat,
                     out: seq<Handle>, target: seq<Handle>)
    requires a < |L| && insize >= 1 && m == Min(a + insize, |L|) && b == Min(m + insize, |L|)
    requires p == L[a] && psize == m - a && q == At(L, m) && Merging(L, a, a, a, out, list, tail)
    requires target == out + MergeRuns(L, a, m, m, b, cmp)
    ensures MergeState(p, psize, q, insize, insize, cmp, list, tail, L, a, m, m, b, out, target)
  {
  }

  /** The loop over the runs: merges all pairs of neighbouring runs and counts the merges. */
  method MergeAllRuns(list0: Handle, insize: nat, cmp: Comparator<Handle>, ghost L: seq<Handle>)
    returns (list: Handle, tail: Handle, nmerges: nat)
    requires L != [] && Distinct(L) && list0 == L[0] && Remaining(L, 0, |L|, |L|) && insize >= 1
    modifies L`next, L`prev
    ensures var out := MergePass(L, 0, insize, cmp);
            && OutLinked(out) && Distinct(out) && Elems(out) == Elems(L)
            && list == out[0] && tail == out[|L| - 1]
    ensures nmerges <= 1 <==> |L| <= 2 * insize
  {
    var p: Handle?, first: Handle?, last: Handle? := list0, null, null;
    nmerges := 0;
    ghost var a: nat, out := 0, [];
    StartPass(L, insize, cmp);
    while p != null
      invariant RunsState(p, first, last, nmerges, insize, cmp, L, a, out)
      decreases |L| - a
    {
      p, first, last, nmerges, a, out := MergePair(p, insize, cmp, first, last, nmerges, L, a, out);
    }
    EndPass(L, insize, cmp, out, first, last);
    list, tail := first, last;
  }

  lemma StartPass(L: seq<Handle>, insize: nat, cmp: Comparator<Handle>)
    requires Remaining(L, 0, |L|, |L|) && insize >= 1
    ensures PassState(L, 0, insize, cmp, [], null, null)
  {
    assert [] + MergePass(L, 0, insize, cmp) == MergePass(L, 0, insize, cmp);
  }

  lemma EndPass(L: seq<Handle>, insize: nat, cmp: Comparator<Handle>, out: seq<Handle>, list: Handle?, tail: Handle?)
    requires insize >= 1 && PassState(L, |L|, insize, cmp, out, list, tail)
    ensures out == MergePass(L, 0, insize, cmp) && Elems(out) == Elems(L)
    ensures OutLinked(out) && Distinct(out) && list == At(out, 0) && tail == At(out, |out| - 1)
  {
    assert out + [] == out;
    AllConsumed(L, out);
  }

  lemma AllConsumed(L: seq<Handle>, out: seq<Handle>)
    requires Consumed(L, |L|, |L|, |L|, out)
    ensures Elems(out) == Elems(L)
  {
    forall x | x in Elems(L)
      ensures x in Elems(out)
    {
      var i :| 0 <= i < |L| && L[i] == x;
    }
  }

  lemma Closed(out: seq<Handle>)
    requires OutLinked(out) && out != [] && out[|out| - 1].next == null
    requires Distinct(out)
    ensures AppLinked(out)
  {
  }

  /** One pass over the whole list, with the end of the list terminated. */
  method OnePass(list0: Handle, insize: nat, cmp: Comparator<Handle>, ghost L: seq<Handle>, ghost S: set<Handle>)
    returns (list: Handle, tail: Handle, nmerges: nat)
    requires L != [] && Distinct(L) && AppLinked(L) && list0 == L[0] && Elems(L) == S && insize >= 1
    modifies S`next, S`prev
    ensures var out := MergePass(L, 0, insize, cmp);
            && AppLinked(out) && Distinct(out) && Elems(out) == S
            && list == out[0] && tail == out[|L| - 1]
    ensures nmerges <= 1 <==> |L| <= 2 * insize
  {
    assert forall i {:trigger L[i]} :: 0 <= i < |L| ==> L[i] in Elems(L);
    list, tail, nmerges := MergeAllRuns(list0, insize, cmp, L);
    ghost var out := MergePass(L, 0, insize, cmp);
    assert tail in Elems(out);
    DistinctPairs(out);
    tail.next := null;
    Closed(out);
  }

  /** The list after some passes: sorting it from runs of `insize` on gives the sorted list,
      or it already is the sorted list. */
  ghost predicate SortState(list: Handle, tail: Handle, insize: nat, looping: bool, cmp: Comparator<Handle>,
                            cur: seq<Handle>, L: seq<Handle>, S: set<Handle>)
    reads cur`prev, cur`next
  {
    && insize >= 1 && |cur| == |L| > 0 && Elems(cur) == S
    && Distinct(cur) && AppLinked(cur) && list == cur[0]
    && (if looping then SortFrom(cur, insize, cmp) == SortFrom(L, 1, cmp) else cur == SortFrom(L, 1, cmp))
    && (!looping ==> tail == cur[|cur| - 1])
  }

  /** The body of the outermost loop. */
  method SortStep(list: Handle, tail: Handle, insize: nat, cmp: Comparator<Handle>,
                  ghost cur: seq<Handle>, ghost L: seq<Handle>, ghost S: set<Handle>)
    returns (list': Handle, tail': Handle, looping: bool, ghost cur': seq<Handle>)
    requires SortState(list, tail, insize, true, cmp, cur, L, S)
    modifies S`next, S`prev
    ensures SortState(list', tail', 2 * insize, looping, cmp, cur', L, S)
    ensures looping ==> insize < |L|
  {
    var nmerges;
    list', tail', nmerges := OnePass(list, insize, cmp, cur, S);
    cur' := MergePass(cur, 0, insize, cmp);
    looping := nmerges > 1;
  }

  /** The whole sort of a non-empty list. */
  method Sort(head: Handle, cmp: Comparator<Handle>, ghost L: seq<Handle>)
    returns (list: Handle, tail: Handle)
    requires L != [] && Distinct(L) && AppLinked(L) && head == L[0]
    modifies Elems(L)`next, Elems(L)`prev
    ensures var out := MergeSorted(L, cmp);
            && AppLinked(out) && Distinct(out) && Elems(out) == Elems(L)
            && list == out[0] && tail == out[|L| - 1]
  {
    var insize: nat, looping := 1, true;
    ghost var cur, S := L, Elems(L);
    list, tail := head, head;
    while looping
      invariant SortState(list, tail, insize, looping, cmp, cur, L, S)
      decreases looping, |L| - insize
    {
      list, tail, looping, cur := SortStep(list, tail, insize, cmp, cur, L, S);
      insize := insize * 2;
    }
  }
}
