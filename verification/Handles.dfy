/** Hash handles and the two doubly linked structures threaded through them: the list in
    application order (`prev`, `next`) and the bucket chains (`hhPrev`, `hhNext`).
    A handle and the element that embeds it are one object here. */
module Handles {
  import opened Seqs

  type Key = seq<bv8>

  class Handle {
    const key: Key
    const hashv: nat
    var value: seq<bv8>
    var prev: Handle?
    var next: Handle?
    var hhPrev: Handle?
    var hhNext: Handle?

    constructor (key: Key, hashv: nat)
      ensures this.key == key && this.hashv == hashv
    {
      this.key := key;
      this.hashv := hashv;
      value := [];
      prev, next, hhPrev, hhNext := null, null, null, null;
    }
  }

  /** The element at position `i`, or NULL outside the sequence. */
  function At(s: seq<Handle>, i: int): Handle? {
    if 0 <= i < |s| then s[i] else null
  }

  /** `s` is doubly linked in application order. */
  ghost predicate AppLinked(s: seq<Handle>)
    reads s`prev, s`next
  {
    && (forall i {:trigger s[i].next} :: 0 <= i < |s| ==> s[i].next == At(s, i + 1))
    && (forall i {:trigger s[i].prev} :: 0 <= i < |s| ==> s[i].prev == At(s, i - 1))
  }

  /** `c` is doubly linked as a bucket chain. */
  ghost predicate ChainLinked(c: seq<Handle>)
    reads c`hhPrev, c`hhNext
  {
    && (forall i {:trigger c[i].hhNext} :: 0 <= i < |c| ==> c[i].hhNext == At(c, i + 1))
    && (forall i {:trigger c[i].hhPrev} :: 0 <= i < |c| ==> c[i].hhPrev == At(c, i - 1))
  }

  lemma AppLinkedRemoveAt(s: seq<Handle>, k: nat)
    requires k < |s|
    requires forall i {:trigger s[i].next} :: 0 <= i < |s| && i != k && i != k - 1 ==> s[i].next == At(s, i + 1)
    requires forall i {:trigger s[i].prev} :: 0 <= i < |s| && i != k && i != k + 1 ==> s[i].prev == At(s, i - 1)
    requires k > 0 ==> s[k - 1].next == At(s, k + 1)
    requires k + 1 < |s| ==> s[k + 1].prev == At(s, k - 1)
    ensures AppLinked(RemoveAt(s, k))
  {
    var r := RemoveAt(s, k);
    forall i | 0 <= i < |r|
      ensures r[i].next == At(r, i + 1) && r[i].prev == At(r, i - 1)
    {
      assert r[i] == s[if i < k then i else i + 1];
    }
  }

  lemma AppLinkedInsertAt(s: seq<Handle>, k: nat, h: Handle)
    requires k <= |s|
    requires forall i {:trigger s[i].next} :: 0 <= i < |s| && i != k - 1 ==> s[i].next == At(s, i + 1)
    requires forall i {:trigger s[i].prev} :: 0 <= i < |s| && i != k ==> s[i].prev == At(s, i - 1)
    requires h.prev == At(s, k - 1) && h.next == At(s, k)
    requires k > 0 ==> s[k - 1].next == h
    requires k < |s| ==> s[k].prev == h
    ensures AppLinked(InsertAt(s, k, h))
  {
    var r := InsertAt(s, k, h);
    forall i | 0 <= i < |r|
      ensures r[i].next == At(r, i + 1) && r[i].prev == At(r, i - 1)
    {
      if i != k {
        assert r[i] == s[if i < k then i else i - 1];
      }
    }
  }

  lemma ChainLinkedRemoveAt(c: seq<Handle>, k: nat)
    requires k < |c|
    requires forall i {:trigger c[i].hhNext} :: 0 <= i < |c| && i != k && i != k - 1 ==> c[i].hhNext == At(c, i + 1)
    requires forall i {:trigger c[i].hhPrev} :: 0 <= i < |c| && i != k && i != k + 1 ==> c[i].hhPrev == At(c, i - 1)
    requires k > 0 ==> c[k - 1].hhNext == At(c, k + 1)
    requires k + 1 < |c| ==> c[k + 1].hhPrev == At(c, k - 1)
    ensures ChainLinked(RemoveAt(c, k))
  {
    var r := RemoveAt(c, k);
    forall i | 0 <= i < |r|
      ensures r[i].hhNext == At(r, i + 1) && r[i].hhPrev == At(r, i - 1)
    {
      assert r[i] == c[if i < k then i else i + 1];
    }
  }

  lemma ChainLinkedPush(c: seq<Handle>, h: Handle)
    requires forall i {:trigger c[i].hhNext} :: 0 <= i < |c| ==> c[i].hhNext == At(c, i + 1)
    requires forall i {:trigger c[i].hhPrev} :: 1 <= i < |c| ==> c[i].hhPrev == c[i - 1]
    requires h.hhPrev == null && h.hhNext == At(c, 0)
    requires c != [] ==> c[0].hhPrev == h
    ensures ChainLinked([h] + c)
  {
    var r := [h] + c;
    forall i | 0 <= i < |r|
      ensures r[i].hhNext == At(r, i + 1) && r[i].hhPrev == At(r, i - 1)
    {
      if i > 0 {
        assert r[i] == c[i - 1];
      }
    }
  }
}
