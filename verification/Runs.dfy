/** Whole runs of a table: every sequence of adds, in-order adds, deletes, replacements, sorts
    and lookups gives the answers of a plain map; without in-order adds and sorts it leaves the
    surviving handles in insertion order. */
module Runs {
  import opened Seqs
  import opened Handles
  import opened Buckets
  import opened HashTables
  import opened Ordering
  import StableSort

  datatype Op =
    | OpAdd(h: Handle)
    | OpDelete(h: Handle)
    | OpReplace(h: Handle)
    | OpFind(key: Key, hashv: nat)
    | OpAddInOrder(h: Handle, cmp: Comparator<Handle>)
    | OpSort(cmp: Comparator<Handle>)
    | OpDrop(key: Key, hashv: nat)   // finds a handle and deletes it, if it is there

  type Id = (Key, nat)

  function IdOf(h: Handle): Id {
    (h.key, h.hashv)
  }

  // ----- what an operation does to the list -----

  predicate Removes(op: Op, x: Handle) {
    match op
    case OpDelete(h) => x == h
    case OpReplace(h) => IdOf(x) == IdOf(h)
    case OpDrop(key, hashv) => IdOf(x) == (key, hashv)
    case _ => false
  }

  function Added(op: Op): seq<Handle> {
    if op.OpAdd? || op.OpReplace? || op.OpAddInOrder? then [op.h] else []
  }

  /** The operations that keep the order of the list. */
  predicate KeepsOrder(op: Op) {
    !op.OpAddInOrder? && !op.OpSort?
  }

  /** The first `n` handles of `s` without those the operation removes. */
  function Keep(s: seq<Handle>, op: Op, n: nat): seq<Handle>
    requires n <= |s|
  {
    if n == 0 then []
    else Keep(s, op, n - 1) + (if Removes(op, s[n - 1]) then [] else [s[n - 1]])
  }

  function NextList(op: Op, s: seq<Handle>): seq<Handle> {
    match op
    case OpAddInOrder(h, cmp) => InsertSorted(s, h, cmp)
    case OpSort(cmp) => StableSort.MergeSorted(s, cmp)
    case _ => Keep(s, op, |s|) + Added(op)
  }

  /** The operation leaves no handle of the list, so that the table is freed (and made anew
      if a handle is added). */
  predicate Empties(op: Op, s: seq<Handle>) {
    Keep(s, op, |s|) == []
  }

  /** Adds need an absent key, deletes a present handle; a handle of the table may only
      replace itself. */
  ghost predicate Legal(op: Op, s: seq<Handle>) {
    match op
    case OpAdd(h) => forall x {:trigger x in s} :: x in s ==> IdOf(x) != IdOf(h)
    case OpAddInOrder(h, _) => forall x {:trigger x in s} :: x in s ==> IdOf(x) != IdOf(h)
    case OpDelete(h) => h in s
    case _ => true
  }

  // ----- the plain map -----

  function NextMap(op: Op, m: map<Id, Handle>): map<Id, Handle> {
    match op
    case OpAdd(h) => m[IdOf(h) := h]
    case OpAddInOrder(h, _) => m[IdOf(h) := h]
    case OpDelete(h) => m - {IdOf(h)}
    case OpReplace(h) => m[IdOf(h) := h]
    case OpDrop(key, hashv) => m - {(key, hashv)}
    case _ => m
  }

  function Answer(op: Op, m: map<Id, Handle>): Handle? {
    match op
    case OpFind(key, hashv) => if (key, hashv) in m then m[(key, hashv)] else null
    case OpDrop(key, hashv) => if (key, hashv) in m then m[(key, hashv)] else null
    case OpReplace(h) => if IdOf(h) in m then m[IdOf(h)] else null
    case _ => null
  }

  /** What is left of an operation whose allocation fails: an add does nothing, a replacement
      only deletes. */
  function Effect(op: Op, failed: bool): Op {
    if !failed then op
    else
      match op
      case OpAdd(h) => OpFind(h.key, h.hashv)
      case OpAddInOrder(h, _) => OpFind(h.key, h.hashv)
      case OpReplace(h) => OpDrop(h.key, h.hashv)
      case _ => op
  }

  /** The list holds exactly the handles of the map, each under its own key. */
  ghost predicate Represents(s: seq<Handle>, m: map<Id, Handle>) {
    && Distinct(s)
    && (forall x {:trigger Handled(x)} :: Handled(x) && x in s ==> IdOf(x) in m && m[IdOf(x)] == x)
    && (forall k {:trigger Filed(k)} :: Filed(k) && k in m ==> m[k] in s && IdOf(m[k]) == k)
  }

  predicate Filed(k: Id) {
    true
  }

  lemma InMap(s: seq<Handle>, m: map<Id, Handle>, x: Handle)
    requires Represents(s, m) && x in s
    ensures IdOf(x) in m && m[IdOf(x)] == x
  {
    assert Handled(x);
  }

  lemma InList(s: seq<Handle>, m: map<Id, Handle>, k: Id)
    requires Represents(s, m) && k in m
    ensures m[k] in s && IdOf(m[k]) == k
  {
    assert Filed(k);
  }

  lemma {:induction false} KeepMember(s: seq<Handle>, op: Op, n: nat, x: Handle)
    requires n <= |s|
    ensures x in Keep(s, op, n) <==> x in s[..n] && !Removes(op, x)
  {
    if n > 0 {
      KeepMember(s, op, n - 1, x);
      assert s[..n] == s[..n - 1] + [s[n - 1]];
    }
  }

  lemma {:induction false} KeepDistinct(s: seq<Handle>, op: Op, n: nat)
    requires n <= |s| && Distinct(s)
    ensures Distinct(Keep(s, op, n))
  {
    if n > 0 {
      var k := Keep(s, op, n - 1);
      KeepDistinct(s, op, n - 1);
      KeepMember(s, op, n - 1, s[n - 1]);
      DistinctPairs(s);
      if !Removes(op, s[n - 1]) {
        DistinctInsertAt(k, |k|, s[n - 1]);
        assert InsertAt(k, |k|, s[n - 1]) == k + [s[n - 1]];
      } else {
        assert k + [] == k;
      }
    }
  }

  lemma NextMember(op: Op, s: seq<Handle>, x: Handle)
    ensures x in NextList(op, s) <==> (x in s && !Removes(op, x)) || x in Added(op)
  {
    match op
    case OpAddInOrder(h, cmp) =>
      InsertAtMember(s, UpperIndex(s, h, cmp, 0), h, x);
    case OpSort(cmp) =>
      StableSort.SortFromMembers(s, 1, cmp);
      StableSort.MultisetElems(s, NextList(op, s));
      assert x in s <==> x in Elems(s);
      assert x in NextList(op, s) <==> x in Elems(NextList(op, s));
    case _ =>
      KeepMember(s, op, |s|, x);
      assert s[..|s|] == s;
  }

  /** A handle that stays in the list stays in the map. */
  lemma KeptInMap(op: Op, s: seq<Handle>, m: map<Id, Handle>, x: Handle)
    requires Represents(s, m) && Legal(op, s) && x in s && !Removes(op, x)
    ensures IdOf(x) in NextMap(op, m) && NextMap(op, m)[IdOf(x)] == x
  {
    InMap(s, m, x);
    match op
    case OpDelete(h) =>
      InMap(s, m, h);
      assert IdOf(x) !in {IdOf(h)};
    case OpDrop(key, hashv) =>
      assert IdOf(x) !in {(key, hashv)};
    case OpFind(_, _) =>
    case OpSort(_) =>
    case _ =>
      assert IdOf(x) != IdOf(op.h);
  }

  /** One operation keeps the list and the map in step. */
  lemma StepRefines(op: Op, s: seq<Handle>, m: map<Id, Handle>)
    requires Represents(s, m) && Legal(op, s)
    ensures Represents(NextList(op, s), NextMap(op, m))
  {
    NextDistinct(op, s);
    var t, m' := NextList(op, s), NextMap(op, m);
    forall x | x in t
      ensures IdOf(x) in m' && m'[IdOf(x)] == x
    {
      NextMember(op, s, x);
      if x !in Added(op) {
        KeptInMap(op, s, m, x);
      }
    }
    forall id | id in m'
      ensures m'[id] in t && IdOf(m'[id]) == id
    {
      NextMember(op, s, m'[id]);
      if id in m {
        InList(s, m, id);
      }
    }
  }

  lemma NextDistinct(op: Op, s: seq<Handle>)
    requires Distinct(s) && Legal(op, s)
    ensures Distinct(NextList(op, s))
  {
    if op.OpAddInOrder? {
      DistinctInsertAt(s, UpperIndex(s, op.h, op.cmp, 0), op.h);
    } else if op.OpSort? {
      StableSort.SortFromMembers(s, 1, op.cmp);
      DistinctPermuted(s, NextList(op, s));
    } else {
      KeptDistinct(op, s);
    }
  }

  lemma KeptDistinct(op: Op, s: seq<Handle>)
    requires Distinct(s) && Legal(op, s) && KeepsOrder(op)
    ensures Distinct(Keep(s, op, |s|) + Added(op))
  {
    var k := Keep(s, op, |s|);
    KeepDistinct(s, op, |s|);
    if op.OpAdd? || op.OpReplace? {
      KeepMember(s, op, |s|, op.h);
      assert s[..|s|] == s;
      DistinctInsertAt(k, |k|, op.h);
      assert InsertAt(k, |k|, op.h) == k + [op.h];
    } else {
      assert k + [] == k;
    }
  }

  // ----- whole runs -----

  /** The list after the first `n` operations on the list `s`. */
  function After(ops: seq<Op>, s: seq<Handle>, n: nat): seq<Handle>
    requires n <= |ops|
  {
    if n == 0 then s else NextList(ops[n - 1], After(ops, s, n - 1))
  }

  function AfterMap(ops: seq<Op>, m: map<Id, Handle>, n: nat): map<Id, Handle>
    requires n <= |ops|
  {
    if n == 0 then m else NextMap(ops[n - 1], AfterMap(ops, m, n - 1))
  }

  ghost predicate LegalRun(ops: seq<Op>, s: seq<Handle>) {
    forall i {:trigger Slot(i)} :: Slot(i) && 0 <= i < |ops| ==> Legal(ops[i], After(ops, s, i))
  }

  lemma LegalAt(ops: seq<Op>, s: seq<Handle>, i: nat)
    requires LegalRun(ops, s) && i < |ops|
    ensures Legal(ops[i], After(ops, s, i))
  {
    assert Slot(i);
  }

  /** Every legal run keeps the list and the plain map in step. */
  lemma {:induction false} RunRefines(ops: seq<Op>, s: seq<Handle>, m: map<Id, Handle>, n: nat)
    requires n <= |ops| && Represents(s, m) && LegalRun(ops, s)
    ensures Represents(After(ops, s, n), AfterMap(ops, m, n))
  {
    if n > 0 {
      RunRefines(ops, s, m, n - 1);
      LegalAt(ops, s, n - 1);
      StepRefines(ops[n - 1], After(ops, s, n - 1), AfterMap(ops, m, n - 1));
    }
  }

  // ----- insertion order -----

  /** Operation `i` adds a handle that no later operation before `n` removes. */
  predicate Survives(ops: seq<Op>, i: nat, n: nat)
    requires i < n <= |ops|
  {
    Added(ops[i]) != [] && forall j {:trigger ops[j]} :: i < j < n ==> !Removes(ops[j], ops[i].h)
  }

  /** The handles added by the first `i` operations that survive up to `n`, in the order in
      which they were added. */
  function Survivors(ops: seq<Op>, i: nat, n: nat): seq<Handle>
    requires i <= n <= |ops|
  {
    if i == 0 then []
    else Survivors(ops, i - 1, n) + (if Survives(ops, i - 1, n) then [ops[i - 1].h] else [])
  }

  lemma {:induction false} KeepConcat(s: seq<Handle>, t: seq<Handle>, op: Op, n: nat)
    requires n <= |t|
    ensures Keep(s + t, op, |s| + n) == Keep(s, op, |s|) + Keep(t, op, n)
  {
    if n == 0 {
      KeepPrefix(s, t, op, |s|);
    } else {
      KeepConcat(s, t, op, n - 1);
    }
  }

  lemma {:induction false} KeepPrefix(s: seq<Handle>, t: seq<Handle>, op: Op, n: nat)
    requires n <= |s|
    ensures Keep(s + t, op, n) == Keep(s, op, n)
  {
    if n > 0 {
      KeepPrefix(s, t, op, n - 1);
    }
  }

  lemma {:induction false} SurvivorsKeep(ops: seq<Op>, i: nat, n: nat, s: seq<Handle>)
    requires i <= n < |ops| && s == Survivors(ops, i, n)
    ensures Survivors(ops, i, n + 1) == Keep(s, ops[n], |s|)
  {
    if i > 0 {
      var before := Survivors(ops, i - 1, n);
      SurvivorsKeep(ops, i - 1, n, before);
      OneSurvives(ops, i - 1, n, before);
    }
  }

  lemma OneSurvives(ops: seq<Op>, i: nat, n: nat, s: seq<Handle>)
    requires i < n < |ops|
    ensures var t := s + (if Survives(ops, i, n) then [ops[i].h] else []);
            Keep(t, ops[n], |t|) == Keep(s, ops[n], |s|) + (if Survives(ops, i, n + 1) then [ops[i].h] else [])
  {
    var e := if Survives(ops, i, n) then [ops[i].h] else [];
    KeepConcat(s, e, ops[n], |e|);
    SurvivesStep(ops, i, n);
  }

  lemma SurvivesStep(ops: seq<Op>, i: nat, n: nat)
    requires i < n < |ops|
    ensures Survives(ops, i, n + 1) <==> Survives(ops, i, n) && !Removes(ops[n], ops[i].h)
  {
  }

  /** After any run on an empty table without in-order adds and sorts, the list holds the
      surviving handles in insertion order. */
  lemma {:induction false} ListIsSurvivors(ops: seq<Op>, n: nat)
    requires n <= |ops| && forall i {:trigger ops[i]} :: 0 <= i < n ==> KeepsOrder(ops[i])
    ensures After(ops, [], n) == Survivors(ops, n, n)
  {
    if n > 0 {
      ListIsSurvivors(ops, n - 1);
      SurvivorsKeep(ops, n - 1, n - 1, Survivors(ops, n - 1, n - 1));
    }
  }

  // ----- running the operations on a table -----

  lemma {:induction false} KeepAll(s: seq<Handle>, op: Op, n: nat)
    requires n <= |s| && forall i {:trigger s[i]} :: 0 <= i < n ==> !Removes(op, s[i])
    ensures Keep(s, op, n) == s[..n]
  {
    if n > 0 {
      KeepAll(s, op, n - 1);
      assert s[..n] == s[..n - 1] + [s[n - 1]];
    }
  }

  /** Keeping all but the one handle at position `k`. */
  lemma {:induction false} KeepAllBut(s: seq<Handle>, op: Op, k: nat, n: nat)
    requires k < n <= |s| && forall i {:trigger s[i]} :: 0 <= i < n ==> (Removes(op, s[i]) <==> i == k)
    ensures Keep(s, op, n) == s[..k] + s[k + 1..n]
  {
    if n == k + 1 {
      KeepAll(s, op, k);
      assert s[k + 1..n] == [];
    } else {
      KeepAllBut(s, op, k, n - 1);
      assert s[k + 1..n] == s[k + 1..n - 1] + [s[n - 1]];
    }
  }

  lemma NextWithout(op: Op, s: seq<Handle>, r: Handle)
    requires Distinct(s) && r in s && KeepsOrder(op)
    requires forall x :: x in s ==> (Removes(op, x) <==> x == r)
    ensures NextList(op, s) == Without(s, r) + Added(op)
    ensures Added(op) == [] ==> NextList(op, s) == Without(s, r)
    ensures Empties(op, s) <==> Without(s, r) == []
  {
    var k := IndexOf(s, r);
    DistinctPairs(s);
    KeepAllBut(s, op, k, |s|);
  }

  lemma NextWith(op: Op, s: seq<Handle>)
    requires KeepsOrder(op) && forall x :: x in s ==> !Removes(op, x)
    ensures NextList(op, s) == s + Added(op)
    ensures Added(op) == [] ==> NextList(op, s) == s
    ensures Empties(op, s) <==> s == []
  {
    KeepAll(s, op, |s|);
    assert s[..|s|] == s;
  }

  lemma RepresentsUnique(s: seq<Handle>, m: map<Id, Handle>)
    requires Represents(s, m)
    ensures UniqueKeys(s)
  {
    forall x, y | x in s && y in s && x.key == y.key && x.hashv == y.hashv
      ensures x == y
    {
      InMap(s, m, x);
      InMap(s, m, y);
    }
  }

  /** A search that finds the one handle with an id, or none, answers like the map. */
  lemma FoundIsAnswer(s: seq<Handle>, m: map<Id, Handle>, id: Id, r: Handle?)
    requires Represents(s, m)
    requires r != null ==> r in s && IdOf(r) == id
    requires r == null ==> forall x :: x in s ==> IdOf(x) != id
    ensures r == if id in m then m[id] else null
  {
    if id in m {
      InList(s, m, id);
    }
    if r != null {
      InMap(s, m, r);
    }
  }

  /** Performs one operation on the table, with these allocations. */
  method Execute(t: HashTable, op: Op, mem: Memory, ghost m: map<Id, Handle>)
    returns (answer: Handle?, failed: bool)
    requires t.Valid() && Represents(t.order, m) && Legal(op, t.order)
    modifies t, t.buckets, t.bloomBv, t.order`next, t.order`prev, t.order`hhPrev, t.order`hhNext,
             Added(op)`next, Added(op)`prev, Added(op)`hhPrev, Added(op)`hhNext
    ensures t.Valid() && t.order == NextList(Effect(op, failed), old(t.order))
    ensures answer == Answer(op, m) && (failed ==> mem != ENOUGH)
    ensures t.buckets == old(t.buckets) || fresh(t.buckets)
    ensures t.bloomBv == old(t.bloomBv) || fresh(t.bloomBv)
    ensures old(t.noexpand) && !Empties(Effect(op, failed), old(t.order)) ==> t.noexpand && t.buckets == old(t.buckets)
  {
    ghost var s := t.order;
    answer, failed := null, false;
    match op
    case OpDelete(h) =>
      ExecuteDelete(t, op);
    case OpReplace(h) =>
      answer, failed := ExecuteReplace(t, op, mem, m);
    case OpFind(key, hashv) =>
      NextWith(op, s);
      answer := t.FindByHashValue(key, hashv);
      FoundIsAnswer(s, m, (key, hashv), answer);
    case OpDrop(key, hashv) =>
      answer := ExecuteDrop(t, op, m);
    case OpSort(cmp) =>
      t.Sort(cmp);
    case _ =>
      failed := ExecuteAdd(t, op, mem);
  }

  /** Deletes a handle. */
  method ExecuteDelete(t: HashTable, op: Op)
    requires t.Valid() && op.OpDelete? && op.h in t.order
    modifies t, t.buckets, t.order`next, t.order`prev, t.order`hhPrev, t.order`hhNext
    ensures t.Valid() && t.order == NextList(op, old(t.order))
    ensures t.buckets == old(t.buckets) && t.bloomBv == old(t.bloomBv) && t.noexpand == old(t.noexpand)
  {
    ghost var s := t.order;
    t.ListDistinct();
    NextWithout(op, s, op.h);
    t.Delete(op.h);
  }

  /** Finds a handle and deletes it. */
  method ExecuteDrop(t: HashTable, op: Op, ghost m: map<Id, Handle>) returns (answer: Handle?)
    requires t.Valid() && Represents(t.order, m) && op.OpDrop?
    modifies t, t.buckets, t.order`next, t.order`prev, t.order`hhPrev, t.order`hhNext
    ensures t.Valid() && t.order == NextList(op, old(t.order))
    ensures answer == Answer(op, m)
    ensures t.buckets == old(t.buckets) && t.bloomBv == old(t.bloomBv) && t.noexpand == old(t.noexpand)
  {
    ghost var s := t.order;
    answer := t.FindByHashValue(op.key, op.hashv);
    if answer != null {
      t.Delete(answer);
    }
    FoundIsAnswer(s, m, (op.key, op.hashv), answer);
    RemovedList(op, s, m, (op.key, op.hashv), answer);
  }

  /** Performs a replacement. */
  method ExecuteReplace(t: HashTable, op: Op, mem: Memory, ghost m: map<Id, Handle>)
    returns (answer: Handle?, failed: bool)
    requires t.Valid() && Represents(t.order, m) && op.OpReplace?
    modifies t, t.buckets, t.bloomBv, t.order`next, t.order`prev, t.order`hhPrev, t.order`hhNext,
             op.h`next, op.h`prev, op.h`hhPrev, op.h`hhNext
    ensures t.Valid() && t.order == NextList(Effect(op, failed), old(t.order))
    ensures answer == Answer(op, m) && (failed ==> mem != ENOUGH)
    ensures t.buckets == old(t.buckets) || fresh(t.buckets)
    ensures t.bloomBv == old(t.bloomBv) || fresh(t.bloomBv)
    ensures old(t.noexpand) && !Empties(Effect(op, failed), old(t.order)) ==> t.noexpand && t.buckets == old(t.buckets)
  {
    ghost var s := t.order;
    RepresentsUnique(s, m);
    answer, failed := t.Replace(op.h, mem);
    FoundIsAnswer(s, m, IdOf(op.h), answer);
    RemovedList(Effect(op, failed), s, m, IdOf(op.h), answer);
  }

  /** Performs an add, plain or in order. */
  method ExecuteAdd(t: HashTable, op: Op, mem: Memory) returns (failed: bool)
    requires t.Valid() && Legal(op, t.order) && (op.OpAdd? || op.OpAddInOrder?)
    modifies t, t.buckets, t.bloomBv, t.order`next, t.order`prev, t.order`hhPrev, t.order`hhNext,
             op.h`next, op.h`prev, op.h`hhPrev, op.h`hhNext
    ensures t.Valid() && t.order == NextList(Effect(op, failed), old(t.order))
    ensures failed ==> mem != ENOUGH
    ensures t.buckets == old(t.buckets) || fresh(t.buckets)
    ensures t.bloomBv == old(t.bloomBv) || fresh(t.bloomBv)
    ensures old(t.noexpand) && !Empties(Effect(op, failed), old(t.order)) ==> t.noexpand && t.buckets == old(t.buckets)
  {
    NextWith(OpFind(op.h.key, op.h.hashv), t.order);
    NothingRemoved(op, t.order);
    if op.OpAdd? {
      failed := t.Add(op.h, mem);
    } else {
      failed := t.AddInOrder(op.h, op.cmp, mem);
    }
  }

  lemma NothingRemoved(op: Op, s: seq<Handle>)
    requires op.OpAdd? || op.OpAddInOrder?
    ensures Keep(s, op, |s|) == s && (op.OpAdd? ==> NextList(op, s) == s + [op.h])
  {
    KeepAll(s, op, |s|);
    assert s[..|s|] == s;
  }

  /** Removing the one handle with an id, or none. */
  lemma RemovedList(op: Op, s: seq<Handle>, m: map<Id, Handle>, id: Id, r: Handle?)
    requires Represents(s, m) && KeepsOrder(op)
    requires forall x :: x in s ==> (Removes(op, x) <==> IdOf(x) == id)
    requires r != null ==> r in s && IdOf(r) == id
    requires r == null ==> forall x :: x in s ==> IdOf(x) != id
    ensures var rest := if r == null then s else Without<Handle>(s, r);
            && NextList(op, s) == rest + Added(op) && (Empties(op, s) <==> rest == [])
            && (Added(op) == [] ==> NextList(op, s) == rest)
  {
    if r == null {
      NextWith(op, s);
    } else {
      forall x | x in s
        ensures Removes(op, x) <==> x == r
      {
        InMap(s, m, x);
        InMap(s, m, r);
      }
      NextWithout(op, s, r);
    }
  }

  // ----- running many operations on a table -----

  ghost function OpHandles(ops: seq<Op>): set<Handle> {
    set i | 0 <= i < |ops| && Added(ops[i]) != [] :: ops[i].h
  }

  /** The first operations of a run, with those that failed replaced by what is left of them. */
  function Effects(ops: seq<Op>, failed: seq<bool>): (eff: seq<Op>)
    requires |failed| <= |ops|
    ensures |eff| == |failed|
    decreases |failed|
  {
    if failed == [] then []
    else
      var n := |failed| - 1;
      Effects(ops, failed[..n]) + [Effect(ops[n], failed[n])]
  }

  lemma {:induction false} NothingFails(ops: seq<Op>, failed: seq<bool>)
    requires |failed| <= |ops| && forall i :: 0 <= i < |failed| ==> !failed[i]
    ensures Effects(ops, failed) == ops[..|failed|]
  {
    if failed != [] {
      var n := |failed| - 1;
      NothingFails(ops, failed[..n]);
      assert ops[..n + 1] == ops[..n] + [ops[n]];
    }
  }

  /** With enough memory, the effects are the operations. */
  lemma EnoughMemory(ops: seq<Op>, mems: seq<Memory>, failed: seq<bool>)
    requires |failed| == |ops| && FailsFor(failed, mems) && forall i :: 0 <= i < |mems| ==> mems[i] == ENOUGH
    ensures Effects(ops, failed) == ops
  {
    assert forall i :: 0 <= i < |failed| ==> !failed[i];
    NothingFails(ops, failed);
    assert ops[..|failed|] == ops;
  }

  /** Each operation is legal at its turn, whichever of the operations before it have failed of
      those that have not had enough memory. */
  ghost predicate LegalAlways(ops: seq<Op>, mems: seq<Memory>, s: seq<Handle>) {
    forall failed: seq<bool> {:trigger Effects(ops, failed)} :: |failed| < |ops| && FailsFor(failed, mems) ==>
      Legal(ops[|failed|], After(Effects(ops, failed), s, |failed|))
  }

  /** Only operations without enough memory have failed. */
  ghost predicate FailsFor(failed: seq<bool>, mems: seq<Memory>) {
    |failed| <= |mems| && forall i {:trigger failed[i]} :: 0 <= i < |failed| && failed[i] ==> mems[i] != ENOUGH
  }

  lemma {:induction false} AfterTake(ops: seq<Op>, s: seq<Handle>, k: nat, n: nat)
    requires n <= k <= |ops|
    ensures After(ops[..k], s, n) == After(ops, s, n)
  {
    if n > 0 {
      AfterTake(ops, s, k, n - 1);
    }
  }

  /** With enough memory, this says of a run no more than that it is legal. */
  lemma LegalWithEnough(ops: seq<Op>, mems: seq<Memory>, s: seq<Handle>)
    requires |mems| == |ops| && forall i :: 0 <= i < |mems| ==> mems[i] == ENOUGH
    ensures LegalAlways(ops, mems, s) <==> LegalRun(ops, s)
  {
    if LegalRun(ops, s) {
      forall failed: seq<bool> {:trigger Effects(ops, failed)} | |failed| < |ops| && FailsFor(failed, mems)
        ensures Legal(ops[|failed|], After(Effects(ops, failed), s, |failed|))
      {
        NothingFails(ops, failed);
        AfterTake(ops, s, |failed|, |failed|);
        LegalAt(ops, s, |failed|);
      }
    }
    if LegalAlways(ops, mems, s) {
      forall i {:trigger Slot(i)} | Slot(i) && 0 <= i < |ops|
        ensures Legal(ops[i], After(ops, s, i))
      {
        var failed := seq(i, _ => false);
        NothingFails(ops, failed);
        AfterTake(ops, s, i, i);
      }
    }
  }

  /** What the plain map answers to each operation of the run, when these are the effects. */
  function MapAnswers(ops: seq<Op>, eff: seq<Op>, m: map<Id, Handle>, n: nat): seq<Handle?>
    requires n <= |ops| && n <= |eff|
  {
    if n == 0 then []
    else MapAnswers(ops, eff, m, n - 1) + [Answer(ops[n - 1], AfterMap(eff, m, n - 1))]
  }

  /** The first `n` operations never leave the list without a handle: the table lives on. */
  predicate Lives(ops: seq<Op>, s: seq<Handle>, n: nat)
    requires n <= |ops|
  {
    n == 0 || (Lives(ops, s, n - 1) && !Empties(ops[n - 1], After(ops, s, n - 1)))
  }

  lemma {:induction false} AfterPrefix(eff: seq<Op>, e: Op, s: seq<Handle>, n: nat)
    requires n <= |eff|
    ensures After(eff + [e], s, n) == After(eff, s, n)
    ensures Lives(eff + [e], s, n) <==> Lives(eff, s, n)
  {
    if n > 0 {
      AfterPrefix(eff, e, s, n - 1);
    }
  }

  lemma {:induction false} AfterMapPrefix(ops: seq<Op>, eff: seq<Op>, e: Op, m: map<Id, Handle>, n: nat)
    requires n <= |eff| && n <= |ops|
    ensures AfterMap(eff + [e], m, n) == AfterMap(eff, m, n)
    ensures MapAnswers(ops, eff + [e], m, n) == MapAnswers(ops, eff, m, n)
  {
    if n > 0 {
      AfterMapPrefix(ops, eff, e, m, n - 1);
    }
  }

  /** A run of operations, some of which have failed, has led from the list `s` and the map `m`
      to the list `order`, with the answers of the map; `H` holds all handles that occur. */
  ghost predicate AtTurn(ops: seq<Op>, s: seq<Handle>, m: map<Id, Handle>, failed: seq<bool>,
                         order: seq<Handle>, answers: seq<Handle?>, H: set<Handle>) {
    && |failed| <= |ops|
    && order == After(Effects(ops, failed), s, |failed|)
    && answers == MapAnswers(ops, Effects(ops, failed), m, |failed|)
    && Represents(order, AfterMap(Effects(ops, failed), m, |failed|))
    && Elems(order) <= H && OpHandles(ops) <= H
  }

  lemma EffectsNext(ops: seq<Op>, failed: seq<bool>, f: bool)
    requires |failed| < |ops|
    ensures Effects(ops, failed + [f]) == Effects(ops, failed) + [Effect(ops[|failed|], f)]
  {
    assert (failed + [f])[..|failed|] == failed;
  }

  /** One more operation has failed or not. */
  lemma TurnNext(ops: seq<Op>, s: seq<Handle>, m: map<Id, Handle>, failed: seq<bool>, f: bool,
                 order: seq<Handle>, answers: seq<Handle?>, answer: Handle?, H: set<Handle>, r: map<Id, Handle>)
    requires AtTurn(ops, s, m, failed, order, answers, H) && |failed| < |ops|
    requires r == AfterMap(Effects(ops, failed), m, |failed|)
    requires Legal(ops[|failed|], order) && answer == Answer(ops[|failed|], r)
    ensures AtTurn(ops, s, m, failed + [f], NextList(Effect(ops[|failed|], f), order), answers + [answer], H)
  {
    var n, eff, e := |failed|, Effects(ops, failed), Effect(ops[|failed|], f);
    EffectsNext(ops, failed, f);
    AfterPrefix(eff, e, s, n);
    AfterMapPrefix(ops, eff, e, m, n);
    EffectLegal(ops[n], f, order);
    StepRefines(e, order, r);
    NextWithin(ops, n, f, order, H);
    FoldsNext(ops, eff, e, s, m, n, order, answers, answer, r);
  }

  lemma EffectLegal(op: Op, failed: bool, s: seq<Handle>)
    requires Legal(op, s)
    ensures Legal(Effect(op, failed), s)
  {
  }

  lemma FoldsNext(ops: seq<Op>, eff: seq<Op>, e: Op, s: seq<Handle>, m: map<Id, Handle>, n: nat,
                  order: seq<Handle>, answers: seq<Handle?>, answer: Handle?, r: map<Id, Handle>)
    requires n == |eff| < |ops|
    requires After(eff + [e], s, n) == order && AfterMap(eff + [e], m, n) == r
    requires MapAnswers(ops, eff + [e], m, n) == answers && answer == Answer(ops[n], r)
    ensures After(eff + [e], s, n + 1) == NextList(e, order) && AfterMap(eff + [e], m, n + 1) == NextMap(e, r)
    ensures MapAnswers(ops, eff + [e], m, n + 1) == answers + [answer]
  {
  }

  lemma NextWithin(ops: seq<Op>, i: nat, f: bool, s: seq<Handle>, H: set<Handle>)
    requires i < |ops| && Elems(s) <= H && OpHandles(ops) <= H
    ensures Elems(NextList(Effect(ops[i], f), s)) <= H && Elems(Added(ops[i])) <= H
  {
    var e := Effect(ops[i], f);
    assert Added(ops[i]) != [] ==> ops[i].h in OpHandles(ops);
    forall x | x in NextList(e, s)
      ensures x in H
    {
      NextMember(e, s, x);
      assert x in s ==> x in Elems(s);
    }
  }

  /** A table whose growth was off still has the bucket array `bkts`, if it lives. */
  ghost predicate StaysOff(t: HashTable, off: bool, bkts: array<Bucket>, lives: bool)
    reads t`noexpand, t`buckets
  {
    off && lives ==> t.noexpand && t.buckets == bkts
  }

  /** The table in the middle of a run. */
  ghost predicate Running(t: HashTable, ops: seq<Op>, s: seq<Handle>, m: map<Id, Handle>, failed: seq<bool>,
                          answers: seq<Handle?>, H: set<Handle>, off: bool, bkts: array<Bucket>)
    reads t, t.order`prev, t.order`next, t.order`hhPrev, t.order`hhNext, t.buckets, t.bloomBv
  {
    && t.Valid() && AtTurn(ops, s, m, failed, t.order, answers, H)
    && StaysOff(t, off, bkts, Lives(Effects(ops, failed), s, |failed|))
  }

  lemma LivesNext(ops: seq<Op>, failed: seq<bool>, f: bool, s: seq<Handle>, order: seq<Handle>)
    requires |failed| < |ops| && order == After(Effects(ops, failed), s, |failed|)
    ensures Lives(Effects(ops, failed + [f]), s, |failed| + 1)
            <==> Lives(Effects(ops, failed), s, |failed|) && !Empties(Effect(ops[|failed|], f), order)
  {
    EffectsNext(ops, failed, f);
    AfterPrefix(Effects(ops, failed), Effect(ops[|failed|], f), s, |failed|);
  }

  lemma LegalNext(ops: seq<Op>, mems: seq<Memory>, s: seq<Handle>, failed: seq<bool>, order: seq<Handle>)
    requires LegalAlways(ops, mems, s) && FailsFor(failed, mems) && |failed| < |ops|
    requires order == After(Effects(ops, failed), s, |failed|)
    ensures Legal(ops[|failed|], order)
  {
  }

  /** Performs the next operation of a run that started with the list `s`. */
  method PerformOne(t: HashTable, ops: seq<Op>, mems: seq<Memory>, failed: seq<bool>, answers: seq<Handle?>,
                    ghost s: seq<Handle>, ghost m: map<Id, Handle>, ghost H: set<Handle>,
                    ghost off: bool, ghost bkts: array<Bucket>)
    returns (failed': seq<bool>, answers': seq<Handle?>)
    requires Running(t, ops, s, m, failed, answers, H, off, bkts) && |failed| < |ops|
    requires LegalAlways(ops, mems, s)
    requires FailsFor(failed, mems) && |mems| == |ops|
    modifies t, t.buckets, t.bloomBv, H
    ensures Running(t, ops, s, m, failed', answers', H, off, bkts)
    ensures |failed'| == |failed| + 1 && FailsFor(failed', mems)
    ensures t.buckets == old(t.buckets) || fresh(t.buckets)
    ensures t.bloomBv == old(t.bloomBv) || fresh(t.bloomBv)
  {
    ghost var order, r := t.order, AfterMap(Effects(ops, failed), m, |failed|);
    NextWithin(ops, |failed|, false, order, H);
    LegalNext(ops, mems, s, failed, order);
    var answer, f := ExecuteWithin(t, ops[|failed|], mems[|failed|], r, H);
    failed', answers' := failed + [f], answers + [answer];
    TurnNext(ops, s, m, failed, f, order, answers, answer, H, r);
    LivesNext(ops, failed, f, s, order);
  }

  /** Performs one operation on a table whose handles, and that of the operation, are in `H`. */
  method ExecuteWithin(t: HashTable, op: Op, mem: Memory, ghost r: map<Id, Handle>, ghost H: set<Handle>)
    returns (answer: Handle?, f: bool)
    requires t.Valid() && Represents(t.order, r) && Legal(op, t.order)
    requires Elems(t.order) <= H && Elems(Added(op)) <= H
    modifies t, t.buckets, t.bloomBv, H
    ensures t.Valid() && t.order == NextList(Effect(op, f), old(t.order))
    ensures answer == Answer(op, r) && (f ==> mem != ENOUGH)
    ensures t.buckets == old(t.buckets) || fresh(t.buckets)
    ensures t.bloomBv == old(t.bloomBv) || fresh(t.bloomBv)
    ensures StaysOff(t, old(t.noexpand), old(t.buckets), !Empties(Effect(op, f), old(t.order)))
  {
    assert forall j {:trigger t.order[j]} :: 0 <= j < |t.order| ==> t.order[j] in Elems(t.order);
    assert forall j {:trigger Added(op)[j]} :: 0 <= j < |Added(op)| ==> Added(op)[j] in Elems(Added(op));
    answer, f := Execute(t, op, mem, r);
  }

  /** Performs a whole run under any allocation failures, and says which operations failed.
      Every answer is the plain map's, and the list is what the effects of the operations make of
      it. Once growth is off, the bucket array never changes again as long as the table lives. */
  method Perform(t: HashTable, ops: seq<Op>, mems: seq<Memory>, ghost m: map<Id, Handle>)
    returns (answers: seq<Handle?>, failed: seq<bool>)
    requires t.Valid() && Represents(t.order, m) && LegalAlways(ops, mems, t.order) && |mems| == |ops|
    modifies t, t.buckets, t.bloomBv, Elems(t.order) + OpHandles(ops)
    ensures |failed| == |ops| && FailsFor(failed, mems)
    ensures Running(t, ops, old(t.order), m, failed, answers, old(Elems(t.order) + OpHandles(ops)),
                    old(t.noexpand), old(t.buckets))
  {
    ghost var s, H := t.order, Elems(t.order) + OpHandles(ops);
    ghost var off, bkts := t.noexpand, t.buckets;
    answers, failed := [], [];
    while |failed| < |ops|
      invariant Running(t, ops, s, m, failed, answers, H, off, bkts) && FailsFor(failed, mems)
      invariant t.buckets == old(t.buckets) || fresh(t.buckets)
      invariant t.bloomBv == old(t.bloomBv) || fresh(t.bloomBv)
    {
      failed, answers := PerformOne(t, ops, mems, failed, answers, s, m, H, off, bkts);
    }
  }

  /** With enough memory, every legal run is performed in full. */
  method PerformWithEnough(t: HashTable, ops: seq<Op>, ghost m: map<Id, Handle>) returns (answers: seq<Handle?>)
    requires t.Valid() && Represents(t.order, m) && LegalRun(ops, t.order)
    modifies t, t.buckets, t.bloomBv, Elems(t.order) + OpHandles(ops)
    ensures t.Valid() && t.order == After(ops, old(t.order), |ops|)
    ensures Represents(t.order, AfterMap(ops, m, |ops|)) && answers == MapAnswers(ops, ops, m, |ops|)
    ensures old(t.noexpand) && Lives(ops, old(t.order), |ops|) ==> t.noexpand && t.buckets == old(t.buckets)
  {
    var mems := seq(|ops|, _ => ENOUGH);
    LegalWithEnough(ops, mems, t.order);
    var failed;
    answers, failed := Perform(t, ops, mems, m);
    EnoughMemory(ops, mems, failed);
  }

  // ----- two ways to a sorted list -----

  function InOrderAdds(hs: seq<Handle>, cmp: Comparator<Handle>): seq<Op> {
    seq(|hs|, i requires 0 <= i < |hs| => OpAddInOrder(hs[i], cmp))
  }

  function AddsAndSort(hs: seq<Handle>, cmp: Comparator<Handle>): seq<Op> {
    seq(|hs|, i requires 0 <= i < |hs| => OpAdd(hs[i])) + [OpSort(cmp)]
  }

  lemma {:induction false} InOrderAddsInsert(hs: seq<Handle>, cmp: Comparator<Handle>, n: nat)
    requires n <= |hs|
    ensures After(InOrderAdds(hs, cmp), [], n) == StableSort.InsertAll(hs[..n], cmp)
  {
    if n > 0 {
      var ops := InOrderAdds(hs, cmp);
      InOrderAddsInsert(hs, cmp, n - 1);
      assert ops[n - 1] == OpAddInOrder(hs[n - 1], cmp);
      assert hs[..n] == hs[..n - 1] + [hs[n - 1]];
      InsertedNext(ops, n - 1, hs[..n - 1], hs[n - 1], cmp);
    }
  }

  lemma InsertedNext(ops: seq<Op>, n: nat, hs: seq<Handle>, h: Handle, cmp: Comparator<Handle>)
    requires n < |ops| && ops[n] == OpAddInOrder(h, cmp) && After(ops, [], n) == StableSort.InsertAll(hs, cmp)
    ensures After(ops, [], n + 1) == StableSort.InsertAll(hs + [h], cmp)
  {
    assert (hs + [h])[..|hs|] == hs;
  }

  lemma {:induction false} AddsAppend(hs: seq<Handle>, cmp: Comparator<Handle>, n: nat)
    requires n <= |hs|
    ensures After(AddsAndSort(hs, cmp), [], n) == hs[..n]
  {
    if n > 0 {
      var op, s := AddsAndSort(hs, cmp)[n - 1], hs[..n - 1];
      AddsAppend(hs, cmp, n - 1);
      KeepAll(s, op, n - 1);
      assert s[..n - 1] == s && hs[..n] == s + [hs[n - 1]];
    }
  }

  lemma SortedNext(ops: seq<Op>, n: nat, hs: seq<Handle>, cmp: Comparator<Handle>)
    requires n < |ops| && ops[n] == OpSort(cmp) && After(ops, [], n) == hs
    ensures After(ops, [], n + 1) == StableSort.MergeSorted(hs, cmp)
  {
  }

  /** A run of in-order adds leaves the same list as a run of adds with a sort at the end. */
  lemma InOrderIsAddAndSort(hs: seq<Handle>, cmp: Comparator<Handle>)
    requires TotalPreorder(cmp, Elems(hs))
    ensures After(InOrderAdds(hs, cmp), [], |hs|) == After(AddsAndSort(hs, cmp), [], |hs| + 1)
  {
    InOrderAddsInsert(hs, cmp, |hs|);
    assert hs[..|hs|] == hs;
    AddsAppend(hs, cmp, |hs|);
    SortedNext(AddsAndSort(hs, cmp), |hs|, hs, cmp);
    StableSort.InsertAllIsMergeSorted(hs, cmp);
  }
}
