/** The hash function the store is built with. */
module HashFunctions {
  import Jenkins

  /** `hash` is HASH_JEN. The mark Hashed keeps the definition of HASH_JEN out of proofs
      that only need some fixed hash function. */
  ghost predicate IsHashFunction(hash: seq<bv8> -> nat) {
    forall key {:trigger Hashed(key)} :: Hashed(key) ==> hash(key) == Jenkins.HashValue(key)
  }

  predicate Hashed(key: seq<bv8>) {
    true
  }

  function HashOf(key: seq<bv8>): nat {
    Jenkins.HashValue(key)
  }

  lemma HashOfIs()
    ensures IsHashFunction(HashOf)
  {
  }

  /** get_hash_value. */
  method GetHashValue(key: seq<bv8>, ghost hash: seq<bv8> -> nat) returns (hashv: nat)
    requires IsHashFunction(hash)
    ensures hashv == hash(key)
  {
    var h, _, _, _ := Jenkins.HashJen(key);
    hashv := h;
    assert Hashed(key);
  }
}

/** The key-value store of a peer, over the hash table. */
module Stores {
  import opened Seqs
  import opened Handles
  import opened Buckets
  import opened HashTables
  import opened HashFunctions

  type Data = seq<bv8>

  class Store {
    const t: HashTable
    ghost const hash: Key -> nat
    ghost var owner: map<Key, Handle>   // the handle of each stored key

    constructor ()
      ensures Valid() && Contents() == map[]
      ensures fresh(t) && fresh(t.buckets) && fresh(t.bloomBv) && t.order == []
    {
      HashOfIs();
      t := new HashTable(false, 0);
      hash, owner := HashOf, map[];
    }

    ghost predicate Valid()
      reads this, t, t.order`prev, t.order`next, t.order`hhPrev, t.order`hhNext, t.buckets, t.bloomBv
    {
      && t.Valid()
      && Owns(t.order, owner, hash)
      && IsHashFunction(hash)
    }

    /** The store as a map from keys to values. */
    ghost function Contents(): map<Key, Data>
      reads `owner, owner.Values`value
    {
      map k | k in owner :: owner[k].value
    }

    /** get: HASH_FIND by the key's hash. */
    method Get(key: Key) returns (element: Handle?)
      requires Valid()
      ensures element == null <==> key !in owner
      ensures element != null ==> element == owner[key] && element in t.order
    {
      var hashv := GetHashValue(key, hash);
      element := t.FindByHashValue(key, hashv);
      FoundIsOwner(t.order, owner, hash, key, element);
    }

    /** The first half of set: adds an element without a value under a new key. */
    method AddElement(key: Key) returns (element: Handle)
      requires Valid() && key !in owner
      modifies this, t, t.buckets, t.bloomBv,
               t.order`next, t.order`prev, t.order`hhPrev, t.order`hhNext
      ensures Valid() && t.order == old(t.order) + [element] && owner == old(owner)[key := element]
      ensures fresh(element)
      ensures t.buckets == old(t.buckets) || fresh(t.buckets)
      ensures t.bloomBv == old(t.bloomBv) || fresh(t.bloomBv)
    {
      var hashv := GetHashValue(key, hash);
      element := new Handle(key, hashv);
      OwnsWith(t.order, owner, hash, element);
      Append(element);
      owner := owner[key := element];
    }

    /** The table takes one more handle. */
    method Append(element: Handle)
      requires t.Valid() && element !in t.order
      modifies t, t.buckets, t.bloomBv, t.order`next, t.order`prev, t.order`hhPrev, t.order`hhNext,
               element`next, element`prev, element`hhPrev, element`hhNext
      ensures t.Valid() && t.order == old(t.order) + [element]
      ensures t.buckets == old(t.buckets) || fresh(t.buckets)
      ensures t.bloomBv == old(t.bloomBv) || fresh(t.bloomBv)
    {
      var _ := t.Add(element, ENOUGH);
    }

    /** The second half of set. */
    method Assign(key: Key, element: Handle, value: Data)
      requires Valid() && key in owner && owner[key] == element
      modifies element`value
      ensures Valid() && Contents() == old(Contents())[key := value]
    {
      OwnersInOrder(t.order, owner, hash);
      element.value := value;
    }

    /** Finds the element with the key or adds one. */
    method Locate(key: Key) returns (element: Handle)
      requires Valid()
      modifies this, t, t.buckets, t.bloomBv,
               t.order`next, t.order`prev, t.order`hhPrev, t.order`hhNext
      ensures Valid() && owner == old(owner)[key := element]
      ensures key in old(owner) ==> element == old(owner)[key]
      ensures key !in old(owner) ==> fresh(element)
      ensures t.order == if key in old(owner) then old(t.order) else old(t.order) + [element]
      ensures Contents() - {key} == old(Contents()) - {key}
      ensures t.buckets == old(t.buckets) || fresh(t.buckets)
      ensures t.bloomBv == old(t.bloomBv) || fresh(t.bloomBv)
    {
      var s := Get(key);
      if s == null {
        s := AddElement(key);
      }
      element := s;
    }

    /** set: stores `value` under `key`, in the element that has the key or in a new one. */
    method Set(key: Key, value: Data)
      requires Valid()
      modifies this, t, t.buckets, t.bloomBv, Elems(t.order)
      ensures Valid() && Contents() == old(Contents())[key := value]
      ensures fresh(Elems(t.order) - old(Elems(t.order)))
      ensures t.buckets == old(t.buckets) || fresh(t.buckets)
      ensures t.bloomBv == old(t.bloomBv) || fresh(t.bloomBv)
    {
      OwnersInOrder(t.order, owner, hash);
      ghost var before := Contents();
      var s := Locate(key);
      SameUpdate(before, Contents(), key, value);
      Assign(key, s, value);
    }

    /** delete_element: an element that is not there is not a no-op but a NULL pointer in
        HASH_DEL, a fault. */
    method DeleteElement(key: Key) returns (fault: bool)
      requires Valid()
      modifies this, t, t.buckets, t.order`next, t.order`prev, t.order`hhPrev, t.order`hhNext
      ensures fault <==> key !in old(Contents())
      ensures Valid() && Contents() == old(Contents()) - {key}
      ensures Elems(t.order) <= old(Elems(t.order))
      ensures t.buckets == old(t.buckets) && t.bloomBv == old(t.bloomBv)
    {
      var element := Get(key);
      fault := element == null;
      if !fault {
        Remove(key, element);
      }
    }

    /** The part of delete_element behind get. */
    method Remove(key: Key, element: Handle)
      requires Valid() && key in owner && owner[key] == element
      modifies this, t, t.buckets, t.order`next, t.order`prev, t.order`hhPrev, t.order`hhNext
      ensures Valid() && owner == old(owner) - {key}
      ensures Elems(t.order) <= old(Elems(t.order))
      ensures t.buckets == old(t.buckets) && t.bloomBv == old(t.bloomBv)
    {
      t.ListDistinct();
      OwnsWithout(t.order, owner, hash, key);
      t.Delete(element);
      owner := owner - {key};
    }
  }

  lemma SameUpdate(m: map<Key, Data>, m': map<Key, Data>, key: Key, value: Data)
    requires m - {key} == m' - {key}
    ensures m[key := value] == m'[key := value]
  {
    assert forall k :: k in m && k != key ==> k in m - {key} && (m - {key})[k] == m[k];
    assert forall k :: k in m' && k != key ==> k in m' - {key} && (m' - {key})[k] == m'[k];
  }

  /** `owner` lists the handles of `s` under their keys; their hashes are right. */
  ghost predicate Owns(s: seq<Handle>, owner: map<Key, Handle>, hash: Key -> nat) {
    && (forall x {:trigger Handled(x)} :: Handled(x) && x in s ==>
          x.hashv == hash(x.key) && x.key in owner && owner[x.key] == x)
    && (forall k {:trigger owner[k]} :: k in owner ==> owner[k] in s && owner[k].key == k)
  }

  lemma OwnersInOrder(s: seq<Handle>, owner: map<Key, Handle>, hash: Key -> nat)
    requires Owns(s, owner, hash)
    ensures forall k :: k in owner ==> owner[k] in s
  {
  }

  lemma OwnsWith(s: seq<Handle>, owner: map<Key, Handle>, hash: Key -> nat, h: Handle)
    requires Owns(s, owner, hash) && h.key !in owner && h.hashv == hash(h.key)
    ensures Owns(s + [h], owner[h.key := h], hash)
  {
  }

  lemma OwnsWithout(s: seq<Handle>, owner: map<Key, Handle>, hash: Key -> nat, key: Key)
    requires Owns(s, owner, hash) && Distinct(s) && key in owner
    ensures Owns(Without<Handle>(s, owner[key]), owner - {key}, hash)
    ensures forall x :: x in Without<Handle>(s, owner[key]) ==> x in s
  {
    var rest := Without<Handle>(s, owner[key]);
    WithoutElems<Handle>(s, owner[key]);
    forall x
      ensures x in rest <==> x in s && x != owner[key]
    {
      assert x in rest <==> x in Elems(rest);
    }
    assert forall x :: Handled(x) && x in rest ==> x.key != key;
  }

  lemma FoundIsOwner(s: seq<Handle>, owner: map<Key, Handle>, hash: Key -> nat, key: Key, r: Handle?)
    requires Owns(s, owner, hash)
    requires r != null ==> r in s && r.key == key
    requires r == null ==> forall x :: x in s ==> !(x.key == key && x.hashv == hash(key))
    ensures r == null <==> key !in owner
    ensures r != null ==> r == owner[key]
  {
    if r != null {
      assert Handled(r);
    }
    if key in owner {
      assert Handled(owner[key]) && owner[key] in s;
    }
  }
}
