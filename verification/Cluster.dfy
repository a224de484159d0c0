/** A ring of peers with their stores, as its clients see it: one map server for all keys whose
    ids are in gaps. */
module Clusters {
  import opened Words
  import opened Codec
  import opened Peers
  import opened Rings
  import opened Services

  /** A client sends `raw` to peer `at`. */
  datatype Request = Request(at: nat, raw: Bytes)

  /** What a request leaves in the stores, what the client gets, and whether a peer dies of it. */
  datatype Outcome = Outcome(tables: seq<Table>, replies: seq<Bytes>, fault: bool)

  ghost predicate AllStorable(tables: seq<Table>) {
    forall i {:trigger tables[i]} :: 0 <= i < |tables| ==> Storable(tables[i])
  }

  /** Peer `i` serves the request, sends it on and hands back the replies, or drops it. A request
      is sent on `hops` times at most. */
  function Enter(net: Net, hash: Bytes -> nat, tables: seq<Table>, i: nat, raw: Bytes, hops: nat): Outcome
    requires i < |net| == |tables| && CompleteClient(raw) && AllStorable(tables)
    decreases hops
  {
    DecodedSized(raw);
    var d := DecodeClient(raw);
    match RouteOf(net[i], KeyId(hash, d.key))
    case Crash => Outcome(tables, [], true)
    case Serve => Outcome(tables[i := NextTable(d, tables[i])], Replies(d, tables[i]), Faults(d, tables[i]))
    case Redirect(to) =>
      var r := Receiver(net, SendTo(to, raw), 0);
      if r < |net| && hops > 0 then Enter(net, hash, tables, r, raw, hops - 1) else Outcome(tables, [], false)
    case Drop => Outcome(tables, [], false)
  }

  /** Peer `i` is responsible for the id, or the peer before it is. */
  predicate Reached(net: Net, n: nat, i: nat, h: U16)
    requires i < n <= |net|
  {
    Gap(net, n, Before(i, n), h) || Gap(net, n, i, h)
  }

  /** The responsible peer, which is `i` or the next one. */
  function Home(net: Net, n: nat, i: nat, h: U16): (r: nat)
    requires i < n <= |net|
    ensures r < n
  {
    if Gap(net, n, Before(i, n), h) then i else Next(i, n)
  }

  /** A ring of `n` peers with a store each. */
  ghost predicate Cluster(net: Net, n: nat, tables: seq<Table>) {
    Ring(net, n) && |net| == |tables| == n && DistinctAddresses(net) && AllStorable(tables)
  }

  /** In a ring, a request is served by the peer it is sent to or by the next one, or dropped. */
  lemma EnterInRing(net: Net, n: nat, hash: Bytes -> nat, tables: seq<Table>, i: nat, raw: Bytes, hops: nat)
    requires Cluster(net, n, tables) && i < n && CompleteClient(raw) && hops >= 1
    ensures Sized(DecodeClient(raw))
    ensures var d := DecodeClient(raw);
            var h := KeyId(hash, d.key);
            var r := Home(net, n, i, h);
            Enter(net, hash, tables, i, raw, hops) ==
              if Reached(net, n, i, h) then
                Outcome(tables[r := NextTable(d, tables[r])], Replies(d, tables[r]), Faults(d, tables[r]))
              else Outcome(tables, [], false)
  {
    DecodedSized(raw);
    var h := KeyId(hash, DecodeClient(raw).key);
    RouteInRing(net, n, i, h);
    if Gap(net, n, i, h) && !Gap(net, n, Before(i, n), h) {
      RedirectIsServed(net, n, i, h);
      MailArrives(net, Next(i, n), raw);
    }
  }

  // ----- one map -----

  /** Peer `i` is the one for the key. */
  predicate Owns(net: Net, n: nat, hash: Bytes -> nat, i: nat, k: Bytes)
    requires i < n <= |net|
  {
    Gap(net, n, Before(i, n), KeyId(hash, k))
  }

  /** Every stored key is where it belongs. */
  ghost predicate AtHome(net: Net, n: nat, hash: Bytes -> nat, tables: seq<Table>)
    requires |net| == |tables| == n
  {
    forall i {:trigger tables[i]} :: 0 <= i < n ==> forall k {:trigger k in tables[i]} :: k in tables[i] ==>
      Owns(net, n, hash, i, k)
  }

  ghost predicate Inside(t: Table, m: Table) {
    forall k {:trigger k in t} :: k in t ==> k in m && m[k] == t[k]
  }

  ghost predicate Somewhere(tables: seq<Table>, k: Bytes) {
    exists i {:trigger tables[i]} :: 0 <= i < |tables| && k in tables[i]
  }

  /** The map has the keys and values of all stores, and no others. */
  ghost predicate Merges(tables: seq<Table>, m: Table) {
    && (forall i {:trigger tables[i]} :: 0 <= i < |tables| ==> Inside(tables[i], m))
    && (forall k {:trigger k in m} :: k in m ==> Somewhere(tables, k))
  }

  lemma OwnerIsUnique(net: Net, n: nat, hash: Bytes -> nat, i: nat, r: nat, k: Bytes)
    requires Ring(net, n) && i < n && r < n && Owns(net, n, hash, i, k) && Owns(net, n, hash, r, k)
    ensures i == r
  {
    GapIsUnique(net, n, Before(i, n), Before(r, n), KeyId(hash, k));
  }

  /** Only the responsible peer can have a key. */
  lemma OnlyAtHome(net: Net, n: nat, hash: Bytes -> nat, tables: seq<Table>, r: nat, k: Bytes)
    requires Ring(net, n) && |net| == |tables| == n && AtHome(net, n, hash, tables)
    requires r < n && Owns(net, n, hash, r, k)
    ensures forall i {:trigger tables[i]} :: 0 <= i < n && i != r ==> k !in tables[i]
  {
    forall i {:trigger tables[i]} | 0 <= i < n && k in tables[i]
      ensures i == r
    {
      OwnerIsUnique(net, n, hash, i, r, k);
    }
  }

  /** The responsible peer knows what the map knows of a key. */
  lemma HomeKnows(tables: seq<Table>, m: Table, r: nat, k: Bytes)
    requires Merges(tables, m) && r < |tables|
    requires forall i {:trigger tables[i]} :: 0 <= i < |tables| && i != r ==> k !in tables[i]
    ensures k in m <==> k in tables[r]
    ensures k in m ==> m[k] == tables[r][k]
  {
    if k in m {
      assert Somewhere(tables, k);
    }
  }

  /** What the responsible peer does is what the map server does. */
  lemma SameService(d: ClientMessage, m: Table, m': Table)
    requires Sized(d) && Storable(m) && Storable(m')
    requires (d.key in m <==> d.key in m') && (d.key in m ==> m[d.key] == m'[d.key])
    ensures Replies(d, m) == Replies(d, m') && (Faults(d, m) <==> Faults(d, m'))
  {
  }

  lemma NextOwn(d: ClientMessage, t: Table, m: Table)
    requires (d.key in m <==> d.key in t) && (d.key in m ==> m[d.key] == t[d.key])
    ensures d.key in NextTable(d, m) <==> d.key in NextTable(d, t)
    ensures d.key in NextTable(d, m) ==> NextTable(d, m)[d.key] == NextTable(d, t)[d.key]
  {
  }

  /** A request at the responsible peer changes its store and the map alike. */
  lemma MergesNext(tables: seq<Table>, m: Table, r: nat, d: ClientMessage)
    requires Merges(tables, m) && r < |tables|
    requires forall i {:trigger tables[i]} :: 0 <= i < |tables| && i != r ==> d.key !in tables[i]
    ensures Merges(tables[r := NextTable(d, tables[r])], NextTable(d, m))
  {
    var t, m' := NextTable(d, tables[r]), NextTable(d, m);
    var tables' := tables[r := t];
    HomeKnows(tables, m, r, d.key);
    NextOwn(d, tables[r], m);
    forall i | 0 <= i < |tables|
      ensures Inside(tables'[i], m')
    {
      assert Inside(tables[i], m);
      if i == r {
        InsideNext(d, tables[r], m);
      } else {
        InsideOther(d, tables[i], m);
      }
    }
    forall k | k in m'
      ensures Somewhere(tables', k)
    {
      StillSomewhere(tables, m, r, d, k);
    }
  }

  lemma InsideNext(d: ClientMessage, t: Table, m: Table)
    requires Inside(t, m) && (d.key in m <==> d.key in t)
    ensures Inside(NextTable(d, t), NextTable(d, m))
  {
    NextOwn(d, t, m);
    forall k | k in NextTable(d, t)
      ensures k in NextTable(d, m) && NextTable(d, m)[k] == NextTable(d, t)[k]
    {
      NextOther(d, m, k);
      NextOther(d, t, k);
    }
  }

  lemma InsideOther(d: ClientMessage, t: Table, m: Table)
    requires Inside(t, m) && d.key !in t
    ensures Inside(t, NextTable(d, m))
  {
    forall k | k in t
      ensures k in NextTable(d, m) && NextTable(d, m)[k] == t[k]
    {
      NextOther(d, m, k);
    }
  }

  lemma StillSomewhere(tables: seq<Table>, m: Table, r: nat, d: ClientMessage, k: Bytes)
    requires Merges(tables, m) && r < |tables| && k in NextTable(d, m)
    requires k == d.key ==> k in NextTable(d, tables[r])
    ensures Somewhere(tables[r := NextTable(d, tables[r])], k)
  {
    var tables' := tables[r := NextTable(d, tables[r])];
    NextOther(d, m, k);
    NextOther(d, tables[r], k);
    if k == d.key {
      assert k in tables'[r];
    } else {
      assert Somewhere(tables, k);
      var i :| 0 <= i < |tables| && k in tables[i];
      assert k in tables'[i];
    }
  }

  lemma StaysHome(net: Net, n: nat, hash: Bytes -> nat, tables: seq<Table>, r: nat, d: ClientMessage)
    requires |net| == |tables| == n && AtHome(net, n, hash, tables) && r < n && Owns(net, n, hash, r, d.key)
    ensures AtHome(net, n, hash, tables[r := NextTable(d, tables[r])])
  {
    forall k | k in NextTable(d, tables[r])
      ensures Owns(net, n, hash, r, k)
    {
      NextOther(d, tables[r], k);
    }
  }

  lemma StaysStorable(tables: seq<Table>, r: nat, d: ClientMessage)
    requires AllStorable(tables) && r < |tables| && Sized(d)
    ensures AllStorable(tables[r := NextTable(d, tables[r])])
  {
    NextStorable(d, tables[r]);
  }

  // ----- runs -----

  /** The stores are where they belong and make up the map. */
  ghost predicate OneMap(net: Net, n: nat, hash: Bytes -> nat, tables: seq<Table>, m: Table) {
    Cluster(net, n, tables) && AtHome(net, n, hash, tables) && Merges(tables, m) && Storable(m)
  }

  lemma EmptyIsOneMap(net: Net, n: nat, hash: Bytes -> nat)
    requires Ring(net, n) && |net| == n && DistinctAddresses(net)
    ensures OneMap(net, n, hash, seq(n, _ => map[]), map[])
  {
  }

  /** One request: the ring does what a map server does, if it reaches the responsible peer, and
      nothing otherwise. */
  lemma EnterIsService(net: Net, n: nat, hash: Bytes -> nat, tables: seq<Table>, m: Table, i: nat, raw: Bytes,
                       hops: nat)
    requires OneMap(net, n, hash, tables, m) && i < n && CompleteClient(raw) && hops >= 1
    ensures Sized(DecodeClient(raw))
    ensures var d, o := DecodeClient(raw), Enter(net, hash, tables, i, raw, hops);
            if Reached(net, n, i, KeyId(hash, d.key)) then
              && o.replies == Replies(d, m) && (o.fault <==> Faults(d, m))
              && OneMap(net, n, hash, o.tables, NextTable(d, m))
            else o == Outcome(tables, [], false)
  {
    var d := DecodeClient(raw);
    var h := KeyId(hash, d.key);
    EnterInRing(net, n, hash, tables, i, raw, hops);
    if Reached(net, n, i, h) {
      var r := Home(net, n, i, h);
      HomeOwns(net, n, hash, i, d.key);
      OnlyAtHome(net, n, hash, tables, r, d.key);
      HomeKnows(tables, m, r, d.key);
      SameService(d, m, tables[r]);
      MergesNext(tables, m, r, d);
      StaysHome(net, n, hash, tables, r, d);
      StaysStorable(tables, r, d);
      NextStorable(d, m);
    }
  }

  lemma HomeOwns(net: Net, n: nat, hash: Bytes -> nat, i: nat, k: Bytes)
    requires Ring(net, n) && i < n && Reached(net, n, i, KeyId(hash, k))
    ensures Owns(net, n, hash, Home(net, n, i, KeyId(hash, k)), k)
  {
  }

  ghost predicate AllEnter(requests: seq<Request>, n: nat) {
    forall i {:trigger requests[i]} :: 0 <= i < |requests| ==> requests[i].at < n && CompleteClient(requests[i].raw)
  }

  /** The requests among the first `k` that reach the responsible peer, for the map server. */
  function Served(net: Net, n: nat, hash: Bytes -> nat, requests: seq<Request>, k: nat): (kept: seq<Bytes>)
    requires k <= |requests| && n <= |net| && AllEnter(requests, n)
    ensures Complete(kept)
  {
    if k == 0 then []
    else
      var q := requests[k - 1];
      Served(net, n, hash, requests, k - 1)
      + (if Reached(net, n, q.at, KeyId(hash, DecodeClient(q.raw).key)) then [q.raw] else [])
  }

  /** The stores after the first `k` requests. */
  ghost function Stores(net: Net, n: nat, hash: Bytes -> nat, tables: seq<Table>, requests: seq<Request>, k: nat,
                        hops: nat): (r: seq<Table>)
    requires k <= |requests| && AllEnter(requests, n) && Cluster(net, n, tables) && hops >= 1
    ensures Cluster(net, n, r)
  {
    if k == 0 then tables
    else
      var q := requests[k - 1];
      var t := Stores(net, n, hash, tables, requests, k - 1, hops);
      EnterKeeps(net, n, hash, t, q.at, q.raw, hops);
      Enter(net, hash, t, q.at, q.raw, hops).tables
  }

  lemma EnterKeeps(net: Net, n: nat, hash: Bytes -> nat, tables: seq<Table>, i: nat, raw: Bytes, hops: nat)
    requires Cluster(net, n, tables) && i < n && CompleteClient(raw) && hops >= 1
    ensures Cluster(net, n, Enter(net, hash, tables, i, raw, hops).tables)
  {
    var d := DecodeClient(raw);
    EnterInRing(net, n, hash, tables, i, raw, hops);
    StaysStorable(tables, Home(net, n, i, KeyId(hash, d.key)), d);
  }

  /** At every moment, up to the first fault, the stores make up the map of a single server that gets
      the requests that reach the responsible peers. */
  lemma {:induction false} ClusterIsOneMap(net: Net, n: nat, hash: Bytes -> nat, tables: seq<Table>, m: Table,
                                           requests: seq<Request>, k: nat, hops: nat, kept: seq<Bytes>)
    requires OneMap(net, n, hash, tables, m) && AllEnter(requests, n) && k <= |requests| && hops >= 1
    requires kept == Served(net, n, hash, requests, k)
    ensures OneMap(net, n, hash, Stores(net, n, hash, tables, requests, k, hops), TableAfter(kept, m, |kept|))
  {
    if k > 0 {
      var before, q := Served(net, n, hash, requests, k - 1), requests[k - 1];
      var now := Stores(net, n, hash, tables, requests, k - 1, hops);
      ClusterIsOneMap(net, n, hash, tables, m, requests, k - 1, hops, before);
      OneMapNext(net, n, hash, now, m, before, q, hops, kept);
    }
  }

  lemma OneMapNext(net: Net, n: nat, hash: Bytes -> nat, tables: seq<Table>, m: Table, kept: seq<Bytes>, q: Request,
                   hops: nat, kept': seq<Bytes>)
    requires Complete(kept) && q.at < n && CompleteClient(q.raw) && hops >= 1
    requires OneMap(net, n, hash, tables, TableAfter(kept, m, |kept|))
    requires kept' == kept + (if Reached(net, n, q.at, KeyId(hash, DecodeClient(q.raw).key)) then [q.raw] else [])
    ensures Complete(kept')
    ensures OneMap(net, n, hash, Enter(net, hash, tables, q.at, q.raw, hops).tables, TableAfter(kept', m, |kept'|))
  {
    if Reached(net, n, q.at, KeyId(hash, DecodeClient(q.raw).key)) {
      ReachedNext(net, n, hash, tables, m, kept, q, hops);
    } else {
      EnterIsService(net, n, hash, tables, TableAfter(kept, m, |kept|), q.at, q.raw, hops);
      assert kept + [] == kept;
    }
  }

  lemma ReachedNext(net: Net, n: nat, hash: Bytes -> nat, tables: seq<Table>, m: Table, kept: seq<Bytes>, q: Request,
                    hops: nat)
    requires Complete(kept) && q.at < n && CompleteClient(q.raw) && hops >= 1
    requires OneMap(net, n, hash, tables, TableAfter(kept, m, |kept|))
    requires Reached(net, n, q.at, KeyId(hash, DecodeClient(q.raw).key))
    ensures Complete(kept + [q.raw])
    ensures OneMap(net, n, hash, Enter(net, hash, tables, q.at, q.raw, hops).tables,
                   TableAfter(kept + [q.raw], m, |kept| + 1))
  {
    EnterIsService(net, n, hash, tables, TableAfter(kept, m, |kept|), q.at, q.raw, hops);
    TableAfterOne(kept, q.raw, m);
  }

  lemma {:induction false} TableAfterPrefix(kept: seq<Bytes>, raw: Bytes, m: Table, k: nat)
    requires Complete(kept) && CompleteClient(raw) && k <= |kept|
    ensures Complete(kept + [raw]) && TableAfter(kept + [raw], m, k) == TableAfter(kept, m, k)
  {
    if k > 0 {
      TableAfterPrefix(kept, raw, m, k - 1);
    }
  }

  lemma TableAfterOne(kept: seq<Bytes>, raw: Bytes, m: Table)
    requires Complete(kept) && CompleteClient(raw)
    ensures Complete(kept + [raw]) && TableAfter(kept + [raw], m, |kept|) == TableAfter(kept, m, |kept|)
    ensures TableAfter(kept + [raw], m, |kept| + 1) == NextTable(DecodeClient(raw), TableAfter(kept, m, |kept|))
  {
    TableAfterPrefix(kept, raw, m, |kept|);
  }

  /** Request `k` of a run gets the reply of the single server, or none if it reaches no responsible
      peer; and it kills a peer exactly if the single server dies of it. */
  lemma ClusterReplies(net: Net, n: nat, hash: Bytes -> nat, tables: seq<Table>, m: Table, requests: seq<Request>,
                       k: nat, hops: nat)
    requires OneMap(net, n, hash, tables, m) && AllEnter(requests, n) && k < |requests| && hops >= 1
    ensures var q, t := requests[k], Stores(net, n, hash, tables, requests, k, hops);
            var kept, o := Served(net, n, hash, requests, k), Enter(net, hash, t, q.at, q.raw, hops);
            if Reached(net, n, q.at, KeyId(hash, DecodeClient(q.raw).key)) then
              && Complete(kept + [q.raw]) && o.replies == RepliesTo(kept + [q.raw], m, |kept|)
              && (o.fault <==> DiesOf(kept + [q.raw], m, |kept|))
            else o.replies == [] && !o.fault
  {
    var q, t := requests[k], Stores(net, n, hash, tables, requests, k, hops);
    var kept := Served(net, n, hash, requests, k);
    ClusterIsOneMap(net, n, hash, tables, m, requests, k, hops, kept);
    EnterIsService(net, n, hash, t, TableAfter(kept, m, |kept|), q.at, q.raw, hops);
    TableAfterOne(kept, q.raw, m);
  }

  /** A GET that reaches the responsible peer returns what the last request to write its key put
      there, wherever in the ring that request was sent. */
  lemma ClusterGet(net: Net, n: nat, hash: Bytes -> nat, tables: seq<Table>, m: Table, requests: seq<Request>,
                   k: nat, hops: nat)
    requires OneMap(net, n, hash, tables, m) && AllEnter(requests, n) && k < |requests| && hops >= 1
    requires DecodeClient(requests[k].raw).get != 0
    requires Reached(net, n, requests[k].at, KeyId(hash, DecodeClient(requests[k].raw).key))
    ensures var q, t := requests[k], Stores(net, n, hash, tables, requests, k, hops);
            var kept := Served(net, n, hash, requests, k);
            && Complete(kept + [q.raw])
            && CarriesLastWrite(kept + [q.raw], m, |kept|, Enter(net, hash, t, q.at, q.raw, hops).replies)
  {
    var kept := Served(net, n, hash, requests, k);
    ClusterReplies(net, n, hash, tables, m, requests, k, hops);
    GetReturnsLastWrite(kept + [requests[k].raw], m, |kept|);
  }
}
