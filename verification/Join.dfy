/** How a ring stabilizes and how it takes in a joiner, one join at a time. */
module Joins {
  import opened Codec
  import opened Peers
  import opened Rings

  // ----- stabilize waves -----

  /** Peer `a` sends stabilize to its next peer. */
  function Wave(net: Net, a: nat): System
    requires a < |net|
  {
    if net[a].next.None? then Crashed
    else System(net, [SendTo(net[a].next.value, EncodePeer(StabilizeMessage(net[a].self)))])
  }

  lemma StabilizeDecodes(c: Contact)
    ensures IsControl(EncodePeer(StabilizeMessage(c)))
    ensures DecodePeer(EncodePeer(StabilizeMessage(c))) == StabilizeMessage(c)
  {
    PeerRoundTrip(StabilizeMessage(c));
  }

  lemma NotifyDecodes(c: Contact)
    ensures IsControl(EncodePeer(NotifyMessage(c)))
    ensures DecodePeer(EncodePeer(NotifyMessage(c))) == NotifyMessage(c)
  {
    PeerRoundTrip(NotifyMessage(c));
  }

  lemma ReactStabilize(v: View, c: Contact)
    ensures IsControl(EncodePeer(StabilizeMessage(c)))
    ensures React(v, EncodePeer(StabilizeMessage(c))) == OnStabilize(v, StabilizeMessage(c))
    ensures Named(StabilizeMessage(c)) == c
  {
    StabilizeDecodes(c);
  }

  lemma ReactNotify(v: View, c: Contact)
    requires v.next.Some?
    ensures IsControl(EncodePeer(NotifyMessage(c)))
    ensures React(v, EncodePeer(NotifyMessage(c))) == Step(v.(next := Some(c)), [])
  {
    NotifyDecodes(c);
  }

  /** A joiner without a next record does not survive the answer to its join. */
  lemma NotifyNeedsNext(v: View, c: Contact)
    ensures IsControl(EncodePeer(NotifyMessage(c)))
    ensures React(v, EncodePeer(NotifyMessage(c))) == Fault <==> v.next.None?
  {
    NotifyDecodes(c);
  }

  /** Peers `x` and `y` are neighbours as both see it, and `y` is not a base peer. */
  predicate Linked(net: Net, x: nat, y: nat)
    requires x < |net| && y < |net|
  {
    && net[x].next == Some(net[y].self)
    && net[y].prev == Some(net[x].self)
    && !net[y].isBase && net[y].next.Some?
  }

  /** The wave passes a correct link and changes nothing. */
  lemma WaveStep(net: Net, x: nat, y: nat)
    requires x < |net| && y < |net| && DistinctAddresses(net) && Linked(net, x, y)
    ensures Deliver(Wave(net, x)) == Wave(net, y)
  {
    var raw := EncodePeer(StabilizeMessage(net[x].self));
    ReactStabilize(net[y], net[x].self);
    DeliverMail(net, y, raw, net[y], Wave(net, y).flight);
    assert net[y := net[y]] == net;
  }

  /** Every link on the way of `k` places from peer `a` is correct. */
  ghost predicate Arc(net: Net, n: nat, a: nat, k: nat)
    requires a < n <= |net|
  {
    forall m {:trigger Walk(a, m, n)} :: 0 <= m < k ==> Linked(net, Walk(a, m, n), Next(Walk(a, m, n), n))
  }

  /** Along correct links, a stabilize wave travels from peer to peer and changes nothing. */
  lemma WaveTravels(net: Net, n: nat, a: nat, k: nat)
    requires a < n <= |net| && DistinctAddresses(net) && Arc(net, n, a, k)
    ensures After(Wave(net, a), k) == Wave(net, Walk(a, k, n))
  {
    var states := (m: nat) => Wave(net, Walk(a, m, n));
    forall m: nat | Stage(m) && m < k
      ensures Deliver(states(m)) == states(m + 1)
    {
      WaveStep(net, Walk(a, m, n), Walk(a, m + 1, n));
    }
    Stages(Deliver, states, k);
  }

  /** At a correct link to a base peer the wave turns round and makes the sender its own next
      peer. */
  lemma WaveAtBase(net: Net, x: nat, y: nat)
    requires x < |net| && y < |net| && x != y && DistinctAddresses(net)
    requires net[x].next == Some(net[y].self) && net[y].prev == Some(net[x].self) && net[y].isBase
    ensures After(Wave(net, x), 2) == System(net[x := net[x].(next := Some(net[x].self))], [])
  {
    var c := net[x].self;
    ReactStabilize(net[y], c);
    var notice := EncodePeer(NotifyMessage(c));
    DeliverMail(net, y, EncodePeer(StabilizeMessage(c)), net[y], [SendTo(c, notice)]);
    assert net[y := net[y]] == net;
    ReactNotify(net[x], c);
    DeliverMail(net, x, notice, net[x].(next := Some(c)), []);
    assert Deliver(Wave(net, x)) == Mail(net, x, notice);
    AfterNext(Wave(net, x), 0, Wave(net, x));
  }

  // ----- stabilizing a consistent ring -----

  ghost predicate NoBase(net: Net, n: nat)
    requires n <= |net|
  {
    forall i {:trigger net[i]} :: 0 <= i < n ==> !net[i].isBase
  }

  lemma RingLinks(net: Net, n: nat, x: nat)
    requires Ring(net, n) && x < n
    ensures net[x].next == Some(net[Next(x, n)].self) && net[Next(x, n)].prev == Some(net[x].self)
    ensures net[Next(x, n)].next.Some? && Next(x, n) != x
  {
    assert LinkedAt(net, n, x) && LinkedAt(net, n, Next(x, n));
  }

  /** As long as the wave meets no base peer, it travels on and the ring stays as it is. */
  lemma WaveInRing(net: Net, n: nat, a: nat, k: nat)
    requires Ring(net, n) && DistinctAddresses(net) && a < n
    requires forall m {:trigger Walk(a, m, n)} :: 0 <= m < k ==> !net[Next(Walk(a, m, n), n)].isBase
    ensures After(Wave(net, a), k) == Wave(net, Walk(a, k, n))
  {
    RingLinks(net, n, a);
    forall m | 0 <= m < k
      ensures Linked(net, Walk(a, m, n), Next(Walk(a, m, n), n))
    {
      RingLinks(net, n, Walk(a, m, n));
    }
    WaveTravels(net, n, a, k);
  }

  /** The first base peer that a wave from `a` meets. */
  lemma FirstBase(net: Net, n: nat, a: nat, m: nat) returns (f: nat)
    requires a < n <= |net| && net[Next(Walk(a, m, n), n)].isBase
    ensures net[Next(Walk(a, f, n), n)].isBase
    ensures forall l {:trigger Walk(a, l, n)} :: 0 <= l < f ==> !net[Next(Walk(a, l, n), n)].isBase
  {
    f := 0;
    while !net[Next(Walk(a, f, n), n)].isBase
      invariant f <= m
      invariant forall l {:trigger Walk(a, l, n)} :: 0 <= l < f ==> !net[Next(Walk(a, l, n), n)].isBase
      decreases m - f
    {
      f := f + 1;
    }
  }

  /** The wave from `a` never changes the net. */
  ghost predicate Keeps(net: Net, a: nat)
    requires a < |net|
  {
    forall k: nat {:trigger After(Wave(net, a), k)} ::
      After(Wave(net, a), k).System? && After(Wave(net, a), k).net == net
  }

  /** A consistent ring is a fixed point of stabilize if and only if none of its peers is a
      base peer. */
  lemma StabilizeFixesRing(net: Net, n: nat, a: nat)
    requires Ring(net, n) && DistinctAddresses(net) && a < n
    ensures Keeps(net, a) <==> NoBase(net, n)
  {
    RingLinks(net, n, a);
    if NoBase(net, n) {
      forall k: nat
        ensures After(Wave(net, a), k).System? && After(Wave(net, a), k).net == net
      {
        WaveInRing(net, n, a, k);
        RingLinks(net, n, Walk(a, k, n));
      }
    } else {
      var r :| 0 <= r < n && net[r].isBase;
      WalkMeets(a, Before(r, n), n);
      var f := FirstBase(net, n, a, Places(a, Before(r, n), n));
      BaseBreaks(net, n, a, f);
    }
  }

  lemma BaseBreaks(net: Net, n: nat, a: nat, f: nat)
    requires Ring(net, n) && DistinctAddresses(net) && a < n && net[Next(Walk(a, f, n), n)].isBase
    requires forall l {:trigger Walk(a, l, n)} :: 0 <= l < f ==> !net[Next(Walk(a, l, n), n)].isBase
    ensures !Keeps(net, a)
  {
    var x := Walk(a, f, n);
    var broken := net[x := net[x].(next := Some(net[x].self))];
    RingLinks(net, n, a);
    WaveInRing(net, n, a, f);
    RingLinks(net, n, x);
    WaveAtBase(net, x, Next(x, n));
    AfterBoth(Wave(net, a), f, Wave(net, x), 2, System(broken, []), f + 2);
    assert broken[x] != net[x] by {
      assert net[x].self.id != net[Next(x, n)].self.id;
    }
  }

  // ----- joining -----

  predicate IsJoin(d: PeerMessage) {
    d.finger == 0 && d.fack == 0 && d.join != 0
  }

  /** The join a peer sends for itself, with its id as the hash id. */
  function JoinMessage(c: Contact): PeerMessage {
    Naming(NO_FLAGS.(join := JOIN_BIT, hashId := c.id), c)
  }

  function JoinBytes(c: Contact): (b: Bytes)
    ensures |b| == PEER_SIZE
  {
    EncodePeer(JoinMessage(c))
  }

  lemma JoinDecodes(c: Contact)
    ensures IsControl(JoinBytes(c))
    ensures var d := DecodePeer(JoinBytes(c)); IsJoin(d) && d.hashId == c.id && Named(d) == c
  {
    PeerRoundTrip(JoinMessage(c));
  }

  lemma ReactJoin(net: Net, n: nat, i: nat, raw: Bytes)
    requires Ring(net, n) && i < n && IsControl(raw) && IsJoin(DecodePeer(raw))
    ensures var d := DecodePeer(raw);
            React(net[i], raw) ==
              if Gap(net, n, Before(i, n), d.hashId) then
                Step(net[i].(prev := Some(Named(d))), [SendTo(Named(d), EncodePeer(NotifyMessage(net[i].self)))])
              else Step(net[i], [SendTo(net[Next(i, n)].self, raw)])
  {
    assert LinkedAt(net, n, i);
  }

  /** Outside the gap below the peers it passes, a join is forwarded unchanged. */
  lemma JoinTravels(net: Net, n: nat, i: nat, raw: Bytes, k: nat)
    requires Ring(net, n) && DistinctAddresses(net) && i < n
    requires IsControl(raw) && IsJoin(DecodePeer(raw))
    requires forall m {:trigger Walk(i, m, n)} :: 0 <= m < k ==>
               !Gap(net, n, Before(Walk(i, m, n), n), DecodePeer(raw).hashId)
    ensures After(Mail(net, i, raw), k) == Mail(net, Walk(i, k, n), raw)
  {
    forall m | 0 <= m < k
      ensures PassesOn(net, n, Walk(i, m, n), raw)
    {
      ReactJoin(net, n, Walk(i, m, n), raw);
    }
    MailTravels(net, n, i, raw, k);
  }

  /** A joiner whose id is in no gap is forwarded for ever. */
  lemma JoinOutside(net: Net, n: nat, i: nat, raw: Bytes, k: nat)
    requires Ring(net, n) && DistinctAddresses(net) && i < n
    requires IsControl(raw) && IsJoin(DecodePeer(raw)) && !InSomeGap(net, n, DecodePeer(raw).hashId)
    ensures After(Mail(net, i, raw), k) == Mail(net, Walk(i, k, n), raw)
  {
    assert forall m :: 0 <= m < k ==> !Gap(net, n, Before(Walk(i, m, n), n), DecodePeer(raw).hashId);
    JoinTravels(net, n, i, raw, k);
  }

  /** The last peer of the net wants to join the ring of the others, in the gap above peer `j`.
      It has a record for its next peer and none for its previous one. */
  ghost predicate Joining(net: Net, n: nat, j: nat) {
    && Ring(net, n) && |net| == n + 1 && NoBase(net, n) && DistinctAddresses(net)
    && j < n && Gap(net, n, j, net[n].self.id)
    && net[n].next.Some? && net[n].prev.None? && !net[n].isBase
  }

  /** After the join: the upper neighbour `t` has taken the joiner for its previous peer, and
      the joiner has taken `t` for its next one. */
  function Welcomed(net: Net, n: nat, j: nat): Net
    requires j < n && |net| == n + 1
  {
    var t := Next(j, n);
    net[t := net[t].(prev := Some(net[n].self))][n := net[n].(next := Some(net[t].self))]
  }

  /** After the first wave: the lower neighbour knows the joiner. */
  function Noticed(net: Net, n: nat, j: nat): Net
    requires j < n && |net| == n + 1
  {
    var w := Welcomed(net, n, j);
    w[j := w[j].(next := Some(net[n].self))]
  }

  /** After the second wave: the joiner knows its lower neighbour. */
  function Grown(net: Net, n: nat, j: nat): Net
    requires j < n && |net| == n + 1
  {
    var w := Noticed(net, n, j);
    w[n := w[n].(prev := Some(net[j].self))]
  }

  /** The grown net, with the joiner at its place in the ring. */
  function InOrder(net: Net, n: nat, j: nat): Net
    requires j < n && |net| == n + 1
  {
    net[..j + 1] + [net[n]] + net[j + 1..n]
  }

  lemma JoinIsWelcomed(net: Net, n: nat, i: nat, j: nat)
    requires Joining(net, n, j) && i < n
    ensures After(Mail(net, i, JoinBytes(net[n].self)), Places(i, Next(j, n), n) + 2)
            == System(Welcomed(net, n, j), [])
  {
    var raw, t := JoinBytes(net[n].self), Next(j, n);
    JoinReachesUpper(net, n, i, j);
    JoinAtUpper(net, n, j);
    var k := Places(i, t, n);
    AfterBoth(Mail(net, i, raw), k, Mail(net, t, raw), 2, System(Welcomed(net, n, j), []), k + 2);
  }

  /** The way of a join round the ring. */
  lemma JoinReachesUpper(net: Net, n: nat, i: nat, j: nat)
    requires Joining(net, n, j) && i < n
    ensures var raw, t := JoinBytes(net[n].self), Next(j, n);
            After(Mail(net, i, raw), Places(i, t, n)) == Mail(net, t, raw)
  {
    var c, t := net[n].self, Next(j, n);
    var raw, k := JoinBytes(c), Places(i, t, n);
    JoinDecodes(c);
    WalkMeets(i, t, n);
    forall m | 0 <= m < k
      ensures !Gap(net, n, Before(Walk(i, m, n), n), c.id)
    {
      if Gap(net, n, Before(Walk(i, m, n), n), c.id) {
        GapIsUnique(net, n, Before(Walk(i, m, n), n), j, c.id);
      }
    }
    JoinTravels(net, n, i, raw, k);
  }

  /** The last two deliveries of a join. */
  lemma JoinAtUpper(net: Net, n: nat, j: nat)
    requires Joining(net, n, j)
    ensures After(Mail(net, Next(j, n), JoinBytes(net[n].self)), 2) == System(Welcomed(net, n, j), [])
  {
    var c, t := net[n].self, Next(j, n);
    var raw, notice := JoinBytes(c), EncodePeer(NotifyMessage(net[t].self));
    var v := net[t].(prev := Some(c));
    var net' := net[t := v];
    JoinDecodes(c);
    GapIsUnique(net, n, j, j, c.id);
    ReactJoin(net, n, t, raw);
    DeliverMail(net, t, raw, v, [SendTo(c, notice)]);
    SameAddresses(net, t, v);
    ReactNotify(net'[n], net[t].self);
    DeliverMail(net', n, notice, net'[n].(next := Some(net[t].self)), []);
    AfterTwo(Mail(net, t, raw), Mail(net', n, notice));
  }

  lemma SameAddresses(net: Net, i: nat, v: View)
    requires DistinctAddresses(net) && i < |net| && v.self == net[i].self
    ensures DistinctAddresses(net[i := v])
  {
    var net' := net[i := v];
    forall x, y | 0 <= x < y < |net'|
      ensures net'[x].self.ip != net'[y].self.ip || net'[x].self.port != net'[y].self.port
    {
      assert net'[x].self == net[x].self && net'[y].self == net[y].self;
    }
  }

  lemma AfterTwo(s: System, t: System)
    requires Deliver(s) == t
    ensures After(s, 2) == Deliver(t)
  {
    AfterNext(s, 0, s);
    AfterNext(s, 1, t);
  }

  // ----- two waves complete the join -----

  /** What the three changed peers look like along the way, and that the others stay. */
  lemma WelcomedFacts(net: Net, n: nat, j: nat)
    requires Joining(net, n, j)
    ensures var w, t := Welcomed(net, n, j), Next(j, n);
            && t != j && t < n && DistinctAddresses(w)
            && w[t] == net[t].(prev := Some(net[n].self))
            && w[n] == net[n].(next := Some(net[t].self))
            && (forall x {:trigger w[x]} :: 0 <= x < n && x != t ==> w[x] == net[x])
  {
    var t := Next(j, n);
    var v := net[t].(prev := Some(net[n].self));
    GapIsUnique(net, n, j, j, net[n].self.id);
    SameAddresses(net, t, v);
    SameAddresses(net[t := v], n, net[n].(next := Some(net[t].self)));
  }

  /** In `w`, no link between old peers has changed up to peer `j`. */
  ghost predicate OldUpTo(net: Net, n: nat, w: Net, j: nat)
    requires n <= |net| && j < n
  {
    && |w| == |net|
    && forall x {:trigger w[x]} :: 0 <= x < n ==>
         && w[x].self == net[x].self && w[x].isBase == net[x].isBase && w[x].next.Some?
         && (x != j ==> w[x].next == net[x].next) && (x != Next(j, n) ==> w[x].prev == net[x].prev)
  }

  /** From `a` to the lower neighbour, all links are still those of the old ring. */
  lemma OldLinks(net: Net, n: nat, w: Net, a: nat, j: nat)
    requires Ring(net, n) && NoBase(net, n) && a < n && j < n && OldUpTo(net, n, w, j)
    ensures Arc(w, n, a, Places(a, j, n))
  {
    WalkMeets(a, j, n);
    forall m | 0 <= m < Places(a, j, n)
      ensures Linked(w, Walk(a, m, n), Next(Walk(a, m, n), n))
    {
      var x := Walk(a, m, n);
      RingLinks(net, n, x);
      assert x != j;
      assert w[x].next == net[x].next && w[Next(x, n)].prev == net[Next(x, n)].prev;
    }
  }

  /** How many places a wave of peer `a` travels to peer `j`. That of the joiner, peer `n`, comes
      to the upper neighbour first. */
  function Way(a: nat, j: nat, n: nat): nat
    requires a <= n && j < n
  {
    if a < n then Places(a, j, n) else 1 + Places(Next(j, n), j, n)
  }

  /** The first wave, from any peer, old or new: the lower neighbour learns of the joiner. */
  lemma FirstWave(net: Net, n: nat, j: nat, a: nat)
    requires Joining(net, n, j) && a <= n
    ensures After(Wave(Welcomed(net, n, j), a), Way(a, j, n) + 2) == System(Noticed(net, n, j), [])
  {
    var w := Welcomed(net, n, j);
    FirstWaveTravels(net, n, j, a);
    WaveAtUpper(net, n, j);
    WaveThen(w, a, Way(a, j, n), j, 2, Noticed(net, n, j), Way(a, j, n) + 2);
  }

  /** A wave comes to peer `j`, and from there the net to rest. */
  lemma WaveThen(w: Net, a: nat, k: nat, j: nat, l: nat, u: Net, m: nat)
    requires a < |w| && j < |w| && m == k + l
    requires After(Wave(w, a), k) == Wave(w, j) && After(Wave(w, j), l) == System(u, [])
    ensures After(Wave(w, a), m) == System(u, [])
  {
    AfterBoth(Wave(w, a), k, Wave(w, j), l, System(u, []), m);
  }

  /** The way of the first wave up to peer `j`. */
  lemma FirstWaveTravels(net: Net, n: nat, j: nat, a: nat)
    requires Joining(net, n, j) && a <= n
    ensures var w := Welcomed(net, n, j); After(Wave(w, a), Way(a, j, n)) == Wave(w, j)
  {
    WelcomedFacts(net, n, j);
    WelcomedOld(net, n, j);
    WaveToLower(net, n, Welcomed(net, n, j), a, j);
  }

  lemma WaveArrives(w: Net, n: nat, b: nat, j: nat)
    requires b < n <= |w| && j < n && DistinctAddresses(w) && Arc(w, n, b, Places(b, j, n))
    ensures After(Wave(w, b), Places(b, j, n)) == Wave(w, j)
  {
    WalkMeets(b, j, n);
    WaveTravels(w, n, b, Places(b, j, n));
  }

  lemma OldWave(net: Net, n: nat, w: Net, a: nat, j: nat)
    requires Ring(net, n) && NoBase(net, n) && a < n && j < n && DistinctAddresses(w) && OldUpTo(net, n, w, j)
    ensures After(Wave(w, a), Way(a, j, n)) == Wave(w, j)
  {
    OldLinks(net, n, w, a, j);
    WaveArrives(w, n, a, j);
  }

  lemma JoinerLinked(net: Net, n: nat, w: Net, j: nat)
    requires Ring(net, n) && NoBase(net, n) && |net| == n + 1 && j < n && OldUpTo(net, n, w, j)
    requires w[n].next == Some(w[Next(j, n)].self) && w[Next(j, n)].prev == Some(w[n].self)
    ensures Linked(w, n, Next(j, n))
  {
  }

  /** While the joiner and the upper neighbour know each other, every wave comes to peer `j`. */
  lemma WaveToLower(net: Net, n: nat, w: Net, a: nat, j: nat)
    requires Ring(net, n) && NoBase(net, n) && |net| == n + 1 && a <= n && j < n && DistinctAddresses(w)
    requires OldUpTo(net, n, w, j)
    requires w[n].next == Some(w[Next(j, n)].self) && w[Next(j, n)].prev == Some(w[n].self)
    ensures After(Wave(w, a), Way(a, j, n)) == Wave(w, j)
  {
    if a < n {
      OldWave(net, n, w, a, j);
    } else {
      JoinerWave(net, n, w, j);
    }
  }

  lemma JoinerWave(net: Net, n: nat, w: Net, j: nat)
    requires Ring(net, n) && NoBase(net, n) && |net| == n + 1 && j < n && DistinctAddresses(w)
    requires OldUpTo(net, n, w, j)
    requires w[n].next == Some(w[Next(j, n)].self) && w[Next(j, n)].prev == Some(w[n].self)
    ensures After(Wave(w, n), Way(n, j, n)) == Wave(w, j)
  {
    var t := Next(j, n);
    OldWave(net, n, w, t, j);
    JoinerLinked(net, n, w, j);
    OneFurther(w, n, t, j, Way(t, j, n), Way(n, j, n));
  }

  lemma OneFurther(w: Net, n: nat, t: nat, j: nat, k: nat, l: nat)
    requires n < |w| && t < |w| && j < |w| && DistinctAddresses(w) && Linked(w, n, t)
    requires After(Wave(w, t), k) == Wave(w, j) && l == 1 + k
    ensures After(Wave(w, n), l) == Wave(w, j)
  {
    WaveOfJoiner(w, n, t, k, Wave(w, j));
  }

  /** A wave of the joiner passes the upper neighbour `t` as any other one does. */
  lemma WaveOfJoiner(w: Net, n: nat, t: nat, k: nat, s: System)
    requires n < |w| && t < |w| && DistinctAddresses(w) && Linked(w, n, t) && After(Wave(w, t), k) == s
    ensures After(Wave(w, n), 1 + k) == s
  {
    WaveStep(w, n, t);
    AfterNext(Wave(w, n), 0, Wave(w, n));
    AfterBoth(Wave(w, n), 1, Wave(w, t), k, s, 1 + k);
  }

  lemma WelcomedOld(net: Net, n: nat, j: nat)
    requires Joining(net, n, j)
    ensures var w := Welcomed(net, n, j);
            forall x {:trigger w[x]} :: 0 <= x < n ==>
              && w[x].self == net[x].self && w[x].isBase == net[x].isBase && w[x].next.Some?
              && w[x].next == net[x].next && (x != Next(j, n) ==> w[x].prev == net[x].prev)
  {
    var w := Welcomed(net, n, j);
    WelcomedFacts(net, n, j);
    forall x | 0 <= x < n
      ensures net[x].next.Some?
    {
      RingLinks(net, n, x);
    }
  }

  /** The upper neighbour corrects the lower one. */
  lemma WaveAtUpper(net: Net, n: nat, j: nat)
    requires Joining(net, n, j)
    ensures After(Wave(Welcomed(net, n, j), j), 2) == System(Noticed(net, n, j), [])
  {
    var w, t, c, p := Welcomed(net, n, j), Next(j, n), net[n].self, net[j].self;
    WelcomedFacts(net, n, j);
    RingLinks(net, n, j);
    ReactStabilize(w[t], p);
    var notice := EncodePeer(NotifyMessage(c));
    DeliverMail(w, t, EncodePeer(StabilizeMessage(p)), w[t], [SendTo(p, notice)]);
    assert w[t := w[t]] == w;
    assert Deliver(Wave(w, j)) == Mail(w, j, notice);
    ReactNotify(w[j], c);
    DeliverMail(w, j, notice, w[j].(next := Some(c)), []);
    AfterTwo(Wave(w, j), Mail(w, j, notice));
  }

  /** The second wave: the joiner learns of the lower neighbour. */
  lemma SecondWave(net: Net, n: nat, j: nat, a: nat)
    requires Joining(net, n, j) && a <= n
    ensures After(Wave(Noticed(net, n, j), a), Way(a, j, n) + 1) == System(Grown(net, n, j), [])
  {
    var w := Noticed(net, n, j);
    SecondWaveTravels(net, n, j, a);
    WaveAtJoiner(net, n, j);
    WaveThen(w, a, Way(a, j, n), j, 1, Grown(net, n, j), Way(a, j, n) + 1);
  }

  /** The way of the second wave up to peer `j`. */
  lemma SecondWaveTravels(net: Net, n: nat, j: nat, a: nat)
    requires Joining(net, n, j) && a <= n
    ensures var w := Noticed(net, n, j); After(Wave(w, a), Way(a, j, n)) == Wave(w, j)
  {
    var w := Noticed(net, n, j);
    WelcomedFacts(net, n, j);
    WelcomedOld(net, n, j);
    SameAddresses(Welcomed(net, n, j), j, w[j]);
    WaveToLower(net, n, w, a, j);
  }

  lemma WaveAtJoiner(net: Net, n: nat, j: nat)
    requires Joining(net, n, j)
    ensures After(Wave(Noticed(net, n, j), j), 1) == System(Grown(net, n, j), [])
  {
    var w, p := Noticed(net, n, j), net[j].self;
    WelcomedFacts(net, n, j);
    SameAddresses(Welcomed(net, n, j), j, w[j]);
    ReactStabilize(w[n], p);
    DeliverMail(w, n, EncodePeer(StabilizeMessage(p)), w[n].(prev := Some(p)), []);
    assert Wave(w, j) == Mail(w, n, EncodePeer(StabilizeMessage(p)));
    AfterNext(Wave(w, j), 0, Wave(w, j));
  }

  /** `g` is the net with the joiner linked in above peer `j`. */
  ghost predicate LinkedIn(net: Net, n: nat, j: nat, g: Net)
    requires j < n && |net| == n + 1
  {
    && |g| == |net|
    && g[n] == net[n].(prev := Some(net[j].self), next := Some(net[Next(j, n)].self))
    && g[j] == net[j].(next := Some(net[n].self))
    && g[Next(j, n)] == net[Next(j, n)].(prev := Some(net[n].self))
    && forall x {:trigger g[x]} :: 0 <= x < n && x != j && x != Next(j, n) ==> g[x] == net[x]
  }

  lemma GrownIsLinked(net: Net, n: nat, j: nat)
    requires Joining(net, n, j)
    ensures LinkedIn(net, n, j, Grown(net, n, j))
  {
    WelcomedFacts(net, n, j);
  }

  /** With the joiner at its place, such a net is a consistent ring. */
  lemma LinkedIsRing(net: Net, n: nat, j: nat, g: Net)
    requires Joining(net, n, j) && LinkedIn(net, n, j, g)
    ensures Ring(InOrder(g, n, j), |net|)
  {
    var r, n' := InOrder(g, n, j), |net|;
    GapIsUnique(net, n, j, j, net[n].self.id);
    forall x | 0 <= x < n'
      ensures LinkedAt(r, n', x)
    {
      LinkInOrder(net, n, j, g, x);
    }
    forall x, y | 0 <= x < y < n'
      ensures r[x].self.id < r[y].self.id
    {
      SelfInOrder(net, n, j, g, x);
      SelfInOrder(net, n, j, g, y);
    }
  }

  lemma SelfInOrder(net: Net, n: nat, j: nat, g: Net, x: nat)
    requires Joining(net, n, j) && LinkedIn(net, n, j, g) && x < |net|
    ensures InOrder(g, n, j)[x].self
            == if x <= j then net[x].self else if x == j + 1 then net[n].self else net[x - 1].self
  {
  }

  lemma LinkInOrder(net: Net, n: nat, j: nat, g: Net, x: nat)
    requires Joining(net, n, j) && LinkedIn(net, n, j, g) && x < |net|
    ensures LinkedAt(InOrder(g, n, j), |net|, x)
  {
    GapIsUnique(net, n, j, j, net[n].self.id);
    SelfInOrder(net, n, j, g, Next(x, n + 1));
    SelfInOrder(net, n, j, g, Before(x, n + 1));
    if x <= j {
      assert InOrder(g, n, j)[x] == g[x];
      assert LinkedAt(net, n, x);
    } else if x > j + 1 {
      assert InOrder(g, n, j)[x] == g[x - 1];
      assert LinkedAt(net, n, x - 1);
    }
  }

  /** One join and two stabilize waves, each started by any peer, old or new, complete the ring:
      `j`, the joiner and the old successor of `j` are mutually linked, in the right order,
      and no other link has changed. */
  lemma JoinGrowsRing(net: Net, n: nat, j: nat, entry: nat, a: nat, b: nat)
    requires Joining(net, n, j) && entry < n && a <= n && b <= n
    ensures After(Mail(net, entry, JoinBytes(net[n].self)), Places(entry, Next(j, n), n) + 2)
            == System(Welcomed(net, n, j), [])
    ensures After(Wave(Welcomed(net, n, j), a), Way(a, j, n) + 2) == System(Noticed(net, n, j), [])
    ensures After(Wave(Noticed(net, n, j), b), Way(b, j, n) + 1) == System(Grown(net, n, j), [])
    ensures LinkedIn(net, n, j, Grown(net, n, j))
    ensures Ring(InOrder(Grown(net, n, j), n, j), |net|)
  {
    JoinIsWelcomed(net, n, entry, j);
    FirstWave(net, n, j, a);
    SecondWave(net, n, j, b);
    GrownIsLinked(net, n, j);
    LinkedIsRing(net, n, j, Grown(net, n, j));
  }

  // ----- the first join -----

  /** A peer that is alone and its first joiner are a ring after the join and one wave of either. */
  lemma FirstJoinMakesRing(net: Net, net1: Net, net2: Net)
    requires |net| == 2 && DistinctAddresses(net) && net[0].self.id != net[1].self.id
    requires net[0].next.None? && net[0].prev.None? && net[1].next.Some? && net[1].prev.None?
    requires net1 == [net[0].(next := Some(net[1].self), prev := Some(net[1].self)),
                      net[1].(next := Some(net[0].self))]
    requires net2 == [net1[0], net1[1].(prev := Some(net[0].self))]
    ensures After(Mail(net, 0, JoinBytes(net[1].self)), 2) == System(net1, [])
    ensures After(Wave(net1, 0), 1) == System(net2, [])
    ensures !net[0].isBase ==> After(Wave(net1, 1), 2) == System(net2, [])
    ensures Ring(if net[0].self.id < net[1].self.id then net2 else [net2[1], net2[0]], 2)
  {
    JoinAlone(net, net1);
    SameAddresses(net, 0, net1[0]);
    SameAddresses(net[0 := net1[0]], 1, net1[1]);
    assert net1 == net[0 := net1[0]][1 := net1[1]];
    FirstWaveOfTwo(net1);
    if !net[0].isBase {
      WaveOfJoiner(net1, 1, 0, 1, System(net2, []));
    }
    TwoAreRing(if net[0].self.id < net[1].self.id then net2 else [net2[1], net2[0]]);
  }

  lemma TwoAreRing(net: Net)
    requires |net| == 2 && net[0].self.id < net[1].self.id
    requires net[0].next == net[0].prev == Some(net[1].self) && net[1].next == net[1].prev == Some(net[0].self)
    ensures Ring(net, 2)
  {
  }

  /** Both deliveries of the first join. */
  lemma JoinAlone(net: Net, net1: Net)
    requires |net| == 2 && DistinctAddresses(net) && net[0].next.None? && net[1].next.Some?
    requires net1 == [net[0].(next := Some(net[1].self), prev := Some(net[1].self)),
                      net[1].(next := Some(net[0].self))]
    ensures After(Mail(net, 0, JoinBytes(net[1].self)), 2) == System(net1, [])
  {
    var b, c := net[0].self, net[1].self;
    var mid, notice := net[0 := net1[0]], EncodePeer(NotifyMessage(b));
    ReactFirstJoin(net[0], c);
    DeliverMail(net, 0, JoinBytes(c), net1[0], [SendTo(c, notice)]);
    SameAddresses(net, 0, net1[0]);
    ReactNotify(mid[1], b);
    DeliverMail(mid, 1, notice, net1[1], []);
    assert mid[1 := net1[1]] == net1;
    AfterTwo(Mail(net, 0, JoinBytes(c)), Mail(mid, 1, notice));
  }

  lemma ReactFirstJoin(v: View, c: Contact)
    requires v.next.None?
    ensures IsControl(JoinBytes(c))
    ensures React(v, JoinBytes(c))
            == Step(v.(next := Some(c), prev := Some(c)), [SendTo(c, EncodePeer(NotifyMessage(v.self)))])
  {
    JoinDecodes(c);
  }

  lemma FirstWaveOfTwo(net: Net)
    requires |net| == 2 && DistinctAddresses(net) && net[0].next == Some(net[1].self) && net[1].prev.None?
    ensures After(Wave(net, 0), 1) == System([net[0], net[1].(prev := Some(net[0].self))], [])
  {
    var v := net[1].(prev := Some(net[0].self));
    ReactStabilize(net[1], net[0].self);
    DeliverMail(net, 1, EncodePeer(StabilizeMessage(net[0].self)), v, []);
    assert net[1 := v] == [net[0], v];
    AfterNext(Wave(net, 0), 0, Wave(net, 0));
  }
}
