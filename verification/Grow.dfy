/** Growing a ring from a lone peer, join by join. What the peers do does not depend on their
    positions in the net, so that each join can start from the net the one before has left. */
module Building {
  import opened Seqs
  import opened Codec
  import opened Peers
  import opened Rings
  import opened Joins

  // ----- positions do not matter -----

  /** The same peers, in another order. */
  predicate SamePeers(net: Net, other: Net) {
    multiset(net) == multiset(other)
  }

  ghost predicate SameSystems(s: System, t: System) {
    match s
    case Crashed => t.Crashed?
    case Strayed => t.Strayed?
    case System(net, flight) =>
      t.System? && SamePeers(net, t.net) && flight == t.flight
      && DistinctAddresses(net) && DistinctAddresses(t.net)
  }

  lemma ReactKeepsSelf(v: View, raw: Bytes)
    requires IsControl(raw)
    ensures React(v, raw).Step? ==> React(v, raw).view.self == v.self && React(v, raw).view.isBase == v.isBase
  {
  }

  /** Only one peer listens at an address. */
  lemma OneListens(net: Net, i: nat, j: nat, e: Envelope)
    requires DistinctAddresses(net) && i < |net| && j < |net| && Listens(net[i], e) && Listens(net[j], e)
    ensures i == j
  {
  }

  lemma Located(net: Net, v: View) returns (i: nat)
    requires v in multiset(net)
    ensures i < |net| && net[i] == v
  {
    assert v in net;
    i :| i < |net| && net[i] == v;
  }

  /** What has a receiver in one net has the same one in the other. */
  lemma SameReceiver(net: Net, other: Net, e: Envelope)
    requires SamePeers(net, other) && DistinctAddresses(other) && Receiver(net, e, 0) < |net|
    ensures Receiver(other, e, 0) < |other| && other[Receiver(other, e, 0)] == net[Receiver(net, e, 0)]
  {
    var r, q := Receiver(net, e, 0), Receiver(other, e, 0);
    assert net[r] in multiset(net);
    var i := Located(other, net[r]);
    OneListens(other, i, q, e);
  }

  lemma SameUpdate(net: Net, other: Net, r: nat, q: nat, v: View)
    requires SamePeers(net, other) && r < |net| && q < |other| && net[r] == other[q]
    ensures SamePeers(net[r := v], other[q := v])
  {
  }

  /** Deliveries keep two systems the same up to positions. */
  lemma DeliverSame(s: System, t: System)
    requires SameSystems(s, t)
    ensures SameSystems(Deliver(s), Deliver(t))
  {
    if s.System? && s.flight != [] && IsControl(s.flight[0].data) {
      var e := s.flight[0];
      var r, q := Receiver(s.net, e, 0), Receiver(t.net, e, 0);
      if q < |t.net| {
        SameReceiver(t.net, s.net, e);
      }
      if r < |s.net| {
        SameReceiver(s.net, t.net, e);
        ReactKeepsSelf(s.net[r], e.data);
        match React(s.net[r], e.data)
        case Fault =>
        case Step(v, sent) =>
          SameUpdate(s.net, t.net, r, q, v);
          SameAddresses(s.net, r, v);
          SameAddresses(t.net, q, v);
      }
    }
  }

  /** A relation that every step keeps holds after any number of steps. */
  lemma {:induction false} IteratedSame(step: System -> System, same: (System, System) -> bool,
                                        s: System, t: System, k: nat)
    requires same(s, t) && forall x, y {:trigger step(x), step(y)} :: same(x, y) ==> same(step(x), step(y))
    ensures same(Iterated(step, s, k), Iterated(step, t, k))
  {
    if k > 0 {
      IteratedSame(step, same, s, t, k - 1);
    }
  }

  lemma AfterSame(s: System, t: System, k: nat)
    requires SameSystems(s, t)
    ensures SameSystems(After(s, k), After(t, k))
  {
    forall x, y | SameSystems(x, y)
      ensures SameSystems(Deliver(x), Deliver(y))
    {
      DeliverSame(x, y);
    }
    IteratedSame(Deliver, SameSystems, s, t, k);
  }

  lemma AddressesPermuted(net: Net, other: Net)
    requires SamePeers(net, other) && DistinctAddresses(net)
    ensures DistinctAddresses(other)
  {
    assert Distinct(net) by {
      forall i, j | 0 <= i < j < |net|
        ensures net[i] != net[j]
      {
      }
    }
    DistinctPermuted(net, other);
    DistinctPairs(other);
    forall i, j | 0 <= i < j < |other|
      ensures other[i].self.ip != other[j].self.ip || other[i].self.port != other[j].self.port
    {
      assert other[i] in multiset(other) && other[j] in multiset(other);
      var a := Located(net, other[i]);
      var b := Located(net, other[j]);
      assert other[i] != other[j];
    }
  }

  // ----- settling -----

  /** After some deliveries, no message is under way and the net is `net`. */
  ghost predicate Settles(s: System, net: Net) {
    exists k: nat {:trigger After(s, k)} :: After(s, k) == System(net, [])
  }

  lemma {:induction false} Rests(s: System, net: Net, k: nat, l: nat)
    requires After(s, k) == System(net, [])
    ensures After(s, k + l) == System(net, [])
  {
    if l > 0 {
      Rests(s, net, k, l - 1);
      AfterNext(s, k + l - 1, System(net, []));
    }
  }

  /** A system settles at one net only. */
  lemma SettlesOnce(s: System, net: Net, other: Net)
    requires Settles(s, net) && Settles(s, other)
    ensures net == other
  {
    var k: nat :| After(s, k) == System(net, []);
    var l: nat :| After(s, l) == System(other, []);
    if k <= l {
      Rests(s, net, k, l - k);
    } else {
      Rests(s, other, l, k - l);
    }
  }

  /** Where one system settles, the same system with other positions settles too. */
  lemma SettlesSame(s: System, t: System, net: Net) returns (other: Net)
    requires SameSystems(s, t) && Settles(s, net)
    ensures Settles(t, other) && SameSystems(System(net, []), System(other, []))
  {
    var k: nat :| After(s, k) == System(net, []);
    AfterSame(s, t, k);
    other := After(t, k).net;
    assert After(t, k) == System(other, []);
  }

  // ----- one round: a join and two waves -----

  /** The net, in some order, is a consistent ring without base peers. */
  ghost predicate IsRing(net: Net) {
    && DistinctAddresses(net)
    && exists ring: Net {:trigger SamePeers(net, ring)} ::
         SamePeers(net, ring) && Ring(ring, |ring|) && NoBase(ring, |ring|)
  }

  /** A peer that can join: at its own address, with a record for its next peer only, and with
      an id of its own between two ids of the net. */
  ghost predicate Fits(net: Net, joiner: View) {
    && DistinctAddresses(net + [joiner])
    && joiner.next.Some? && joiner.prev.None? && !joiner.isBase
    && (exists v {:trigger v in net} :: v in net && v.self.id < joiner.self.id)
    && (exists v {:trigger v in net} :: v in net && joiner.self.id < v.self.id)
    && (forall v {:trigger v in net} :: v in net ==> v.self.id != joiner.self.id)
  }

  /** `v` sends stabilize to its next peer. */
  function WaveFrom(net: Net, v: View): System {
    if v.next.None? then Crashed
    else System(net, [SendTo(v.next.value, EncodePeer(StabilizeMessage(v.self)))])
  }

  /** The joiner joins through peer `entry`; then `v` and later `w`, old peers or the joiner, start
      a wave each. */
  ghost predicate Round(net: Net, joiner: View, entry: View, net1: Net, v: View, net2: Net, w: View, net3: Net) {
    && entry in net && v in net1 && w in net2
    && Settles(System(net + [joiner], [SendTo(entry.self, JoinBytes(joiner.self))]), net1)
    && Settles(WaveFrom(net1, v), net2)
    && Settles(WaveFrom(net2, w), net3)
  }

  /** In a ring, an id between two others is in a gap. */
  lemma FindGap(ring: Net, h: nat, lo: nat, hi: nat) returns (j: nat)
    requires Ring(ring, |ring|) && lo < |ring| && hi < |ring| && ring[lo].self.id < h < ring[hi].self.id
    requires forall i :: 0 <= i < |ring| ==> ring[i].self.id != h
    ensures j < |ring| && Gap(ring, |ring|, j, h)
    decreases hi - lo
  {
    assert lo < hi;
    if hi == lo + 1 {
      j := lo;
    } else if ring[lo + 1].self.id < h {
      j := FindGap(ring, h, lo + 1, hi);
    } else {
      j := lo;
    }
  }

  /** The joiner behind the ring it is to join, all of them at their places. */
  lemma ReadyToJoin(net: Net, ring: Net, joiner: View) returns (j: nat)
    requires SamePeers(net, ring) && Ring(ring, |ring|) && NoBase(ring, |ring|) && Fits(net, joiner)
    ensures j < |ring| && Joining(ring + [joiner], |ring|, j) && SamePeers(net + [joiner], ring + [joiner])
  {
    var all, n, h := ring + [joiner], |ring|, joiner.self.id;
    AddressesPermuted(net + [joiner], all);
    var u :| u in net && u.self.id < h;
    var v :| v in net && h < v.self.id;
    assert u in multiset(net) && v in multiset(net);
    var lo := Located(ring, u);
    var hi := Located(ring, v);
    forall i | 0 <= i < n
      ensures ring[i].self.id != h
    {
      assert ring[i] in multiset(ring);
      assert ring[i] in net;
    }
    j := FindGap(ring, h, lo, hi);
    RingWithin(ring, all);
  }

  lemma RingWithin(ring: Net, all: Net)
    requires Ring(ring, |ring|) && |ring| <= |all| && all[..|ring|] == ring
    ensures Ring(all, |ring|)
  {
    var n := |ring|;
    assert forall i :: 0 <= i < n ==> all[i] == all[..n][i];
    forall i | 0 <= i < n
      ensures LinkedAt(all, n, i)
    {
      assert LinkedAt(ring, n, i);
    }
  }

  /** The join, from a net in any order. */
  lemma JoinSettles(net: Net, all: Net, n: nat, j: nat, entry: View) returns (net1: Net)
    requires Joining(all, n, j) && SamePeers(net, all) && entry in net && entry.self != all[n].self
    ensures Settles(System(net, [SendTo(entry.self, JoinBytes(all[n].self))]), net1)
    ensures SamePeers(Welcomed(all, n, j), net1)
    ensures DistinctAddresses(Welcomed(all, n, j)) && DistinctAddresses(net1)
  {
    AddressesPermuted(all, net);
    assert entry in multiset(net);
    var i := Located(all, entry);
    JoinIsWelcomed(all, n, i, j);
    var raw := JoinBytes(all[n].self);
    assert Settles(Mail(all, i, raw), Welcomed(all, n, j)) by {
      assert After(Mail(all, i, raw), Places(i, Next(j, n), n) + 2) == System(Welcomed(all, n, j), []);
    }
    net1 := SettlesSame(Mail(all, i, raw), System(net, [SendTo(entry.self, raw)]), Welcomed(all, n, j));
  }

  /** The first wave, from a net in any order. */
  lemma FirstSettles(net1: Net, all: Net, n: nat, j: nat, v: View) returns (net2: Net)
    requires Joining(all, n, j) && SamePeers(Welcomed(all, n, j), net1) && DistinctAddresses(net1)
    requires v in net1
    ensures Settles(WaveFrom(net1, v), net2)
    ensures SamePeers(Noticed(all, n, j), net2)
    ensures DistinctAddresses(Noticed(all, n, j)) && DistinctAddresses(net2)
  {
    var w := Welcomed(all, n, j);
    AddressesPermuted(net1, w);
    assert v in multiset(net1);
    var a := Located(w, v);
    FirstWave(all, n, j, a);
    assert Settles(Wave(w, a), Noticed(all, n, j)) by {
      assert After(Wave(w, a), Way(a, j, n) + 2) == System(Noticed(all, n, j), []);
    }
    WelcomedOld(all, n, j);
    net2 := SettlesSame(Wave(w, a), WaveFrom(net1, v), Noticed(all, n, j));
  }

  /** The second wave, from a net in any order. */
  lemma SecondSettles(net2: Net, all: Net, n: nat, j: nat, v: View) returns (net3: Net)
    requires Joining(all, n, j) && SamePeers(Noticed(all, n, j), net2) && DistinctAddresses(net2)
    requires v in net2
    ensures Settles(WaveFrom(net2, v), net3)
    ensures SamePeers(Grown(all, n, j), net3) && DistinctAddresses(net3)
  {
    var w := Noticed(all, n, j);
    AddressesPermuted(net2, w);
    assert v in multiset(net2);
    var a := Located(w, v);
    SecondWave(all, n, j, a);
    assert Settles(Wave(w, a), Grown(all, n, j)) by {
      assert After(Wave(w, a), Way(a, j, n) + 1) == System(Grown(all, n, j), []);
    }
    WelcomedOld(all, n, j);
    net3 := SettlesSame(Wave(w, a), WaveFrom(net2, v), Grown(all, n, j));
  }

  lemma InOrderSame(g: Net, n: nat, j: nat)
    requires j < n && |g| == n + 1
    ensures SamePeers(g, InOrder(g, n, j))
  {
    var low, high, last := g[..j + 1], g[j + 1..n], [g[n]];
    ThreeParts(g, j + 1, n);
    Exchanged(low, high, last);
  }

  lemma ThreeParts<T>(s: seq<T>, k: nat, n: nat)
    requires k <= n && |s| == n + 1
    ensures s == s[..k] + s[k..n] + [s[n]]
  {
  }

  lemma Exchanged<T>(a: seq<T>, b: seq<T>, c: seq<T>)
    ensures multiset(a + b + c) == multiset(a + c + b)
  {
  }

  lemma InOrderNoBase(all: Net, n: nat, j: nat, g: Net)
    requires Joining(all, n, j) && LinkedIn(all, n, j, g)
    ensures NoBase(InOrder(g, n, j), |all|)
  {
    var ring := InOrder(g, n, j);
    forall i | 0 <= i < |ring|
      ensures !ring[i].isBase
    {
      assert ring[i] == g[if i <= j then i else if i == j + 1 then n else i - 1];
    }
  }

  /** The net with the joiner linked in is a ring. */
  lemma GrownSettled(net3: Net, all: Net, n: nat, j: nat)
    requires Joining(all, n, j) && SamePeers(Grown(all, n, j), net3) && DistinctAddresses(net3)
    ensures IsRing(net3) && |net3| == |all|
  {
    var g := Grown(all, n, j);
    GrownIsLinked(all, n, j);
    LinkedIsRing(all, n, j, g);
    InOrderSame(g, n, j);
    InOrderNoBase(all, n, j, g);
    RingFound(net3, g, InOrder(g, n, j));
  }

  lemma RingFound(net: Net, g: Net, ring: Net)
    requires SamePeers(g, net) && SamePeers(g, ring) && DistinctAddresses(net)
    requires Ring(ring, |ring|) && NoBase(ring, |ring|)
    ensures IsRing(net) && |net| == |g|
  {
    assert SamePeers(net, ring);
    assert |multiset(net)| == |net| && |multiset(g)| == |g|;
  }

  /** One round makes a ring of one more peer, whoever lets the joiner in and starts the waves. */
  lemma RoundMakesRing(net: Net, joiner: View, entry: View, net1: Net, v: View, net2: Net, w: View, net3: Net)
    requires IsRing(net) && Fits(net, joiner) && Round(net, joiner, entry, net1, v, net2, w, net3)
    ensures IsRing(net3) && |net3| == |net| + 1
  {
    var all, n, j := Prepared(net, joiner);
    OldEntry(net, joiner, entry);
    var m1 := JoinSettles(net + [joiner], all, n, j, entry);
    SettlesOnce(System(net + [joiner], [SendTo(entry.self, JoinBytes(joiner.self))]), net1, m1);
    var m2 := FirstSettles(net1, all, n, j, v);
    SettlesOnce(WaveFrom(net1, v), net2, m2);
    var m3 := SecondSettles(net2, all, n, j, w);
    SettlesOnce(WaveFrom(net2, w), net3, m3);
    GrownSettled(net3, all, n, j);
  }

  lemma Prepared(net: Net, joiner: View) returns (all: Net, n: nat, j: nat)
    requires IsRing(net) && Fits(net, joiner)
    ensures j < n == |net| && |all| == n + 1 && all[n] == joiner
    ensures Joining(all, n, j) && SamePeers(net + [joiner], all)
  {
    var ring: Net :| SamePeers(net, ring) && Ring(ring, |ring|) && NoBase(ring, |ring|);
    assert |multiset(net)| == |net| && |multiset(ring)| == |ring|;
    j := ReadyToJoin(net, ring, joiner);
    all, n := ring + [joiner], |ring|;
  }

  lemma OldEntry(net: Net, joiner: View, entry: View)
    requires DistinctAddresses(net + [joiner]) && entry in net
    ensures entry in net + [joiner] && entry.self != joiner.self
  {
    var i :| 0 <= i < |net| && net[i] == entry;
    assert (net + [joiner])[i] == entry && (net + [joiner])[|net|] == joiner;
  }

  /** Such a round can always be completed, whoever lets the joiner in and starts the waves: the
      peers at positions `a` and `b`. */
  lemma RoundHappens(net: Net, joiner: View, entry: View, a: nat, b: nat) returns (net1: Net, net2: Net, net3: Net)
    requires IsRing(net) && Fits(net, joiner) && entry in net && a <= |net| && b <= |net|
    ensures |net1| == |net2| == |net| + 1 && Round(net, joiner, entry, net1, net1[a], net2, net2[b], net3)
  {
    var all, n, j := Prepared(net, joiner);
    OldEntry(net, joiner, entry);
    net1 := JoinSettles(net + [joiner], all, n, j, entry);
    SameLength(Welcomed(all, n, j), net1);
    net2 := FirstSettles(net1, all, n, j, net1[a]);
    SameLength(Noticed(all, n, j), net2);
    net3 := SecondSettles(net2, all, n, j, net2[b]);
  }

  lemma SameLength(net: Net, other: Net)
    requires SamePeers(net, other)
    ensures |net| == |other|
  {
    assert |multiset(net)| == |net| && |multiset(other)| == |other|;
  }

  // ----- from a lone peer to a ring -----

  /** The first join: a lone peer lets the joiner in, and one of the two starts one wave. */
  ghost predicate FirstRound(net: Net, joiner: View, net1: Net, v: View, net2: Net) {
    && |net| == 1 && |net1| == 2 && v in net1
    && Settles(System(net + [joiner], [SendTo(net[0].self, JoinBytes(joiner.self))]), net1)
    && Settles(WaveFrom(net1, v), net2)
  }

  /** A lone peer without neighbours, and a joiner with a record for its next peer only. */
  ghost predicate CanPair(base: View, joiner: View) {
    && base.next.None? && base.prev.None? && !base.isBase
    && joiner.next.Some? && joiner.prev.None? && !joiner.isBase
    && joiner.self.id != base.self.id && DistinctAddresses([base, joiner])
  }

  function Paired(base: View, joiner: View): Net {
    [base.(next := Some(joiner.self), prev := Some(joiner.self)), joiner.(next := Some(base.self))]
  }

  lemma FirstRoundMakesRing(base: View, joiner: View, net1: Net, v: View, net2: Net)
    requires CanPair(base, joiner) && FirstRound([base], joiner, net1, v, net2)
    ensures IsRing(net2) && |net2| == 2
  {
    var m1 := Paired(base, joiner);
    var m2 := [m1[0], m1[1].(prev := Some(base.self))];
    assert [base] + [joiner] == [base, joiner];
    FirstJoinMakesRing([base, joiner], m1, m2);
    PairJoins(base, joiner, net1);
    PairWaves(m1, m2, v, net2);
    PairIsRing(base, joiner, m2);
  }

  lemma PairJoins(base: View, joiner: View, net1: Net)
    requires Settles(System([base, joiner], [SendTo(base.self, JoinBytes(joiner.self))]), net1)
    requires After(Mail([base, joiner], 0, JoinBytes(joiner.self)), 2) == System(Paired(base, joiner), [])
    ensures net1 == Paired(base, joiner)
  {
    SettlesAt(Mail([base, joiner], 0, JoinBytes(joiner.self)), 2, Paired(base, joiner));
    SettlesOnce(Mail([base, joiner], 0, JoinBytes(joiner.self)), net1, Paired(base, joiner));
  }

  lemma PairWaves(m1: Net, m2: Net, v: View, net2: Net)
    requires |m1| == 2 && v in m1 && Settles(WaveFrom(m1, v), net2)
    requires After(Wave(m1, 0), 1) == System(m2, []) && After(Wave(m1, 1), 2) == System(m2, [])
    ensures net2 == m2
  {
    SettlesAt(Wave(m1, 0), 1, m2);
    SettlesAt(Wave(m1, 1), 2, m2);
    SettlesOnce(WaveFrom(m1, v), net2, m2);
  }

  lemma SettlesAt(s: System, k: nat, net: Net)
    requires After(s, k) == System(net, [])
    ensures Settles(s, net)
  {
  }

  lemma PairIsRing(base: View, joiner: View, net: Net)
    requires |net| == 2 && net[0].self == base.self && net[1].self == joiner.self && CanPair(base, joiner)
    requires !net[0].isBase && !net[1].isBase
    requires Ring(if base.self.id < joiner.self.id then net else [net[1], net[0]], 2)
    ensures IsRing(net)
  {
    var ring := if base.self.id < joiner.self.id then net else [net[1], net[0]];
    assert net == [net[0], net[1]];
    assert SamePeers(net, ring);
    var both := [base, joiner];
    assert both[0].self == net[0].self && both[1].self == net[1].self;
  }

  /** The first net is a lone peer, and the second is what the first join makes of it. */
  ghost predicate FirstAt(nets: seq<Net>, joiners: seq<View>) {
    && |nets| > 1 && |joiners| > 0
    && |nets[0]| == 1 && CanPair(nets[0][0], joiners[0])
    && exists net1: Net, v: View :: FirstRound(nets[0], joiners[0], net1, v, nets[1])
  }

  /** Some round of a joiner that fits leads from one net to the other. */
  ghost predicate JoinedBy(net: Net, joiner: View, grown: Net) {
    && Fits(net, joiner)
    && exists entry: View, net1: Net, v: View, net2: Net, w: View ::
         Round(net, joiner, entry, net1, v, net2, w, grown)
  }

  /** All the joins, one after the other. */
  ghost predicate Rounds(nets: seq<Net>, joiners: seq<View>) {
    && |nets| == |joiners| + 1
    && FirstAt(nets, joiners)
    && forall i: nat {:trigger Stage(i)} :: Stage(i) && 1 <= i < |joiners| ==>
         JoinedBy(nets[i], joiners[i], nets[i + 1])
  }

  lemma FirstAtMakesRing(nets: seq<Net>, joiners: seq<View>)
    requires FirstAt(nets, joiners)
    ensures IsRing(nets[1]) && |nets[1]| == 2
  {
    var net1: Net, v: View :| FirstRound(nets[0], joiners[0], net1, v, nets[1]);
    assert nets[0] == [nets[0][0]];
    FirstRoundMakesRing(nets[0][0], joiners[0], net1, v, nets[1]);
  }

  lemma JoinedMakesRing(net: Net, joiner: View, grown: Net)
    requires IsRing(net) && JoinedBy(net, joiner, grown)
    ensures IsRing(grown) && |grown| == |net| + 1
  {
    var entry: View, net1: Net, v: View, net2: Net, w: View :| Round(net, joiner, entry, net1, v, net2, w, grown);
    RoundMakesRing(net, joiner, entry, net1, v, net2, w, grown);
  }

  /** What the first net is and every join keeps holds of all nets. */
  lemma {:induction false} EveryNet(nets: seq<Net>, joiners: seq<View>, n: nat, good: Net -> bool,
                                    follows: (Net, View, Net) -> bool)
    requires 1 <= n <= |joiners| && |nets| == |joiners| + 1 && good(nets[1]) && |nets[1]| == 2
    requires forall i: nat {:trigger Stage(i)} :: Stage(i) && 1 <= i < |joiners| ==>
               follows(nets[i], joiners[i], nets[i + 1])
    requires forall a, v, b {:trigger follows(a, v, b)} :: follows(a, v, b) && good(a) ==>
               good(b) && |b| == |a| + 1
    ensures good(nets[n]) && |nets[n]| == n + 1
  {
    if n > 1 {
      EveryNet(nets, joiners, n - 1, good, follows);
      assert Stage(n - 1);
    }
  }

  /** However many peers join a lone one, one after the other, there is a ring after each join. */
  lemma JoinsMakeRing(nets: seq<Net>, joiners: seq<View>, n: nat)
    requires Rounds(nets, joiners) && 1 <= n <= |joiners|
    ensures IsRing(nets[n]) && |nets[n]| == n + 1
  {
    FirstAtMakesRing(nets, joiners);
    forall a, v, b | JoinedBy(a, v, b) && IsRing(a)
      ensures IsRing(b) && |b| == |a| + 1
    {
      JoinedMakesRing(a, v, b);
    }
    EveryNet(nets, joiners, n, IsRing, JoinedBy);
  }
}
