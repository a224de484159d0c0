/** Two joins into one gap overlap, and the first joiner is not left out: waves complete the ring,
    for good. */
module Completions {
  import opened Codec
  import opened Peers
  import opened Rings
  import opened Joins
  import opened Building
  import opened Overlaps
  import opened Decisions

  // ----- the ring with both joiners -----

  /** The next peer of `x` in that ring. */
  function Succ(n: nat, j: nat, x: nat): (y: nat)
    requires j < n && x < n + 2
    ensures y < n + 2
  {
    if x == j then n else if x == n then n + 1 else if x == n + 1 then Next(j, n) else Next(x, n)
  }

  /** The previous one. */
  function Pred(n: nat, j: nat, x: nat): (y: nat)
    requires j < n && x < n + 2
    ensures y < n + 2
  {
    if x == Next(j, n) then n + 1 else if x == n + 1 then n else if x == n then j else Before(x, n)
  }

  function PeerOfRing(net: Net, n: nat, j: nat, x: nat): View
    requires j < n && |net| == n + 2 && x < n + 2
  {
    View(net[x].self, false, Some(net[Succ(n, j, x)].self), Some(net[Pred(n, j, x)].self))
  }

  function Whole(net: Net, n: nat, j: nat): Net
    requires j < n && |net| == n + 2
  {
    seq(n + 2, x requires 0 <= x < n + 2 => PeerOfRing(net, n, j, x))
  }

  /** The position in the net of the peer at place `k` of the ring. */
  function Place(n: nat, j: nat, k: nat): nat {
    if k <= j then k else if k <= j + 2 then n + (k - j - 1) else k - 2
  }

  lemma PlaceLinks(n: nat, j: nat, k: nat)
    requires j + 1 < n && k < n + 2
    ensures Place(n, j, k) < n + 2
    ensures Succ(n, j, Place(n, j, k)) == Place(n, j, Next(k, n + 2))
    ensures Pred(n, j, Place(n, j, k)) == Place(n, j, Before(k, n + 2))
  {
  }

  lemma PlacesAscend(net: Net, n: nat, j: nat, k: nat, l: nat)
    requires Contest(net, n, j) && k < l < n + 2 && j + 1 < n
    ensures net[Place(n, j, k)].self.id < net[Place(n, j, l)].self.id
  {
  }

  lemma GapIsInside(net: Net, n: nat, j: nat)
    requires Contest(net, n, j)
    ensures j + 1 < n && Next(j, n) == j + 1
  {
  }

  /** The same peers in the order of the ring. */
  function InPlace(net: Net, n: nat, j: nat): Net
    requires j + 1 < n && |net| == n + 2
  {
    seq(n + 2, k requires 0 <= k < n + 2 => PeerOfRing(net, n, j, Place(n, j, k)))
  }

  lemma InPlaceIsRing(net: Net, n: nat, j: nat)
    requires Contest(net, n, j) && j + 1 < n
    ensures Ring(InPlace(net, n, j), n + 2) && NoBase(InPlace(net, n, j), n + 2)
  {
    var ring := InPlace(net, n, j);
    forall k {:trigger LinkedAt(ring, n + 2, k)} | 0 <= k < n + 2
      ensures LinkedAt(ring, n + 2, k)
    {
      PlaceLinks(n, j, k);
    }
    forall k, l | 0 <= k < l < n + 2
      ensures ring[k].self.id < ring[l].self.id
    {
      PlacesAscend(net, n, j, k, l);
    }
  }

  lemma InPlaceIsSame(net: Net, n: nat, j: nat)
    requires j + 1 < n && |net| == n + 2
    ensures SamePeers(Whole(net, n, j), InPlace(net, n, j))
  {
    var w, ring := Whole(net, n, j), InPlace(net, n, j);
    var low, high, joiners := w[..j + 1], w[j + 1..n], w[n..];
    assert ring == low + joiners + high;
    assert w == low + high + joiners;
    Exchanged(low, high, joiners);
  }

  lemma WholeIsRing(net: Net, n: nat, j: nat)
    requires Contest(net, n, j)
    ensures IsRing(Whole(net, n, j))
  {
    GapIsInside(net, n, j);
    InPlaceIsRing(net, n, j);
    InPlaceIsSame(net, n, j);
    SameSelves(net, Whole(net, n, j));
  }

  // ----- completing it -----

  ghost predicate CanLead(s: System, t: System) {
    exists events {:trigger Leads(s, events, t)} :: Leads(s, events, t)
  }

  lemma LeadFurther(s: System, t: System, u: System)
    requires CanLead(s, t) && CanLead(t, u)
    ensures CanLead(s, u)
  {
    var a :| Leads(s, a, t);
    var b :| Leads(t, b, u);
    LeadsOn(s, a, t, b, u);
  }

  lemma LeadNowhere(s: System)
    ensures CanLead(s, s)
  {
    assert Steps([s], []);
    assert Leads(s, [], s);
  }

  /** `x` knows `y` for its next peer. */
  predicate Knows(net: Net, u: Net, x: nat, y: nat) {
    x < |u| && y < |net| && u[x].next == Some(net[y].self)
  }

  lemma OpenTold(net: Net, n: nat, j: nat, s: System, x: nat, y: nat, first: bool)
    requires Contest(net, n, j) && Open(net, n, j, s, first) && x < n + 2 && y < n + 2 && CanBeTold(n, j, x, y, first)
    ensures Open(net, n, j, System(s.net[x := s.net[x].(next := Some(net[y].self))], s.flight), first)
  {
    assert PeerOk(net, n, j, s.net[x], x, first);
    ToldPeer(net, n, j, s.net[x], x, y, first);
    AllOkUpdated(net, n, j, s.net, x, s.net[x].(next := Some(net[y].self)), first);
  }

  /** Peer `x` asks its next peer `y` and learns of `z`. */
  lemma AsksAndLearns(net: Net, n: nat, j: nat, s: System, x: nat, y: nat, z: nat, first: bool) returns (t: System)
    requires Contest(net, n, j) && Open(net, n, j, s, first) && x < n + 2 && y < n + 2 && z < n + 2 && x != z
    requires Knows(net, s.net, x, y) && s.net[y].prev == Some(net[z].self) && CanBeTold(n, j, x, z, first)
    ensures CanLead(s, t) && Open(net, n, j, t, first) && t.flight == s.flight
    ensures t.net == s.net[x := s.net[x].(next := Some(net[z].self))]
  {
    var u := s.net;
    t := System(u[x := u[x].(next := Some(net[z].self))], s.flight);
    OkDistinct(net, n, j, u, first);
    assert PeerOk(net, n, j, u[x], x, first) && PeerOk(net, n, j, u[y], y, first);
    if net[x].self.id == net[z].self.id {
      DistinctIds(net, n, j, x, z);
    }
    SenderLearns(u, s.flight, x, y, net[z].self);
    OpenTold(net, n, j, s, x, z, first);
  }

  /** The first joiner learns of the second one. */
  lemma FirstFindsSecond(net: Net, n: nat, j: nat, s: System, first: bool) returns (t: System)
    requires Contest(net, n, j) && Open(net, n, j, s, first)
    ensures CanLead(s, t) && Open(net, n, j, t, first) && t.flight == s.flight && Knows(net, t.net, n, n + 1)
  {
    assert PeerOk(net, n, j, s.net[n], n, first) && PeerOk(net, n, j, s.net[Next(j, n)], Next(j, n), first);
    if Knows(net, s.net, n, n + 1) {
      t := s;
      LeadNowhere(s);
    } else {
      t := AsksAndLearns(net, n, j, s, n, Next(j, n), n + 1, first);
    }
  }

  /** The second joiner takes the first one. */
  lemma SecondTakesFirst(net: Net, n: nat, j: nat, s: System) returns (t: System)
    requires Contest(net, n, j) && Open(net, n, j, s, false) && Knows(net, s.net, n, n + 1)
    ensures CanLead(s, t) && Open(net, n, j, t, true) && t.flight == s.flight && Knows(net, t.net, n, n + 1)
  {
    var u := s.net;
    t := System(u[n + 1 := u[n + 1].(prev := Some(net[n].self))], s.flight);
    OkDistinct(net, n, j, u, false);
    assert PeerOk(net, n, j, u[n], n, false) && PeerOk(net, n, j, u[n + 1], n + 1, false);
    NextLearns(u, s.flight, n, n + 1);
    FirstTaken(net, n, j, u, s.flight);
  }

  /** The lower neighbour learns of the second joiner, and from it of the first. */
  lemma LowerFindsFirst(net: Net, n: nat, j: nat, s: System) returns (t: System)
    requires Contest(net, n, j) && Open(net, n, j, s, true) && Knows(net, s.net, n, n + 1)
    ensures CanLead(s, t) && Open(net, n, j, t, true) && t.flight == s.flight
    ensures Knows(net, t.net, n, n + 1) && Knows(net, t.net, j, n)
  {
    var m := LowerFindsSecond(net, n, j, s);
    if Knows(net, m.net, j, n) {
      t := m;
    } else {
      assert PeerOk(net, n, j, m.net[n + 1], n + 1, true);
      t := AsksAndLearns(net, n, j, m, j, n + 1, n, true);
      LeadFurther(s, m, t);
    }
  }

  lemma LowerFindsSecond(net: Net, n: nat, j: nat, s: System) returns (t: System)
    requires Contest(net, n, j) && Open(net, n, j, s, true) && Knows(net, s.net, n, n + 1)
    ensures CanLead(s, t) && Open(net, n, j, t, true) && t.flight == s.flight
    ensures Knows(net, t.net, n, n + 1) && (Knows(net, t.net, j, n) || Knows(net, t.net, j, n + 1))
  {
    assert PeerOk(net, n, j, s.net[j], j, true) && PeerOk(net, n, j, s.net[Next(j, n)], Next(j, n), true);
    if Knows(net, s.net, j, Next(j, n)) {
      t := AsksAndLearns(net, n, j, s, j, Next(j, n), n + 1, true);
    } else {
      t := s;
      LeadNowhere(s);
    }
  }

  /** The first joiner learns of the lower neighbour. */
  lemma FirstTakesLower(net: Net, n: nat, j: nat, s: System) returns (t: System)
    requires Contest(net, n, j) && Open(net, n, j, s, true) && Knows(net, s.net, n, n + 1) && Knows(net, s.net, j, n)
    ensures CanLead(s, t) && Open(net, n, j, t, true) && t.flight == s.flight
    ensures Knows(net, t.net, n, n + 1) && Knows(net, t.net, j, n) && t.net[n].prev.Some?
  {
    var u := s.net;
    assert PeerOk(net, n, j, u[n], n, true) && PeerOk(net, n, j, u[j], j, true);
    if u[n].prev.Some? {
      t := s;
      LeadNowhere(s);
    } else {
      var v := u[n].(prev := Some(net[j].self));
      t := System(u[n := v], s.flight);
      OkDistinct(net, n, j, u, true);
      NextLearns(u, s.flight, j, n);
      AllOkUpdated(net, n, j, u, n, v, true);
    }
  }

  /** Then all peers are as in the ring. */
  lemma AllInRing(net: Net, n: nat, j: nat, u: Net)
    requires Contest(net, n, j) && AllOk(net, n, j, u, true)
    requires Knows(net, u, n, n + 1) && Knows(net, u, j, n) && u[n].prev.Some?
    ensures u == Whole(net, n, j)
  {
    forall x: nat | x < n + 2
      ensures u[x] == PeerOfRing(net, n, j, x)
    {
      assert PeerOk(net, n, j, u[x], x, true);
    }
  }

  /** As long as the lower neighbour has not been taken, the ring can be completed, whatever is
      under way. */
  lemma Completes(net: Net, n: nat, j: nat, s: System, first: bool)
    requires Contest(net, n, j) && Open(net, n, j, s, first)
    ensures CanLead(s, System(Whole(net, n, j), s.flight))
    ensures Open(net, n, j, System(Whole(net, n, j), s.flight), true)
  {
    var a := FirstFindsSecond(net, n, j, s, first);
    var b := a;
    if !first {
      b := SecondTakesFirst(net, n, j, a);
      LeadFurther(s, a, b);
    }
    var c := LowerFindsFirst(net, n, j, b);
    LeadFurther(s, b, c);
    var d := FirstTakesLower(net, n, j, c);
    LeadFurther(s, c, d);
    AllInRing(net, n, j, d.net);
  }

  // ----- the ring stays -----

  /** A stabilize of `x` to its next peer in the ring. */
  predicate Rides(net: Net, n: nat, j: nat, e: Envelope, x: nat)
    requires j < n && |net| == n + 2
  {
    x < n + 2 && e == StabilizeOf(net[x], net[Succ(n, j, x)].self)
  }

  ghost predicate Riding(net: Net, n: nat, j: nat, e: Envelope)
    requires j < n && |net| == n + 2
  {
    exists x: nat {:trigger Rides(net, n, j, e, x)} :: x < n + 2 && Rides(net, n, j, e, x)
  }

  ghost predicate AllRide(net: Net, n: nat, j: nat, flight: seq<Envelope>)
    requires j < n && |net| == n + 2
  {
    forall i {:trigger flight[i]} :: 0 <= i < |flight| ==> Riding(net, n, j, flight[i])
  }

  /** The ring, with nothing under way but waves that ride on it. */
  ghost predicate Steady(net: Net, n: nat, j: nat, s: System)
    requires j < n && |net| == n + 2
  {
    s.System? && s.net == Whole(net, n, j) && AllRide(net, n, j, s.flight)
  }

  /** A peer of the ring passes a wave on. */
  lemma RingPeerPasses(net: Net, n: nat, j: nat, x: nat)
    requires Contest(net, n, j) && x < n + 2
    ensures var y := Succ(n, j, x); var v := PeerOfRing(net, n, j, y);
            OnStabilize(v, StabilizeMessage(net[x].self))
            == Step(v, [StabilizeOf(net[y], net[Succ(n, j, y)].self)])
  {
    GapIsInside(net, n, j);
    assert Pred(n, j, Succ(n, j, x)) == x;
  }

  lemma RideOn(net: Net, n: nat, j: nat, rest: seq<Envelope>, x: nat)
    requires Contest(net, n, j) && x < n + 2
    ensures var w, y := Whole(net, n, j), Succ(n, j, x);
            Deliver(System(w, [StabilizeOf(net[x], net[y].self)] + rest))
            == System(w, rest + [StabilizeOf(net[y], net[Succ(n, j, y)].self)])
  {
    var w, y, c := Whole(net, n, j), Succ(n, j, x), net[x].self;
    RingPeerReacts(net, n, j, x, w[y]);
    SameSelves(net, w);
    DeliverFirst(w, y, EncodePeer(StabilizeMessage(c)), rest, w[y], [StabilizeOf(net[y], net[Succ(n, j, y)].self)]);
    assert w[y := w[y]] == w;
  }

  lemma RingPeerReacts(net: Net, n: nat, j: nat, x: nat, v: View)
    requires Contest(net, n, j) && x < n + 2 && v == PeerOfRing(net, n, j, Succ(n, j, x))
    ensures var raw, y := EncodePeer(StabilizeMessage(net[x].self)), Succ(n, j, x);
            IsControl(raw) && React(v, raw) == Step(v, [StabilizeOf(net[y], net[Succ(n, j, y)].self)])
  {
    RingPeerPasses(net, n, j, x);
    ReactStabilize(v, net[x].self);
  }

  lemma AllRideWithout(net: Net, n: nat, j: nat, flight: seq<Envelope>, k: nat, e: Envelope)
    requires j < n && |net| == n + 2 && k < |flight| && AllRide(net, n, j, flight) && Riding(net, n, j, e)
    ensures AllRide(net, n, j, flight[..k] + flight[k + 1..] + [e])
  {
    var all := flight[..k] + flight[k + 1..] + [e];
    forall i | 0 <= i < |all|
      ensures Riding(net, n, j, all[i])
    {
      if i < |flight| - 1 {
        assert all[i] == flight[if i < k then i else i + 1];
      }
    }
  }

  lemma SteadyStep(net: Net, n: nat, j: nat, s: System, event: Event)
    requires Contest(net, n, j) && Steady(net, n, j, s)
    ensures Steady(net, n, j, Happens(s, event))
  {
    match event
    case WaveBy(i) =>
      if i < n + 2 {
        assert s.net[i] == PeerOfRing(net, n, j, i);
        assert Rides(net, n, j, StabilizeOf(s.net[i], s.net[i].next.value), i);
      }
    case Delivery(k) =>
      if k < |s.flight| {
        assert Riding(net, n, j, s.flight[k]);
        var x: nat :| x < n + 2 && Rides(net, n, j, s.flight[k], x);
        SteadyDelivery(net, n, j, s, k, x);
      }
  }

  lemma SteadyDelivery(net: Net, n: nat, j: nat, s: System, k: nat, x: nat)
    requires Contest(net, n, j) && Steady(net, n, j, s) && k < |s.flight| && Rides(net, n, j, s.flight[k], x)
    ensures Steady(net, n, j, Happens(s, Delivery(k)))
  {
    var y := Succ(n, j, x);
    var e := StabilizeOf(net[y], net[Succ(n, j, y)].self);
    RideOn(net, n, j, s.flight[..k] + s.flight[k + 1..], x);
    assert Rides(net, n, j, e, y);
    AllRideWithout(net, n, j, s.flight, k, e);
  }

  /** From then on there is a ring, whatever happens. */
  lemma {:induction false} StaysSteady(net: Net, n: nat, j: nat, s: System, events: seq<Event>)
    requires Contest(net, n, j) && Steady(net, n, j, s)
    ensures Steady(net, n, j, RunOf(s, events))
  {
    if events != [] {
      var k := |events| - 1;
      StaysSteady(net, n, j, s, events[..k]);
      SteadyStep(net, n, j, RunOf(s, events[..k]), events[k]);
    }
  }

  // ----- what is still under way -----

  lemma LeadByOne(s: System, event: Event, t: System)
    requires Happens(s, event) == t
    ensures CanLead(s, t)
  {
    LeadsOnce(s, event, t);
  }

  /** A peer of the ring that is asked by another than its previous one. */
  lemma StrangerAsks(net: Net, n: nat, j: nat, x: nat, y: nat)
    requires Contest(net, n, j) && x < n + 2 && y < n + 2 && y != Succ(n, j, x)
    ensures var v := PeerOfRing(net, n, j, y);
            OnStabilize(v, StabilizeMessage(net[x].self))
            == Step(v, [NoticeTo(net[x].self, net[Pred(n, j, y)].self)])
  {
    var z := Pred(n, j, y);
    GapIsInside(net, n, j);
    assert z != x;
    if net[x].self.id == net[z].self.id {
      DistinctIds(net, n, j, x, z);
    }
  }

  /** A stabilize that does not go to the next peer in the ring is answered. */
  lemma StrayAnswered(net: Net, n: nat, j: nat, s: System, k: nat, x: nat, y: nat) returns (t: System)
    requires Contest(net, n, j) && Open(net, n, j, s, true) && s.net == Whole(net, n, j) && k < |s.flight|
    requires Asks(net, n, j, s.flight[k], x, y, true) && y != Succ(n, j, x)
    ensures CanLead(s, t) && Open(net, n, j, t, true)
    ensures t == System(s.net, s.flight[..k] + s.flight[k + 1..]
                               + [NoticeTo(net[x].self, net[Pred(n, j, y)].self)])
  {
    StrangerAsks(net, n, j, x, y);
    AskDelivered(net, n, j, s, k, x, y, true);
    assert s.net[y] == PeerOfRing(net, n, j, y);
    assert s.net[y := s.net[y]] == s.net;
    t := Happens(s, Delivery(k));
    LeadByOne(s, Delivery(k), t);
    TakenStep(net, n, j, s, Delivery(k));
  }

  /** The youngest message, a notify, is delivered. */
  lemma AnswerHeard(net: Net, n: nat, j: nat, s: System, rest: seq<Envelope>, x: nat, c: Contact) returns (t: System)
    requires Contest(net, n, j) && Open(net, n, j, s, true) && x < n + 2
    requires s.flight == rest + [NoticeTo(net[x].self, c)]
    ensures CanLead(s, t) && Open(net, n, j, t, true) && t.System? && t.flight == rest
  {
    t := Happens(s, Delivery(|rest|));
    OkDistinct(net, n, j, s.net, true);
    assert PeerOk(net, n, j, s.net[x], x, true);
    YoungestFirst(s.net, rest, NoticeTo(net[x].self, c));
    NoticeTaken(s.net, x, c, rest);
    LeadByOne(s, Delivery(|rest|), t);
    TakenStep(net, n, j, s, Delivery(|rest|));
  }

  /** A message that does not ride on the ring is got rid of. */
  lemma OneLess(net: Net, n: nat, j: nat, s: System, k: nat) returns (t: System)
    requires Contest(net, n, j) && Open(net, n, j, s, true) && s.net == Whole(net, n, j)
    requires k < |s.flight| && !Riding(net, n, j, s.flight[k])
    ensures CanLead(s, t) && Open(net, n, j, t, true) && |t.flight| == |s.flight| - 1
  {
    var e, rest := s.flight[k], s.flight[..k] + s.flight[k + 1..];
    assert Expected(net, n, j, e, true);
    if x: nat, y: nat :| x < n + 2 && y < n + 2 && Asks(net, n, j, e, x, y, true) {
      assert !Rides(net, n, j, e, x);
      var m := StrayAnswered(net, n, j, s, k, x, y);
      t := AnswerHeard(net, n, j, m, rest, x, net[Pred(n, j, y)].self);
      LeadFurther(s, m, t);
    } else {
      var x: nat, y: nat :| x < n + 2 && y < n + 2 && Tells(net, n, j, e, x, y, true);
      TellDelivered(net, n, j, s, k, x, y, true);
      t := Happens(s, Delivery(k));
      LeadByOne(s, Delivery(k), t);
      TakenStep(net, n, j, s, Delivery(k));
    }
  }

  /** The ring, with whatever is under way, can come to rest. */
  lemma BecomesSteady(net: Net, n: nat, j: nat, s: System) returns (t: System)
    requires Contest(net, n, j) && Open(net, n, j, s, true) && s.net == Whole(net, n, j)
    ensures CanLead(s, t) && Steady(net, n, j, t)
    decreases |s.flight|
  {
    if AllRide(net, n, j, s.flight) {
      t := s;
      LeadNowhere(s);
    } else {
      var k :| 0 <= k < |s.flight| && !Riding(net, n, j, s.flight[k]);
      var a := OneLess(net, n, j, s, k);
      Completes(net, n, j, a, true);
      var b := System(Whole(net, n, j), a.flight);
      t := BecomesSteady(net, n, j, b);
      LeadFurther(s, a, b);
      LeadFurther(s, b, t);
    }
  }

  // ----- the decision -----

  /** After these events there is a ring, whatever happens then. */
  ghost predicate RingForGood(s: System, events: seq<Event>) {
    forall more: seq<Event> {:trigger RunOf(s, events + more)} ::
      var t := RunOf(s, events + more); t.System? && IsRing(t.net)
  }

  lemma SteadyIsForGood(net: Net, n: nat, j: nat, s: System, events: seq<Event>)
    requires Contest(net, n, j) && Steady(net, n, j, RunOf(s, events))
    ensures RingForGood(s, events)
  {
    WholeIsRing(net, n, j);
    forall more: seq<Event>
      ensures var t := RunOf(s, events + more); t.System? && IsRing(t.net)
    {
      RunSum(s, events, more);
      StaysSteady(net, n, j, RunOf(s, events), more);
    }
  }

  lemma OpenCompletes(net: Net, n: nat, j: nat, s: System, first: bool) returns (events: seq<Event>)
    requires Contest(net, n, j) && Open(net, n, j, s, first)
    ensures RingForGood(s, events)
  {
    Completes(net, n, j, s, first);
    var ring := System(Whole(net, n, j), s.flight);
    var t := BecomesSteady(net, n, j, ring);
    LeadFurther(s, ring, t);
    events :| Leads(s, events, t);
    LeadsRun(s, events, t);
    SteadyIsForGood(net, n, j, s, events);
  }

  lemma ClosedNever(net: Net, n: nat, j: nat, s: System, events: seq<Event>)
    requires Contest(net, n, j) && Closed(net, n, j, s)
    ensures RunOf(s, events).System? && !IsRing(RunOf(s, events).net)
  {
    var t := RunOf(s, events);
    RunDecided(net, n, j, s, events);
    LeftOutIsNoRing(t.net, t.flight, t.net[n]);
  }

  ghost predicate HasRing(s: System) {
    s.System? && IsRing(s.net)
  }

  ghost predicate CanHaveRing(s: System) {
    exists events {:trigger RunOf(s, events)} :: HasRing(RunOf(s, events))
  }

  lemma ForGoodIsNow(s: System, events: seq<Event>)
    requires RingForGood(s, events)
    ensures HasRing(RunOf(s, events)) && CanHaveRing(s)
  {
    assert events + [] == events;
    assert HasRing(RunOf(s, events + []));
  }

  /** Whether there can be a ring depends on the previous peer of the second joiner: there can be
      one, and then also one for good, unless it is the lower neighbour. */
  lemma PrevDecides(net: Net, n: nat, j: nat, s: System)
    requires Contest(net, n, j) && Decided(net, n, j, s)
    ensures s.System? && |s.net| == n + 2
    ensures CanHaveRing(s) <==> s.net[n + 1].prev != Some(net[j].self)
    ensures CanHaveRing(s) ==> exists events {:trigger RingForGood(s, events)} :: RingForGood(s, events)
  {
    if Closed(net, n, j, s) {
      forall events {:trigger RunOf(s, events)}
        ensures !HasRing(RunOf(s, events))
      {
        ClosedNever(net, n, j, s, events);
      }
    } else {
      var first := Open(net, n, j, s, true);
      assert PeerOk(net, n, j, s.net[n + 1], n + 1, first);
      if net[n].self.id == net[j].self.id {
        DistinctIds(net, n, j, n, j);
      }
      var events := OpenCompletes(net, n, j, s, first);
      ForGoodIsNow(s, events);
    }
  }

  lemma StartIsOpen(net: Net, n: nat, j: nat)
    requires Contest(net, n, j)
    ensures Open(net, n, j, Start(net, n, j), false)
  {
    var w := BothWelcomed(net, n, j);
    GapIsInside(net, n, j);
    forall x: nat | x < n + 2
      ensures PeerOk(net, n, j, w[x], x, false)
    {
      if x < n {
        assert LinkedAt(net, n, x);
        assert CanFollow(n, j, x, Next(x, n), false);
      } else {
        assert CanFollow(n, j, x, Next(j, n), false);
      }
    }
  }

  /** After two joins into one gap, whatever is delivered in whatever order and whoever stabilizes:
      no peer dies, and there can be a ring, for good, if and only if the second joiner has not
      taken the lower neighbour for its previous peer. */
  lemma OverlapDecided(net: Net, n: nat, j: nat, events: seq<Event>)
    requires Contest(net, n, j)
    ensures var s := RunOf(Start(net, n, j), events);
            && s.System? && |s.net| == n + 2
            && (CanHaveRing(s) <==> s.net[n + 1].prev != Some(net[j].self))
            && (CanHaveRing(s) ==> exists more {:trigger RingForGood(s, more)} :: RingForGood(s, more))
  {
    StartIsOpen(net, n, j);
    RunDecided(net, n, j, Start(net, n, j), events);
    PrevDecides(net, n, j, RunOf(Start(net, n, j), events));
  }

  // ----- the race to the second joiner -----

  function Start(net: Net, n: nat, j: nat): System
    requires j < n && |net| == n + 2
  {
    System(BothWelcomed(net, n, j), [])
  }

  /** Event `i` of the run delivers a stabilize of peer `x` to the second joiner. */
  predicate AskedAt(net: Net, n: nat, s: System, events: seq<Event>, i: nat, x: nat)
    requires |net| == n + 2
  {
    i < |events| && x < n + 2 && Reaches(net, n, RunOf(s, events[..i]), events[i], x)
  }

  /** None of the first `k` events does. */
  ghost predicate NotAsked(net: Net, n: nat, s: System, events: seq<Event>, k: nat)
    requires |net| == n + 2
  {
    forall i: nat, x: nat {:trigger AskedAt(net, n, s, events, i, x)} :: i < k ==> !AskedAt(net, n, s, events, i, x)
  }

  lemma AskerTaken(net: Net, n: nat, j: nat, s: System, event: Event, x: nat)
    requires Contest(net, n, j) && Open(net, n, j, s, false) && x < n + 2 && Reaches(net, n, s, event, x)
    ensures var t := Happens(s, event);
            t.System? && |t.net| == n + 2 && t.net[n + 1].prev == Some(net[x].self)
  {
    OkDistinct(net, n, j, s.net, false);
    assert PeerOk(net, n, j, s.net[n + 1], n + 1, false) && PeerOk(net, n, j, s.net[x], x, false);
    ReachesFree(net, n, s, event, x);
  }

  lemma ReachesFree(net: Net, n: nat, s: System, event: Event, x: nat)
    requires |net| == n + 2 && x < n + 2 && Reaches(net, n, s, event, x)
    requires |s.net| == n + 2 && DistinctAddresses(s.net) && s.net[n + 1].prev.None?
    requires s.net[x].self == net[x].self && s.net[n + 1].self == net[n + 1].self
    ensures var t := Happens(s, event);
            t.System? && |t.net| == n + 2 && t.net[n + 1].prev == Some(net[x].self)
  {
    FreeAsked(s.net, s.flight, event.k, x, n + 1, net[x], net[n + 1].self);
  }

  lemma AskedOnce(net: Net, n: nat, j: nat, s: System, event: Event, x: nat)
    requires Contest(net, n, j) && Open(net, n, j, s, false) && x < n + 2 && Reaches(net, n, s, event, x)
    ensures x == n || x == j
    ensures if x == n then Open(net, n, j, Happens(s, event), true) else Closed(net, n, j, Happens(s, event))
  {
    var t := Happens(s, event);
    var taken := OpenStep(net, n, j, s, event);
    AskerTaken(net, n, j, s, event, x);
    if taken.Some? {
      assert taken.value == n ==> PeerOk(net, n, j, t.net[n + 1], n + 1, true);
      DistinctIds(net, n, j, x, taken.value);
    }
  }

  lemma {:induction false} OpenUntilAsked(net: Net, n: nat, j: nat, s: System, events: seq<Event>, k: nat)
    requires Contest(net, n, j) && Open(net, n, j, s, false) && k <= |events| && NotAsked(net, n, s, events, k)
    ensures Open(net, n, j, RunOf(s, events[..k]), false)
  {
    if k > 0 {
      OpenUntilAsked(net, n, j, s, events, k - 1);
      OpenUnasked(net, n, j, s, events, k - 1, RunOf(s, events[..k - 1]));
      RunNext(s, events, k - 1);
    }
  }

  lemma OpenUnasked(net: Net, n: nat, j: nat, s: System, events: seq<Event>, k: nat, t: System)
    requires Contest(net, n, j) && k < |events| && NotAsked(net, n, s, events, k + 1)
    requires t == RunOf(s, events[..k]) && Open(net, n, j, t, false)
    ensures Open(net, n, j, Happens(t, events[k]), false)
  {
    var taken := OpenStep(net, n, j, t, events[k]);
    if taken.Some? {
      assert AskedAt(net, n, s, events, k, taken.value);
    }
  }

  lemma RunNext(s: System, events: seq<Event>, k: nat)
    requires k < |events|
    ensures RunOf(s, events[..k + 1]) == Happens(RunOf(s, events[..k]), events[k])
  {
    var t := RunOf(s, events[..k]);
    OneMore(s, events[..k], t, events[k], Happens(t, events[k]));
    assert events[..k + 1] == events[..k] + [events[k]];
  }

  /** A ring has no peer without a previous one. */
  lemma PrevInRing(net: Net, v: View)
    requires IsRing(net) && v in net
    ensures v.prev.Some?
  {
    var ring: Net :| SamePeers(net, ring) && Ring(ring, |ring|) && NoBase(ring, |ring|);
    assert v in multiset(net);
    var i := Located(ring, v);
    assert LinkedAt(ring, |ring|, i);
  }

  /** Until a stabilize reaches the second joiner, there is no ring, but there can be one. */
  lemma OpenBeforeAsked(net: Net, n: nat, j: nat, events: seq<Event>)
    requires Contest(net, n, j) && NotAsked(net, n, Start(net, n, j), events, |events|)
    ensures var s := RunOf(Start(net, n, j), events); !HasRing(s) && CanHaveRing(s)
  {
    var s := RunOf(Start(net, n, j), events);
    StartIsOpen(net, n, j);
    OpenUntilAsked(net, n, j, Start(net, n, j), events, |events|);
    assert events[..|events|] == events;
    assert PeerOk(net, n, j, s.net[n + 1], n + 1, false);
    PrevDecides(net, n, j, s);
    if HasRing(s) {
      PrevInRing(s.net, s.net[n + 1]);
    }
  }

  /** The first stabilize that reaches the second joiner is that of the first joiner or that of the
      lower neighbour. Only in the first case there can be a ring, ever after. */
  lemma FirstAskDecides(net: Net, n: nat, j: nat, events: seq<Event>, k: nat, x: nat)
    requires Contest(net, n, j)
    requires NotAsked(net, n, Start(net, n, j), events, k) && AskedAt(net, n, Start(net, n, j), events, k, x)
    ensures x == n || x == j
    ensures CanHaveRing(RunOf(Start(net, n, j), events)) <==> x == n
  {
    var s := Start(net, n, j);
    var t := RunOf(s, events[..k]);
    StartIsOpen(net, n, j);
    OpenUntilAsked(net, n, j, s, events, k);
    AskedOnce(net, n, j, t, events[k], x);
    RunSplit(s, events, k);
    AskDecides(net, n, j, Happens(t, events[k]), x, events[k + 1..]);
  }

  lemma RunSplit(s: System, events: seq<Event>, k: nat)
    requires k < |events|
    ensures RunOf(s, events) == RunOf(Happens(RunOf(s, events[..k]), events[k]), events[k + 1..])
  {
    RunNext(s, events, k);
    Halves(events, k + 1);
    RunHalves(s, events, events[..k + 1], events[k + 1..]);
  }

  lemma Halves<T>(s: seq<T>, k: nat)
    requires k <= |s|
    ensures s == s[..k] + s[k..]
  {
  }

  lemma RunHalves(s: System, events: seq<Event>, first: seq<Event>, rest: seq<Event>)
    requires events == first + rest
    ensures RunOf(s, events) == RunOf(RunOf(s, first), rest)
  {
    RunSum(s, first, rest);
  }

  lemma AskDecides(net: Net, n: nat, j: nat, s: System, x: nat, events: seq<Event>)
    requires Contest(net, n, j) && (x == n || x == j)
    requires if x == n then Open(net, n, j, s, true) else Closed(net, n, j, s)
    ensures CanHaveRing(RunOf(s, events)) <==> x == n
  {
    var t := RunOf(s, events);
    RunDecided(net, n, j, s, events);
    PrevDecides(net, n, j, t);
    if x == n {
      assert PeerOk(net, n, j, t.net[n + 1], n + 1, true);
      if net[n].self.id == net[j].self.id {
        DistinctIds(net, n, j, n, j);
      }
    }
  }
}
