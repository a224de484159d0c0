/** What can go wrong when two joins overlap: a peer that nobody names any more stays out of the
    ring, whatever waves follow. */
module Overlaps {
  import opened Codec
  import opened Peers
  import opened Rings
  import opened Joins
  import opened Building

  // ----- runs of deliveries and waves -----

  datatype Event = Delivery(k: nat) | WaveBy(i: nat)

  /** Message `k` overtakes the older ones. */
  function Pulled(flight: seq<Envelope>, k: nat): seq<Envelope>
    requires k < |flight|
  {
    [flight[k]] + (flight[..k] + flight[k + 1..])
  }

  /** Any message under way is delivered, or peer `i` sends stabilize to its next peer. */
  function Happens(s: System, event: Event): System {
    match event
    case Delivery(k) =>
      if !s.System? || k >= |s.flight| then s else Deliver(System(s.net, Pulled(s.flight, k)))
    case WaveBy(i) =>
      if !s.System? || i >= |s.net| then s
      else if s.net[i].next.None? then Crashed
      else System(s.net, s.flight + [StabilizeOf(s.net[i], s.net[i].next.value)])
  }

  function StabilizeOf(v: View, to: Contact): Envelope {
    SendTo(to, EncodePeer(StabilizeMessage(v.self)))
  }

  lemma OldestFirst(s: System)
    ensures Happens(s, Delivery(0)) == Deliver(s)
  {
    if s.System? && s.flight != [] {
      assert Pulled(s.flight, 0) == s.flight;
    }
  }

  /** The system after these events. */
  function RunOf(s: System, events: seq<Event>): System {
    if events == [] then s else Happens(RunOf(s, events[..|events| - 1]), events[|events| - 1])
  }

  lemma OneMore(s: System, events: seq<Event>, t: System, event: Event, u: System)
    requires RunOf(s, events) == t && Happens(t, event) == u
    ensures RunOf(s, events + [event]) == u
  {
    assert (events + [event])[..|events|] == events;
  }

  lemma {:induction false} RunSum(s: System, first: seq<Event>, rest: seq<Event>)
    ensures RunOf(s, first + rest) == RunOf(RunOf(s, first), rest)
  {
    if rest == [] {
      assert first + rest == first;
    } else {
      var n := |rest| - 1;
      RunSum(s, first, rest[..n]);
      assert first + rest[..n] + [rest[n]] == first + rest;
      RunSumNext(s, first + rest[..n], rest[n], RunOf(RunOf(s, first), rest));
    }
  }

  lemma RunSumNext(s: System, events: seq<Event>, event: Event, u: System)
    requires u == Happens(RunOf(s, events), event)
    ensures RunOf(s, events + [event]) == u
  {
    OneMore(s, events, RunOf(s, events), event, u);
  }

  /** Each event leads from one of these systems to the next. */
  ghost predicate Steps(states: seq<System>, events: seq<Event>) {
    && |states| == |events| + 1
    && forall i: nat {:trigger Stage(i)} :: Stage(i) && i < |events| ==> Happens(states[i], events[i]) == states[i + 1]
  }

  /** The events lead from one system to the other. */
  ghost predicate Leads(s: System, events: seq<Event>, t: System) {
    exists states {:trigger Steps(states, events)} ::
      Steps(states, events) && states[0] == s && states[|events|] == t
  }

  lemma LeadsOnce(s: System, event: Event, t: System)
    requires Happens(s, event) == t
    ensures Leads(s, [event], t)
  {
    assert Steps([s, t], [event]);
  }

  lemma LeadsOn(s: System, first: seq<Event>, t: System, rest: seq<Event>, u: System)
    requires Leads(s, first, t) && Leads(t, rest, u)
    ensures Leads(s, first + rest, u)
  {
    var a :| Steps(a, first) && a[0] == s && a[|first|] == t;
    var b :| Steps(b, rest) && b[0] == t && b[|rest|] == u;
    var states, events := a + b[1..], first + rest;
    forall i: nat | Stage(i) && i < |events|
      ensures Happens(states[i], events[i]) == states[i + 1]
    {
      if i < |first| {
        assert Stage(i);
      } else {
        assert Stage(i - |first|);
        assert states[i] == b[i - |first|];
      }
    }
    assert Steps(states, events);
  }

  lemma {:induction false} StepsRun(states: seq<System>, events: seq<Event>, k: nat)
    requires Steps(states, events) && k <= |events|
    ensures RunOf(states[0], events[..k]) == states[k]
  {
    if k > 0 {
      StepsRun(states, events, k - 1);
      assert Stage(k - 1);
      assert events[..k] == events[..k - 1] + [events[k - 1]];
      OneMore(states[0], events[..k - 1], states[k - 1], events[k - 1], states[k]);
    }
  }

  lemma LeadsRun(s: System, events: seq<Event>, t: System)
    requires Leads(s, events, t)
    ensures RunOf(s, events) == t
  {
    var states :| Steps(states, events) && states[0] == s && states[|events|] == t;
    StepsRun(states, events, |events|);
    assert events[..|events|] == events;
  }

  // ----- a peer that nobody names -----

  predicate Elsewhere(x: Contact, c: Contact) {
    x.ip != c.ip || x.port != c.port
  }

  /** `v` does not have the peer at `c` for a neighbour, and has no place for it either. */
  predicate KeepsOut(v: View, c: Contact) {
    && (v.next.Some? ==> Elsewhere(v.next.value, c))
    && (v.prev.Some? ==> Elsewhere(v.prev.value, c))
    && (Elsewhere(v.self, c) ==> v.prev.Some?)
  }

  /** A stabilize of `x`, which is not one of the peer at `c` to itself. */
  predicate Stabilizes(e: Envelope, x: Contact, c: Contact) {
    && e.data == EncodePeer(StabilizeMessage(x))
    && (e.ip == c.ip && e.port == c.port ==> Elsewhere(x, c))
  }

  /** A notify that names a peer other than the one at `c`. */
  predicate Notifies(e: Envelope, x: Contact, c: Contact) {
    e.data == EncodePeer(NotifyMessage(x)) && Elsewhere(x, c)
  }

  ghost predicate Harmless(e: Envelope, c: Contact) {
    || (exists x: Contact :: Stabilizes(e, x, c))
    || (exists x: Contact :: Notifies(e, x, c))
  }

  ghost predicate AllKeepOut(net: Net, c: Contact) {
    forall i {:trigger net[i]} :: 0 <= i < |net| ==> KeepsOut(net[i], c)
  }

  ghost predicate AllHarmless(flight: seq<Envelope>, c: Contact) {
    forall i {:trigger flight[i]} :: 0 <= i < |flight| ==> Harmless(flight[i], c)
  }

  /** No peer names the one at `c` or is going to: or some peer has died. */
  ghost predicate LeftOut(s: System, c: Contact) {
    match s
    case Crashed => true
    case Strayed => false
    case System(net, flight) => AllKeepOut(net, c) && AllHarmless(flight, c)
  }

  /** A peer keeps its address, having a next peer, and the previous peer it has. */
  predicate Kept(v: View, v': View) {
    && v'.self == v.self
    && (v.next.Some? ==> v'.next.Some?)
    && (v.prev.Some? ==> v'.prev == v.prev)
  }

  lemma StabilizeKeepsOut(v: View, e: Envelope, x: Contact, c: Contact)
    requires KeepsOut(v, c) && Listens(v, e) && Stabilizes(e, x, c)
    ensures IsControl(e.data)
    ensures match React(v, e.data)
            case Fault => v.next.None?
            case Step(v', sent) => KeepsOut(v', c) && AllHarmless(sent, c) && Kept(v, v')
  {
    ReactStabilize(v, x);
    if v.prev.Some? {
      if v.next.Some? {
        assert Stabilizes(StabilizeOf(v, v.next.value), v.self, c);
      }
      assert Notifies(SendTo(x, EncodePeer(NotifyMessage(v.prev.value))), v.prev.value, c);
    }
  }

  lemma NotifyKeepsOut(v: View, e: Envelope, x: Contact, c: Contact)
    requires KeepsOut(v, c) && Notifies(e, x, c)
    ensures IsControl(e.data)
    ensures match React(v, e.data)
            case Fault => v.next.None?
            case Step(v', sent) => KeepsOut(v', c) && AllHarmless(sent, c) && Kept(v, v')
  {
    NotifyDecodes(x);
  }

  lemma HarmlessIsControl(e: Envelope, c: Contact)
    requires Harmless(e, c)
    ensures IsControl(e.data)
  {
    if x: Contact :| Stabilizes(e, x, c) {
      StabilizeDecodes(x);
    } else {
      var x: Contact :| Notifies(e, x, c);
      NotifyDecodes(x);
    }
  }

  lemma HarmlessKeepsOut(v: View, e: Envelope, c: Contact)
    requires KeepsOut(v, c) && Listens(v, e) && Harmless(e, c) && IsControl(e.data)
    ensures match React(v, e.data)
            case Fault => v.next.None?
            case Step(v', sent) => KeepsOut(v', c) && AllHarmless(sent, c) && Kept(v, v')
  {
    if x: Contact :| Stabilizes(e, x, c) {
      StabilizeKeepsOut(v, e, x, c);
    } else {
      var x: Contact :| Notifies(e, x, c);
      NotifyKeepsOut(v, e, x, c);
    }
  }

  ghost predicate AllLinked(net: Net) {
    forall i {:trigger net[i]} :: 0 <= i < |net| ==> net[i].next.Some?
  }

  /** No peer dies, and all keep what they have. */
  ghost predicate Unhurt(net: Net, t: System) {
    t.System? && |t.net| == |net| && forall i {:trigger t.net[i]} :: 0 <= i < |net| ==> Kept(net[i], t.net[i])
  }

  lemma DeliveryKeepsOut(s: System, c: Contact)
    requires LeftOut(s, c)
    ensures LeftOut(Deliver(s), c)
    ensures s.System? && AllLinked(s.net) ==> Unhurt(s.net, Deliver(s))
  {
    if s.System? && s.flight != [] {
      var e := s.flight[0];
      var r := Receiver(s.net, e, 0);
      HarmlessIsControl(e, c);
      if r < |s.net| {
        HarmlessKeepsOut(s.net[r], e, c);
      }
    }
  }

  lemma PulledHarmless(flight: seq<Envelope>, k: nat, c: Contact)
    requires AllHarmless(flight, c) && k < |flight|
    ensures AllHarmless(Pulled(flight, k), c)
  {
    var rest := flight[..k] + flight[k + 1..];
    forall i | 0 <= i < |rest|
      ensures Harmless(rest[i], c)
    {
      assert rest[i] == flight[if i < k then i else i + 1];
    }
  }

  lemma WaveKeepsOut(s: System, i: nat, c: Contact)
    requires LeftOut(s, c)
    ensures LeftOut(Happens(s, WaveBy(i)), c)
  {
    if s.System? && i < |s.net| && s.net[i].next.Some? {
      assert Stabilizes(StabilizeOf(s.net[i], s.net[i].next.value), s.net[i].self, c);
    }
  }

  /** A peer that is left out stays out, whatever is delivered and whoever sends stabilize. */
  lemma {:induction false} StaysLeftOut(s: System, c: Contact, events: seq<Event>)
    requires LeftOut(s, c)
    ensures LeftOut(RunOf(s, events), c)
  {
    if events != [] {
      var n := |events| - 1;
      var t := RunOf(s, events[..n]);
      StaysLeftOut(s, c, events[..n]);
      match events[n]
      case Delivery(k) =>
        if t.System? && k < |t.flight| {
          PulledHarmless(t.flight, k, c);
          DeliveryKeepsOut(System(t.net, Pulled(t.flight, k)), c);
        }
      case WaveBy(i) => WaveKeepsOut(t, i, c);
    }
  }

  /** In a ring, every peer is named by the one below it. */
  lemma NamedInRing(net: Net, v: View) returns (i: nat)
    requires IsRing(net) && v in net
    ensures i < |net| && net[i].next == Some(v.self)
  {
    var ring: Net :| SamePeers(net, ring) && Ring(ring, |ring|) && NoBase(ring, |ring|);
    assert v in multiset(net);
    var j := Located(ring, v);
    assert LinkedAt(ring, |ring|, Before(j, |ring|));
    assert ring[Before(j, |ring|)] in multiset(ring);
    i := Located(net, ring[Before(j, |ring|)]);
  }

  lemma LeftOutIsNoRing(net: Net, flight: seq<Envelope>, v: View)
    requires LeftOut(System(net, flight), v.self) && v in net
    ensures !IsRing(net)
  {
    if IsRing(net) {
      var i := NamedInRing(net, v);
    }
  }

  /** All peers stay at their places and addresses. */
  ghost predicate SamePlaces(s: System, t: System) {
    s.System? && t.System? ==>
      |s.net| == |t.net| && forall i {:trigger t.net[i]} :: 0 <= i < |s.net| ==> t.net[i].self == s.net[i].self
  }

  lemma HappensInPlace(s: System, event: Event)
    ensures SamePlaces(s, Happens(s, event))
    ensures !s.System? ==> Happens(s, event) == s
  {
    if s.System? && event.Delivery? && event.k < |s.flight| && IsControl(s.flight[event.k].data) {
      var e := s.flight[event.k];
      var r := Receiver(s.net, e, 0);
      if r < |s.net| {
        ReactKeepsSelf(s.net[r], e.data);
      }
    }
  }

  lemma {:induction false} RunInPlace(s: System, events: seq<Event>)
    ensures SamePlaces(s, RunOf(s, events))
    ensures !s.System? ==> RunOf(s, events) == s
  {
    if events != [] {
      var n := |events| - 1;
      RunInPlace(s, events[..n]);
      HappensInPlace(RunOf(s, events[..n]), events[n]);
    }
  }

  /** So the peers never form a ring again. */
  lemma NeverRing(net: Net, flight: seq<Envelope>, i: nat, events: seq<Event>)
    requires i < |net| && LeftOut(System(net, flight), net[i].self)
    ensures var t := RunOf(System(net, flight), events); t.System? ==> !IsRing(t.net)
  {
    var s, t := System(net, flight), RunOf(System(net, flight), events);
    StaysLeftOut(s, net[i].self, events);
    RunInPlace(s, events);
    if t.System? {
      LeftOutIsNoRing(t.net, t.flight, t.net[i]);
    }
  }

  // ----- two joins into one gap -----

  /** The last two peers of the net both want to join in the gap above peer `j`. */
  ghost predicate Overlapping(net: Net, n: nat, j: nat) {
    && Ring(net, n) && |net| == n + 2 && DistinctAddresses(net) && NoBase(net, n) && j < n
    && Gap(net, n, j, net[n].self.id) && Gap(net, n, j, net[n + 1].self.id)
    && net[n].self.id < net[n + 1].self.id
    && net[n].next.Some? && net[n].prev.None? && net[n + 1].next.Some? && net[n + 1].prev.None?
  }

  function NoticeTo(to: Contact, c: Contact): Envelope {
    SendTo(to, EncodePeer(NotifyMessage(c)))
  }

  /** Both joins are on their way to the upper neighbour, the one with the lower id first. */
  function BothJoins(net: Net, n: nat, j: nat): System
    requires j < n && |net| == n + 2
  {
    var to := net[Next(j, n)].self;
    System(net, [SendTo(to, JoinBytes(net[n].self))] + [SendTo(to, JoinBytes(net[n + 1].self))])
  }

  /** The upper neighbour has taken the second joiner for its previous peer, and both joiners
      have taken it for their next one. */
  function BothWelcomed(net: Net, n: nat, j: nat): Net
    requires j < n && |net| == n + 2
  {
    var t := Next(j, n);
    var u, next := net[t := net[t].(prev := Some(net[n + 1].self))], Some(net[t].self);
    u[n := u[n].(next := next)][n + 1 := u[n + 1].(next := next)]
  }

  /** The lower neighbour and the second joiner have found each other. */
  function SecondIsIn(net: Net, n: nat, j: nat): Net
    requires j < n && |net| == n + 2
  {
    var w := BothWelcomed(net, n, j);
    w[j := w[j].(next := Some(net[n + 1].self))][n + 1 := w[n + 1].(prev := Some(net[j].self))]
  }

  lemma DeliverFirst(net: Net, i: nat, raw: Bytes, rest: seq<Envelope>, v: View, sent: seq<Envelope>)
    requires i < |net| && DistinctAddresses(net) && IsControl(raw) && v.self == net[i].self
    requires React(net[i], raw) == Step(v, sent)
    ensures Deliver(System(net, [SendTo(net[i].self, raw)] + rest)) == System(net[i := v], rest + sent)
    ensures DistinctAddresses(net[i := v])
  {
    MailArrives(net, i, raw);
    SameAddresses(net, i, v);
  }

  /** Peer `t` takes a joiner from its gap. */
  lemma JoinTaken(net: Net, t: nat, c: Contact, rest: seq<Envelope>)
    requires t < |net| && DistinctAddresses(net)
    requires net[t].next.Some? && net[t].prev.Some? && net[t].prev.value.id < c.id < net[t].self.id
    ensures var v := net[t];
            && Deliver(System(net, [SendTo(v.self, JoinBytes(c))] + rest))
               == System(net[t := v.(prev := Some(c))], rest + [NoticeTo(c, v.self)])
            && DistinctAddresses(net[t := v.(prev := Some(c))])
  {
    JoinDecodes(c);
    DeliverFirst(net, t, JoinBytes(c), rest, net[t].(prev := Some(c)), [NoticeTo(c, net[t].self)]);
  }

  /** Peer `i` corrects its next peer. */
  lemma NoticeTaken(net: Net, i: nat, c: Contact, rest: seq<Envelope>)
    requires i < |net| && DistinctAddresses(net) && net[i].next.Some?
    ensures var v := net[i].(next := Some(c));
            && Deliver(System(net, [NoticeTo(net[i].self, c)] + rest)) == System(net[i := v], rest)
            && DistinctAddresses(net[i := v])
  {
    ReactNotify(net[i], c);
    DeliverFirst(net, i, EncodePeer(NotifyMessage(c)), rest, net[i].(next := Some(c)), []);
  }

  lemma Twice(s: System, t: System, u: System)
    requires Deliver(s) == t && Deliver(t) == u
    ensures Leads(s, [Delivery(0)] + [Delivery(0)], u)
  {
    OldestFirst(s);
    OldestFirst(t);
    LeadsOnce(s, Delivery(0), t);
    LeadsOnce(t, Delivery(0), u);
    LeadsOn(s, [Delivery(0)], t, [Delivery(0)], u);
  }

  /** Peer `t` takes one joiner and then another one, closer to it. */
  lemma BothTaken(net: Net, t: nat, a: Contact, b: Contact)
    requires t < |net| && DistinctAddresses(net)
    requires net[t].next.Some? && net[t].prev.Some? && net[t].prev.value.id < a.id < b.id < net[t].self.id
    ensures var c, u := net[t].self, net[t := net[t].(prev := Some(b))];
            && DistinctAddresses(u)
            && Leads(System(net, [SendTo(c, JoinBytes(a))] + [SendTo(c, JoinBytes(b))]), [Delivery(0)] + [Delivery(0)],
                     System(u, [NoticeTo(a, c)] + [NoticeTo(b, c)]))
  {
    var c, u := net[t].self, net[t := net[t].(prev := Some(b))];
    var second, notice := SendTo(c, JoinBytes(b)), NoticeTo(a, c);
    var m := net[t := net[t].(prev := Some(a))];
    JoinTaken(net, t, a, [second]);
    JoinTaken(m, t, b, [notice]);
    assert m[t := m[t].(prev := Some(b))] == u;
    Twice(System(net, [SendTo(c, JoinBytes(a))] + [second]), System(m, [second] + [notice]),
          System(u, [notice] + [NoticeTo(b, c)]));
  }

  /** Two peers learn of their next peer. */
  lemma BothNoticed(net: Net, i: nat, k: nat, c: Contact)
    requires i < |net| && k < |net| && i != k && DistinctAddresses(net) && net[i].next.Some? && net[k].next.Some?
    ensures var u := net[i := net[i].(next := Some(c))][k := net[k].(next := Some(c))];
            && DistinctAddresses(u)
            && Leads(System(net, [NoticeTo(net[i].self, c)] + [NoticeTo(net[k].self, c)]),
                     [Delivery(0)] + [Delivery(0)], System(u, []))
  {
    var m, second := net[i := net[i].(next := Some(c))], NoticeTo(net[k].self, c);
    NoticeTaken(net, i, c, [second]);
    NoticeTaken(m, k, c, []);
    Twice(System(net, [NoticeTo(net[i].self, c)] + [second]), System(m, [second]),
          System(m[k := net[k].(next := Some(c))], []));
  }

  /** Peer `t` takes the joiners `i` and `k`, and both learn of it. */
  lemma TakenAndNoticed(net: Net, t: nat, i: nat, k: nat)
    requires t < |net| && i < |net| && k < |net| && t != i && i != k && k != t && DistinctAddresses(net)
    requires net[t].next.Some? && net[t].prev.Some?
    requires net[t].prev.value.id < net[i].self.id < net[k].self.id < net[t].self.id
    requires net[i].next.Some? && net[k].next.Some?
    ensures var c, a, b := net[t].self, net[i].self, net[k].self;
            var u := net[t := net[t].(prev := Some(b))];
            var w := u[i := u[i].(next := Some(c))][k := u[k].(next := Some(c))];
            && DistinctAddresses(w)
            && Leads(System(net, [SendTo(c, JoinBytes(a))] + [SendTo(c, JoinBytes(b))]),
                     ([Delivery(0)] + [Delivery(0)]) + ([Delivery(0)] + [Delivery(0)]), System(w, []))
  {
    var c, a, b := net[t].self, net[i].self, net[k].self;
    var u := net[t := net[t].(prev := Some(b))];
    var w := u[i := u[i].(next := Some(c))][k := u[k].(next := Some(c))];
    BothTaken(net, t, a, b);
    BothNoticed(u, i, k, c);
    LeadsOn(System(net, [SendTo(c, JoinBytes(a))] + [SendTo(c, JoinBytes(b))]), [Delivery(0)] + [Delivery(0)],
            System(u, [NoticeTo(a, c)] + [NoticeTo(b, c)]), [Delivery(0)] + [Delivery(0)], System(w, []));
  }

  lemma WaveStarts(net: Net, flight: seq<Envelope>, i: nat)
    requires i < |net| && net[i].next.Some?
    ensures Happens(System(net, flight), WaveBy(i))
            == System(net, flight + [StabilizeOf(net[i], net[i].next.value)])
  {
  }

  /** The youngest message overtakes all others. */
  lemma YoungestFirst(net: Net, flight: seq<Envelope>, e: Envelope)
    ensures Happens(System(net, flight + [e]), Delivery(|flight|)) == Deliver(System(net, [e] + flight))
  {
    assert (flight + [e])[..|flight|] == flight;
    assert Pulled(flight + [e], |flight|) == [e] + flight;
  }

  /** Peer `y` has no previous peer and takes the sender of the stabilize for it. */
  lemma StabilizeTaken(net: Net, x: nat, y: nat, rest: seq<Envelope>)
    requires x < |net| && y < |net| && DistinctAddresses(net) && net[y].prev.None?
    ensures Deliver(System(net, [StabilizeOf(net[x], net[y].self)] + rest))
            == System(net[y := net[y].(prev := Some(net[x].self))], rest)
  {
    var c := net[x].self;
    ReactStabilize(net[y], c);
    DeliverFirst(net, y, EncodePeer(StabilizeMessage(c)), rest, net[y].(prev := Some(c)), []);
  }

  /** Peer `y` has another previous peer and says so. */
  lemma StabilizeAnswered(net: Net, x: nat, y: nat, c: Contact, rest: seq<Envelope>)
    requires x < |net| && y < |net| && DistinctAddresses(net)
    requires net[y].prev == Some(c) && c.id != net[x].self.id
    ensures Deliver(System(net, [StabilizeOf(net[x], net[y].self)] + rest))
            == System(net, rest + [NoticeTo(net[x].self, c)])
  {
    ReactStabilize(net[y], net[x].self);
    DeliverFirst(net, y, EncodePeer(StabilizeMessage(net[x].self)), rest, net[y], [NoticeTo(net[x].self, c)]);
    assert net[y := net[y]] == net;
  }

  /** Peer `x` stabilizes, and its next peer `y`, which has no previous one, learns of it. */
  lemma NextLearns(net: Net, flight: seq<Envelope>, x: nat, y: nat)
    requires x < |net| && y < |net| && DistinctAddresses(net)
    requires net[x].next == Some(net[y].self) && net[y].prev.None?
    ensures Leads(System(net, flight), [WaveBy(x)] + [Delivery(|flight|)],
                  System(net[y := net[y].(prev := Some(net[x].self))], flight))
  {
    var e, u := StabilizeOf(net[x], net[y].self), System(net[y := net[y].(prev := Some(net[x].self))], flight);
    WaveStarts(net, flight, x);
    LeadsOnce(System(net, flight), WaveBy(x), System(net, flight + [e]));
    YoungestFirst(net, flight, e);
    StabilizeTaken(net, x, y, flight);
    LeadsOnce(System(net, flight + [e]), Delivery(|flight|), u);
    LeadsOn(System(net, flight), [WaveBy(x)], System(net, flight + [e]), [Delivery(|flight|)], u);
  }

  /** Peer `x` stabilizes and hears of `c` from its next peer `y`. */
  lemma SenderLearns(net: Net, flight: seq<Envelope>, x: nat, y: nat, c: Contact)
    requires x < |net| && y < |net| && DistinctAddresses(net)
    requires net[x].next == Some(net[y].self) && net[y].prev == Some(c) && c.id != net[x].self.id
    ensures Leads(System(net, flight), [WaveBy(x)] + ([Delivery(|flight|)] + [Delivery(|flight|)]),
                  System(net[x := net[x].(next := Some(c))], flight))
    ensures DistinctAddresses(net[x := net[x].(next := Some(c))])
  {
    var e, k, u := StabilizeOf(net[x], net[y].self), Delivery(|flight|), net[x := net[x].(next := Some(c))];
    WaveStarts(net, flight, x);
    LeadsOnce(System(net, flight), WaveBy(x), System(net, flight + [e]));
    AnswerTaken(net, flight, x, y, c);
    LeadsOn(System(net, flight), [WaveBy(x)], System(net, flight + [e]), [k] + [k], System(u, flight));
  }

  /** The stabilize is answered, and the answer taken. */
  lemma AnswerTaken(net: Net, flight: seq<Envelope>, x: nat, y: nat, c: Contact)
    requires x < |net| && y < |net| && DistinctAddresses(net) && net[x].next.Some?
    requires net[y].prev == Some(c) && c.id != net[x].self.id
    ensures Leads(System(net, flight + [StabilizeOf(net[x], net[y].self)]),
                  [Delivery(|flight|)] + [Delivery(|flight|)],
                  System(net[x := net[x].(next := Some(c))], flight))
    ensures DistinctAddresses(net[x := net[x].(next := Some(c))])
  {
    var e, notice, k := StabilizeOf(net[x], net[y].self), NoticeTo(net[x].self, c), Delivery(|flight|);
    var s, u := System(net, flight + [e]), System(net[x := net[x].(next := Some(c))], flight);
    StabilizeAnswered(net, x, y, c, flight);
    YoungestFirst(net, flight, e);
    LeadsOnce(s, k, System(net, flight + [notice]));
    NoticeTaken(net, x, c, flight);
    YoungestFirst(net, flight, notice);
    LeadsOnce(System(net, flight + [notice]), k, u);
    LeadsOn(s, [k], System(net, flight + [notice]), [k], u);
  }

  /** Both joins are delivered and answered. */
  lemma JoinsOverlap(net: Net, n: nat, j: nat)
    requires Overlapping(net, n, j)
    ensures DistinctAddresses(BothWelcomed(net, n, j))
    ensures Leads(BothJoins(net, n, j), ([Delivery(0)] + [Delivery(0)]) + ([Delivery(0)] + [Delivery(0)]),
                  System(BothWelcomed(net, n, j), []))
  {
    var t := Next(j, n);
    RingLinks(net, n, j);
    RingLinks(net, n, t);
    TakenAndNoticed(net, t, n, n + 1);
  }

  /** The lower neighbour sends stabilize twice, before any joiner does. */
  lemma LowerStabilizes(net: Net, n: nat, j: nat)
    requires Overlapping(net, n, j) && DistinctAddresses(BothWelcomed(net, n, j))
    ensures Leads(System(BothWelcomed(net, n, j), []),
                  ([WaveBy(j)] + ([Delivery(0)] + [Delivery(0)])) + ([WaveBy(j)] + [Delivery(0)]),
                  System(SecondIsIn(net, n, j), []))
  {
    var w, t, b := BothWelcomed(net, n, j), Next(j, n), net[n + 1].self;
    RingLinks(net, n, j);
    SenderLearns(w, [], j, t, b);
    var m := w[j := w[j].(next := Some(b))];
    NextLearns(m, [], j, n + 1);
    LeadsOn(System(w, []), [WaveBy(j)] + ([Delivery(0)] + [Delivery(0)]), System(m, []), [WaveBy(j)] + [Delivery(0)],
            System(SecondIsIn(net, n, j), []));
  }

  function OverlapEvents(j: nat): seq<Event> {
    (([Delivery(0)] + [Delivery(0)]) + ([Delivery(0)] + [Delivery(0)]))
    + (([WaveBy(j)] + ([Delivery(0)] + [Delivery(0)])) + ([WaveBy(j)] + [Delivery(0)]))
  }

  lemma SecondIsInLeavesOut(net: Net, n: nat, j: nat)
    requires Overlapping(net, n, j)
    ensures LeftOut(System(SecondIsIn(net, n, j), []), net[n].self)
  {
    var u, c, t := SecondIsIn(net, n, j), net[n].self, Next(j, n);
    forall i | 0 <= i < |u|
      ensures KeepsOut(u[i], c)
    {
      if i < n {
        RingLinks(net, n, i);
        RingLinks(net, n, Before(i, n));
      }
    }
  }

  /** When two joins into one gap overlap and the lower neighbour stabilizes first, the first
      joiner is left out, and whatever happens then, the peers never form a ring. */
  lemma OverlapNeverRing(net: Net, n: nat, j: nat, events: seq<Event>)
    requires Overlapping(net, n, j)
    ensures RunOf(BothJoins(net, n, j), OverlapEvents(j)) == System(SecondIsIn(net, n, j), [])
    ensures var t := RunOf(BothJoins(net, n, j), OverlapEvents(j) + events); t.System? ==> !IsRing(t.net)
  {
    var s, u := BothJoins(net, n, j), SecondIsIn(net, n, j);
    JoinsOverlap(net, n, j);
    LowerStabilizes(net, n, j);
    LeadsOn(s, ([Delivery(0)] + [Delivery(0)]) + ([Delivery(0)] + [Delivery(0)]), System(BothWelcomed(net, n, j), []),
            ([WaveBy(j)] + ([Delivery(0)] + [Delivery(0)])) + ([WaveBy(j)] + [Delivery(0)]), System(u, []));
    LeadsRun(s, OverlapEvents(j), System(u, []));
    SecondIsInLeavesOut(net, n, j);
    RunSum(s, OverlapEvents(j), events);
    assert u[n].self == net[n].self;
    NeverRing(u, [], n, events);
  }
}
