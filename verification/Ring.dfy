/** Rings of peers and the mail between them: lookups, responsibility and routing. */
module Rings {
  import opened Words
  import opened Codec
  import opened Peers

  type Net = seq<View>

  /** All peers and the control messages under way; or a peer that has died of a NULL pointer;
      or a message that is no control message, whose effect on a store is not followed here. */
  datatype System = Crashed | Strayed | System(net: Net, flight: seq<Envelope>)

  // ----- delivering messages -----

  predicate Listens(v: View, e: Envelope) {
    v.self.ip == e.ip && v.self.port == e.port
  }

  /** The first peer from `i` on that listens at the address, or `|net|`. */
  function Receiver(net: Net, e: Envelope, i: nat): (r: nat)
    requires i <= |net|
    ensures i <= r <= |net| && (r < |net| ==> Listens(net[r], e))
    ensures forall j {:trigger net[j]} :: i <= j < r ==> !Listens(net[j], e)
    decreases |net| - i
  {
    if i == |net| || Listens(net[i], e) then i else Receiver(net, e, i + 1)
  }

  /** Delivers the oldest message; one that is sent to nobody is lost. */
  function Deliver(s: System): System {
    if !s.System? || s.flight == [] then s
    else
      var e := s.flight[0];
      var r := Receiver(s.net, e, 0);
      if !IsControl(e.data) then Strayed
      else if r == |s.net| then System(s.net, s.flight[1..])
      else
        match React(s.net[r], e.data)
        case Fault => Crashed
        case Step(v, sent) => System(s.net[r := v], s.flight[1..] + sent)
  }

  /** The system after `k` steps. */
  function Iterated(step: System -> System, s: System, k: nat): System {
    if k == 0 then s else step(Iterated(step, s, k - 1))
  }

  predicate Stage(m: nat) {
    true
  }

  /** A system that goes from each state to the following one. */
  lemma {:induction false} Stages(step: System -> System, states: nat -> System, k: nat)
    requires forall m: nat {:trigger Stage(m)} :: Stage(m) && m < k ==> step(states(m)) == states(m + 1)
    ensures Iterated(step, states(0), k) == states(k)
  {
    if k > 0 {
      Stages(step, states, k - 1);
      assert Stage(k - 1);
    }
  }

  /** The system after `k` deliveries. */
  function After(s: System, k: nat): System {
    Iterated(Deliver, s, k)
  }

  lemma AfterNext(s: System, k: nat, t: System)
    requires t == After(s, k)
    ensures After(s, k + 1) == Deliver(t)
  {
  }

  lemma AfterNextTwo(s: System, k: nat, t: System)
    requires After(s, k) == t
    ensures After(s, k + 1) == Deliver(t) && After(s, k + 2) == Deliver(Deliver(t))
  {
    AfterNext(s, k, t);
    AfterNext(s, k + 1, Deliver(t));
  }

  lemma {:induction false} AfterSum(s: System, k: nat, l: nat)
    ensures After(s, k + l) == After(After(s, k), l)
  {
    if l > 0 {
      AfterSum(s, k, l - 1);
    }
  }

  lemma AfterBoth(s: System, k: nat, t: System, l: nat, u: System, m: nat)
    requires After(s, k) == t && After(t, l) == u && m == k + l
    ensures After(s, m) == u
  {
    AfterSum(s, k, l);
  }

  /** One message, on its way to peer `i`. */
  function Mail(net: Net, i: nat, raw: Bytes): System
    requires i < |net|
  {
    System(net, [SendTo(net[i].self, raw)])
  }

  ghost predicate DistinctAddresses(net: Net) {
    forall i, j {:trigger net[i], net[j]} :: 0 <= i < j < |net| ==>
      net[i].self.ip != net[j].self.ip || net[i].self.port != net[j].self.port
  }

  lemma MailArrives(net: Net, i: nat, raw: Bytes)
    requires i < |net| && DistinctAddresses(net)
    ensures Receiver(net, SendTo(net[i].self, raw), 0) == i
  {
    var r := Receiver(net, SendTo(net[i].self, raw), 0);
    assert Listens(net[i], SendTo(net[i].self, raw));
  }

  lemma DeliverMail(net: Net, i: nat, raw: Bytes, v: View, sent: seq<Envelope>)
    requires i < |net| && DistinctAddresses(net) && IsControl(raw)
    requires React(net[i], raw) == Step(v, sent)
    ensures Deliver(Mail(net, i, raw)) == System(net[i := v], sent)
  {
    MailArrives(net, i, raw);
  }

  /** A peer that passes a message on unchanged. */
  lemma DeliverForward(net: Net, i: nat, j: nat, raw: Bytes)
    requires i < |net| && j < |net| && DistinctAddresses(net) && IsControl(raw)
    requires React(net[i], raw) == Step(net[i], [SendTo(net[j].self, raw)])
    ensures Deliver(Mail(net, i, raw)) == Mail(net, j, raw)
  {
    DeliverMail(net, i, raw, net[i], [SendTo(net[j].self, raw)]);
    assert net[i := net[i]] == net;
  }

  // ----- rings -----

  function Next(i: nat, n: nat): nat {
    if i + 1 == n then 0 else i + 1
  }

  function Before(i: nat, n: nat): nat
    requires n > 0
  {
    if i == 0 then n - 1 else i - 1
  }

  ghost predicate Ascending(net: Net, n: nat)
    requires n <= |net|
  {
    forall i, j {:trigger net[i], net[j]} :: 0 <= i < j < n ==> net[i].self.id < net[j].self.id
  }

  predicate LinkedAt(net: Net, n: nat, i: nat)
    requires i < n <= |net|
  {
    && net[i].next == Some(net[Next(i, n)].self)
    && net[i].prev == Some(net[Before(i, n)].self)
  }

  /** The first `n` peers form a consistent ring, ascending once around. */
  ghost predicate Ring(net: Net, n: nat) {
    && 2 <= n <= |net|
    && Ascending(net, n)
    && forall i {:trigger LinkedAt(net, n, i)} :: 0 <= i < n ==> LinkedAt(net, n, i)
  }

  /** The peer `k` places after peer `i`. */
  function Walk(i: nat, k: nat, n: nat): (r: nat)
    requires i < n
    ensures r < n
  {
    if k == 0 then i else Next(Walk(i, k - 1, n), n)
  }

  /** How many places peer `j` is after peer `i`. */
  function Places(i: nat, j: nat, n: nat): nat
    requires i < n && j < n
  {
    if i <= j then j - i else j + n - i
  }

  lemma {:induction false} WalkIs(i: nat, k: nat, n: nat)
    requires i < n && k <= n
    ensures Walk(i, k, n) == if i + k < n then i + k else i + k - n
  {
    if k > 0 {
      WalkIs(i, k - 1, n);
    }
  }

  /** Walking meets `j` first after `Places(i, j, n)` steps. */
  lemma WalkMeets(i: nat, j: nat, n: nat)
    requires i < n && j < n
    ensures Walk(i, Places(i, j, n), n) == j && Places(i, j, n) < n
    ensures forall m {:trigger Walk(i, m, n)} :: 0 <= m < Places(i, j, n) ==> Walk(i, m, n) != j
  {
    WalkIs(i, Places(i, j, n), n);
    forall m | 0 <= m < Places(i, j, n)
      ensures Walk(i, m, n) != j
    {
      WalkIs(i, m, n);
    }
  }

  /** Peer `i` sends the message on to its successor, unchanged, and stays as it is. */
  predicate PassesOn(net: Net, n: nat, i: nat, raw: Bytes)
    requires i < n <= |net| && IsControl(raw)
  {
    React(net[i], raw) == Step(net[i], [SendTo(net[Next(i, n)].self, raw)])
  }

  lemma MailTravels(net: Net, n: nat, i: nat, raw: Bytes, k: nat)
    requires i < n <= |net| && DistinctAddresses(net) && IsControl(raw)
    requires forall m {:trigger Walk(i, m, n)} :: 0 <= m < k ==> PassesOn(net, n, Walk(i, m, n), raw)
    ensures After(Mail(net, i, raw), k) == Mail(net, Walk(i, k, n), raw)
  {
    var states := (m: nat) => Mail(net, Walk(i, m, n), raw);
    forall m: nat | Stage(m) && m < k
      ensures Deliver(states(m)) == states(m + 1)
    {
      DeliverForward(net, Walk(i, m, n), Walk(i, m + 1, n), raw);
    }
    Stages(Deliver, states, k);
  }

  // ----- gaps -----

  /** `h` is strictly between peer `j` and its successor, without wrap-around. */
  predicate Gap(net: Net, n: nat, j: nat, h: nat)
    requires j < n <= |net|
  {
    net[j].self.id < h < net[Next(j, n)].self.id
  }

  ghost predicate InSomeGap(net: Net, n: nat, h: nat)
    requires n <= |net|
  {
    exists j {:trigger Gap(net, n, j, h)} :: 0 <= j < n && Gap(net, n, j, h)
  }

  lemma GapIsUnique(net: Net, n: nat, i: nat, j: nat, h: nat)
    requires Ring(net, n) && i < n && j < n && Gap(net, n, i, h) && Gap(net, n, j, h)
    ensures i == j && i + 1 < n
  {
  }

  // ----- who answers a client -----

  /** A peer of a ring serves exactly the ids in the gap below it and redirects exactly those
      in the gap above it. */
  lemma RouteInRing(net: Net, n: nat, i: nat, h: U16)
    requires Ring(net, n) && i < n
    ensures RouteOf(net[i], h) == Serve <==> Gap(net, n, Before(i, n), h)
    ensures RouteOf(net[i], h) == Redirect(net[Next(i, n)].self) <==> Gap(net, n, i, h)
    ensures !Gap(net, n, i, h) && !Gap(net, n, Before(i, n), h) ==> RouteOf(net[i], h) == Drop
  {
    assert LinkedAt(net, n, i);
  }

  /** At most one peer is responsible. */
  lemma OneResponsible(net: Net, n: nat, i: nat, j: nat, h: U16)
    requires Ring(net, n) && i < n && j < n
    requires RouteOf(net[i], h) == Serve && RouteOf(net[j], h) == Serve
    ensures i == j
  {
    RouteInRing(net, n, i, h);
    RouteInRing(net, n, j, h);
    GapIsUnique(net, n, Before(i, n), Before(j, n), h);
  }

  /** Some peer is responsible exactly for the ids inside a gap. */
  lemma ResponsibleExists(net: Net, n: nat, h: U16)
    requires Ring(net, n)
    ensures (exists i {:trigger net[i]} :: 0 <= i < n && RouteOf(net[i], h) == Serve) <==> InSomeGap(net, n, h)
  {
    forall i | 0 <= i < n && RouteOf(net[i], h) == Serve
      ensures InSomeGap(net, n, h)
    {
      RouteInRing(net, n, i, h);
    }
    forall j | 0 <= j < n && Gap(net, n, j, h)
      ensures RouteOf(net[Next(j, n)], h) == Serve
    {
      RouteInRing(net, n, Next(j, n), h);
    }
  }

  /** A request that is redirected to the next peer is served there. */
  lemma RedirectIsServed(net: Net, n: nat, i: nat, h: U16)
    requires Ring(net, n) && i < n && RouteOf(net[i], h).Redirect?
    ensures RouteOf(net[i], h).to == net[Next(i, n)].self
    ensures RouteOf(net[Next(i, n)], h) == Serve
  {
    RouteInRing(net, n, i, h);
    RouteInRing(net, n, Next(i, n), h);
  }

  // ----- lookups -----

  predicate IsLookup(d: PeerMessage) {
    && d.finger == 0 && d.fack == 0 && d.join == 0 && d.notify == 0 && d.stabilize == 0 && d.reply == 0
    && d.lookup != 0
  }

  lemma ReactLookup(net: Net, n: nat, i: nat, raw: Bytes)
    requires Ring(net, n) && i < n && IsControl(raw) && IsLookup(DecodePeer(raw))
    ensures var d, next := DecodePeer(raw), net[Next(i, n)].self;
            React(net[i], raw) == Step(net[i], [SendTo(next,
              if Gap(net, n, i, d.hashId) then EncodePeer(FoundMessage(d, next)) else raw)])
  {
    assert LinkedAt(net, n, i);
  }

  /** Outside the gap of the peers it passes, a lookup is forwarded unchanged. */
  lemma LookupTravels(net: Net, n: nat, i: nat, raw: Bytes, k: nat)
    requires Ring(net, n) && DistinctAddresses(net) && i < n
    requires IsControl(raw) && IsLookup(DecodePeer(raw))
    requires forall m {:trigger Walk(i, m, n)} :: 0 <= m < k ==> !Gap(net, n, Walk(i, m, n), DecodePeer(raw).hashId)
    ensures After(Mail(net, i, raw), k) == Mail(net, Walk(i, k, n), raw)
  {
    forall m | 0 <= m < k
      ensures PassesOn(net, n, Walk(i, m, n), raw)
    {
      ReactLookup(net, n, Walk(i, m, n), raw);
    }
    MailTravels(net, n, i, raw, k);
  }

  /** Encoding what a lookup was decoded to, with a reply in its place, is well-formed. */
  lemma FoundDecodes(raw: Bytes, c: Contact)
    requires IsControl(raw)
    ensures IsControl(EncodePeer(FoundMessage(DecodePeer(raw), c)))
    ensures DecodePeer(EncodePeer(FoundMessage(DecodePeer(raw), c))) == FoundMessage(DecodePeer(raw), c)
  {
    PeerFlagsMasked(raw);
    PeerRoundTrip(FoundMessage(DecodePeer(raw), c));
  }

  lemma PeerFlagsMasked(raw: Bytes)
    requires IsControl(raw)
    ensures PeerFlags(DecodePeer(raw))
  {
    MaskedPeerFlags(raw[0]);
  }

  lemma MaskedPeerFlags(h: Byte)
    ensures Flag(h & CONTROL_BIT, CONTROL_BIT) && Flag(h & FINGER_BIT, FINGER_BIT)
    ensures Flag(h & FACK_BIT, FACK_BIT) && Flag(h & JOIN_BIT, JOIN_BIT)
    ensures Flag(h & NOTIFY_BIT, NOTIFY_BIT) && Flag(h & STABILIZE_BIT, STABILIZE_BIT)
    ensures Flag(h & REPLY_BIT, REPLY_BIT) && Flag(h & LOOKUP_BIT, LOOKUP_BIT)
  {
  }

  /** The one message under way is a reply that names `c` for the id `h`. */
  predicate RepliedWith(s: System, h: U16, c: Contact) {
    && s.System? && |s.flight| == 1 && IsControl(s.flight[0].data)
    && var d := DecodePeer(s.flight[0].data);
       IsReply(d) && d.hashId == h && Named(d) == c
  }

  predicate IsReply(d: PeerMessage) {
    && d.finger == 0 && d.fack == 0 && d.join == 0 && d.notify == 0 && d.stabilize == 0 && d.lookup == 0
    && d.reply != 0
  }

  /** From any peer, a lookup for an id in the gap above peer `j` is answered after fewer than
      `n` forwards. The reply names the successor of `j`, who is responsible for the id. It is
      also sent to this peer, who dies of it. */
  lemma LookupIsAnswered(net: Net, n: nat, i: nat, raw: Bytes, j: nat)
    requires Ring(net, n) && DistinctAddresses(net) && i < n && j < n
    requires IsControl(raw) && IsLookup(DecodePeer(raw)) && Gap(net, n, j, DecodePeer(raw).hashId)
    ensures var h, k, next := DecodePeer(raw).hashId, Places(i, j, n), net[Next(j, n)];
            && k <= n - 1
            && (forall m {:trigger After(Mail(net, i, raw), m)} :: 0 <= m <= k ==>
                  After(Mail(net, i, raw), m) == Mail(net, Walk(i, m, n), raw))
            && RepliedWith(After(Mail(net, i, raw), k + 1), h, next.self)
            && After(Mail(net, i, raw), k + 1).net == net
            && RouteOf(next, h) == Serve
            && After(Mail(net, i, raw), k + 2) == Crashed
  {
    var k := Places(i, j, n);
    WalkMeets(i, j, n);
    forall m | 0 <= m <= k
      ensures After(Mail(net, i, raw), m) == Mail(net, Walk(i, m, n), raw)
    {
      LookupReaches(net, n, i, raw, j, m);
    }
    LookupAtGap(net, n, raw, j);
    AfterNextTwo(Mail(net, i, raw), k, Mail(net, j, raw));
    RouteInRing(net, n, Next(j, n), DecodePeer(raw).hashId);
  }

  /** On its way to the gap, a lookup passes no other one. */
  lemma LookupReaches(net: Net, n: nat, i: nat, raw: Bytes, j: nat, m: nat)
    requires Ring(net, n) && DistinctAddresses(net) && i < n && j < n && m <= Places(i, j, n)
    requires IsControl(raw) && IsLookup(DecodePeer(raw)) && Gap(net, n, j, DecodePeer(raw).hashId)
    ensures After(Mail(net, i, raw), m) == Mail(net, Walk(i, m, n), raw)
  {
    var h := DecodePeer(raw).hashId;
    WalkMeets(i, j, n);
    forall l | 0 <= l < m
      ensures !Gap(net, n, Walk(i, l, n), h)
    {
      if Gap(net, n, Walk(i, l, n), h) {
        GapIsUnique(net, n, Walk(i, l, n), j, h);
      }
    }
    LookupTravels(net, n, i, raw, m);
  }

  /** The delivery that answers a lookup, and the one of the answer. */
  lemma LookupAtGap(net: Net, n: nat, raw: Bytes, j: nat)
    requires Ring(net, n) && DistinctAddresses(net) && j < n
    requires IsControl(raw) && IsLookup(DecodePeer(raw)) && Gap(net, n, j, DecodePeer(raw).hashId)
    ensures var s := Deliver(Mail(net, j, raw));
            && RepliedWith(s, DecodePeer(raw).hashId, net[Next(j, n)].self) && s.net == net
            && Deliver(s) == Crashed
  {
    var d, next := DecodePeer(raw), net[Next(j, n)].self;
    var found := EncodePeer(FoundMessage(d, next));
    ReactLookup(net, n, j, raw);
    DeliverMail(net, j, raw, net[j], [SendTo(next, found)]);
    assert net[j := net[j]] == net;
    FoundDecodes(raw, next);
    DeliverReply(net, Next(j, n), found);
  }

  lemma DeliverReply(net: Net, i: nat, raw: Bytes)
    requires i < |net| && DistinctAddresses(net) && IsControl(raw) && IsReply(DecodePeer(raw))
    ensures Deliver(Mail(net, i, raw)) == Crashed
  {
    MailArrives(net, i, raw);
    ReplyIsFatal(net[i], raw);
  }

  /** A lookup is answered at some time if and only if its id is inside a gap; otherwise it
      is forwarded for ever. */
  lemma LookupEnds(net: Net, n: nat, i: nat, raw: Bytes)
    requires Ring(net, n) && DistinctAddresses(net) && i < n
    requires IsControl(raw) && IsLookup(DecodePeer(raw))
    ensures var h := DecodePeer(raw).hashId;
            && (InSomeGap(net, n, h) <==>
                  exists k, c {:trigger RepliedWith(After(Mail(net, i, raw), k), h, c)} ::
                    RepliedWith(After(Mail(net, i, raw), k), h, c))
            && (!InSomeGap(net, n, h) ==> forall k {:trigger Walk(i, k, n)} ::
                    After(Mail(net, i, raw), k) == Mail(net, Walk(i, k, n), raw))
  {
    var h := DecodePeer(raw).hashId;
    if InSomeGap(net, n, h) {
      var j :| 0 <= j < n && Gap(net, n, j, h);
      LookupIsAnswered(net, n, i, raw, j);
      assert RepliedWith(After(Mail(net, i, raw), Places(i, j, n) + 1), h, net[Next(j, n)].self);
    } else {
      forall k: nat
        ensures After(Mail(net, i, raw), k) == Mail(net, Walk(i, k, n), raw)
        ensures forall c :: !RepliedWith(After(Mail(net, i, raw), k), h, c)
      {
        assert forall m :: 0 <= m < k ==> !Gap(net, n, Walk(i, m, n), h);
        LookupTravels(net, n, i, raw, k);
      }
    }
  }

  /** The reply goes to the peer it names, which dies of it: no request is ever queued. */
  lemma ReplyIsFatal(v: View, raw: Bytes)
    requires IsControl(raw) && IsReply(DecodePeer(raw))
    ensures React(v, raw) == Fault
  {
  }
}
