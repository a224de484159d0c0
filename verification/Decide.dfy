/** When two joins into one gap overlap, what decides whether the peers ever form a ring. */
module Decisions {
  import opened Codec
  import opened Peers
  import opened Rings
  import opened Joins
  import opened Building
  import opened Overlaps

  // Peers `n` and `n + 1` are the joiners, `j` is the lower and `Next(j, n)` the upper neighbour.
  // `first` says that the first joiner, peer `n`, is the previous peer of the second one.

  // ----- what the peers can know -----

  /** `y` can be the next peer of `x`. */
  predicate CanFollow(n: nat, j: nat, x: nat, y: nat, first: bool)
    requires j < n
  {
    if x == j then y == Next(j, n) || y == n + 1 || (first && y == n)
    else if x == n then y == Next(j, n) || y == n + 1
    else if x == n + 1 then y == Next(j, n)
    else x < n && y == Next(x, n)
  }

  /** `x` can be told that `y` is its next peer. */
  predicate CanBeTold(n: nat, j: nat, x: nat, y: nat, first: bool) {
    (x == j && (y == n + 1 || (first && y == n))) || (x == n && y == n + 1)
  }

  predicate NextOk(net: Net, n: nat, j: nat, x: nat, p: Option<Contact>, first: bool)
    requires j < n && |net| == n + 2
  {
    p.Some? && exists y {:trigger CanFollow(n, j, x, y, first)} ::
      0 <= y < n + 2 && CanFollow(n, j, x, y, first) && p.value == net[y].self
  }

  predicate PrevOk(net: Net, n: nat, j: nat, x: nat, p: Option<Contact>, first: bool)
    requires j < n && |net| == n + 2 && x < n + 2
  {
    if x == Next(j, n) then p == Some(net[n + 1].self)
    else if x == n + 1 then p == if first then Some(net[n].self) else None
    else if x == n then p == None || (first && p == Some(net[j].self))
    else p == Some(net[Before(x, n)].self)
  }

  predicate PeerOk(net: Net, n: nat, j: nat, v: View, x: nat, first: bool)
    requires j < n && |net| == n + 2 && x < n + 2
  {
    v.self == net[x].self && !v.isBase && NextOk(net, n, j, x, v.next, first) && PrevOk(net, n, j, x, v.prev, first)
  }

  /** A stabilize of `x` to `y`. */
  predicate Asks(net: Net, n: nat, j: nat, e: Envelope, x: nat, y: nat, first: bool)
    requires j < n && |net| == n + 2
  {
    x < n + 2 && y < n + 2 && CanFollow(n, j, x, y, first) && e == StabilizeOf(net[x], net[y].self)
  }

  /** A notify that tells `x` of `y`. */
  predicate Tells(net: Net, n: nat, j: nat, e: Envelope, x: nat, y: nat, first: bool)
    requires j < n && |net| == n + 2
  {
    x < n + 2 && y < n + 2 && CanBeTold(n, j, x, y, first) && e == NoticeTo(net[x].self, net[y].self)
  }

  predicate Expected(net: Net, n: nat, j: nat, e: Envelope, first: bool)
    requires j < n && |net| == n + 2
  {
    || (exists x: nat, y: nat {:trigger Asks(net, n, j, e, x, y, first)} ::
          x < n + 2 && y < n + 2 && Asks(net, n, j, e, x, y, first))
    || (exists x: nat, y: nat {:trigger Tells(net, n, j, e, x, y, first)} ::
          x < n + 2 && y < n + 2 && Tells(net, n, j, e, x, y, first))
  }

  ghost predicate AllExpected(net: Net, n: nat, j: nat, flight: seq<Envelope>, first: bool)
    requires j < n && |net| == n + 2
  {
    forall i {:trigger flight[i]} :: 0 <= i < |flight| ==> Expected(net, n, j, flight[i], first)
  }

  ghost predicate AllOk(net: Net, n: nat, j: nat, u: Net, first: bool)
    requires j < n && |net| == n + 2
  {
    |u| == n + 2 && forall x {:trigger u[x]} :: 0 <= x < n + 2 ==> PeerOk(net, n, j, u[x], x, first)
  }

  /** It is open whether the peers will form a ring; with `first`, they still can. */
  ghost predicate Open(net: Net, n: nat, j: nat, s: System, first: bool)
    requires j < n && |net| == n + 2
  {
    s.System? && AllOk(net, n, j, s.net, first) && AllExpected(net, n, j, s.flight, first)
  }

  /** The second joiner has taken the lower neighbour for its previous peer, and the first joiner
      is left out. */
  ghost predicate Closed(net: Net, n: nat, j: nat, s: System)
    requires j < n && |net| == n + 2
  {
    && LeftOut(s, net[n].self) && s.System? && AllLinked(s.net) && |s.net| == n + 2
    && (forall x {:trigger s.net[x]} :: 0 <= x < n + 2 ==> s.net[x].self == net[x].self)
    && s.net[n + 1].prev == Some(net[j].self)
  }

  ghost predicate Contest(net: Net, n: nat, j: nat) {
    Overlapping(net, n, j) && NoBase(net, n + 2)
  }

  lemma DistinctIds(net: Net, n: nat, j: nat, x: nat, y: nat)
    requires Overlapping(net, n, j) && x < n + 2 && y < n + 2 && net[x].self.id == net[y].self.id
    ensures x == y
  {
    assert j + 1 == Next(j, n);
  }

  // ----- what one delivery does -----

  /** A message of a peer to its next one. */
  lemma NextExpected(net: Net, n: nat, j: nat, v: View, y: nat, first: bool)
    requires j < n && |net| == n + 2 && y < n + 2 && PeerOk(net, n, j, v, y, first)
    ensures Expected(net, n, j, StabilizeOf(v, v.next.value), first)
  {
    var z: nat :| z < n + 2 && CanFollow(n, j, y, z, first) && v.next.value == net[z].self;
    assert Asks(net, n, j, StabilizeOf(v, v.next.value), y, z, first);
  }

  /** Who is told of another peer when it asks `y`. */
  lemma AnswerExpected(net: Net, n: nat, j: nat, v: View, x: nat, y: nat, first: bool)
    requires Contest(net, n, j) && x < n + 2 && y < n + 2 && CanFollow(n, j, x, y, first)
    requires PeerOk(net, n, j, v, y, first) && v.prev.Some? && v.prev.value.id != net[x].self.id
    ensures Expected(net, n, j, NoticeTo(net[x].self, v.prev.value), first)
  {
    var z := if y == Next(j, n) then n + 1 else n;
    assert Tells(net, n, j, NoticeTo(net[x].self, v.prev.value), x, z, first);
  }

  /** Only the joiners can be without a previous peer. */
  lemma FreePeer(net: Net, n: nat, j: nat, v: View, x: nat, y: nat, first: bool)
    requires Contest(net, n, j) && x < n + 2 && y < n + 2 && CanFollow(n, j, x, y, first)
    requires PeerOk(net, n, j, v, y, first) && v.prev.None?
    ensures if y == n + 1 && !first then x == n || x == j
            else PeerOk(net, n, j, v.(prev := Some(net[x].self)), y, first)
  {
  }

  /** A peer that is asked by `x`. */
  lemma AskedPeer(net: Net, n: nat, j: nat, v: View, x: nat, y: nat, first: bool)
    requires Contest(net, n, j) && x < n + 2 && y < n + 2 && CanFollow(n, j, x, y, first)
    requires PeerOk(net, n, j, v, y, first)
    ensures var r := OnStabilize(v, StabilizeMessage(net[x].self));
            && r.Step?
            && (if y == n + 1 && !first then
                  (x == n || x == j) && r == Step(v.(prev := Some(net[x].self)), [])
                else PeerOk(net, n, j, r.view, y, first) && AllExpected(net, n, j, r.sent, first))
  {
    var c := net[x].self;
    if v.prev.None? {
      FreeReacts(v, c);
      FreePeer(net, n, j, v, x, y, first);
    } else if v.prev.value.id == c.id {
      assert OnStabilize(v, StabilizeMessage(c)) == Step(v, [StabilizeOf(v, v.next.value)]);
      assert AllExpected(net, n, j, [StabilizeOf(v, v.next.value)], first) by {
        NextExpected(net, n, j, v, y, first);
      }
    } else {
      assert OnStabilize(v, StabilizeMessage(c)) == Step(v, [NoticeTo(c, v.prev.value)]);
      assert AllExpected(net, n, j, [NoticeTo(c, v.prev.value)], first) by {
        AnswerExpected(net, n, j, v, x, y, first);
      }
    }
  }

  /** A peer that is told of `y`. */
  lemma ToldPeer(net: Net, n: nat, j: nat, v: View, x: nat, y: nat, first: bool)
    requires j < n && |net| == n + 2 && x < n + 2 && y < n + 2 && CanBeTold(n, j, x, y, first)
    requires PeerOk(net, n, j, v, x, first)
    ensures PeerOk(net, n, j, v.(next := Some(net[y].self)), x, first)
  {
    assert CanFollow(n, j, x, y, first);
  }

  // ----- what one event does -----

  lemma SameSelves(net: Net, u: Net)
    requires |u| == |net| && DistinctAddresses(net)
    requires forall x {:trigger u[x]} :: 0 <= x < |net| ==> u[x].self == net[x].self
    ensures DistinctAddresses(u)
  {
  }

  lemma OkDistinct(net: Net, n: nat, j: nat, u: Net, first: bool)
    requires j < n && |net| == n + 2 && DistinctAddresses(net) && AllOk(net, n, j, u, first)
    ensures DistinctAddresses(u)
  {
    forall x | 0 <= x < |net|
      ensures u[x].self == net[x].self
    {
      assert PeerOk(net, n, j, u[x], x, first);
    }
    SameSelves(net, u);
  }

  lemma AllOkUpdated(net: Net, n: nat, j: nat, u: Net, x: nat, v: View, first: bool)
    requires j < n && |net| == n + 2 && x < n + 2 && AllOk(net, n, j, u, first) && PeerOk(net, n, j, v, x, first)
    ensures AllOk(net, n, j, u[x := v], first)
  {
  }

  lemma ExpectedWithout(net: Net, n: nat, j: nat, flight: seq<Envelope>, k: nat, sent: seq<Envelope>, first: bool)
    requires j < n && |net| == n + 2 && k < |flight|
    requires AllExpected(net, n, j, flight, first) && AllExpected(net, n, j, sent, first)
    ensures AllExpected(net, n, j, flight[..k] + flight[k + 1..] + sent, first)
  {
    var all := flight[..k] + flight[k + 1..] + sent;
    forall i | 0 <= i < |all|
      ensures Expected(net, n, j, all[i], first)
    {
      if i < |flight| - 1 {
        assert all[i] == flight[if i < k then i else i + 1];
      } else {
        assert all[i] == sent[i - (|flight| - 1)];
      }
    }
  }

  /** Message `k`, an expected stabilize, is delivered. */
  lemma AskDelivered(net: Net, n: nat, j: nat, s: System, k: nat, x: nat, y: nat, first: bool)
    requires Contest(net, n, j) && Open(net, n, j, s, first)
    requires k < |s.flight| && Asks(net, n, j, s.flight[k], x, y, first)
    ensures var rest, r := s.flight[..k] + s.flight[k + 1..], OnStabilize(s.net[y], StabilizeMessage(net[x].self));
            r.Step? && Happens(s, Delivery(k)) == System(s.net[y := r.view], rest + r.sent)
  {
    var rest, c := s.flight[..k] + s.flight[k + 1..], net[x].self;
    assert PeerOk(net, n, j, s.net[y], y, first);
    AskedPeer(net, n, j, s.net[y], x, y, first);
    ReactStabilize(s.net[y], c);
    OkDistinct(net, n, j, s.net, first);
    var r := OnStabilize(s.net[y], StabilizeMessage(c));
    DeliverFirst(s.net, y, EncodePeer(StabilizeMessage(c)), rest, r.view, r.sent);
  }

  /** Message `k`, an expected notify, is delivered. */
  lemma TellDelivered(net: Net, n: nat, j: nat, s: System, k: nat, x: nat, y: nat, first: bool)
    requires Contest(net, n, j) && Open(net, n, j, s, first)
    requires k < |s.flight| && Tells(net, n, j, s.flight[k], x, y, first)
    ensures Happens(s, Delivery(k))
            == System(s.net[x := s.net[x].(next := Some(net[y].self))], s.flight[..k] + s.flight[k + 1..])
  {
    assert PeerOk(net, n, j, s.net[x], x, first);
    OkDistinct(net, n, j, s.net, first);
    NoticeTaken(s.net, x, net[y].self, s.flight[..k] + s.flight[k + 1..]);
  }

  lemma AskStep(net: Net, n: nat, j: nat, s: System, k: nat, x: nat, y: nat, first: bool)
    requires Contest(net, n, j) && Open(net, n, j, s, first)
    requires k < |s.flight| && Asks(net, n, j, s.flight[k], x, y, first) && (first || y != n + 1)
    ensures Open(net, n, j, Happens(s, Delivery(k)), first)
  {
    var r := OnStabilize(s.net[y], StabilizeMessage(net[x].self));
    assert PeerOk(net, n, j, s.net[y], y, first);
    AskDelivered(net, n, j, s, k, x, y, first);
    AskedPeer(net, n, j, s.net[y], x, y, first);
    AllOkUpdated(net, n, j, s.net, y, r.view, first);
    ExpectedWithout(net, n, j, s.flight, k, r.sent, first);
  }

  lemma TellStep(net: Net, n: nat, j: nat, s: System, k: nat, x: nat, y: nat, first: bool)
    requires Contest(net, n, j) && Open(net, n, j, s, first)
    requires k < |s.flight| && Tells(net, n, j, s.flight[k], x, y, first)
    ensures Open(net, n, j, Happens(s, Delivery(k)), first)
  {
    var rest := s.flight[..k] + s.flight[k + 1..];
    assert PeerOk(net, n, j, s.net[x], x, first);
    TellDelivered(net, n, j, s, k, x, y, first);
    ToldPeer(net, n, j, s.net[x], x, y, first);
    AllOkUpdated(net, n, j, s.net, x, s.net[x].(next := Some(net[y].self)), first);
    ExpectedWithout(net, n, j, s.flight, k, [], first);
    assert rest + [] == rest;
  }

  lemma WaveAdds(net: Net, n: nat, j: nat, s: System, i: nat, first: bool)
    requires Contest(net, n, j) && Open(net, n, j, s, first)
    ensures Open(net, n, j, Happens(s, WaveBy(i)), first)
  {
    if i < n + 2 {
      var v := s.net[i];
      assert PeerOk(net, n, j, v, i, first);
      NextExpected(net, n, j, v, i, first);
      WaveStarts(s.net, s.flight, i);
      ExpectedAfter(net, n, j, s.flight, StabilizeOf(v, v.next.value), first);
    }
  }

  lemma ExpectedAfter(net: Net, n: nat, j: nat, flight: seq<Envelope>, e: Envelope, first: bool)
    requires j < n && |net| == n + 2 && AllExpected(net, n, j, flight, first) && Expected(net, n, j, e, first)
    ensures AllExpected(net, n, j, flight + [e], first)
  {
  }

  /** What can happen still can when the first joiner is taken. */
  lemma StillExpected(net: Net, n: nat, j: nat, e: Envelope)
    requires j < n && |net| == n + 2 && Expected(net, n, j, e, false)
    ensures Expected(net, n, j, e, true)
  {
    if x: nat, y: nat :| x < n + 2 && y < n + 2 && Asks(net, n, j, e, x, y, false) {
      assert Asks(net, n, j, e, x, y, true);
    } else {
      var x: nat, y: nat :| x < n + 2 && y < n + 2 && Tells(net, n, j, e, x, y, false);
      assert Tells(net, n, j, e, x, y, true);
    }
  }

  lemma StillOk(net: Net, n: nat, j: nat, v: View, x: nat)
    requires j < n && |net| == n + 2 && x < n + 2 && x != n + 1 && PeerOk(net, n, j, v, x, false)
    ensures PeerOk(net, n, j, v, x, true)
  {
    var y: nat :| y < n + 2 && CanFollow(n, j, x, y, false) && v.next.value == net[y].self;
    assert CanFollow(n, j, x, y, true);
  }

  /** The stabilize of the first joiner reaches the second one before that of the lower
      neighbour. */
  lemma FirstTaken(net: Net, n: nat, j: nat, u: Net, flight: seq<Envelope>)
    requires Contest(net, n, j) && Open(net, n, j, System(u, flight), false)
    ensures Open(net, n, j, System(u[n + 1 := u[n + 1].(prev := Some(net[n].self))], flight), true)
  {
    var w := u[n + 1 := u[n + 1].(prev := Some(net[n].self))];
    forall x: nat | x < n + 2
      ensures PeerOk(net, n, j, w[x], x, true)
    {
      assert PeerOk(net, n, j, u[x], x, false);
      if x == n + 1 {
        assert CanFollow(n, j, x, Next(j, n), true);
      } else {
        StillOk(net, n, j, u[x], x);
      }
    }
    forall i | 0 <= i < |flight|
      ensures Expected(net, n, j, flight[i], true)
    {
      StillExpected(net, n, j, flight[i]);
    }
  }

  /** Nobody names the first joiner before. */
  lemma KeptOut(net: Net, n: nat, j: nat, v: View, x: nat)
    requires Contest(net, n, j) && x < n + 2 && PeerOk(net, n, j, v, x, false)
    ensures v.next.Some? && Elsewhere(v.next.value, net[n].self)
    ensures v.prev.Some? ==> Elsewhere(v.prev.value, net[n].self)
    ensures x != n && x != n + 1 ==> v.prev.Some?
  {
    var y: nat :| y < n + 2 && CanFollow(n, j, x, y, false) && v.next.value == net[y].self;
    assert y != n;
  }

  lemma ExpectedHarmless(net: Net, n: nat, j: nat, e: Envelope)
    requires Contest(net, n, j) && Expected(net, n, j, e, false)
    ensures Harmless(e, net[n].self)
  {
    if x: nat, y: nat :| x < n + 2 && y < n + 2 && Asks(net, n, j, e, x, y, false) {
      assert y != n;
      assert Stabilizes(e, net[x].self, net[n].self);
    } else {
      var x: nat, y: nat :| x < n + 2 && y < n + 2 && Tells(net, n, j, e, x, y, false);
      assert y != n;
      assert Notifies(e, net[y].self, net[n].self);
    }
  }

  lemma KeepsItOut(net: Net, n: nat, j: nat, u: Net, x: nat)
    requires Contest(net, n, j) && x < n + 2 && AllOk(net, n, j, u, false)
    ensures var v := if x == n + 1 then u[x].(prev := Some(net[j].self)) else u[x];
            KeepsOut(v, net[n].self) && v.next.Some? && v.self == net[x].self
  {
    assert PeerOk(net, n, j, u[x], x, false);
    KeptOut(net, n, j, u[x], x);
  }

  lemma AllHarmlessFlight(net: Net, n: nat, j: nat, flight: seq<Envelope>)
    requires Contest(net, n, j) && AllExpected(net, n, j, flight, false)
    ensures AllHarmless(flight, net[n].self)
  {
    forall i | 0 <= i < |flight|
      ensures Harmless(flight[i], net[n].self)
    {
      ExpectedHarmless(net, n, j, flight[i]);
    }
  }

  /** The stabilize of the lower neighbour reaches the second joiner before that of the first. */
  lemma SecondTaken(net: Net, n: nat, j: nat, u: Net, flight: seq<Envelope>)
    requires Contest(net, n, j) && Open(net, n, j, System(u, flight), false)
    ensures Closed(net, n, j, System(u[n + 1 := u[n + 1].(prev := Some(net[j].self))], flight))
  {
    var w := u[n + 1 := u[n + 1].(prev := Some(net[j].self))];
    AllHarmlessFlight(net, n, j, flight);
    forall x: nat {:trigger w[x]} | x < n + 2
      ensures KeepsOut(w[x], net[n].self) && w[x].next.Some? && w[x].self == net[x].self
    {
      KeepsItOut(net, n, j, u, x);
    }
  }

  // ----- runs -----

  /** The first joiner can still be in the ring, or it is left out. */
  ghost predicate Decided(net: Net, n: nat, j: nat, s: System)
    requires j < n && |net| == n + 2
  {
    Open(net, n, j, s, false) || Open(net, n, j, s, true) || Closed(net, n, j, s)
  }

  /** The event is the delivery of a stabilize of peer `x` to the second joiner. */
  predicate Reaches(net: Net, n: nat, s: System, event: Event, x: nat)
    requires |net| == n + 2 && x < |net|
  {
    s.System? && event.Delivery? && event.k < |s.flight| && s.flight[event.k] == StabilizeOf(net[x], net[n + 1].self)
  }

  /** The second joiner, without a previous peer, is asked by `x`. */
  lemma SecondAsked(net: Net, n: nat, j: nat, s: System, k: nat, x: nat)
    requires Contest(net, n, j) && Open(net, n, j, s, false)
    requires k < |s.flight| && Asks(net, n, j, s.flight[k], x, n + 1, false)
    ensures x == n || x == j
    ensures var rest := s.flight[..k] + s.flight[k + 1..];
            && Happens(s, Delivery(k)) == System(s.net[n + 1 := s.net[n + 1].(prev := Some(net[x].self))], rest)
            && Open(net, n, j, System(s.net, rest), false)
  {
    FreeDelivered(net, n, j, s, k, x);
    OpenWithout(net, n, j, s, k, false);
  }

  lemma FreeDelivered(net: Net, n: nat, j: nat, s: System, k: nat, x: nat)
    requires j < n && |net| == n + 2 && DistinctAddresses(net) && s.System? && AllOk(net, n, j, s.net, false)
    requires k < |s.flight| && x < n + 2 && s.flight[k] == StabilizeOf(net[x], net[n + 1].self)
    ensures Happens(s, Delivery(k))
            == System(s.net[n + 1 := s.net[n + 1].(prev := Some(net[x].self))], s.flight[..k] + s.flight[k + 1..])
  {
    OkDistinct(net, n, j, s.net, false);
    assert PeerOk(net, n, j, s.net[n + 1], n + 1, false) && PeerOk(net, n, j, s.net[x], x, false);
    FreeAsked(s.net, s.flight, k, x, n + 1, net[x], net[n + 1].self);
  }

  /** Message `k`, a stabilize to a peer without a previous one, is delivered. */
  lemma FreeAsked(u: Net, flight: seq<Envelope>, k: nat, x: nat, y: nat, v: View, c: Contact)
    requires x < |u| && y < |u| && DistinctAddresses(u) && u[y].prev.None?
    requires u[x].self == v.self && u[y].self == c && k < |flight| && flight[k] == StabilizeOf(v, c)
    ensures Happens(System(u, flight), Delivery(k))
            == System(u[y := u[y].(prev := Some(v.self))], flight[..k] + flight[k + 1..])
  {
    assert StabilizeOf(v, c) == StabilizeOf(u[x], u[y].self);
    StabilizeTaken(u, x, y, flight[..k] + flight[k + 1..]);
  }

  lemma FreeReacts(v: View, c: Contact)
    requires v.prev.None?
    ensures OnStabilize(v, StabilizeMessage(c)) == Step(v.(prev := Some(c)), [])
  {
    assert Named(StabilizeMessage(c)) == c;
  }

  lemma OpenWithout(net: Net, n: nat, j: nat, s: System, k: nat, first: bool)
    requires j < n && |net| == n + 2 && Open(net, n, j, s, first) && k < |s.flight|
    ensures Open(net, n, j, System(s.net, s.flight[..k] + s.flight[k + 1..]), first)
  {
    ExpectedWithout(net, n, j, s.flight, k, [], first);
    assert s.flight[..k] + s.flight[k + 1..] + [] == s.flight[..k] + s.flight[k + 1..];
  }

  lemma OpenDelivery(net: Net, n: nat, j: nat, s: System, k: nat) returns (taken: Option<nat>)
    requires Contest(net, n, j) && Open(net, n, j, s, false) && k < |s.flight|
    ensures taken.None? ==> Open(net, n, j, Happens(s, Delivery(k)), false)
    ensures taken.Some? ==>
              && (taken.value == n || taken.value == j) && Asks(net, n, j, s.flight[k], taken.value, n + 1, false)
  {
    assert Expected(net, n, j, s.flight[k], false);
    taken := None;
    if x: nat, y: nat :| x < n + 2 && y < n + 2 && Asks(net, n, j, s.flight[k], x, y, false) {
      if y == n + 1 {
        taken := Some(x);
        SecondAsked(net, n, j, s, k, x);
      } else {
        AskStep(net, n, j, s, k, x, y, false);
      }
    } else {
      var x: nat, y: nat :| x < n + 2 && y < n + 2 && Tells(net, n, j, s.flight[k], x, y, false);
      TellStep(net, n, j, s, k, x, y, false);
    }
  }

  lemma Taken(net: Net, n: nat, j: nat, s: System, k: nat, x: nat)
    requires Contest(net, n, j) && Open(net, n, j, s, false)
    requires k < |s.flight| && Asks(net, n, j, s.flight[k], x, n + 1, false)
    ensures x == n || x == j
    ensures if x == n then Open(net, n, j, Happens(s, Delivery(k)), true)
            else Closed(net, n, j, Happens(s, Delivery(k)))
  {
    SecondAsked(net, n, j, s, k, x);
    if x == n {
      FirstTaken(net, n, j, s.net, s.flight[..k] + s.flight[k + 1..]);
    } else {
      SecondTaken(net, n, j, s.net, s.flight[..k] + s.flight[k + 1..]);
    }
  }

  /** While it is open, the second joiner takes a previous peer only when the stabilize of this
      peer is delivered to it: that of the first joiner, or that of the lower neighbour. */
  lemma OpenStep(net: Net, n: nat, j: nat, s: System, event: Event) returns (taken: Option<nat>)
    requires Contest(net, n, j) && Open(net, n, j, s, false)
    ensures taken.None? ==> Open(net, n, j, Happens(s, event), false)
    ensures taken.Some? ==>
              && (taken.value == n || taken.value == j) && Reaches(net, n, s, event, taken.value)
              && (if taken.value == n then Open(net, n, j, Happens(s, event), true)
                  else Closed(net, n, j, Happens(s, event)))
  {
    taken := None;
    match event
    case WaveBy(i) => WaveAdds(net, n, j, s, i, false);
    case Delivery(k) =>
      if k < |s.flight| {
        taken := OpenDelivery(net, n, j, s, k);
        if taken.Some? {
          Taken(net, n, j, s, k, taken.value);
        }
      }
  }

  lemma TakenStep(net: Net, n: nat, j: nat, s: System, event: Event)
    requires Contest(net, n, j) && Open(net, n, j, s, true)
    ensures Open(net, n, j, Happens(s, event), true)
  {
    match event
    case WaveBy(i) => WaveAdds(net, n, j, s, i, true);
    case Delivery(k) =>
      if k < |s.flight| {
        assert Expected(net, n, j, s.flight[k], true);
        if x: nat, y: nat :| x < n + 2 && y < n + 2 && Asks(net, n, j, s.flight[k], x, y, true) {
          AskStep(net, n, j, s, k, x, y, true);
        } else {
          var x: nat, y: nat :| x < n + 2 && y < n + 2 && Tells(net, n, j, s.flight[k], x, y, true);
          TellStep(net, n, j, s, k, x, y, true);
        }
      }
  }

  lemma ClosedStep(net: Net, n: nat, j: nat, s: System, event: Event)
    requires Contest(net, n, j) && Closed(net, n, j, s)
    ensures Closed(net, n, j, Happens(s, event))
  {
    var c := net[n].self;
    match event
    case WaveBy(i) => WaveKeepsOut(s, i, c);
    case Delivery(k) =>
      if k < |s.flight| {
        PulledHarmless(s.flight, k, c);
        DeliveryKeepsOut(System(s.net, Pulled(s.flight, k)), c);
      }
  }

  lemma {:induction false} RunDecided(net: Net, n: nat, j: nat, s: System, events: seq<Event>)
    requires Contest(net, n, j) && Decided(net, n, j, s)
    ensures Decided(net, n, j, RunOf(s, events))
    ensures Open(net, n, j, s, true) ==> Open(net, n, j, RunOf(s, events), true)
    ensures Closed(net, n, j, s) ==> Closed(net, n, j, RunOf(s, events))
  {
    if events != [] {
      var k := |events| - 1;
      var t := RunOf(s, events[..k]);
      RunDecided(net, n, j, s, events[..k]);
      if Open(net, n, j, t, false) {
        var _ := OpenStep(net, n, j, t, events[k]);
      }
      if Open(net, n, j, t, true) {
        TakenStep(net, n, j, t, events[k]);
      }
      if Closed(net, n, j, t) {
        ClosedStep(net, n, j, t, events[k]);
      }
    }
  }
}
