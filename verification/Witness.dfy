/** Actual inputs at which the code does not do what its documentation says. */
module Witnesses {
  import opened Codec
  import opened Peers
  import opened Services
  import opened Rings
  import opened Joins
  import opened Building
  import opened Overlaps
  import opened Decisions
  import opened Completions

  /** DELETE of the one-byte key `a`, as a client sends it. */
  const DELETE_A: Bytes := [0x80, 0, 1, 0, 0, 0, 0, 0x61]

  /** Deleting from an empty store is not safe: the server dies of it. */
  lemma DeletingNothingIsFatal()
    ensures Complete([DELETE_A]) && DiesOf([DELETE_A], map[], 0)
  {
    assert FromBe16(DELETE_A, 1) == 1 && FromBe32(DELETE_A, 3) == 0;
  }

  /** With a SET in the same message it is. */
  lemma SettingFirstIsSafe()
    ensures var request := [0xc0] + DELETE_A[1..];
            Complete([request]) && !DiesOf([request], map[], 0)
  {
    var request := [0xc0] + DELETE_A[1..];
    assert request == [0xc0, 0, 1, 0, 0, 0, 0, 0x61];
    assert FromBe16(request, 1) == 1 && FromBe32(request, 3) == 0;
  }

  // ----- a ring of two peers -----

  const FIVE := Contact(0x7f00_0001, 4005, 5)
  const NINE := Contact(0x7f00_0001, 4009, 9)

  function TwoPeers(): Net {
    [View(FIVE, false, Some(NINE), Some(NINE)), View(NINE, false, Some(FIVE), Some(FIVE))]
  }

  lemma TwoPeersAreRing()
    ensures Ring(TwoPeers(), 2) && DistinctAddresses(TwoPeers())
  {
  }

  function Lookup(h: U16): PeerMessage {
    Naming(NO_FLAGS.(lookup := LOOKUP_BIT, hashId := h), FIVE)
  }

  lemma LookupDecodes(h: U16)
    ensures IsControl(EncodePeer(Lookup(h)))
    ensures IsLookup(DecodePeer(EncodePeer(Lookup(h)))) && DecodePeer(EncodePeer(Lookup(h))).hashId == h
  {
    PeerRoundTrip(Lookup(h));
  }

  /** A lookup of id 7 at peer 5 names peer 9 and kills it. */
  lemma LookupOfSevenKills()
    ensures RepliedWith(After(Mail(TwoPeers(), 0, EncodePeer(Lookup(7))), 1), 7, NINE)
    ensures After(Mail(TwoPeers(), 0, EncodePeer(Lookup(7))), 2) == Crashed
  {
    TwoPeersAreRing();
    LookupDecodes(7);
    assert Gap(TwoPeers(), 2, 0, 7);
    LookupIsAnswered(TwoPeers(), 2, 0, EncodePeer(Lookup(7)), 0);
  }

  lemma ThreeIsNowhere()
    ensures !InSomeGap(TwoPeers(), 2, 3)
  {
  }

  /** Nobody answers for id 3, below both peers: its lookup goes round for ever. */
  lemma LookupOfThreeNeverEnds(k: nat)
    ensures After(Mail(TwoPeers(), 0, EncodePeer(Lookup(3))), k)
            == Mail(TwoPeers(), Walk(0, k, 2), EncodePeer(Lookup(3)))
    ensures RouteOf(TwoPeers()[0], 3) == RouteOf(TwoPeers()[1], 3) == Drop
  {
    TwoPeersAreRing();
    LookupDecodes(3);
    ThreeIsNowhere();
    LookupEnds(TwoPeers(), 2, 0, EncodePeer(Lookup(3)));
  }

  /** Nor can a peer with id 3 join. */
  lemma JoinOfThreeNeverEnds(k: nat)
    ensures var c := Contact(0x7f00_0001, 4003, 3);
            After(Mail(TwoPeers(), 0, JoinBytes(c)), k) == Mail(TwoPeers(), Walk(0, k, 2), JoinBytes(c))
  {
    var c := Contact(0x7f00_0001, 4003, 3);
    TwoPeersAreRing();
    JoinDecodes(c);
    ThreeIsNowhere();
    JoinOutside(TwoPeers(), 2, 0, JoinBytes(c), k);
  }

  /** Peers 5 and 9, and peers 6 and 7, which both want to join between them. */
  function FourPeers(): Net {
    TwoPeers() + [View(Contact(0x7f00_0001, 4006, 6), false, Some(NINE), None),
                  View(Contact(0x7f00_0001, 4007, 7), false, Some(NINE), None)]
  }

  lemma FourPeersOverlap()
    ensures Overlapping(FourPeers(), 2, 0)
  {
    TwoPeersAreRing();
    RingWithin(TwoPeers(), FourPeers());
  }

  /** Peer 6 is left out when 5 stabilizes first. */
  lemma SixIsLeftOut(events: seq<Event>)
    ensures var t := RunOf(BothJoins(FourPeers(), 2, 0), OverlapEvents(0) + events);
            t.System? ==> !IsRing(t.net)
  {
    FourPeersOverlap();
    OverlapNeverRing(FourPeers(), 2, 0, events);
  }

  /** It need not be: before anybody stabilizes, there can still be a ring of all four, for good. */
  lemma SixCanGetIn()
    ensures exists events {:trigger RingForGood(Start(FourPeers(), 2, 0), events)} ::
              RingForGood(Start(FourPeers(), 2, 0), events)
  {
    FourPeersOverlap();
    assert Contest(FourPeers(), 2, 0);
    StartIsOpen(FourPeers(), 2, 0);
    PrevDecides(FourPeers(), 2, 0, Start(FourPeers(), 2, 0));
  }

  /** A client DELETE with the flag bits of a lookup is no lookup: it has no control bit. */
  lemma DeleteIsNoLookup()
    ensures var raw := [0x80, 0, 4, 0, 0, 0, 0, 0, 0, 0, 0];
            && IsLookup(DecodePeer(raw)) && ExactClient(raw)
            && !IsControl(raw) && Deliver(Mail(TwoPeers(), 0, raw)) == Strayed
  {
    var raw := [0x80, 0, 4, 0, 0, 0, 0, 0, 0, 0, 0];
    assert FromBe16(raw, 1) == 4 && FromBe32(raw, 3) == 0;
  }
}
