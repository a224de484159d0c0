/** One peer of the ring: what its receive handler does with a control message and where it
    routes a client request. */
module Peers {
  import opened Words
  import opened Codec

  datatype Option<T> = None | Some(value: T)

  /** What a peer knows of a peer. */
  datatype Contact = Contact(ip: U32, port: U16, id: U16)

  /** The value of a peer's records; NULL pointers are None. */
  datatype View = View(self: Contact, isBase: bool, next: Option<Contact>, prev: Option<Contact>)

  /** Bytes sent to an address. */
  datatype Envelope = Envelope(ip: U32, port: U16, data: Bytes)

  /** A handler either dereferences a NULL pointer or steps to a new view and sends messages. */
  datatype Reaction = Fault | Step(view: View, sent: seq<Envelope>)

  /** in_range: strict at both ends, and no wrap-around. */
  predicate InRange(value: nat, upper: nat, lower: nat) {
    upper > value && lower < value
  }

  // ----- outgoing messages -----

  const NO_FLAGS := PeerMessage(CONTROL_BIT, 0, 0, 0, 0, 0, 0, 0, 0, 0, 0, 0)

  function Naming(d: PeerMessage, c: Contact): PeerMessage {
    d.(nodeId := c.id, nodeIp := c.ip, nodePort := c.port)
  }

  function Named(d: PeerMessage): Contact {
    Contact(d.nodeIp, d.nodePort, d.nodeId)
  }

  function NotifyMessage(c: Contact): PeerMessage {
    Naming(NO_FLAGS.(notify := NOTIFY_BIT), c)
  }

  function StabilizeMessage(c: Contact): PeerMessage {
    Naming(NO_FLAGS.(stabilize := STABILIZE_BIT), c)
  }

  function SendTo(c: Contact, data: Bytes): Envelope {
    Envelope(c.ip, c.port, data)
  }

  /** A message that isPeerProtocol sends to the peer branch, with all its fields. */
  predicate IsControl(raw: Bytes) {
    |raw| >= PEER_SIZE && IsPeer(raw)
  }

  // ----- the branches of the handler -----

  /** buildfinger sends nothing, because no peer has a finger, but it reads the address of
      the next peer. */
  function OnFinger(v: View, d: PeerMessage): Reaction {
    if d.lookup == 0 && v.next.None? then Fault else Step(v, [])
  }

  function OnJoin(v: View, d: PeerMessage, raw: Bytes): Reaction {
    var joiner := Named(d);
    var answer := [SendTo(joiner, EncodePeer(NotifyMessage(v.self)))];
    if v.next.None? then Step(v.(next := Some(joiner), prev := Some(joiner)), answer)
    else if v.self.id > d.hashId && v.prev.None? then Fault
    else if v.self.id > d.hashId && v.prev.value.id < d.hashId then Step(v.(prev := Some(joiner)), answer)
    else Step(v, [SendTo(v.next.value, raw)])
  }

  function OnNotify(v: View, d: PeerMessage): Reaction {
    if v.next.None? then Fault else Step(v.(next := Some(Named(d))), [])
  }

  function OnStabilize(v: View, d: PeerMessage): Reaction {
    if v.prev.None? then Step(v.(prev := Some(Named(d))), [])
    else if d.nodeId == v.prev.value.id && !v.isBase then
      if v.next.None? then Fault
      else Step(v, [SendTo(v.next.value, EncodePeer(StabilizeMessage(v.self)))])
    else Step(v, [SendTo(Named(d), EncodePeer(NotifyMessage(v.prev.value)))])
  }

  /** send_found_lookup: the reply names the next peer and goes to the next peer. */
  function FoundMessage(d: PeerMessage, next: Contact): PeerMessage {
    Naming(d.(control := CONTROL_BIT, reply := REPLY_BIT, lookup := 0), next)
  }

  function OnLookup(v: View, d: PeerMessage, raw: Bytes): Reaction {
    if v.next.None? then Fault
    else if InRange(d.hashId, v.next.value.id, v.self.id) then
      Step(v, [SendTo(v.next.value, EncodePeer(FoundMessage(d, v.next.value)))])
    else Step(v, [SendTo(v.next.value, raw)])
  }

  /** The peer branch of receive_handler. A reply asks for the queued client request, which
      is never there: the queue macros do not run. */
  function React(v: View, raw: Bytes): Reaction
    requires IsControl(raw)
  {
    var d := DecodePeer(raw);
    if d.finger != 0 then OnFinger(v, d)
    else if d.fack != 0 then Step(v, [])
    else if d.join != 0 then OnJoin(v, d, raw)
    else if d.notify != 0 then OnNotify(v, d)
    else if d.stabilize != 0 then OnStabilize(v, d)
    else if d.reply != 0 then Fault
    else if d.lookup != 0 then OnLookup(v, d, raw)
    else Step(v, [])
  }

  // ----- routing client requests -----

  datatype Route = Crash | Serve | Redirect(to: Contact) | Drop

  /** The client branch of receive_handler, for the low 16 bits of the key's hash. */
  function RouteOf(v: View, hashId: U16): Route {
    if v.self.id > hashId && v.prev.None? then Crash
    else if v.self.id > hashId && v.prev.value.id < hashId then Serve
    else if v.next.None? then Crash
    else if InRange(hashId, v.next.value.id, v.self.id) then Redirect(v.next.value)
    else Drop
  }

  // ----- who dies -----

  /** The handler looks at the binary digits of the first byte from finger (2) up to lookup (128): the
      first one that is set decides. A message without any of them does nothing. */
  lemma FirstFlagDecides(v: View, raw: Bytes)
    requires IsControl(raw)
    ensures var f, d := Value(raw[0]), DecodePeer(raw);
            React(v, raw) ==
              if f / 2 % 2 == 1 then OnFinger(v, d)
              else if f / 4 % 2 == 1 then Step(v, [])
              else if f / 8 % 2 == 1 then OnJoin(v, d, raw)
              else if f / 16 % 2 == 1 then OnNotify(v, d)
              else if f / 32 % 2 == 1 then OnStabilize(v, d)
              else if f / 64 % 2 == 1 then Fault
              else if f / 128 % 2 == 1 then OnLookup(v, d, raw)
              else Step(v, [])
  {
    PeerFormat(raw);
  }

  /** A branch dies of the neighbour it reads without having it: a join of the previous peer, if the
      joiner's id is below its own, a notify of the next peer, a stabilize of the next peer, if it comes
      from the previous one and the receiver is no base, and a lookup of the next peer. */
  lemma BranchDies(v: View, raw: Bytes)
    requires |raw| >= PEER_SIZE
    ensures var d := DecodePeer(raw);
            && (OnFinger(v, d) == Fault <==> v.next.None? && Value(raw[0]) < 128)
            && (OnJoin(v, d, raw) == Fault <==>
                  v.next.Some? && v.prev.None? && 256 * Value(raw[1]) + Value(raw[2]) < v.self.id)
            && (OnNotify(v, d) == Fault <==> v.next.None?)
            && (OnStabilize(v, d) == Fault <==>
                  && v.next.None? && v.prev.Some? && !v.isBase
                  && v.prev.value.id == 256 * Value(raw[3]) + Value(raw[4]))
            && (OnLookup(v, d, raw) == Fault <==> v.next.None?)
  {
    PeerFormat(raw);
  }

  /** A peer with both neighbours dies of replies, and of nothing else. */
  lemma LinkedPeerDies(v: View, raw: Bytes)
    requires IsControl(raw) && v.next.Some? && v.prev.Some?
    ensures var f := Value(raw[0]);
            React(v, raw) == Fault <==>
              && f / 2 % 2 == 0 && f / 4 % 2 == 0 && f / 8 % 2 == 0 && f / 16 % 2 == 0 && f / 32 % 2 == 0
              && f / 64 % 2 == 1
  {
    FirstFlagDecides(v, raw);
  }

  /** A peer without neighbours survives only joins, stabilizes, facks and lookups of fingers, and what
      has no flag. */
  lemma LonePeerDies(v: View, raw: Bytes)
    requires IsControl(raw) && v.next.None? && v.prev.None?
    ensures var f := Value(raw[0]);
            React(v, raw) == Fault <==>
              if f / 2 % 2 == 1 then f / 128 % 2 == 0
              else
                && f / 4 % 2 == 0 && f / 8 % 2 == 0
                && (f / 16 % 2 == 1 || (f / 32 % 2 == 0 && (f / 64 % 2 == 1 || f / 128 % 2 == 1)))
  {
    FirstFlagDecides(v, raw);
    PeerFormat(raw);
  }

  /** A client request is fatal without the neighbour that the handler looks at: the previous one for
      an id below its own, and the next one unless it serves the request. With both neighbours, routing
      never is. */
  lemma RouteDies(v: View, h: U16)
    ensures v.next.Some? && v.prev.Some? ==> RouteOf(v, h) != Crash
    ensures v.next.None? && v.prev.None? ==> RouteOf(v, h) == Crash
    ensures v.next.Some? && v.prev.None? ==> (RouteOf(v, h) == Crash <==> h < v.self.id)
    ensures v.next.None? && v.prev.Some? ==> (RouteOf(v, h) == Serve <==> v.prev.value.id < h < v.self.id)
    ensures v.next.None? && v.prev.Some? ==> (RouteOf(v, h) == Crash <==> !(v.prev.value.id < h < v.self.id))
  {
  }
}
