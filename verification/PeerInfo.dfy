/** The running peer: the records `this`, `next` and `prev` that the receive handler updates
    in place, and the store it serves from. */
module PeerInfos {
  import opened Words
  import opened Codec
  import opened Peers
  import opened Stores
  import opened Seqs
  import opened Services
  import opened HashFunctions
  import Bits
  import Jenkins

  class Record {
    var ip: U32
    var port: U16
    var id: U16
    var isBase: bool

    /** A fresh record is zeroed before it is filled. */
    constructor (c: Contact)
      ensures AsContact() == c && !isBase
    {
      ip, port, id, isBase := c.ip, c.port, c.id, false;
    }

    function AsContact(): Contact
      reads this
    {
      Contact(ip, port, id)
    }

    method Fill(c: Contact)
      modifies this
      ensures AsContact() == c && isBase == old(isBase)
    {
      ip := c.ip;
      port := c.port;
      id := c.id;
    }
  }

  class PeerInfo {
    const me: Record
    var next: Record?
    var prev: Record?
    const store: Store

    constructor (c: Contact)
      ensures Apart() && Look() == View(c, false, None, None)
      ensures store.Valid() && store.Contents() == map[]
    {
      me := new Record(c);
      next, prev := null, null;
      store := new Store();
    }

    /** The three records are different objects. */
    ghost predicate Apart()
      reads this
    {
      me != next && me != prev && (next != null ==> next != prev)
    }

    /** The records as a value. */
    function Look(): View
      reads this, me, next, prev
    {
      View(me.AsContact(), me.isBase,
           if next == null then None else Some(next.AsContact()),
           if prev == null then None else Some(prev.AsContact()))
    }

    /** What the handler did is this reaction. */
    ghost predicate Did(r: Reaction, fault: bool, sent: seq<Envelope>)
      reads this, me, next, prev
    {
      match r
      case Fault => fault
      case Step(v, out) => !fault && Look() == v && sent == out
    }

    /** notify: tells `to` about its next peer. */
    method Notify(to: Contact, about: Contact) returns (e: Envelope)
      ensures e == SendTo(to, EncodePeer(NotifyMessage(about)))
    {
      var msg := EncodePeerProtocol(NotifyMessage(about));
      e := Envelope(to.ip, to.port, msg[..]);
    }

    /** stabilize: tells `to` about its previous peer. */
    method Stabilize(to: Contact, about: Contact) returns (e: Envelope)
      ensures e == SendTo(to, EncodePeer(StabilizeMessage(about)))
    {
      var msg := EncodePeerProtocol(StabilizeMessage(about));
      e := Envelope(to.ip, to.port, msg[..]);
    }

    /** send_found_lookup: writes the next peer into the request, flags and address, and sends
        it to the address it has just written. */
    method SendFoundLookup(d: PeerMessage, next: Contact) returns (e: Envelope)
      ensures e == SendTo(next, EncodePeer(FoundMessage(d, next)))
    {
      var data := d.(control := CONTROL_BIT, reply := REPLY_BIT, lookup := 0);
      data := data.(nodePort := next.port, nodeIp := next.ip, nodeId := next.id);
      var msg := EncodePeerProtocol(data);
      e := Envelope(data.nodeIp, data.nodePort, msg[..]);
    }

    /** A peer that is alone takes the joiner for both neighbours. */
    method FirstJoin(joiner: Contact) returns (sent: seq<Envelope>)
      requires Apart()
      modifies this
      ensures Apart() && fresh(next) && fresh(prev)
      ensures Look() == old(Look()).(next := Some(joiner), prev := Some(joiner))
      ensures sent == [SendTo(joiner, EncodePeer(NotifyMessage(old(Look()).self)))]
    {
      next := new Record(joiner);
      prev := new Record(joiner);
      var e := Notify(joiner, me.AsContact());
      sent := [e];
    }

    /** The join branch. */
    method HandleJoin(d: PeerMessage, raw: Bytes) returns (fault: bool, sent: seq<Envelope>)
      requires Apart()
      modifies this, prev
      ensures Apart() && Did(OnJoin(old(Look()), d, raw), fault, sent)
      ensures prev == old(prev) || fresh(prev)
      ensures next == old(next) || fresh(next)
    {
      fault, sent := false, [];
      var joiner := Contact(d.nodeIp, d.nodePort, d.nodeId);
      if next == null {
        sent := FirstJoin(joiner);
      } else if me.id > d.hashId && prev == null {
        fault := true;
      } else if me.id > d.hashId && prev.id < d.hashId {
        prev.Fill(joiner);
        var e := Notify(joiner, me.AsContact());
        sent := [e];
      } else {
        sent := [Envelope(next.ip, next.port, raw)];
      }
    }

    /** The notify branch, which writes through `next`. */
    method HandleNotify(d: PeerMessage) returns (fault: bool, sent: seq<Envelope>)
      requires Apart()
      modifies next
      ensures Did(OnNotify(old(Look()), d), fault, sent)
    {
      fault, sent := next == null, [];
      if !fault {
        next.Fill(Contact(d.nodeIp, d.nodePort, d.nodeId));
      }
    }

    /** The stabilize branch. */
    method HandleStabilize(d: PeerMessage) returns (fault: bool, sent: seq<Envelope>)
      requires Apart()
      modifies `prev
      ensures Apart() && Did(OnStabilize(old(Look()), d), fault, sent)
      ensures prev == old(prev) || fresh(prev)
    {
      fault, sent := false, [];
      if prev == null {
        prev := new Record(Contact(d.nodeIp, d.nodePort, d.nodeId));
      } else if d.nodeId == prev.id && !me.isBase {
        if next == null {
          return true, [];
        }
        var e := Stabilize(next.AsContact(), me.AsContact());
        sent := [e];
      } else {
        var e := Notify(Contact(d.nodeIp, d.nodePort, d.nodeId), prev.AsContact());
        sent := [e];
      }
    }

    /** The lookup branch; no peer has a finger. */
    method HandleLookup(d: PeerMessage, raw: Bytes) returns (fault: bool, sent: seq<Envelope>)
      ensures Did(OnLookup(Look(), d, raw), fault, sent)
    {
      fault, sent := next == null, [];
      if !fault {
        if InRange(d.hashId, next.id, me.id) {
          var e := SendFoundLookup(d, next.AsContact());
          sent := [e];
        } else {
          sent := [Envelope(next.ip, next.port, raw)];
        }
      }
    }

    /** The peer branch of receive_handler. */
    method ReceiveControl(raw: Bytes) returns (fault: bool, sent: seq<Envelope>)
      requires Apart() && IsControl(raw)
      modifies this, next, prev
      ensures Apart() && Did(React(old(Look()), raw), fault, sent)
      ensures prev == old(prev) || fresh(prev)
      ensures next == old(next) || fresh(next)
    {
      fault, sent := false, [];
      var d := DecodePeer(raw);
      if d.finger != 0 {
        fault := d.lookup == 0 && next == null;
      } else if d.fack != 0 {
      } else if d.join != 0 {
        fault, sent := HandleJoin(d, raw);
      } else if d.notify != 0 {
        fault, sent := HandleNotify(d);
      } else if d.stabilize != 0 {
        fault, sent := HandleStabilize(d);
      } else if d.reply != 0 {
        fault := true;
      } else if d.lookup != 0 {
        fault, sent := HandleLookup(d, raw);
      }
    }

    /** The id of a key is its hash, cut off to 16 bits. */
    lemma KeyIdIsCut(key: Bytes)
      requires store.Valid()
      ensures KeyId(store.hash, key) == Bits.And(Jenkins.HashValue(key), 0xffff)
      ensures KeyId(store.hash, key) == Jenkins.HashValue(key) % 65536
    {
      assert Hashed(key);
      Jenkins.ShiftPowers();
      Bits.MaskIsModShiftIsDiv(Jenkins.HashValue(key), 16);
    }

    /** What became of a client request for key `d.key`. */
    ghost predicate Routed(r: Route, d: ClientMessage, raw: Bytes, before: Table, fault: bool,
                           sent: seq<Envelope>, replies: seq<Bytes>)
      requires Sized(d) && Storable(before)
      reads store, store.owner.Values`value
    {
      match r
      case Crash => fault && store.Contents() == before
      case Serve =>
        && (fault <==> Faults(d, before)) && sent == []
        && replies == Replies(d, before) && store.Contents() == NextTable(d, before)
      case Redirect(to) =>
        !fault && sent == [SendTo(to, raw)] && replies == [] && store.Contents() == before
      case Drop =>
        !fault && sent == [] && replies == [] && store.Contents() == before
    }

    /** Serves a request from the store. */
    method ServeHere(d: ClientMessage, raw: Bytes) returns (replies: seq<Bytes>, fault: bool)
      requires Sized(d) && store.Valid() && Storable(store.Contents())
      modifies store, store.t, store.t.buckets, store.t.bloomBv, Elems(store.t.order)
      ensures store.Valid() && Look() == old(Look())
      ensures Routed(Route.Serve, d, raw, old(store.Contents()), fault, [], replies)
    {
      replies, fault := Respond(store, d);
    }

    /** The client branch of receive_handler. */
    method ReceiveClient(raw: Bytes) returns (fault: bool, sent: seq<Envelope>, replies: seq<Bytes>)
      requires CompleteClient(raw) && store.Valid() && Storable(store.Contents())
      modifies store, store.t, store.t.buckets, store.t.bloomBv, Elems(store.t.order)
      ensures store.Valid() && Sized(DecodeClient(raw)) && Look() == old(Look())
      ensures Routed(RouteOf(Look(), KeyId(store.hash, DecodeClient(raw).key)), DecodeClient(raw), raw,
                     old(store.Contents()), fault, sent, replies)
    {
      var d, hashId := ReadRequest(raw);
      fault, sent, replies := RouteClient(d, raw, hashId);
    }

    /** The decoded request and the id of its key. */
    method ReadRequest(raw: Bytes) returns (d: ClientMessage, hashId: U16)
      requires CompleteClient(raw) && store.Valid()
      ensures d == DecodeClient(raw) && Sized(d) && hashId == KeyId(store.hash, d.key)
    {
      d := DecodeClient(raw);
      DecodedSized(raw);
      var hash := GetHashValue(d.key, store.hash);
      hashId := hash % 0x1_0000;
    }

    /** Serves the request, sends it on or drops it. */
    method RouteClient(d: ClientMessage, raw: Bytes, hashId: U16)
      returns (fault: bool, sent: seq<Envelope>, replies: seq<Bytes>)
      requires Sized(d) && store.Valid() && Storable(store.Contents())
      modifies store, store.t, store.t.buckets, store.t.bloomBv, Elems(store.t.order)
      ensures store.Valid() && Look() == old(Look())
      ensures Routed(RouteOf(Look(), hashId), d, raw, old(store.Contents()), fault, sent, replies)
    {
      fault, sent, replies := false, [], [];
      if me.id > hashId && prev == null {
        fault := true;
      } else if me.id > hashId && prev.id < hashId {
        replies, fault := ServeHere(d, raw);
      } else {
        fault, sent := SendElsewhere(d, raw, hashId);
      }
    }

    /** What becomes of a request that is not for this peer's own range. */
    method SendElsewhere(d: ClientMessage, raw: Bytes, hashId: U16) returns (fault: bool, sent: seq<Envelope>)
      requires Sized(d) && Storable(store.Contents())
      requires me.id > hashId ==> prev != null && prev.id >= hashId
      ensures Routed(RouteOf(Look(), hashId), d, raw, store.Contents(), fault, sent, [])
    {
      fault, sent := next == null, [];
      if next != null && InRange(hashId, next.id, me.id) {
        sent := [Envelope(next.ip, next.port, raw)];
      }
    }

    /** receive_handler. */
    method ReceiveHandler(raw: Bytes) returns (fault: bool, sent: seq<Envelope>, replies: seq<Bytes>)
      requires Apart() && store.Valid() && Storable(store.Contents())
      requires |raw| > 0 && if IsPeer(raw) then |raw| >= PEER_SIZE else CompleteClient(raw)
      modifies this, next, prev, store, store.t, store.t.buckets, store.t.bloomBv, Elems(store.t.order)
      ensures Apart() && store.Valid()
      ensures IsPeer(raw) ==>
                && Did(React(old(Look()), raw), fault, sent)
                && replies == [] && store.Contents() == old(store.Contents())
      ensures !IsPeer(raw) ==>
                && Look() == old(Look()) && Sized(DecodeClient(raw))
                && Routed(RouteOf(Look(), KeyId(store.hash, DecodeClient(raw).key)), DecodeClient(raw), raw,
                          old(store.Contents()), fault, sent, replies)
    {
      replies := [];
      if IsPeer(raw) {
        fault, sent := ReceiveControl(raw);
      } else {
        fault, sent, replies := ReceiveClient(raw);
      }
    }
  }
}
