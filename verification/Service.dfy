/** The key-value service of a responsible peer: requests in, replies out, over the store.
    It is proved to be a server for a plain map from byte strings to byte strings. */
module Services {
  import opened Words
  import opened Codec
  import opened Stores
  import opened Seqs

  type Table = map<Bytes, Bytes>

  // ----- the plain map server -----

  /** The lengths of stored values fit their field. */
  ghost predicate Storable(m: Table) {
    forall k {:trigger m[k]} :: k in m ==> |m[k]| < WORD
  }

  /** An acknowledgement without key and value. */
  function Ack(bit: Byte): Bytes {
    [ACK_BIT | bit, 0, 0, 0, 0, 0, 0]
  }

  /** The reply to a successful GET repeats the flags and the key of the request. */
  function GetReply(d: ClientMessage, value: Bytes): Bytes
    requires |d.key| < 0x1_0000 && |value| < WORD
  {
    EncodeClient(d.(act := ACK_BIT, value := value))
  }

  predicate Misses(d: ClientMessage, m: Table) {
    d.get != 0 && d.key !in m
  }

  /** The map after a message: a missed GET cancels the rest, DELETE has the last word, and a
      SET takes effect only without a GET. */
  function NextTable(d: ClientMessage, m: Table): Table {
    if Misses(d, m) then m
    else if d.del != 0 then m - {d.key}
    else if d.put != 0 && d.get == 0 then m[d.key := d.value]
    else m
  }

  function Replies(d: ClientMessage, m: Table): seq<Bytes>
    requires Sized(d) && (d.key in m ==> |m[d.key]| < WORD)
  {
    if Misses(d, m) then [Ack(GET_BIT)]
    else (if d.get != 0 then [GetReply(d, m[d.key])] else [])
         + (if d.put != 0 then [Ack(SET_BIT)] else [])
         + (if d.del != 0 && !Faults(d, m) then [Ack(DELETE_BIT)] else [])
  }

  /** Only a pure DELETE of a missing key is a fault. */
  predicate Faults(d: ClientMessage, m: Table) {
    d.del != 0 && d.get == 0 && d.put == 0 && d.key !in m
  }

  /** The id of a key: the low 16 bits of its hash. */
  function KeyId(hash: Bytes -> nat, key: Bytes): U16 {
    hash(key) % 0x1_0000
  }

  /** Every id is the rest of the hash modulo 65536. */
  lemma KeyIdIsLow(hash: Bytes -> nat, key: Bytes)
    ensures 0 <= KeyId(hash, key) < 65536 && (hash(key) - KeyId(hash, key)) % 65536 == 0
  {
  }

  // ----- the service -----

  /** The GET part: the request with the stored value filled in, or a miss. */
  method AnswerGet(store: Store, d: ClientMessage) returns (found: bool, d': ClientMessage, replies: seq<Bytes>)
    requires store.Valid() && Sized(d) && Storable(store.Contents())
    ensures store.Valid() && store.Contents() == old(store.Contents())
    ensures found <==> !Misses(d, store.Contents())
    ensures !found ==> replies == [Ack(GET_BIT)]
    ensures found ==>
              && d' == (if d.get == 0 then d else d.(act := ACK_BIT, value := store.Contents()[d.key]))
              && replies == if d.get == 0 then [] else [GetReply(d, store.Contents()[d.key])]
  {
    d', replies, found := d, [], true;
    if d.get != 0 {
      var element := store.Get(d.key);
      if element == null {
        return false, d, [Ack(GET_BIT)];
      }
      assert store.Contents()[d.key] == element.value;
      d' := d.(act := ACK_BIT, value := element.value);
      var msg := EncodeClientProtocol(d');
      replies := [msg[..]];
    }
  }

  /** The SET part. */
  method AnswerSet(store: Store, d: ClientMessage) returns (replies: seq<Bytes>)
    requires store.Valid()
    modifies store, store.t, store.t.buckets, store.t.bloomBv, Elems(store.t.order)
    ensures store.Valid()
    ensures store.Contents() == AfterSet(d, old(store.Contents()))
    ensures replies == if d.put != 0 then [Ack(SET_BIT)] else []
    ensures fresh(Elems(store.t.order) - old(Elems(store.t.order)))
    ensures store.t.buckets == old(store.t.buckets) || fresh(store.t.buckets)
    ensures store.t.bloomBv == old(store.t.bloomBv) || fresh(store.t.bloomBv)
  {
    replies := [];
    if d.put != 0 {
      store.Set(d.key, d.value);
      replies := [Ack(SET_BIT)];
    }
  }

  /** The DELETE part. */
  method AnswerDelete(store: Store, d: ClientMessage) returns (replies: seq<Bytes>, fault: bool)
    requires store.Valid()
    modifies store, store.t, store.t.buckets, Elems(store.t.order)
    ensures store.Valid()
    ensures fault <==> d.del != 0 && d.key !in old(store.Contents())
    ensures store.Contents() == AfterDelete(d, old(store.Contents()))
    ensures replies == if d.del != 0 && !fault then [Ack(DELETE_BIT)] else []
    ensures Elems(store.t.order) <= old(Elems(store.t.order))
    ensures store.t.buckets == old(store.t.buckets)
    ensures store.t.bloomBv == old(store.t.bloomBv)
  {
    replies, fault := [], false;
    if d.del != 0 {
      fault := store.DeleteElement(d.key);
      replies := if fault then [] else [Ack(DELETE_BIT)];
    }
  }

  function AfterSet(d: ClientMessage, m: Table): Table {
    if d.put != 0 then m[d.key := d.value] else m
  }

  function AfterDelete(d: ClientMessage, m: Table): Table {
    if d.del != 0 then m - {d.key} else m
  }

  function UpdateReplies(d: ClientMessage, fault: bool): seq<Bytes> {
    (if d.put != 0 then [Ack(SET_BIT)] else []) + (if d.del != 0 && !fault then [Ack(DELETE_BIT)] else [])
  }

  /** SET, then DELETE. */
  method AnswerUpdates(store: Store, d: ClientMessage) returns (replies: seq<Bytes>, fault: bool)
    requires store.Valid()
    modifies store, store.t, store.t.buckets, store.t.bloomBv, Elems(store.t.order)
    ensures store.Valid()
    ensures store.Contents() == AfterDelete(d, AfterSet(d, old(store.Contents())))
    ensures fault <==> d.del != 0 && d.key !in AfterSet(d, old(store.Contents()))
    ensures replies == UpdateReplies(d, fault)
    ensures fresh(Elems(store.t.order) - old(Elems(store.t.order)))
    ensures store.t.buckets == old(store.t.buckets) || fresh(store.t.buckets)
    ensures store.t.bloomBv == old(store.t.bloomBv) || fresh(store.t.bloomBv)
  {
    var put := AnswerSet(store, d);
    var del;
    del, fault := AnswerDelete(store, d);
    replies := put + del;
  }

  /** respond_as_responsible_peer. */
  method Respond(store: Store, d: ClientMessage) returns (replies: seq<Bytes>, fault: bool)
    requires store.Valid() && Sized(d) && Storable(store.Contents())
    modifies store, store.t, store.t.buckets, store.t.bloomBv, Elems(store.t.order)
    ensures store.Valid()
    ensures store.Contents() == NextTable(d, old(store.Contents()))
    ensures replies == Replies(d, old(store.Contents()))
    ensures fault <==> Faults(d, old(store.Contents()))
    ensures d.put != 0 && d.get == 0 && d.del == 0 ==> store.Contents() == old(store.Contents())[d.key := d.value]
    ensures d.del != 0 && d.get == 0 ==> store.Contents() == old(store.Contents()) - {d.key}
    ensures fresh(Elems(store.t.order) - old(Elems(store.t.order)))
    ensures store.t.buckets == old(store.t.buckets) || fresh(store.t.buckets)
    ensures store.t.bloomBv == old(store.t.bloomBv) || fresh(store.t.bloomBv)
  {
    ghost var m := store.Contents();
    var found, d', got := AnswerGet(store, d);
    if !found {
      return got, false;
    }
    var updates;
    updates, fault := AnswerUpdates(store, d');
    replies := got + updates;
    PartsCompose(d, m, AfterSet(d', m), d');
  }

  /** The three parts in sequence have the collapsed effect. */
  lemma PartsCompose(d: ClientMessage, m: Table, m': Table, d': ClientMessage)
    requires !Misses(d, m) && Sized(d) && (d.key in m ==> |m[d.key]| < WORD)
    requires d' == if d.get == 0 then d else d.(act := ACK_BIT, value := m[d.key])
    requires m' == AfterSet(d', m)
    ensures AfterDelete(d', m') == NextTable(d, m)
    ensures d.del != 0 && d.key !in m' <==> Faults(d, m)
    ensures Replies(d, m) == (if d.get == 0 then [] else [GetReply(d, m[d.key])]) + UpdateReplies(d', Faults(d, m))
  {
    assert m[d.key := d'.value] - {d.key} == m - {d.key};
    assert d.get != 0 ==> m[d.key := d'.value] == m;
  }

  // ----- whole runs -----

  ghost predicate Complete(requests: seq<Bytes>) {
    forall i {:trigger requests[i]} :: 0 <= i < |requests| ==> CompleteClient(requests[i])
  }

  /** The map after the first `n` requests. */
  function TableAfter(requests: seq<Bytes>, m: Table, n: nat): Table
    requires n <= |requests| && Complete(requests)
  {
    if n == 0 then m else NextTable(DecodeClient(requests[n - 1]), TableAfter(requests, m, n - 1))
  }

  lemma DecodedSized(b: Bytes)
    requires CompleteClient(b)
    ensures Sized(DecodeClient(b))
  {
  }

  lemma DecodedFlags(b: Bytes)
    requires CompleteClient(b)
    ensures ClientFlags(DecodeClient(b))
  {
    MaskedFlags(b[0]);
  }

  lemma NextStorable(d: ClientMessage, m: Table)
    requires Storable(m) && Sized(d)
    ensures Storable(NextTable(d, m))
  {
    var m' := NextTable(d, m);
    forall k | k in m'
      ensures |m'[k]| < WORD
    {
      assert m'[k] == d.value || (k in m && m'[k] == m[k]);
    }
  }

  lemma {:induction false} StorableAfter(requests: seq<Bytes>, m: Table, n: nat)
    requires n <= |requests| && Complete(requests) && Storable(m)
    ensures Storable(TableAfter(requests, m, n))
  {
    if n > 0 {
      StorableAfter(requests, m, n - 1);
      DecodedSized(requests[n - 1]);
      NextStorable(DecodeClient(requests[n - 1]), TableAfter(requests, m, n - 1));
    }
  }

  /** What the map server replies to request `i`. */
  function RepliesTo(requests: seq<Bytes>, m: Table, i: nat): seq<Bytes>
    requires i < |requests| && Complete(requests) && Storable(m)
  {
    DecodedSized(requests[i]);
    StorableAfter(requests, m, i);
    Replies(DecodeClient(requests[i]), TableAfter(requests, m, i))
  }

  /** The server dies of request `i`. */
  predicate DiesOf(requests: seq<Bytes>, m: Table, i: nat)
    requires i < |requests| && Complete(requests)
  {
    Faults(DecodeClient(requests[i]), TableAfter(requests, m, i))
  }

  /** The map server survives the first `n` requests, */
  predicate Survives(requests: seq<Bytes>, m: Table, n: nat)
    requires n <= |requests| && Complete(requests)
  {
    n == 0 || (Survives(requests, m, n - 1) && !DiesOf(requests, m, n - 1))
  }

  /** and this is what it replies to them. */
  function RepliesUpTo(requests: seq<Bytes>, m: Table, n: nat): (r: seq<seq<Bytes>>)
    requires n <= |requests| && Complete(requests) && Storable(m)
    ensures |r| == n
  {
    seq(n, i requires 0 <= i < n => RepliesTo(requests, m, i))
  }

  /** The server is where the map server is after the first requests, with these replies. */
  ghost predicate InStep(requests: seq<Bytes>, m: Table, replies: seq<seq<Bytes>>, table: Table) {
    && Complete(requests) && Storable(m) && |replies| <= |requests|
    && Survives(requests, m, |replies|)
    && replies == RepliesUpTo(requests, m, |replies|)
    && table == TableAfter(requests, m, |replies|)
  }

  /** Serves requests, from bytes in to bytes out, until one of them is a fault. */
  method Serve(store: Store, requests: seq<Bytes>) returns (replies: seq<seq<Bytes>>, fault: bool)
    requires store.Valid() && Storable(store.Contents()) && Complete(requests)
    modifies store, store.t, store.t.buckets, store.t.bloomBv, Elems(store.t.order)
    ensures store.Valid() && InStep(requests, old(store.Contents()), replies, store.Contents())
    ensures fault <==> |replies| < |requests|
    ensures fault ==> DiesOf(requests, old(store.Contents()), |replies|)
  {
    ghost var m := store.Contents();
    replies, fault := [], false;
    while |replies| < |requests|
      invariant store.Valid() && InStep(requests, m, replies, store.Contents())
      invariant fresh(Elems(store.t.order) - old(Elems(store.t.order)))
      invariant store.t.buckets == old(store.t.buckets) || fresh(store.t.buckets)
      invariant store.t.bloomBv == old(store.t.bloomBv) || fresh(store.t.bloomBv)
    {
      replies, fault := ServeOne(store, requests, replies, m);
      if fault {
        return;
      }
    }
  }

  /** Decodes and answers the next request. A request the server dies of changes nothing. */
  method ServeOne(store: Store, requests: seq<Bytes>, replies: seq<seq<Bytes>>, ghost m: Table)
    returns (replies': seq<seq<Bytes>>, fault: bool)
    requires store.Valid() && InStep(requests, m, replies, store.Contents()) && |replies| < |requests|
    modifies store, store.t, store.t.buckets, store.t.bloomBv, Elems(store.t.order)
    ensures store.Valid() && InStep(requests, m, replies', store.Contents())
    ensures fault <==> DiesOf(requests, m, |replies|)
    ensures |replies'| == if fault then |replies| else |replies| + 1
    ensures fresh(Elems(store.t.order) - old(Elems(store.t.order)))
    ensures store.t.buckets == old(store.t.buckets) || fresh(store.t.buckets)
    ensures store.t.bloomBv == old(store.t.bloomBv) || fresh(store.t.bloomBv)
  {
    var d := DecodeClient(requests[|replies|]);
    ghost var n, table := |replies|, store.Contents();
    AtRequest(requests, m, n, d, table);
    var reply;
    reply, fault := Respond(store, d);
    replies' := replies;
    if !fault {
      InStepNext(requests, m, replies, reply, n);
      replies' := replies + [reply];
    }
  }

  lemma InStepNext(requests: seq<Bytes>, m: Table, replies: seq<seq<Bytes>>, reply: seq<Bytes>, n: nat)
    requires Complete(requests) && Storable(m) && n < |requests| && |replies| == n
    requires InStep(requests, m, replies, TableAfter(requests, m, n))
    requires !DiesOf(requests, m, n) && reply == RepliesTo(requests, m, n)
    ensures InStep(requests, m, replies + [reply], TableAfter(requests, m, n + 1))
  {
    UpToNext(requests, m, n, reply);
    assert |replies + [reply]| == n + 1;
  }

  lemma UpToNext(requests: seq<Bytes>, m: Table, n: nat, reply: seq<Bytes>)
    requires n < |requests| && Complete(requests) && Storable(m)
    requires Survives(requests, m, n) && !DiesOf(requests, m, n) && reply == RepliesTo(requests, m, n)
    ensures Survives(requests, m, n + 1)
    ensures RepliesUpTo(requests, m, n + 1) == RepliesUpTo(requests, m, n) + [reply]
  {
  }

  /** What request `i` of a run does, in terms of the message and the map it meets. */
  lemma AtRequest(requests: seq<Bytes>, m: Table, i: nat, d: ClientMessage, table: Table)
    requires Complete(requests) && Storable(m) && i < |requests|
    requires d == DecodeClient(requests[i]) && table == TableAfter(requests, m, i)
    ensures Sized(d) && Storable(table)
    ensures RepliesTo(requests, m, i) == Replies(d, table)
    ensures DiesOf(requests, m, i) <==> Faults(d, table)
    ensures TableAfter(requests, m, i + 1) == NextTable(d, table)
    ensures Faults(d, table) ==> NextTable(d, table) == table
  {
    DecodedSized(requests[i]);
    StorableAfter(requests, m, i);
  }

  // ----- what the map server promises its clients -----

  /** However many requests combine GET with SET (and not with DELETE), the map stays as it is:
      a GET makes the SET write back what is there, or cancels it. */
  lemma {:induction false} GetSetKeeps(requests: seq<Bytes>, m: Table, n: nat)
    requires n <= |requests| && Complete(requests)
    requires forall i {:trigger requests[i]} :: 0 <= i < n ==>
               DecodeClient(requests[i]).get != 0 && DecodeClient(requests[i]).del == 0
    ensures TableAfter(requests, m, n) == m && Survives(requests, m, n)
  {
    if n > 0 {
      GetSetKeeps(requests, m, n - 1);
    }
  }

  /** A message concerns its own key only. */
  predicate Writes(d: ClientMessage, key: Bytes) {
    d.key == key && (d.del != 0 || (d.put != 0 && d.get == 0))
  }

  /** The last of the first `n` requests that writes `key`, or -1. */
  function LastWrite(requests: seq<Bytes>, key: Bytes, n: nat): (i: int)
    requires n <= |requests| && Complete(requests)
    ensures -1 <= i < n && (i >= 0 ==> Writes(DecodeClient(requests[i]), key))
    ensures forall j {:trigger requests[j]} :: i < j < n ==> !Writes(DecodeClient(requests[j]), key)
  {
    if n == 0 then -1
    else if Writes(DecodeClient(requests[n - 1]), key) then n - 1
    else LastWrite(requests, key, n - 1)
  }

  lemma NextAt(d: ClientMessage, m: Table, key: Bytes)
    ensures var t := NextTable(d, m);
            && (Writes(d, key) ==> (key in t <==> d.del == 0) && (key in t ==> t[key] == d.value))
            && (!Writes(d, key) ==> (key in t <==> key in m) && (key in t ==> t[key] == m[key]))
  {
  }

  /** At every moment of a run, a key holds what the last request that writes it put there. */
  lemma {:induction false} LastWriteWins(requests: seq<Bytes>, m: Table, key: Bytes, n: nat)
    requires n <= |requests| && Complete(requests)
    ensures var i, t := LastWrite(requests, key, n), TableAfter(requests, m, n);
            && (key in t <==> if i < 0 then key in m else DecodeClient(requests[i]).del == 0)
            && (key in t ==> t[key] == if i < 0 then m[key] else DecodeClient(requests[i]).value)
  {
    if n > 0 {
      LastWriteWins(requests, m, key, n - 1);
      NextAt(DecodeClient(requests[n - 1]), TableAfter(requests, m, n - 1), key);
    }
  }

  /** The reply to a GET, decoded by the client. */
  lemma GetReplyDecodes(d: ClientMessage, m: Table)
    requires Sized(d) && ClientFlags(d) && Storable(m) && d.get != 0
    ensures Replies(d, m) != [] && CompleteClient(Replies(d, m)[0])
    ensures var r := DecodeClient(Replies(d, m)[0]);
            if d.key in m then r == d.(act := ACK_BIT, value := m[d.key])
            else r == ClientMessage(ACK_BIT, GET_BIT, 0, 0, [], [])
  {
    if d.key in m {
      ClientRoundTrip(d.(act := ACK_BIT, value := m[d.key]));
    } else {
      AckIsEncoded(GET_BIT);
      ClientRoundTrip(ClientMessage(ACK_BIT, GET_BIT, 0, 0, [], []));
    }
  }

  /** The first message of the reply to request `n`, as the client decodes it, carries what the
      last request that wrote its key put there, or what was there before the run; without
      either, it is an acknowledged GET without key and value. */
  predicate CarriesLastWrite(requests: seq<Bytes>, m: Table, n: nat, reply: seq<Bytes>)
    requires n < |requests| && Complete(requests)
  {
    && reply != [] && CompleteClient(reply[0])
    && var d, r := DecodeClient(requests[n]), DecodeClient(reply[0]);
       var j := LastWrite(requests, d.key, n);
       if j >= 0 && DecodeClient(requests[j]).del == 0 then
         r == d.(act := ACK_BIT, value := DecodeClient(requests[j]).value)
       else if j < 0 && d.key in m then r == d.(act := ACK_BIT, value := m[d.key])
       else r == ClientMessage(ACK_BIT, GET_BIT, 0, 0, [], [])
  }

  /** A GET in a run returns what the last request that wrote its key put there, or what was
      there before the run. */
  lemma GetReturnsLastWrite(requests: seq<Bytes>, m: Table, n: nat)
    requires n < |requests| && Complete(requests) && Storable(m)
    requires DecodeClient(requests[n]).get != 0
    ensures CarriesLastWrite(requests, m, n, RepliesTo(requests, m, n))
  {
    var d := DecodeClient(requests[n]);
    DecodedSized(requests[n]);
    DecodedFlags(requests[n]);
    StorableAfter(requests, m, n);
    LastWriteWins(requests, m, d.key, n);
    GetReplyDecodes(d, TableAfter(requests, m, n));
  }

  /** The same for the replies that the server has sent: entry `n` carries the last write. */
  lemma ServedGet(requests: seq<Bytes>, m: Table, replies: seq<seq<Bytes>>, table: Table, n: nat)
    requires InStep(requests, m, replies, table) && n < |replies|
    requires DecodeClient(requests[n]).get != 0
    ensures CarriesLastWrite(requests, m, n, replies[n])
  {
    assert replies[n] == RepliesTo(requests, m, n);
    GetReturnsLastWrite(requests, m, n);
  }

  /** An acknowledgement is the encoding of a message without key and value. */
  lemma AckIsEncoded(bit: Byte)
    ensures Ack(bit) == EncodeClient(ClientMessage(ACK_BIT, bit, 0, 0, [], []))
  {
    assert Be16(0) == [0, 0];
    assert ACK_BIT | bit | 0 | 0 == ACK_BIT | bit;
  }

  // ----- the effects, flag by flag -----

  /** What each combination of flags leaves in the map, and which is fatal. */
  lemma EffectOfFlags(d: ClientMessage, m: Table)
    ensures d.put != 0 && d.get == 0 && d.del == 0 ==> NextTable(d, m) == m[d.key := d.value]
    ensures d.del != 0 && d.get == 0 ==> NextTable(d, m) == m - {d.key}
    ensures d.del != 0 && d.get != 0 && d.key in m ==> NextTable(d, m) == m - {d.key}
    ensures d.get != 0 && (d.del == 0 || d.key !in m) ==> NextTable(d, m) == m
    ensures d.put == 0 && d.del == 0 ==> NextTable(d, m) == m
    ensures Faults(d, m) <==> d.del != 0 && d.get == 0 && d.put == 0 && d.key !in m
  {
  }

  /** The bytes sent back, in their order: the value or a miss, then an acknowledgement of SET, then
      one of DELETE. A miss is all that is sent. */
  lemma ReplyBytes(d: ClientMessage, m: Table)
    requires Sized(d) && Storable(m)
    ensures d.get != 0 && d.key !in m ==> Replies(d, m) == [[0x30, 0, 0, 0, 0, 0, 0]]
    ensures !(d.get != 0 && d.key !in m) ==>
              Replies(d, m) == (if d.get != 0 then [EncodeClient(d.(act := 0x10, value := m[d.key]))] else [])
                               + (if d.put != 0 then [[0x50, 0, 0, 0, 0, 0, 0]] else [])
                               + (if d.del != 0 && !Faults(d, m) then [[0x90, 0, 0, 0, 0, 0, 0]] else [])
  {
  }

  /** The same for one request of a run, from its first byte alone. */
  lemma SetInRun(requests: seq<Bytes>, m: Table, n: nat)
    requires n < |requests| && Complete(requests)
    requires Value(requests[n][0]) / 64 % 2 == 1
    requires Value(requests[n][0]) / 32 % 2 == 0 && Value(requests[n][0]) / 128 % 2 == 0
    ensures var d := DecodeClient(requests[n]);
            TableAfter(requests, m, n + 1) == TableAfter(requests, m, n)[d.key := d.value]
  {
    ClientDigits(requests[n]);
  }

  lemma DeleteInRun(requests: seq<Bytes>, m: Table, n: nat)
    requires n < |requests| && Complete(requests)
    requires Value(requests[n][0]) / 128 % 2 == 1 && Value(requests[n][0]) / 32 % 2 == 0
    ensures TableAfter(requests, m, n + 1) == TableAfter(requests, m, n) - {DecodeClient(requests[n]).key}
  {
    ClientDigits(requests[n]);
  }

  /** Requests with other keys leave a key alone. */
  lemma {:induction false} KeyStays(requests: seq<Bytes>, m: Table, key: Bytes, i: nat, n: nat)
    requires i <= n <= |requests| && Complete(requests)
    requires forall k {:trigger requests[k]} :: i <= k < n ==> DecodeClient(requests[k]).key != key
    ensures var t, u := TableAfter(requests, m, i), TableAfter(requests, m, n);
            (key in u <==> key in t) && (key in t ==> u[key] == t[key])
  {
    if i < n {
      KeyStays(requests, m, key, i, n - 1);
      NextOther(DecodeClient(requests[n - 1]), TableAfter(requests, m, n - 1), key);
    }
  }

  lemma NextOther(d: ClientMessage, m: Table, k: Bytes)
    ensures k != d.key ==> (k in NextTable(d, m) <==> k in m) && (k in m ==> NextTable(d, m)[k] == m[k])
  {
  }

  /** A GET after a SET of its key, with only other keys in between: the first byte of the reply is
      ACK with the flags of the GET, and its value is the one that was set. */
  lemma GetAfterSet(requests: seq<Bytes>, m: Table, i: nat, n: nat)
    requires i < n < |requests| && Complete(requests) && Storable(m)
    requires Value(requests[i][0]) / 64 % 2 == 1
    requires Value(requests[i][0]) / 32 % 2 == 0 && Value(requests[i][0]) / 128 % 2 == 0
    requires Value(requests[n][0]) / 32 % 2 == 1
    requires DecodeClient(requests[n]).key == DecodeClient(requests[i]).key
    requires forall k {:trigger requests[k]} :: i < k < n ==>
               DecodeClient(requests[k]).key != DecodeClient(requests[i]).key
    ensures var replies := RepliesTo(requests, m, n);
            && replies != [] && CompleteClient(replies[0])
            && DecodeClient(replies[0]).value == DecodeClient(requests[i]).value
            && DecodeClient(replies[0]).key == DecodeClient(requests[i]).key
            && Value(replies[0][0]) / 16 % 2 == 1
  {
    HoldsAfterSet(requests, m, i, n, DecodeClient(requests[i]));
    GetAnswers(requests, m, n, DecodeClient(requests[i]).value);
  }

  lemma HoldsAfterSet(requests: seq<Bytes>, m: Table, i: nat, n: nat, d: ClientMessage)
    requires i < n <= |requests| && Complete(requests) && d == DecodeClient(requests[i])
    requires Value(requests[i][0]) / 64 % 2 == 1
    requires Value(requests[i][0]) / 32 % 2 == 0 && Value(requests[i][0]) / 128 % 2 == 0
    requires forall k {:trigger requests[k]} :: i < k < n ==> DecodeClient(requests[k]).key != d.key
    ensures d.key in TableAfter(requests, m, n) && TableAfter(requests, m, n)[d.key] == d.value
  {
    assert d.key in TableAfter(requests, m, i + 1) && TableAfter(requests, m, i + 1)[d.key] == d.value by {
      SetInRun(requests, m, i);
    }
    KeyStays(requests, m, d.key, i + 1, n);
  }

  lemma GoneAfterDelete(requests: seq<Bytes>, m: Table, i: nat, n: nat, key: Bytes)
    requires i < n <= |requests| && Complete(requests) && key == DecodeClient(requests[i]).key
    requires Value(requests[i][0]) / 128 % 2 == 1 && Value(requests[i][0]) / 32 % 2 == 0
    requires forall k {:trigger requests[k]} :: i < k < n ==> DecodeClient(requests[k]).key != key
    ensures key !in TableAfter(requests, m, n)
  {
    assert key !in TableAfter(requests, m, i + 1) by {
      DeleteInRun(requests, m, i);
    }
    KeyStays(requests, m, key, i + 1, n);
  }

  lemma GetAnswers(requests: seq<Bytes>, m: Table, n: nat, value: Bytes)
    requires n < |requests| && Complete(requests) && Storable(m) && Value(requests[n][0]) / 32 % 2 == 1
    requires var key, t := DecodeClient(requests[n]).key, TableAfter(requests, m, n); key in t && t[key] == value
    ensures var replies := RepliesTo(requests, m, n);
            && replies != [] && CompleteClient(replies[0]) && DecodeClient(replies[0]).value == value
            && DecodeClient(replies[0]).key == DecodeClient(requests[n]).key
            && Value(replies[0][0]) / 16 % 2 == 1
  {
    ClientDigits(requests[n]);
    DecodedSized(requests[n]);
    DecodedFlags(requests[n]);
    StorableAfter(requests, m, n);
    GetReplyDecodes(DecodeClient(requests[n]), TableAfter(requests, m, n));
    ClientDigits(RepliesTo(requests, m, n)[0]);
  }

  /** A GET after a DELETE of its key gets the seven bytes of a miss. */
  lemma GetAfterDelete(requests: seq<Bytes>, m: Table, i: nat, n: nat)
    requires i < n < |requests| && Complete(requests) && Storable(m)
    requires Value(requests[i][0]) / 128 % 2 == 1 && Value(requests[i][0]) / 32 % 2 == 0
    requires Value(requests[n][0]) / 32 % 2 == 1
    requires DecodeClient(requests[n]).key == DecodeClient(requests[i]).key
    requires forall k {:trigger requests[k]} :: i < k < n ==>
               DecodeClient(requests[k]).key != DecodeClient(requests[i]).key
    ensures RepliesTo(requests, m, n) == [[0x30, 0, 0, 0, 0, 0, 0]]
  {
    GoneAfterDelete(requests, m, i, n, DecodeClient(requests[i]).key);
    GetMisses(requests, m, n);
  }

  lemma GetMisses(requests: seq<Bytes>, m: Table, n: nat)
    requires n < |requests| && Complete(requests) && Storable(m) && Value(requests[n][0]) / 32 % 2 == 1
    requires DecodeClient(requests[n]).key !in TableAfter(requests, m, n)
    ensures RepliesTo(requests, m, n) == [[0x30, 0, 0, 0, 0, 0, 0]]
  {
    ClientDigits(requests[n]);
    DecodedSized(requests[n]);
    StorableAfter(requests, m, n);
    ReplyBytes(DecodeClient(requests[n]), TableAfter(requests, m, n));
  }
}
