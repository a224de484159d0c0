/** The wire formats of client and peer messages. Multi-byte fields are big-endian. */
module Codec {
  import opened Bits
  import opened Words

  type Bytes = seq<Byte>
  type U16 = x: nat | x < 0x1_0000

  const ACK_BIT: Byte := 0x10
  const GET_BIT: Byte := 0x20
  const SET_BIT: Byte := 0x40
  const DELETE_BIT: Byte := 0x80

  const CONTROL_BIT: Byte := 0x01
  const FINGER_BIT: Byte := 0x02
  const FACK_BIT: Byte := 0x04
  const JOIN_BIT: Byte := 0x08
  const NOTIFY_BIT: Byte := 0x10
  const STABILIZE_BIT: Byte := 0x20
  const REPLY_BIT: Byte := 0x40
  const LOOKUP_BIT: Byte := 0x80

  /** A client request or reply. The C struct keeps the lengths beside the pointers; here
      they are the lengths of the byte strings, and a NULL pointer is the empty string. */
  datatype ClientMessage = ClientMessage(act: Byte, get: Byte, put: Byte, del: Byte, key: Bytes, value: Bytes)

  datatype PeerMessage = PeerMessage(control: Byte, finger: Byte, fack: Byte, join: Byte, notify: Byte,
                                     stabilize: Byte, reply: Byte, lookup: Byte,
                                     hashId: U16, nodeId: U16, nodeIp: U32, nodePort: U16)

  /** A flag field holds 0 or its own bit. */
  predicate Flag(f: Byte, bit: Byte) {
    f == 0 || f == bit
  }

  predicate ClientFlags(d: ClientMessage) {
    Flag(d.act, ACK_BIT) && Flag(d.get, GET_BIT) && Flag(d.put, SET_BIT) && Flag(d.del, DELETE_BIT)
  }

  predicate PeerFlags(d: PeerMessage) {
    && Flag(d.control, CONTROL_BIT) && Flag(d.finger, FINGER_BIT)
    && Flag(d.fack, FACK_BIT) && Flag(d.join, JOIN_BIT)
    && Flag(d.notify, NOTIFY_BIT) && Flag(d.stabilize, STABILIZE_BIT)
    && Flag(d.reply, REPLY_BIT) && Flag(d.lookup, LOOKUP_BIT)
  }

  /** Lengths fit their fields. */
  predicate Sized(d: ClientMessage) {
    |d.key| < 0x1_0000 && |d.value| < WORD
  }

  // ----- numbers -----

  function Be16(n: U16): (b: Bytes)
    ensures |b| == 2
  {
    [ToByte(n / 0x100), ToByte(n % 0x100)]
  }

  function Be32(n: U32): (b: Bytes)
    ensures |b| == 4
  {
    Be16(n / 0x1_0000) + Be16(n % 0x1_0000)
  }

  function FromBe16(m: Bytes, p: nat): U16
    requires p + 2 <= |m|
  {
    0x100 * Value(m[p]) + Value(m[p + 1])
  }

  function FromBe32(m: Bytes, p: nat): U32
    requires p + 4 <= |m|
  {
    0x1_0000 * FromBe16(m, p) + FromBe16(m, p + 2)
  }

  lemma Be16Back(n: U16, m: Bytes, p: nat)
    requires p + 2 <= |m| && m[p..p + 2] == Be16(n)
    ensures FromBe16(m, p) == n
  {
    ValueOfByte(n / 0x100);
    ValueOfByte(n % 0x100);
    assert m[p] == m[p..p + 2][0] && m[p + 1] == m[p..p + 2][1];
  }

  lemma Be32Back(n: U32, m: Bytes, p: nat)
    requires p + 4 <= |m| && m[p..p + 4] == Be32(n)
    ensures FromBe32(m, p) == n
  {
    var w := m[p..p + 4];
    assert m[p..p + 2] == w[..2] == Be16(n / 0x1_0000);
    assert m[p + 2..p + 4] == w[2..] == Be16(n % 0x1_0000);
    Be16Back(n / 0x1_0000, m, p);
    Be16Back(n % 0x1_0000, m, p + 2);
  }

  lemma FromBe16Back(m: Bytes, p: nat)
    requires p + 2 <= |m|
    ensures Be16(FromBe16(m, p)) == m[p..p + 2]
  {
    var n := FromBe16(m, p);
    assert n / 0x100 == Value(m[p]) && n % 0x100 == Value(m[p + 1]);
    ByteOfValue(m[p]);
    ByteOfValue(m[p + 1]);
  }

  lemma FromBe32Back(m: Bytes, p: nat)
    requires p + 4 <= |m|
    ensures Be32(FromBe32(m, p)) == m[p..p + 4]
  {
    var n := FromBe32(m, p);
    assert n / 0x1_0000 == FromBe16(m, p) && n % 0x1_0000 == FromBe16(m, p + 2);
    FromBe16Back(m, p);
    FromBe16Back(m, p + 2);
    assert m[p..p + 4] == m[p..p + 2] + m[p + 2..p + 4];
  }

  /** A byte string put together from its five parts. */
  lemma FiveParts(m: Bytes, i: nat, j: nat, k: nat, l: nat, a: Bytes, b: Bytes, c: Bytes, d: Bytes, e: Bytes)
    requires i <= j <= k <= l <= |m|
    requires a == m[..i] && b == m[i..j] && c == m[j..k] && d == m[k..l] && e == m[l..]
    ensures a + b + c + d + e == m
  {
  }

  // ----- client messages -----

  const CLIENT_HEADER: nat := 7

  function ClientSize(d: ClientMessage): nat {
    CLIENT_HEADER + |d.key| + |d.value|
  }

  function ClientHeader(d: ClientMessage): Byte {
    d.act | d.get | d.put | d.del
  }

  function EncodeClient(d: ClientMessage): (m: Bytes)
    requires Sized(d)
    ensures |m| == ClientSize(d)
  {
    [ClientHeader(d)] + Be16(|d.key|) + Be32(|d.value|) + d.key + d.value
  }

  /** The message is at least as long as its header announces. */
  predicate CompleteClient(m: Bytes) {
    |m| >= CLIENT_HEADER && |m| >= CLIENT_HEADER + FromBe16(m, 1) + FromBe32(m, 3)
  }

  function DecodeClient(m: Bytes): ClientMessage
    requires CompleteClient(m)
  {
    var keyEnd := CLIENT_HEADER + FromBe16(m, 1);
    ClientMessage(m[0] & ACK_BIT, m[0] & GET_BIT, m[0] & SET_BIT, m[0] & DELETE_BIT,
                  m[CLIENT_HEADER..keyEnd], m[keyEnd..keyEnd + FromBe32(m, 3)])
  }

  lemma ClientFlagsBack(a: Byte, g: Byte, s: Byte, d: Byte)
    requires Flag(a, ACK_BIT) && Flag(g, GET_BIT) && Flag(s, SET_BIT) && Flag(d, DELETE_BIT)
    ensures var h := a | g | s | d;
            h & ACK_BIT == a && h & GET_BIT == g && h & SET_BIT == s && h & DELETE_BIT == d && h & 0x0f == 0
  {
  }

  lemma ClientHeaderBack(h: Byte)
    requires h & 0x0f == 0
    ensures (h & ACK_BIT) | (h & GET_BIT) | (h & SET_BIT) | (h & DELETE_BIT) == h
  {
  }

  /** Decoding an encoded client message gives the message back. */
  lemma ClientRoundTrip(d: ClientMessage)
    requires Sized(d) && ClientFlags(d)
    ensures CompleteClient(EncodeClient(d)) && DecodeClient(EncodeClient(d)) == d
  {
    var m := EncodeClient(d);
    EncodedParts(m, ClientHeader(d), Be16(|d.key|), Be32(|d.value|), d.key, d.value);
    Be16Back(|d.key|, m, 1);
    Be32Back(|d.value|, m, 3);
    ClientFlagsBack(d.act, d.get, d.put, d.del);
    DecodedParts(m, d);
  }

  lemma EncodedParts(m: Bytes, h: Byte, a: Bytes, b: Bytes, key: Bytes, value: Bytes)
    requires |a| == 2 && |b| == 4 && m == [h] + a + b + key + value
    ensures m[0] == h && m[1..3] == a && m[3..7] == b && m[7..] == key + value
  {
  }

  lemma DecodedParts(m: Bytes, d: ClientMessage)
    requires |m| == ClientSize(d) && m[7..] == d.key + d.value && CompleteClient(m)
    requires FromBe16(m, 1) == |d.key| && FromBe32(m, 3) == |d.value|
    requires m[0] & ACK_BIT == d.act && m[0] & GET_BIT == d.get && m[0] & SET_BIT == d.put && m[0] & DELETE_BIT == d.del
    ensures DecodeClient(m) == d
  {
    LastPieces(m, 7, d.key, d.value);
  }

  lemma LastPieces(m: Bytes, p: nat, key: Bytes, value: Bytes)
    requires |m| == p + |key| + |value| && m[p..] == key + value
    ensures m[p..p + |key|] == key && m[p + |key|..p + |key| + |value|] == value
  {
    var rest := m[p..];
    assert m[p..p + |key|] == rest[..|key|] == key;
    assert m[p + |key|..p + |key| + |value|] == rest[|key|..] == value;
  }

  /** A message of exactly the announced length without undefined flags. */
  predicate ExactClient(m: Bytes) {
    CompleteClient(m) && |m| == CLIENT_HEADER + FromBe16(m, 1) + FromBe32(m, 3) && m[0] & 0x0f == 0
  }

  /** Encoding a decoded client message gives the bytes back. */
  lemma ClientReencode(m: Bytes)
    requires ExactClient(m)
    ensures Sized(DecodeClient(m)) && ClientFlags(DecodeClient(m)) && EncodeClient(DecodeClient(m)) == m
  {
    var d := DecodeClient(m);
    DecodedFlags(m, d);
    DecodedSizes(m, d);
    ClientParts(m, |d.key|, |d.value|, d.key, d.value);
  }

  lemma DecodedFlags(m: Bytes, d: ClientMessage)
    requires CompleteClient(m) && m[0] & 0x0f == 0 && d == DecodeClient(m)
    ensures ClientFlags(d) && ClientHeader(d) == m[0]
  {
    ClientHeaderBack(m[0]);
    MaskedFlags(m[0]);
  }

  lemma DecodedSizes(m: Bytes, d: ClientMessage)
    requires ExactClient(m) && d == DecodeClient(m)
    ensures |d.key| == FromBe16(m, 1) && |d.value| == FromBe32(m, 3)
    ensures d.key == m[7..7 + |d.key|] && d.value == m[7 + |d.key|..]
  {
  }

  lemma ClientParts(m: Bytes, kl: U16, vl: U32, key: Bytes, value: Bytes)
    requires |m| == 7 + kl + vl && FromBe16(m, 1) == kl && FromBe32(m, 3) == vl
    requires key == m[7..7 + kl] && value == m[7 + kl..]
    ensures [m[0]] + Be16(kl) + Be32(vl) + key + value == m
  {
    FromBe16Back(m, 1);
    FromBe32Back(m, 3);
    var a, b := Be16(kl), Be32(vl);
    FiveParts(m, 1, 3, 7, 7 + kl, [m[0]], a, b, key, value);
  }

  lemma MaskedFlags(h: Byte)
    ensures Flag(h & ACK_BIT, ACK_BIT) && Flag(h & GET_BIT, GET_BIT)
    ensures Flag(h & SET_BIT, SET_BIT) && Flag(h & DELETE_BIT, DELETE_BIT)
  {
  }

  // ----- peer messages -----

  const PEER_SIZE: nat := 11

  function PeerHeader(d: PeerMessage): Byte {
    d.control | d.finger | d.fack | d.join | d.notify | d.stabilize | d.reply | d.lookup
  }

  function EncodePeer(d: PeerMessage): (m: Bytes)
    ensures |m| == PEER_SIZE
  {
    [PeerHeader(d)] + Be16(d.hashId) + Be16(d.nodeId) + Be32(d.nodeIp) + Be16(d.nodePort)
  }

  function DecodePeer(m: Bytes): PeerMessage
    requires |m| >= PEER_SIZE
  {
    PeerMessage(m[0] & CONTROL_BIT, m[0] & FINGER_BIT, m[0] & FACK_BIT, m[0] & JOIN_BIT,
                m[0] & NOTIFY_BIT, m[0] & STABILIZE_BIT, m[0] & REPLY_BIT, m[0] & LOOKUP_BIT,
                FromBe16(m, 1), FromBe16(m, 3), FromBe32(m, 5), FromBe16(m, 9))
  }

  predicate IsPeer(m: Bytes)
    requires |m| > 0
  {
    m[0] & CONTROL_BIT != 0
  }

  lemma PeerFlagsBack(d: PeerMessage)
    requires PeerFlags(d)
    ensures var h := PeerHeader(d);
            && h & CONTROL_BIT == d.control && h & FINGER_BIT == d.finger
            && h & FACK_BIT == d.fack && h & JOIN_BIT == d.join
            && h & NOTIFY_BIT == d.notify && h & STABILIZE_BIT == d.stabilize
            && h & REPLY_BIT == d.reply && h & LOOKUP_BIT == d.lookup
  {
  }

  lemma PeerHeaderBack(h: Byte)
    ensures (h & CONTROL_BIT) | (h & FINGER_BIT) | (h & FACK_BIT) | (h & JOIN_BIT)
            | (h & NOTIFY_BIT) | (h & STABILIZE_BIT) | (h & REPLY_BIT) | (h & LOOKUP_BIT) == h
  {
  }

  /** Decoding an encoded peer message gives the message back. */
  lemma PeerRoundTrip(d: PeerMessage)
    requires PeerFlags(d)
    ensures DecodePeer(EncodePeer(d)) == d
  {
    var m := EncodePeer(d);
    PeerPieces(m, PeerHeader(d), Be16(d.hashId), Be16(d.nodeId), Be32(d.nodeIp), Be16(d.nodePort));
    Be16Back(d.hashId, m, 1);
    Be16Back(d.nodeId, m, 3);
    Be32Back(d.nodeIp, m, 5);
    Be16Back(d.nodePort, m, 9);
    PeerFlagsBack(d);
  }

  lemma PeerPieces(m: Bytes, h: Byte, a: Bytes, b: Bytes, c: Bytes, d: Bytes)
    requires |a| == 2 && |b| == 2 && |c| == 4 && |d| == 2 && m == [h] + a + b + c + d
    ensures m[0] == h && m[1..3] == a && m[3..5] == b && m[5..9] == c && m[9..11] == d
  {
  }

  /** Encoding a decoded peer message gives the bytes back. */
  lemma PeerReencode(m: Bytes)
    requires |m| == PEER_SIZE
    ensures EncodePeer(DecodePeer(m)) == m
  {
    var d := DecodePeer(m);
    PeerHeaderBack(m[0]);
    PeerParts(m, d.hashId, d.nodeId, d.nodeIp, d.nodePort);
  }

  lemma PeerParts(m: Bytes, hashId: U16, nodeId: U16, nodeIp: U32, nodePort: U16)
    requires |m| == PEER_SIZE && FromBe16(m, 1) == hashId && FromBe16(m, 3) == nodeId
    requires FromBe32(m, 5) == nodeIp && FromBe16(m, 9) == nodePort
    ensures [m[0]] + Be16(hashId) + Be16(nodeId) + Be32(nodeIp) + Be16(nodePort) == m
  {
    FromBe16Back(m, 1);
    FromBe16Back(m, 3);
    FromBe32Back(m, 5);
    FromBe16Back(m, 9);
    assert m[9..] == m[9..11];
    FiveParts(m, 1, 3, 5, 9, [m[0]], Be16(hashId), Be16(nodeId), Be32(nodeIp), Be16(nodePort));
  }

  /** The first byte tells control messages from client messages. */
  lemma KindsSeparated(p: PeerMessage, c: ClientMessage)
    requires PeerFlags(p) && Sized(c) && ClientFlags(c)
    ensures IsPeer(EncodePeer(p)) <==> p.control == CONTROL_BIT
    ensures !IsPeer(EncodeClient(c))
  {
    PeerFlagsBack(p);
    ClientFlagsBack(c.act, c.get, c.put, c.del);
    LowNibble(ClientHeader(c));
  }

  lemma LowNibble(h: Byte)
    requires h & 0x0f == 0
    ensures h & CONTROL_BIT == 0
  {
  }

  // ----- the formats, digit by digit -----

  lemma Powers()
    ensures Pow2(0) == 1 && Pow2(1) == 2 && Pow2(2) == 4 && Pow2(3) == 8
    ensures Pow2(4) == 16 && Pow2(5) == 32 && Pow2(6) == 64 && Pow2(7) == 128
  {
  }

  /** The upper four digits of a byte as masks. */
  lemma HighDigits(b: Byte)
    ensures b & 0x10 != 0 <==> Value(b) / 16 % 2 == 1
    ensures b & 0x20 != 0 <==> Value(b) / 32 % 2 == 1
    ensures b & 0x40 != 0 <==> Value(b) / 64 % 2 == 1
    ensures b & 0x80 != 0 <==> Value(b) / 128 % 2 == 1
  {
    Powers();
    MaskIsDigit(b, 4);
    MaskIsDigit(b, 5);
    MaskIsDigit(b, 6);
    MaskIsDigit(b, 7);
  }

  lemma LowDigits(b: Byte)
    ensures b & 0x01 != 0 <==> Value(b) % 2 == 1
    ensures b & 0x02 != 0 <==> Value(b) / 2 % 2 == 1
    ensures b & 0x04 != 0 <==> Value(b) / 4 % 2 == 1
    ensures b & 0x08 != 0 <==> Value(b) / 8 % 2 == 1
  {
    Powers();
    MaskIsDigit(b, 0);
    MaskIsDigit(b, 1);
    MaskIsDigit(b, 2);
    MaskIsDigit(b, 3);
  }

  /** The flags of a client message are the upper four binary digits of its first byte. */
  lemma ClientDigits(m: Bytes)
    requires CompleteClient(m)
    ensures var d, v := DecodeClient(m), Value(m[0]);
            && (d.act != 0 <==> v / 16 % 2 == 1) && (d.get != 0 <==> v / 32 % 2 == 1)
            && (d.put != 0 <==> v / 64 % 2 == 1) && (d.del != 0 <==> v / 128 % 2 == 1)
  {
    HighDigits(m[0]);
    Decoded(m, DecodeClient(m), FromBe16(m, 1), FromBe32(m, 3));
  }

  /** Two bytes of key length and four of value length follow, most significant first; then the key
      and the value. */
  lemma ClientLayout(m: Bytes)
    requires CompleteClient(m)
    ensures var d := DecodeClient(m);
            && |d.key| == 256 * Value(m[1]) + Value(m[2])
            && |d.value| == 16777216 * Value(m[3]) + 65536 * Value(m[4]) + 256 * Value(m[5]) + Value(m[6])
            && d.key == m[7..7 + |d.key|]
            && d.value == m[7 + |d.key|..7 + |d.key| + |d.value|]
  {
    Decoded(m, DecodeClient(m), FromBe16(m, 1), FromBe32(m, 3));
    BigEndian(m, 1);
    BigEndian(m, 3);
    BigEndian(m, 5);
  }

  lemma BigEndian(m: Bytes, p: nat)
    requires p + 2 <= |m|
    ensures FromBe16(m, p) == 256 * Value(m[p]) + Value(m[p + 1])
  {
  }

  lemma Decoded(m: Bytes, d: ClientMessage, kl: nat, vl: nat)
    requires CompleteClient(m) && d == DecodeClient(m) && kl == FromBe16(m, 1) && vl == FromBe32(m, 3)
    ensures |d.key| == kl && |d.value| == vl && d.key == m[7..7 + kl] && d.value == m[7 + kl..7 + kl + vl]
    ensures d.act == m[0] & 0x10 && d.get == m[0] & 0x20 && d.put == m[0] & 0x40 && d.del == m[0] & 0x80
  {
  }

  /** Which byte strings are complete client messages. */
  lemma CompleteFormat(m: Bytes)
    ensures CompleteClient(m) <==>
              && |m| >= 7
              && |m| >= 7 + 256 * Value(m[1]) + Value(m[2])
                        + 16777216 * Value(m[3]) + 65536 * Value(m[4]) + 256 * Value(m[5]) + Value(m[6])
  {
  }

  /** What an encoder writes: the flags, */
  lemma EncodedDigits(d: ClientMessage)
    requires Sized(d) && ClientFlags(d)
    ensures var m := EncodeClient(d);
            && (Value(m[0]) / 16 % 2 == 1 <==> d.act != 0) && (Value(m[0]) / 32 % 2 == 1 <==> d.get != 0)
            && (Value(m[0]) / 64 % 2 == 1 <==> d.put != 0) && (Value(m[0]) / 128 % 2 == 1 <==> d.del != 0)
  {
    ClientRoundTrip(d);
    ClientDigits(EncodeClient(d));
  }

  /** and then both lengths, the key and the value. */
  lemma EncodedLayout(d: ClientMessage)
    requires Sized(d) && ClientFlags(d)
    ensures var m := EncodeClient(d);
            && |m| == 7 + |d.key| + |d.value|
            && 256 * Value(m[1]) + Value(m[2]) == |d.key|
            && 16777216 * Value(m[3]) + 65536 * Value(m[4]) + 256 * Value(m[5]) + Value(m[6]) == |d.value|
            && m[7..7 + |d.key|] == d.key && m[7 + |d.key|..] == d.value
  {
    ClientRoundTrip(d);
    LayoutOf(EncodeClient(d), d);
  }

  lemma LayoutOf(m: Bytes, d: ClientMessage)
    requires CompleteClient(m) && d == DecodeClient(m) && |m| == 7 + |d.key| + |d.value|
    ensures 256 * Value(m[1]) + Value(m[2]) == |d.key|
    ensures 16777216 * Value(m[3]) + 65536 * Value(m[4]) + 256 * Value(m[5]) + Value(m[6]) == |d.value|
    ensures m[7..7 + |d.key|] == d.key && m[7 + |d.key|..] == d.value
  {
    ClientLayout(m);
    RestOf(m, 7 + |d.key|, |d.value|);
  }

  lemma RestOf(m: Bytes, p: nat, n: nat)
    requires |m| == p + n
    ensures m[p..] == m[p..p + n]
  {
  }

  /** A peer message: eight flags in the first byte, from control in the lowest binary digit to
      lookup in the highest; then two bytes of hash id, two of node id, four of address and two of
      port. */
  lemma PeerFormat(m: Bytes)
    requires |m| >= 11
    ensures var d, v := DecodePeer(m), Value(m[0]);
            && (d.control != 0 <==> v % 2 == 1) && (d.finger != 0 <==> v / 2 % 2 == 1)
            && (d.fack != 0 <==> v / 4 % 2 == 1) && (d.join != 0 <==> v / 8 % 2 == 1)
            && (d.notify != 0 <==> v / 16 % 2 == 1) && (d.stabilize != 0 <==> v / 32 % 2 == 1)
            && (d.reply != 0 <==> v / 64 % 2 == 1) && (d.lookup != 0 <==> v / 128 % 2 == 1)
    ensures var d := DecodePeer(m);
            && d.hashId == 256 * Value(m[1]) + Value(m[2]) && d.nodeId == 256 * Value(m[3]) + Value(m[4])
            && d.nodeIp == 16777216 * Value(m[5]) + 65536 * Value(m[6]) + 256 * Value(m[7]) + Value(m[8])
            && d.nodePort == 256 * Value(m[9]) + Value(m[10])
    ensures IsPeer(m) <==> Value(m[0]) % 2 == 1
  {
    LowDigits(m[0]);
    HighDigits(m[0]);
  }

  // ----- the encoders, which fill a buffer -----

  /** Copies `src` into the buffer behind the `at` bytes that are already there. */
  method CopyAt(buf: array<Byte>, at: nat, src: Bytes, ghost done: Bytes) returns (next: nat)
    requires at + |src| <= buf.Length && buf[..at] == done
    modifies buf
    ensures next == at + |src| && buf[..next] == done + src
  {
    var i := 0;
    while i < |src|
      invariant 0 <= i <= |src|
      invariant buf[..at + i] == done + src[..i]
    {
      buf[at + i] := src[i];
      i := i + 1;
    }
    assert src[..i] == src;
    next := at + |src|;
  }

  /** encode_clientProtocol. */
  method EncodeClientProtocol(d: ClientMessage) returns (msg: array<Byte>)
    requires Sized(d)
    ensures fresh(msg) && msg[..] == EncodeClient(d)
  {
    msg := new Byte[ClientSize(d)](_ => 0);
    msg[0] := ClientHeader(d);
    ghost var a := [ClientHeader(d)];
    ghost var b := a + Be16(|d.key|);
    ghost var c := b + Be32(|d.value|);
    var p := CopyAt(msg, 1, Be16(|d.key|), a);
    p := CopyAt(msg, p, Be32(|d.value|), b);
    p := CopyAt(msg, p, d.key, c);
    p := CopyAt(msg, p, d.value, c + d.key);
    assert msg[..] == msg[..p];
  }

  /** encode_peerProtocol. */
  method EncodePeerProtocol(d: PeerMessage) returns (msg: array<Byte>)
    ensures fresh(msg) && msg[..] == EncodePeer(d)
  {
    msg := new Byte[PEER_SIZE](_ => 0);
    msg[0] := PeerHeader(d);
    ghost var a := [PeerHeader(d)];
    ghost var b := a + Be16(d.hashId);
    ghost var c := b + Be16(d.nodeId);
    var p := CopyAt(msg, 1, Be16(d.hashId), a);
    p := CopyAt(msg, p, Be16(d.nodeId), b);
    p := CopyAt(msg, p, Be32(d.nodeIp), c);
    p := CopyAt(msg, p, Be16(d.nodePort), c + Be32(d.nodeIp));
    assert msg[..] == msg[..p];
  }
}
