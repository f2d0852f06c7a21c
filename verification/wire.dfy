/** The UDP frame: `id(4) | type(1) | length(2) | body | signature(64)`,
    all integers big-endian. This module holds the message-type constants,
    the frame builders of the protocol and the two checks every receiver
    applies to an incoming frame. */
module Wire {
  import opened Bytes

  // Message types.
  const TypeNoOp: byte := 0
  const TypeError: byte := 1
  const TypeErrorReply: byte := 128
  const TypeHello: byte := 2
  const TypeHelloReply: byte := 129
  const TypePublicKey: byte := 3
  const TypePublicKeyReply: byte := 130
  const TypeRoot: byte := 4
  const TypeRootReply: byte := 131
  const TypeGetDatum: byte := 5
  const TypeDatum: byte := 132
  const TypeNoDatum: byte := 133
  const TypeNatTraversalRequest: byte := 6
  const TypeNatTraversal: byte := 7

  // Field sizes and offsets.
  const IdSize: nat := 4
  const TypeSize: nat := 1
  const LengthSize: nat := 2
  const SignSize: nat := 64
  const PosType: nat := 4
  const PosLength: nat := 5
  const PosBody: nat := 7
  const PosHash: nat := 7
  const PosValue: nat := 39

  /** What one read of the socket produced: a read error (deadline passed)
      or a datagram. `buf` is the receive buffer as the code indexes it and
      `size` the byte count the read reported. */
  datatype Reception = ReadTimeout | Datagram(buf: seq<byte>, size: nat)

  function FrameId(buf: seq<byte>): uint32
    requires |buf| >= IdSize
  {
    U32(buf, 0)
  }

  function FrameLength(buf: seq<byte>): uint16
    requires |buf| >= PosBody
  {
    U16(buf, PosLength)
  }

  /** `id | type | length`, the first seven bytes of every frame. */
  function Header(id: uint32, t: byte, len: int): (r: seq<byte>)
    ensures |r| == PosBody
    ensures FrameId(r) == id && r[PosType] == t && FrameLength(r) == ToUint16(len)
  {
    BE32(id) + [t] + BE16(len)
  }

  /** `composeHandChakeMessage`: header, a 32-bit extension field, then the
      peer name; the length field is whatever the caller passes, truncated
      to 16 bits. */
  function ComposeHandshake(id: uint32, t: byte, peer: seq<byte>, len: int, ext: int): (r: seq<byte>)
    ensures |r| == 11 + |peer|
    ensures FrameId(r) == id && r[PosType] == t && FrameLength(r) == ToUint16(len)
    ensures U32(r, 7) == ToUint32(ext)
    ensures r[11..] == peer
  {
    Header(id, t, len) + BE32(ext) + peer
  }

  /** `composeGetDatumMessage`: like the handshake frame, with the requested
      hash inserted between the length field and the extension field. */
  function ComposeGetDatum(id: uint32, t: byte, peer: seq<byte>, len: int, hash: seq<byte>, ext: int): (r: seq<byte>)
    ensures |r| == 11 + |hash| + |peer|
    ensures FrameId(r) == id && r[PosType] == t && FrameLength(r) == ToUint16(len)
    ensures r[PosHash..PosHash + |hash|] == hash
    ensures U32(r, PosHash + |hash|) == ToUint32(ext)
    ensures r[11 + |hash|..] == peer
  {
    Header(id, t, len) + hash + BE32(ext) + peer
  }

  /** `composeDataSendMessage`: header, SHA-256 of the value, the value. */
  function ComposeDataSend(sha: Hasher, id: uint32, t: byte, len: int, value: seq<byte>): (r: seq<byte>)
    ensures |r| == PosValue + |value|
    ensures FrameId(r) == id && r[PosType] == t && FrameLength(r) == ToUint16(len)
    ensures r[PosHash..PosValue] == Digest(sha, value)
    ensures r[PosValue..] == value
  {
    Header(id, t, len) + Digest(sha, value) + value
  }

  /** The bytes `CheckTypeEquality` touches: the type byte always, and on a
      mismatch the length field and the body it announces, which the
      diagnostic line prints. */
  predicate TypeCheckable(wanted: byte, received: seq<byte>)
  {
    && |received| > PosType
    && (received[PosType] != wanted ==>
          |received| >= PosBody && PosBody + FrameLength(received) <= |received|)
  }

  /** `CheckTypeEquality`: 0 when the type byte is the wanted one, -1
      otherwise. */
  function CheckTypeEquality(wanted: byte, received: seq<byte>): (r: int)
    requires TypeCheckable(wanted, received)
    ensures r == 0 <==> received[PosType] == wanted
    ensures r == -1 <==> received[PosType] != wanted
  {
    if received[PosType] != wanted then -1 else 0
  }

  /** The length test of `CheckUDPIncomingPacket`: declared length plus the
      fixed 71 header-and-signature bytes, computed in 16 bits, must equal
      the received byte count truncated to 16 bits. */
  predicate LengthMatches(buf: seq<byte>, received: int)
    requires |buf| >= PosBody
  {
    ToUint16(FrameLength(buf) + IdSize + TypeSize + LengthSize + SignSize) == ToUint16(received)
  }

  predicate IncomingCheckable(buf: seq<byte>, received: int, expected: byte)
  {
    && |buf| >= PosBody
    && (LengthMatches(buf, received) ==> TypeCheckable(expected, buf))
  }

  /** `CheckUDPIncomingPacket`: length first (1), then type (2), then id (3);
      0 only when all three agree. */
  function CheckIncoming(buf: seq<byte>, received: int, expected: byte, counter: uint32): (r: int)
    requires IncomingCheckable(buf, received, expected)
    ensures r == 1 <==> !LengthMatches(buf, received)
    ensures r == 2 <==> LengthMatches(buf, received) && buf[PosType] != expected
    ensures r == 3 <==> LengthMatches(buf, received) && buf[PosType] == expected && FrameId(buf) != counter
    ensures r == 0 <==> LengthMatches(buf, received) && buf[PosType] == expected && FrameId(buf) == counter
  {
    if !LengthMatches(buf, received) then 1
    else if CheckTypeEquality(expected, buf) == -1 then 2
    else if FrameId(buf) != counter then 3
    else 0
  }

  /** A handshake frame carrying the id the receiver waits for, followed by
      its 64-byte signature and received whole, passes every check. */
  lemma SignedHandshakePasses(id: uint32, t: byte, peer: seq<byte>, ext: int, sig: seq<byte>)
    requires |sig| == SignSize && |peer| + 4 + 71 < 0x1_0000
    ensures var f := ComposeHandshake(id, t, peer, |peer| + 4, ext) + sig;
            IncomingCheckable(f, |f|, t) && CheckIncoming(f, |f|, t, id) == 0
  {
    var h := ComposeHandshake(id, t, peer, |peer| + 4, ext);
    var f := h + sig;
    assert f[..PosBody] == h[..PosBody];
    assert FrameLength(f) == FrameLength(h) && FrameId(f) == FrameId(h);
  }

  /** The check counts a signature that the source's own builders never
      append: a HelloReply built by `composeDataSendMessage` with length
      `len(peer)+4`, as the responder answers a Hello, fails the length
      test on the receiving side. */
  lemma UnsignedHelloReplyFailsLength(sha: Hasher, id: uint32, peer: seq<byte>)
    requires |peer| + 4 + 71 < 0x1_0000
    ensures var f := ComposeDataSend(sha, id, TypeHelloReply, |peer| + 4, peer);
            IncomingCheckable(f, |f|, TypeHelloReply) && CheckIncoming(f, |f|, TypeHelloReply, id) == 1
  {
  }
}
