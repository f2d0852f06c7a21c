/** `ReplyToIncoming`: the answer a peer gives to a datagram it did not
    ask for. A frame whose length field disagrees with the bytes present
    is refused with 400; otherwise the frame is dispatched on its type.
    What `SendData` answers and whether the HelloReply write succeeds are
    inputs; the relay set up for NAT_TRAVERSAL is reduced to the request
    it is handed. */
module Responder {
  import opened Bytes
  import opened Wire

  const StatusOk: int := 200
  const StatusBadRequest: int := 400
  const StatusNotFound: int := 404
  const ResultOk: int := 0

  /** The 2048-byte receive buffer of the protocol. */
  const DatagramSize: nat := 2048

  /** What the responder does besides returning a status: nothing, serve
      the datum request (`SendData` on the body), write a HelloReply frame,
      or relay the body to the new connection. */
  datatype Action = Nothing | ServeDatum(request: seq<byte>) | Greet(frame: seq<byte>) | Relay(request: seq<byte>)

  datatype Answer = Answer(status: int, action: Action)

  /** The length guard: the declared length must be the number of bytes
      after the header. */
  predicate LengthAgrees(buf: seq<byte>)
    requires |buf| >= PosBody
  {
    FrameLength(buf) as int == |buf| - PosBody
  }

  /** `sendHelloReply`: a data-send frame echoing the request id, type
      HelloReply, length `len(myPeer)+4`, the peer name as value. */
  function HelloReplyFrame(sha: Hasher, id: uint32, myPeer: seq<byte>): (f: seq<byte>)
    ensures |f| == PosValue + |myPeer|
    ensures FrameId(f) == id && f[PosType] == TypeHelloReply
    ensures f[PosValue..] == myPeer && f[PosHash..PosValue] == Digest(sha, myPeer)
  {
    ComposeDataSend(sha, id, TypeHelloReply, |myPeer| + 4, myPeer)
  }

  /** The `switch` on the message type, for a frame that passed the
      length guard. Only type DATUM (132) is served; the GET_DATUM request
      (type 5) that `GetDataByHash` writes falls to the 404 default, with
      the type byte read from either position. */
  function Dispatch(t: byte, sha: Hasher, buf: seq<byte>, myPeer: seq<byte>, served: int, greeted: bool): (a: Answer)
    requires |buf| >= PosBody
    ensures a.action.ServeDatum? <==> t == TypeDatum
    ensures a.action.Greet? <==> t == TypeHello
    ensures a.action.Relay? <==> t == TypeNatTraversal
    ensures a.action.Nothing? <==> a == Answer(StatusNotFound, Nothing)
    ensures a.action.ServeDatum? ==> a == Answer(served, ServeDatum(buf[PosBody..]))
    ensures a.action.Greet? ==>
              a.action.frame == HelloReplyFrame(sha, FrameId(buf), myPeer)
              && a.status == (if greeted then StatusOk else StatusNotFound)
    ensures a.action.Relay? ==> a == Answer(ResultOk, Relay(buf[PosBody..]))
  {
    if t == TypeDatum then Answer(served, ServeDatum(buf[PosBody..]))
    else if t == TypeHello then
      Answer(if greeted then StatusOk else StatusNotFound, Greet(HelloReplyFrame(sha, U32(buf, 0), myPeer)))
    else if t == TypeNatTraversal then Answer(ResultOk, Relay(buf[PosBody..]))
    else Answer(StatusNotFound, Nothing)
  }

  /** `ReplyToIncoming` as written: the type is read from byte 5, the high
      byte of the length field. A buffer shorter than the header makes the
      source panic, hence the precondition. */
  function ReplyToIncoming(sha: Hasher, buf: seq<byte>, myPeer: seq<byte>, served: int, greeted: bool): (a: Answer)
    requires |buf| >= PosBody
    ensures a == Answer(StatusBadRequest, Nothing) <==> !LengthAgrees(buf)
    ensures LengthAgrees(buf) ==> a == Dispatch(buf[PosLength], sha, buf, myPeer, served, greeted)
  {
    var t := buf[PosLength];
    if !LengthAgrees(buf) then Answer(StatusBadRequest, Nothing)
    else Dispatch(t, sha, buf, myPeer, served, greeted)
  }

  /** `ReplyToIncoming` as intended: the type is the byte at offset 4. */
  function ReplyToIncomingFixed(sha: Hasher, buf: seq<byte>, myPeer: seq<byte>, served: int, greeted: bool): (a: Answer)
    requires |buf| >= PosBody
    ensures a == Answer(StatusBadRequest, Nothing) <==> !LengthAgrees(buf)
    ensures LengthAgrees(buf) ==> a == Dispatch(buf[PosType], sha, buf, myPeer, served, greeted)
  {
    if !LengthAgrees(buf) then Answer(StatusBadRequest, Nothing)
    else Dispatch(buf[PosType], sha, buf, myPeer, served, greeted)
  }

  /** Once the guard passes, the byte read as the type is the high byte of
      the body length: the dispatch depends on how long the frame is, not
      on what it says it is. */
  lemma AsWrittenTypeIsBodyLength(buf: seq<byte>)
    requires |buf| >= PosBody && LengthAgrees(buf)
    ensures buf[PosLength] as int == (|buf| - PosBody) / 0x100
  {
    assert FrameLength(buf) as int == buf[PosLength] as int * 0x100 + buf[PosLength + 1] as int;
  }

  /** Within the 2048-byte receive buffer the body is shorter than
      132 * 256 bytes, so a datum request is never served. */
  lemma AsWrittenNeverServesDatum(sha: Hasher, buf: seq<byte>, myPeer: seq<byte>, served: int, greeted: bool)
    requires PosBody <= |buf| <= DatagramSize
    ensures !ReplyToIncoming(sha, buf, myPeer, served, greeted).action.ServeDatum?
  {
    if LengthAgrees(buf) {
      AsWrittenTypeIsBodyLength(buf);
    }
  }

  /** The Hello that `sendHello` writes, for a peer name shorter than 252
      bytes, is answered 404 "unknown request" and never greeted. */
  lemma AsWrittenRefusesHello(sha: Hasher, id: uint32, peer: seq<byte>, myPeer: seq<byte>, served: int, greeted: bool)
    requires |peer| + 4 < 0x100
    ensures var f := ComposeHandshake(id, TypeHello, peer, |peer| + 4, 0);
            ReplyToIncoming(sha, f, myPeer, served, greeted) == Answer(StatusNotFound, Nothing)
  {
    var f := ComposeHandshake(id, TypeHello, peer, |peer| + 4, 0);
    assert LengthAgrees(f);
    AsWrittenTypeIsBodyLength(f);
  }

  /** With the type read from offset 4, that Hello is greeted: the reply
      echoes its id and carries `myPeer`. */
  lemma FixedGreetsHello(sha: Hasher, id: uint32, peer: seq<byte>, myPeer: seq<byte>, served: int, greeted: bool)
    requires |peer| + 4 < 0x1_0000
    ensures var f := ComposeHandshake(id, TypeHello, peer, |peer| + 4, 0);
            var a := ReplyToIncomingFixed(sha, f, myPeer, served, greeted);
            && a.action == Greet(HelloReplyFrame(sha, id, myPeer))
            && a.status == (if greeted then StatusOk else StatusNotFound)
  {
    var f := ComposeHandshake(id, TypeHello, peer, |peer| + 4, 0);
    assert LengthAgrees(f);
  }
}
