/** The id-tagged request/response exchanges built on the frame checks:
    fetching a datum by hash with its two integrity checks, and the Hello
    round trip. Clocks and sockets are replaced by the sequence of read
    results the loop would observe; the global message counter is threaded
    explicitly. */
module Exchange {
  import opened Bytes
  import opened Wire

  /** What a datum request ends with, or `Pending` for a datagram that does
      not answer it. */
  datatype Outcome =
    | Pending
    | Deadline       // no answer before the 30-second deadline
    | Absent         // NO_DATUM
    | NotDatum       // neither DATUM nor NO_DATUM
    | EchoFault      // the echoed hash is not the requested one
    | ValueFault     // SHA-256 of the value is not the requested hash
    | Delivered(value: seq<byte>)

  /** A datagram answers the outstanding request when it carries its id. */
  predicate Answers(r: Reception, counter: uint32)
  {
    r.Datagram? && |r.buf| >= IdSize && FrameId(r.buf) == counter
  }

  /** The bytes of the receive buffer the loop body reads for one datagram:
      the id always; for an answer, what the type checks log on a mismatch;
      for a DATUM, the echoed hash and the value, whose length is the
      declared length minus 32 (the source subtracts in 16 bits, so a
      declared length below 32 would wrap: it is excluded here). */
  predicate DatumReadable(buf: seq<byte>, hash: seq<byte>, counter: uint32)
  {
    && |buf| >= IdSize
    && (FrameId(buf) == counter ==>
          && TypeCheckable(TypeDatum, buf)
          && (buf[PosType] != TypeDatum ==> TypeCheckable(TypeNoDatum, buf))
          && (buf[PosType] == TypeDatum ==>
                && |buf| >= PosBody
                && FrameLength(buf) >= HashSize
                && |hash| >= HashSize
                && PosBody + FrameLength(buf) <= |buf|))
  }

  /** The value a DATUM frame carries: the bytes after the echoed hash, as
      many as the declared length minus the hash. */
  function DatumValue(buf: seq<byte>): (v: seq<byte>)
    requires |buf| >= PosBody && FrameLength(buf) >= HashSize && PosBody + FrameLength(buf) <= |buf|
    ensures |v| == FrameLength(buf) - HashSize
  {
    buf[PosValue..PosBody + FrameLength(buf)]
  }

  /** One pass of the receive loop of `GetDataByHash` on a datagram: the
      outcome and the counter after it. A datagram with another id is
      ignored; any other datagram ends the request and advances the
      counter exactly once. A value is delivered only when both the echoed
      hash and the hash of the value are the requested hash. */
  function ClassifyDatum(sha: Hasher, buf: seq<byte>, hash: seq<byte>, counter: uint32): (r: (Outcome, uint32))
    requires DatumReadable(buf, hash, counter)
    ensures r.0 == Pending <==> FrameId(buf) != counter
    ensures r.1 == if r.0 == Pending then counter else Increment(counter)
    ensures r.0 == Absent <==> FrameId(buf) == counter && buf[PosType] == TypeNoDatum
    ensures r.0 == NotDatum <==>
              FrameId(buf) == counter && buf[PosType] != TypeDatum && buf[PosType] != TypeNoDatum
    ensures r.0 == EchoFault <==>
              FrameId(buf) == counter && buf[PosType] == TypeDatum && buf[PosHash..PosValue] != hash[..HashSize]
    ensures r.0 == ValueFault ==> buf[PosHash..PosValue] == hash[..HashSize] && Digest(sha, DatumValue(buf)) != hash[..HashSize]
    ensures r.0.Delivered? ==>
              && FrameId(buf) == counter && buf[PosType] == TypeDatum
              && buf[PosHash..PosValue] == hash[..HashSize]
              && r.0.value == DatumValue(buf)
              && Digest(sha, r.0.value) == hash[..HashSize]
    ensures r.0 != Deadline
  {
    if FrameId(buf) != counter then (Pending, counter)
    else if CheckTypeEquality(TypeDatum, buf) == -1 then
      if CheckTypeEquality(TypeNoDatum, buf) == -1 then (NotDatum, Increment(counter))
      else (Absent, Increment(counter))
    else if buf[PosHash..PosValue] != hash[..HashSize] then (EchoFault, Increment(counter))
    else if Digest(sha, DatumValue(buf)) != hash[..HashSize] then (ValueFault, Increment(counter))
    else (Delivered(DatumValue(buf)), Increment(counter))
  }

  /** A DATUM built by the sender's own builder with length `32 + |v|` and
      id equal to the request is delivered intact when `v` is what was
      asked for. */
  lemma ComposedDatumDelivered(sha: Hasher, counter: uint32, v: seq<byte>)
    requires HashSize + |v| < 0x1_0000
    ensures var f := ComposeDataSend(sha, counter, TypeDatum, HashSize + |v|, v);
            DatumReadable(f, Digest(sha, v), counter) && ClassifyDatum(sha, f, Digest(sha, v), counter).0 == Delivered(v)
  {
    var f := ComposeDataSend(sha, counter, TypeDatum, HashSize + |v|, v);
    assert DatumValue(f) == f[PosValue..];
  }

  /** No datagram before index `i` answers the request. */
  predicate NoAnswerBefore(rs: seq<Reception>, i: nat, counter: uint32)
    requires i <= |rs|
  {
    forall j | 0 <= j < i :: !Answers(rs[j], counter)
  }

  /** Index of the first datagram that answers the request, `|rs|` if none. */
  function FirstAnswer(rs: seq<Reception>, counter: uint32): (k: nat)
    ensures k <= |rs| && NoAnswerBefore(rs, k, counter)
    ensures k < |rs| ==> Answers(rs[k], counter)
  {
    if |rs| == 0 then 0
    else if Answers(rs[0], counter) then 0
    else 1 + FirstAnswer(rs[1..], counter)
  }

  /** Number of read errors in `rs`. */
  function Timeouts(rs: seq<Reception>): nat
  {
    if |rs| == 0 then 0 else (if rs[0].ReadTimeout? then 1 else 0) + Timeouts(rs[1..])
  }

  lemma TimeoutsSnoc(rs: seq<Reception>, r: Reception)
    ensures Timeouts(rs + [r]) == Timeouts(rs) + if r.ReadTimeout? then 1 else 0
  {
    if |rs| > 0 {
      assert (rs + [r])[1..] == rs[1..] + [r];
    }
  }

  lemma TimeoutsPrefix(rs: seq<Reception>, i: nat)
    requires i < |rs|
    ensures Timeouts(rs[..i + 1]) == Timeouts(rs[..i]) + if rs[i].ReadTimeout? then 1 else 0
  {
    assert rs[..i + 1] == rs[..i] + [rs[i]];
    TimeoutsSnoc(rs[..i], rs[i]);
  }

  /** Requests written during the first `m` iterations: the first one,
      which goes out before the deadline is ever reached, and one more
      after every read error. */
  function SendsIn(rs: seq<Reception>, m: nat): nat
    requires m <= |rs|
  {
    if m == 0 then 1 else 1 + Timeouts(rs[..m - 1])
  }

  /** Every datagram the loop reads before it settles is readable. */
  predicate ReadableUntilAnswer(sha: Hasher, rs: seq<Reception>, hash: seq<byte>, counter: uint32)
  {
    forall i | 0 <= i < |rs| && rs[i].Datagram? && NoAnswerBefore(rs, i, counter) ::
      DatumReadable(rs[i].buf, hash, counter)
  }

  /** Byte-wise comparison of `a[off..off+n]` with `b[..n]`, as the two
      `for` loops of the source compare hashes. */
  method SamePrefix(a: seq<byte>, off: nat, b: seq<byte>, n: nat) returns (same: bool)
    requires off + n <= |a| && n <= |b|
    ensures same <==> a[off..off + n] == b[..n]
  {
    var i := 0;
    while i < n
      invariant 0 <= i <= n
      invariant a[off..off + i] == b[..i]
    {
      if a[off + i] != b[i] {
        assert a[off..off + n][i] != b[..n][i];
        return false;
      }
      assert a[off..off + i + 1] == a[off..off + i] + [a[off + i]];
      assert b[..i + 1] == b[..i] + [b[i]];
      i := i + 1;
    }
    return true;
  }

  /** The body of the receive loop for one datagram, written as the source
      writes it: id, then type, then the two hash comparisons. */
  method Receive(sha: Hasher, buf: seq<byte>, hash: seq<byte>, counter: uint32)
    returns (o: Outcome, next: uint32)
    requires DatumReadable(buf, hash, counter)
    ensures (o, next) == ClassifyDatum(sha, buf, hash, counter)
  {
    if FrameId(buf) != counter {
      return Pending, counter;
    }
    if CheckTypeEquality(TypeDatum, buf) == -1 {
      if CheckTypeEquality(TypeNoDatum, buf) == -1 {
        return NotDatum, Increment(counter);
      }
      return Absent, Increment(counter);
    }
    var echoed := SamePrefix(buf, PosHash, hash, HashSize);
    if !echoed {
      return EchoFault, Increment(counter);
    }
    var value := buf[PosValue..PosBody + FrameLength(buf)];
    var hashed := SamePrefix(Digest(sha, value), 0, hash, HashSize);
    if !hashed {
      assert Digest(sha, value)[0..HashSize] == Digest(sha, value);
      return ValueFault, Increment(counter);
    }
    assert Digest(sha, value)[0..HashSize] == Digest(sha, value);
    return Delivered(value), Increment(counter);
  }

  /** `GetDataByHash` over the read results it observes before its deadline:
      the first datagram carrying the request id decides the outcome, every
      other datagram is skipped, the request is re-sent after each read
      error, and running out of reads is the deadline. The counter moves
      exactly once, whatever the outcome. */
  method GetDataByHash(sha: Hasher, rs: seq<Reception>, hash: seq<byte>, peer: seq<byte>, counter: uint32)
    returns (o: Outcome, next: uint32, sent: seq<seq<byte>>)
    requires ReadableUntilAnswer(sha, rs, hash, counter)
    ensures o != Pending
    ensures next == Increment(counter)
    ensures forall j | 0 <= j < |sent| :: sent[j] == ComposeGetDatum(counter, TypeGetDatum, peer, HashSize, hash, 0)
    ensures FirstAnswer(rs, counter) == |rs| ==> o == Deadline && |sent| == SendsIn(rs, |rs|)
    ensures FirstAnswer(rs, counter) < |rs| ==>
              var k := FirstAnswer(rs, counter);
              (o, next) == ClassifyDatum(sha, rs[k].buf, hash, counter) && |sent| == SendsIn(rs, k + 1)
    ensures o.Delivered? ==> |hash| >= HashSize && Digest(sha, o.value) == hash[..HashSize]
  {
    var request := ComposeGetDatum(counter, TypeGetDatum, peer, HashSize, hash, 0);
    var k;
    k, sent := AwaitAnswer(rs, request, counter);
    if k == |rs| {
      o, next := Deadline, Increment(counter);
    } else {
      o, next := Receive(sha, rs[k].buf, hash, counter);
    }
  }

  /** The receive loop up to the datagram carrying the request id: the
      index it stops at (`|rs|` when the reads run out) and the requests
      written on the way, one before the first read and one after every
      read error. */
  method AwaitAnswer(rs: seq<Reception>, request: seq<byte>, counter: uint32)
    returns (k: nat, sent: seq<seq<byte>>)
    ensures k == FirstAnswer(rs, counter)
    ensures forall j | 0 <= j < |sent| :: sent[j] == request
    ensures |sent| == SendsIn(rs, if k < |rs| then k + 1 else |rs|)
  {
    var resend := false;
    sent := [request];
    var i := 0;
    while i < |rs|
      invariant 0 <= i <= |rs|
      invariant NoAnswerBefore(rs, i, counter)
      invariant forall j | 0 <= j < |sent| :: sent[j] == request
      invariant |sent| + (if resend then 1 else 0) == 1 + Timeouts(rs[..i])
      invariant i == 0 ==> !resend && sent == [request]
      invariant i > 0 ==> (resend <==> rs[i - 1].ReadTimeout?)
    {
      if resend {
        resend := false;
        sent := sent + [request];
      }
      TimeoutsPrefix(rs, i);
      if rs[i].ReadTimeout? {
        resend := true;
      } else if |rs[i].buf| >= IdSize && FrameId(rs[i].buf) == counter {
        FirstAnswerIs(rs, i, counter);
        return i, sent;
      }
      i := i + 1;
    }
    assert rs[..|rs|] == rs;
    FirstAnswerIs(rs, |rs|, counter);
    if |rs| > 0 {
      var n := |rs|;
      TimeoutsPrefix(rs, n - 1);
      assert |sent| == 1 + Timeouts(rs[..n - 1]);
    }
    k := |rs|;
  }

  lemma {:induction false} FirstAnswerIs(rs: seq<Reception>, i: nat, counter: uint32)
    requires i <= |rs| && NoAnswerBefore(rs, i, counter)
    requires i < |rs| ==> Answers(rs[i], counter)
    ensures FirstAnswer(rs, counter) == i
  {
    if i > 0 {
      assert !Answers(rs[0], counter);
      assert NoAnswerBefore(rs[1..], i - 1, counter) by {
        forall j | 0 <= j < i - 1 ensures !Answers(rs[1..][j], counter) {
          assert rs[1..][j] == rs[j + 1];
        }
      }
      FirstAnswerIs(rs[1..], i - 1, counter);
    }
  }

  // ---------------------------------------------------------------------
  // Hello / HelloReply

  /** What one `sendHello` call did: whether a good HelloReply came back,
      the Hello frame it wrote and the counter afterwards. */
  datatype HelloAttempt = HelloAttempt(ok: bool, frame: seq<byte>, counter: uint32)

  /** Every datagram `sendHello` reads is checkable: the loop stops at the
      first read error or at the first datagram that is not merely of the
      wrong type. */
  predicate HelloReadable(rs: seq<Reception>, counter: uint32)
  {
    |rs| == 0 || rs[0].ReadTimeout? ||
    (&& IncomingCheckable(rs[0].buf, rs[0].size, TypeHelloReply)
     && (CheckIncoming(rs[0].buf, rs[0].size, TypeHelloReply, counter) == 2 ==> HelloReadable(rs[1..], counter)))
  }

  /** Datagram `k` passes every check and all the datagrams before it were
      skipped as being of the wrong type. */
  predicate HelloAcceptedAt(rs: seq<Reception>, k: nat, counter: uint32)
    requires k < |rs|
  {
    && (forall j | 0 <= j <= k ::
          rs[j].Datagram? && IncomingCheckable(rs[j].buf, rs[j].size, TypeHelloReply))
    && (forall j | 0 <= j < k ::
          CheckIncoming(rs[j].buf, rs[j].size, TypeHelloReply, counter) == 2)
    && CheckIncoming(rs[k].buf, rs[k].size, TypeHelloReply, counter) == 0
  }

  /** The receive loop of `sendHello`: wrong-type datagrams are skipped (its
      time-out test subtracts the later time from the earlier one and can
      never fire); a read error, a length mismatch or a wrong id end the
      attempt unsuccessfully. */
  function AwaitHelloReply(rs: seq<Reception>, counter: uint32): (ok: bool)
    requires HelloReadable(rs, counter)
    ensures ok <==> exists k | 0 <= k < |rs| :: HelloAcceptedAt(rs, k, counter)
  {
    if |rs| == 0 || rs[0].ReadTimeout? then
      assert forall k | 0 <= k < |rs| :: !HelloAcceptedAt(rs, k, counter);
      false
    else
      var c := CheckIncoming(rs[0].buf, rs[0].size, TypeHelloReply, counter);
      if c == 0 then
        assert HelloAcceptedAt(rs, 0, counter);
        true
      else if c == 2 then
        var rest := AwaitHelloReply(rs[1..], counter);
        HelloShift(rs, counter);
        rest
      else
        assert forall k | 0 <= k < |rs| :: !HelloAcceptedAt(rs, k, counter);
        false
  }

  lemma HelloShift(rs: seq<Reception>, counter: uint32)
    requires |rs| > 0 && rs[0].Datagram? && IncomingCheckable(rs[0].buf, rs[0].size, TypeHelloReply)
    requires CheckIncoming(rs[0].buf, rs[0].size, TypeHelloReply, counter) == 2
    ensures (exists k | 0 <= k < |rs| :: HelloAcceptedAt(rs, k, counter)) <==>
            (exists k | 0 <= k < |rs| - 1 :: HelloAcceptedAt(rs[1..], k, counter))
  {
    forall k | 0 <= k < |rs| - 1
      ensures HelloAcceptedAt(rs, k + 1, counter) <==> HelloAcceptedAt(rs[1..], k, counter)
    {
      assert forall j | 0 <= j < |rs| - 1 :: rs[1..][j] == rs[j + 1];
    }
    if exists k | 0 <= k < |rs| :: HelloAcceptedAt(rs, k, counter) {
      var k :| 0 <= k < |rs| && HelloAcceptedAt(rs, k, counter);
      assert k != 0;
      assert HelloAcceptedAt(rs[1..], k - 1, counter);
    }
  }

  /** `sendHello`: writes a Hello carrying the current counter and the peer
      name (length `len(peer)+4`), then waits for the HelloReply. Every
      path that reaches the read advances the counter exactly once. */
  function SendHello(peer: seq<byte>, rs: seq<Reception>, counter: uint32): (h: HelloAttempt)
    requires HelloReadable(rs, counter)
    ensures h.frame == ComposeHandshake(counter, TypeHello, peer, |peer| + 4, 0)
    ensures h.counter == Increment(counter)
    ensures h.ok <==> exists k | 0 <= k < |rs| :: HelloAcceptedAt(rs, k, counter)
  {
    HelloAttempt(AwaitHelloReply(rs, counter), ComposeHandshake(counter, TypeHello, peer, |peer| + 4, 0), Increment(counter))
  }
}
