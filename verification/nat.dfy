/** `NatTraversal`: up to three direct Hellos to a peer, then, when the
    third attempt has been made, a NAT_TRAVERSAL_REQUEST to the server
    and up to three reads waiting for the peer's Hello. The outcome of
    each `sendHello`, the peer's address text as the directory lists it,
    `net.ParseIP` and the datagrams read are all inputs; every write
    succeeds. */
module NatTraversal {
  import opened Bytes
  import opened Wire

  const ResultOk: int := 0
  const ResultError: int := 1
  const MaxAttempts: nat := 3

  const OpenBracket: byte := 91
  const CloseBracket: byte := 93

  /** `net.ParseIP`: no address, or the address bytes and whether `To4`
      would accept it. */
  datatype ParsedIP = NoIP | IP(bytes: seq<byte>, v4: bool)

  type IPParser = seq<byte> -> ParsedIP

  /** Two facts of the textual IP syntax (section 2.2 of RFC 4291 for
      IPv6): an IPv6 address is written with ':' and no address is written
      with '['. */
  ghost predicate ParserFacts(parse: IPParser)
  {
    forall s: seq<byte> ::
      && (parse(s).IP? && !parse(s).v4 ==> Colon in s)
      && (parse(s).IP? ==> OpenBracket !in s)
  }

  // ---------------------------------------------------------------------
  // `composeNatTravMessage` and `isIPv4`

  /** `composeNatTravMessage`: header, the address bytes, a 32-bit
      extension field. */
  function ComposeNatTrav(id: uint32, t: byte, addr: seq<byte>, len: int, ext: int): (r: seq<byte>)
    ensures |r| == 11 + |addr|
    ensures FrameId(r) == id && r[PosType] == t && FrameLength(r) == ToUint16(len)
    ensures r[PosBody..PosBody + |addr|] == addr
    ensures U32(r, PosBody + |addr|) == ToUint32(ext)
  {
    Header(id, t, len) + addr + BE32(ext)
  }

  /** `strings.Split(addr, ":")[0]`: the text before the first ':'. */
  function BeforeColon(s: seq<byte>): (r: seq<byte>)
    ensures |r| <= |s| && r == s[..|r|] && Colon !in r
    ensures |r| < |s| ==> s[|r|] == Colon
  {
    if |s| == 0 || s[0] == Colon then [] else [s[0]] + BeforeColon(s[1..])
  }

  /** `isIPv4`: 6 when the text before the first ':' is an IPv4 address,
      18 when it is another address, -1 when it is none. */
  function IsIPv4(parse: IPParser, addr: seq<byte>): (size: int)
    ensures size == -1 <==> parse(BeforeColon(addr)).NoIP?
    ensures size == 6 <==> parse(BeforeColon(addr)).IP? && parse(BeforeColon(addr)).v4
    ensures size == 18 <==> parse(BeforeColon(addr)).IP? && !parse(BeforeColon(addr)).v4
  {
    match parse(BeforeColon(addr))
    case NoIP => -1
    case IP(_, v4) => if v4 then 6 else 18
  }

  /** The text before the first ':' never holds an IPv6 address, so
      `isIPv4` never answers 18: an IPv6 peer is refused as "neither IPv4
      nor IPv6". */
  lemma IsIPv4Never18(parse: IPParser, addr: seq<byte>)
    requires ParserFacts(parse)
    ensures IsIPv4(parse, addr) != 18
  {
  }

  /** The listed address of an IPv6 peer, `[2001:db8::1]:8080` say, is
      classified as no address at all. */
  lemma BracketedIPv6Refused(parse: IPParser, host: seq<byte>, port: seq<byte>)
    requires ParserFacts(parse)
    ensures IsIPv4(parse, [OpenBracket] + host + [CloseBracket, Colon] + port) == -1
  {
    var addr := [OpenBracket] + host + [CloseBracket, Colon] + port;
    var b := BeforeColon(addr);
    if |b| > 0 {
      assert b[0] == OpenBracket;
      assert OpenBracket in b;
    }
  }

  /** The last index of `c` in `s`, `|s|` when there is none. */
  function LastIndex(s: seq<byte>, c: byte): (k: nat)
    ensures k <= |s|
    ensures k < |s| ==> s[k] == c && c !in s[k + 1..]
    ensures k == |s| ==> c !in s
  {
    if |s| == 0 then 0
    else if s[|s| - 1] == c then |s| - 1
    else
      var k := LastIndex(s[..|s| - 1], c);
      if k < |s| - 1 then
        assert s[k + 1..] == s[..|s| - 1][k + 1..] + [s[|s| - 1]];
        k
      else
        assert s == s[..|s| - 1] + [s[|s| - 1]];
        |s|
  }

  /** The host of a `host:port` address, with the brackets of an IPv6 host
      removed (what `net.SplitHostPort` gives for the addresses the
      directory lists). */
  function Host(addr: seq<byte>): seq<byte>
  {
    var k := LastIndex(addr, Colon);
    var h := addr[..k];
    if |h| >= 2 && h[0] == OpenBracket && h[|h| - 1] == CloseBracket then h[1..|h| - 1] else h
  }

  /** The address size `isIPv4` is meant to compute: 6 for an IPv4 host,
      18 for an IPv6 host, -1 when the host is no address. */
  function AddressSize(parse: IPParser, addr: seq<byte>): (size: int)
    ensures size == -1 <==> parse(Host(addr)).NoIP?
    ensures size == 6 <==> parse(Host(addr)).IP? && parse(Host(addr)).v4
    ensures size == 18 <==> parse(Host(addr)).IP? && !parse(Host(addr)).v4
  {
    match parse(Host(addr))
    case NoIP => -1
    case IP(_, v4) => if v4 then 6 else 18
  }

  /** The intended classification reads the host of a bracketed address. */
  lemma BracketedIPv6Accepted(parse: IPParser, host: seq<byte>, port: seq<byte>)
    requires Colon !in port && parse(host).IP? && !parse(host).v4
    ensures AddressSize(parse, [OpenBracket] + host + [CloseBracket, Colon] + port) == 18
  {
    var h := [OpenBracket] + host + [CloseBracket];
    var addr := h + [Colon] + port;
    assert addr == [OpenBracket] + host + [CloseBracket, Colon] + port;
    LastColonBeforePort(h, port);
    assert addr[..|h|] == h;
    assert h[1..|h| - 1] == host;
  }

  /** On `a.b.c.d:port` the two classifications agree. */
  lemma AddressSizeAgreesOnIPv4(parse: IPParser, host: seq<byte>, port: seq<byte>)
    requires Colon !in host && Colon !in port && |host| > 0 && host[0] != OpenBracket
    ensures AddressSize(parse, host + [Colon] + port) == IsIPv4(parse, host + [Colon] + port)
  {
    var addr := host + [Colon] + port;
    LastColonBeforePort(host, port);
    assert addr[..|host|] == host;
    BeforeColonOf(host, port);
  }

  lemma LastColonBeforePort(h: seq<byte>, port: seq<byte>)
    requires Colon !in port
    ensures LastIndex(h + [Colon] + port, Colon) == |h|
  {
    var s := h + [Colon] + port;
    var k := LastIndex(s, Colon);
    assert s[|h|] == Colon;
  }

  lemma {:induction false} BeforeColonOf(host: seq<byte>, rest: seq<byte>)
    requires Colon !in host
    ensures BeforeColon(host + [Colon] + rest) == host
  {
    if |host| > 0 {
      assert (host + [Colon] + rest)[1..] == host[1..] + [Colon] + rest;
      BeforeColonOf(host[1..], rest);
      assert [host[0]] + host[1..] == host;
    }
  }

  // ---------------------------------------------------------------------
  // The direct phase

  /** `messCounter` advanced `n` times. */
  function Advance(c: uint32, n: nat): uint32
    decreases n
  {
    if n == 0 then c else Advance(Increment(c), n - 1)
  }

  /** The number of `sendHello` calls the direct loop makes: it stops at
      the first success and after three calls. `hellos[i]` is whether
      call `i` got its HelloReply. */
  function Attempts(hellos: seq<bool>): (n: nat)
    requires |hellos| >= MaxAttempts
    ensures 1 <= n <= MaxAttempts
    ensures forall j | 0 <= j < n - 1 :: !hellos[j]
    ensures n < MaxAttempts ==> hellos[n - 1]
  {
    if hellos[0] then 1 else if hellos[1] then 2 else 3
  }

  /** The Hello frames the direct phase writes: attempt `i` carries the
      counter as it stands then; every attempt advances it twice, once
      inside `sendHello` and once in the loop. */
  function DirectHellos(peer: seq<byte>, n: nat, counter: uint32): (r: seq<seq<byte>>)
    ensures |r| == n
    ensures forall i | 0 <= i < n :: r[i] == ComposeHandshake(Advance(counter, 2 * i), TypeHello, peer, |peer| + 4, 0)
    decreases n
  {
    if n == 0 then []
    else
      var rest := DirectHellos(peer, n - 1, Advance(counter, 2));
      var r := [ComposeHandshake(counter, TypeHello, peer, |peer| + 4, 0)] + rest;
      HelloScheduleShift(peer, n, counter, rest);
      r
  }

  lemma HelloScheduleShift(peer: seq<byte>, n: nat, counter: uint32, rest: seq<seq<byte>>)
    requires n > 0 && |rest| == n - 1
    requires forall i | 0 <= i < n - 1 ::
               rest[i] == ComposeHandshake(Advance(Advance(counter, 2), 2 * i), TypeHello, peer, |peer| + 4, 0)
    ensures var r := [ComposeHandshake(counter, TypeHello, peer, |peer| + 4, 0)] + rest;
            forall i | 0 <= i < n :: r[i] == ComposeHandshake(Advance(counter, 2 * i), TypeHello, peer, |peer| + 4, 0)
  {
    var r := [ComposeHandshake(counter, TypeHello, peer, |peer| + 4, 0)] + rest;
    forall i | 0 < i < n ensures r[i] == ComposeHandshake(Advance(counter, 2 * i), TypeHello, peer, |peer| + 4, 0) {
      assert r[i] == rest[i - 1];
      AdvanceAdd(counter, 2, 2 * (i - 1));
    }
  }

  lemma {:induction false} AdvanceAdd(c: uint32, a: nat, b: nat)
    ensures Advance(Advance(c, a), b) == Advance(c, a + b)
    decreases a
  {
    if a > 0 {
      AdvanceAdd(Increment(c), a - 1, b);
    }
  }

  // ---------------------------------------------------------------------
  // The relay phase

  /** The reads the relay loop looks at, at most `left` of them: a missing
      read is a read error; every datagram it reads is checkable, and the
      reads after one that decides the loop are never looked at. */
  predicate RelayReadable(inbox: seq<Reception>, size: int, left: nat, counter: uint32)
    decreases left
  {
    left == 0 || |inbox| == 0 ||
    (if inbox[0].ReadTimeout? then RelayReadable(inbox[1..], size, left - 1, counter)
     else
       && IncomingCheckable(inbox[0].buf, inbox[0].size, TypeHello)
       && var c := CheckIncoming(inbox[0].buf, inbox[0].size, TypeHello, counter);
          (c == 2 || c == 3) ==> RelayReadable(inbox[1..], size, left - 1, counter))
  }

  /** How the relay loop ends: a good Hello, a length mismatch, or the
      reads used up. */
  datatype RelayEnd = GotHello | BadLength | Exhausted

  /** A read the relay loop passes over: a read error, or a datagram of the
      wrong type or with the wrong id (check results 2 and 3). */
  predicate Skipped(x: Reception, counter: uint32)
  {
    x.ReadTimeout? ||
    (IncomingCheckable(x.buf, x.size, TypeHello) && CheckIncoming(x.buf, x.size, TypeHello, counter) >= 2)
  }

  /** A datagram on which `CheckUDPIncomingPacket` answers `v`. */
  predicate Checked(x: Reception, counter: uint32, v: int)
  {
    x.Datagram? && IncomingCheckable(x.buf, x.size, TypeHello)
    && CheckIncoming(x.buf, x.size, TypeHello, counter) == v
  }

  /** Among the first `left` reads there is one on which the check answers
      `v`, and every read before it was passed over. */
  predicate DecidedBy(inbox: seq<Reception>, left: nat, counter: uint32, v: int)
  {
    exists k | 0 <= k < left && k < |inbox| ::
      Checked(inbox[k], counter, v) && forall j | 0 <= j < k :: Skipped(inbox[j], counter)
  }

  /** The relay loop with `left` reads remaining: a read error, a wrong
      type or a wrong id moves on to the next read (the time-out test of
      the wrong-type branch subtracts the later time from the earlier one
      and never fires); a good Hello leaves the loop, a length mismatch
      leaves the function. */
  function RelayLoop(inbox: seq<Reception>, size: int, left: nat, counter: uint32): (e: RelayEnd)
    requires RelayReadable(inbox, size, left, counter)
    decreases left
    ensures e == GotHello <==> DecidedBy(inbox, left, counter, 0)
    ensures e == BadLength <==> DecidedBy(inbox, left, counter, 1)
  {
    if left == 0 || |inbox| == 0 then Exhausted
    else if inbox[0].ReadTimeout? then
      var e := RelayLoop(inbox[1..], size, left - 1, counter);
      SkipFirst(inbox, left, counter, 0);
      SkipFirst(inbox, left, counter, 1);
      e
    else
      var c := CheckIncoming(inbox[0].buf, inbox[0].size, TypeHello, counter);
      FirstDecides(inbox, left, counter);
      if c == 0 then GotHello
      else if c == 1 then BadLength
      else
        var e := RelayLoop(inbox[1..], size, left - 1, counter);
        SkipFirst(inbox, left, counter, 0);
        SkipFirst(inbox, left, counter, 1);
        e
  }

  lemma SkipFirst(inbox: seq<Reception>, left: nat, counter: uint32, v: int)
    requires |inbox| > 0 && left > 0 && Skipped(inbox[0], counter) && v < 2
    ensures DecidedBy(inbox, left, counter, v) <==> DecidedBy(inbox[1..], left - 1, counter, v)
  {
    var tail := inbox[1..];
    if DecidedBy(tail, left - 1, counter, v) {
      var k :| 0 <= k < left - 1 && k < |tail| &&
               Checked(tail[k], counter, v) && forall j | 0 <= j < k :: Skipped(tail[j], counter);
      assert tail[k] == inbox[k + 1];
      forall j | 0 <= j < k + 1 ensures Skipped(inbox[j], counter) {
        if j > 0 { assert inbox[j] == tail[j - 1]; }
      }
    }
    if DecidedBy(inbox, left, counter, v) {
      var k :| 0 <= k < left && k < |inbox| &&
               Checked(inbox[k], counter, v) && forall j | 0 <= j < k :: Skipped(inbox[j], counter);
      assert k > 0;
      assert tail[k - 1] == inbox[k];
      forall j | 0 <= j < k - 1 ensures Skipped(tail[j], counter) {
        assert tail[j] == inbox[j + 1];
      }
    }
  }

  lemma FirstDecides(inbox: seq<Reception>, left: nat, counter: uint32)
    requires |inbox| > 0 && left > 0 && inbox[0].Datagram?
    requires IncomingCheckable(inbox[0].buf, inbox[0].size, TypeHello)
    ensures var c := CheckIncoming(inbox[0].buf, inbox[0].size, TypeHello, counter);
            && (c == 0 ==> DecidedBy(inbox, left, counter, 0) && !DecidedBy(inbox, left, counter, 1))
            && (c == 1 ==> DecidedBy(inbox, left, counter, 1) && !DecidedBy(inbox, left, counter, 0))
  {
    var c := CheckIncoming(inbox[0].buf, inbox[0].size, TypeHello, counter);
    if c < 2 {
      assert Checked(inbox[0], counter, c);
      assert !Skipped(inbox[0], counter);
    }
  }

  /** The bytes `net.ParseIP` leaves for the request: none for a nil
      address. */
  function AddressBytes(ip: ParsedIP): (b: seq<byte>)
    ensures ip.NoIP? ==> b == []
  {
    if ip.IP? then ip.bytes else []
  }

  /** What a `NatTraversal` call did: its result, the frames it wrote to
      the server and to the peer, and the counter afterwards. */
  datatype NatRun = NatRun(result: int, toServer: seq<seq<byte>>, toPeer: seq<seq<byte>>, counter: uint32)

  /** The relay phase from the address check on, with `counter` as it
      stands after the direct phase. The server request carries the parse
      of the whole address text. */
  function Relay(parse: IPParser, size: int, addr: seq<byte>, myPeer: seq<byte>, inbox: seq<Reception>, counter: uint32): (r: NatRun)
    requires size != -1 ==> RelayReadable(inbox, size, MaxAttempts, Increment(counter))
    ensures size == -1 ==> r == NatRun(ResultError, [], [], counter)
    ensures size != -1 ==>
              r.toServer == [ComposeNatTrav(counter, TypeNatTraversalRequest, AddressBytes(parse(addr)), size, 0)]
    ensures r.result == ResultOk <==> size != -1 && DecidedBy(inbox, MaxAttempts, Increment(counter), 0)
    ensures r.result == ResultOk ==>
              var c := Increment(Increment(counter));
              && r.toPeer == [ComposeHandshake(c, TypeHelloReply, myPeer, 0, 0), ComposeHandshake(Increment(c), TypeHello, myPeer, 0, 0)]
              && r.counter == Increment(Increment(Increment(c)))
    ensures r.result != ResultOk ==> r.result == ResultError && r.toPeer == []
    ensures size != -1 && r.result == ResultError ==> r.counter == Increment(Increment(counter))
  {
    if size == -1 then NatRun(ResultError, [], [], counter)
    else
      var request := ComposeNatTrav(counter, TypeNatTraversalRequest, AddressBytes(parse(addr)), size, 0);
      var c := Increment(counter);
      match RelayLoop(inbox, size, MaxAttempts, c)
      case BadLength => NatRun(ResultError, [request], [], Increment(c))
      case Exhausted => NatRun(ResultError, [request], [], Increment(c))
      case GotHello =>
        var c2 := Increment(c);
        var replies := [ComposeHandshake(c2, TypeHelloReply, myPeer, 0, 0), ComposeHandshake(Increment(c2), TypeHello, myPeer, 0, 0)];
        NatRun(ResultOk, [request], replies, Increment(Increment(Increment(c2))))
  }

  /** `NatTraversal` as written: the server is contacted when the attempt
      count reaches three, whether or not the third Hello succeeded. */
  function NatTraversal(parse: IPParser, hellos: seq<bool>, myPeer: seq<byte>, addr: seq<byte>, inbox: seq<Reception>, counter: uint32): (r: NatRun)
    requires |hellos| >= MaxAttempts
    requires var c := Advance(counter, 2 * Attempts(hellos));
             IsIPv4(parse, addr) != -1 ==> RelayReadable(inbox, IsIPv4(parse, addr), MaxAttempts, Increment(c))
    ensures var n := Attempts(hellos);
            n <= |r.toPeer| && r.toPeer[..n] == DirectHellos(myPeer, n, counter)
    ensures Attempts(hellos) < MaxAttempts ==> r.result == ResultOk && r.toServer == []
    ensures r.toServer != [] <==> Attempts(hellos) == MaxAttempts && IsIPv4(parse, addr) != -1
    ensures r.result == ResultOk || r.result == ResultError
    ensures Attempts(hellos) == MaxAttempts ==>
              var c := Advance(counter, 2 * MaxAttempts);
              var size := IsIPv4(parse, addr);
              && (r.result == ResultOk <==> size != -1 && DecidedBy(inbox, MaxAttempts, Increment(c), 0))
              && (size == -1 ==> r.toPeer == DirectHellos(myPeer, MaxAttempts, counter) && r.counter == c)
              && (size != -1 ==> r.toServer == [ComposeNatTrav(c, TypeNatTraversalRequest, AddressBytes(parse(addr)), size, 0)])
  {
    var n := Attempts(hellos);
    var direct := DirectHellos(myPeer, n, counter);
    var c := Advance(counter, 2 * n);
    if n == MaxAttempts then
      var r := Relay(parse, IsIPv4(parse, addr), addr, myPeer, inbox, c);
      assert (direct + r.toPeer)[..n] == direct;
      NatRun(r.result, r.toServer, direct + r.toPeer, r.counter)
    else
      assert (direct + [])[..n] == direct;
      NatRun(ResultOk, [], direct + [], c)
  }

  /** The relay is reached after a successful third Hello: the peer
      answered, yet the server is asked to relay, and with no Hello read
      back the call fails. */
  lemma ThirdSuccessStillRelays(parse: IPParser, myPeer: seq<byte>, addr: seq<byte>, counter: uint32)
    requires IsIPv4(parse, addr) != -1
    ensures var r := NatTraversal(parse, [false, false, true], myPeer, addr, [], counter);
            |r.toServer| == 1 && r.result == ResultError
  {
  }

  /** `NatTraversal` as intended: relay only when all three Hellos failed,
      announcing the size of the host part of the address. */
  function NatTraversalFixed(parse: IPParser, hellos: seq<bool>, myPeer: seq<byte>, addr: seq<byte>, inbox: seq<Reception>, counter: uint32): (r: NatRun)
    requires |hellos| >= MaxAttempts
    requires var c := Advance(counter, 2 * Attempts(hellos));
             AddressSize(parse, addr) != -1 ==> RelayReadable(inbox, AddressSize(parse, addr), MaxAttempts, Increment(c))
    ensures var n := Attempts(hellos);
            n <= |r.toPeer| && r.toPeer[..n] == DirectHellos(myPeer, n, counter)
    ensures r.toServer != [] <==> !hellos[0] && !hellos[1] && !hellos[2] && AddressSize(parse, addr) != -1
    ensures hellos[0] || hellos[1] || hellos[2] ==> r.result == ResultOk
    ensures !hellos[0] && !hellos[1] && !hellos[2] ==>
              var c := Advance(counter, 2 * MaxAttempts);
              var size := AddressSize(parse, addr);
              && (r.result == ResultOk <==> size != -1 && DecidedBy(inbox, MaxAttempts, Increment(c), 0))
              && (size == -1 ==> r.result == ResultError && r.toPeer == DirectHellos(myPeer, MaxAttempts, counter) && r.counter == c)
              && (size != -1 ==> r.toServer == [ComposeNatTrav(c, TypeNatTraversalRequest, AddressBytes(parse(Host(addr))), size, 0)])
  {
    var n := Attempts(hellos);
    var direct := DirectHellos(myPeer, n, counter);
    var c := Advance(counter, 2 * n);
    if !hellos[n - 1] then
      assert n == MaxAttempts && !hellos[0] && !hellos[1] && !hellos[2];
      var r := Relay(parse, AddressSize(parse, addr), Host(addr), myPeer, inbox, c);
      assert (direct + r.toPeer)[..n] == direct;
      NatRun(r.result, r.toServer, direct + r.toPeer, r.counter)
    else
      assert hellos[n - 1];
      assert (direct + [])[..n] == direct;
      NatRun(ResultOk, [], direct + [], c)
  }
}
