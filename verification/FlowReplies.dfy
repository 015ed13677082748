/**
 From bytes to flows: a frame and its reply land in the same flow.
 */
module FlowReplies {
  import opened Bytes
  import opened Gf2
  import opened PacketState
  import opened RecordHeader
  import opened ScanLoop
  import opened Protocols
  import opened NativeScanners
  import opened NativeRuns
  import opened FlowKeys
  import opened ScanKeys

  function Word32At(buf: seq<byte>, i: nat): nat
    requires i + 4 <= |buf|
  {
    0x1_0000 * Big16(buf, i) + Big16(buf, i + 2)
  }

  // The length of the IPv4 header behind an Ethernet header.
  function IpLength(buf: seq<byte>): nat
    requires |buf| >= 34
  {
    buf[14] % 16 * 4
  }

  function TransportSize(kind: int): nat { if kind == TCP then 20 else 8 }

  // Ethernet II, an unfragmented IPv4 packet of the given protocol, and its
  // whole transport header, captured.
  predicate IsFrame(buf: seq<byte>, kind: int) {
    && kind in {TCP, UDP} && |buf| >= 34
    && Big16(buf, 12) == 0x0800 && Big16(buf, 20) % 0x2000 == 0 && Big16(buf, 20) / 0x2000 % 2 == 0
    && buf[23] == (if kind == TCP then 6 else 17)
    && 20 <= IpLength(buf) && 14 + IpLength(buf) + TransportSize(kind) <= |buf|
    && IpLength(buf) + TransportSize(kind) <= Big16(buf, 16)
  }

  function Source(buf: seq<byte>): nat
    requires |buf| >= 34
  {
    Word32At(buf, 26)
  }

  function Destination(buf: seq<byte>): nat
    requires |buf| >= 34
  {
    Word32At(buf, 30)
  }

  function SourcePort(buf: seq<byte>, kind: int): nat
    requires IsFrame(buf, kind)
  {
    Big16(buf, 14 + IpLength(buf))
  }

  function DestinationPort(buf: seq<byte>, kind: int): nat
    requires IsFrame(buf, kind)
  {
    Big16(buf, 16 + IpLength(buf))
  }

  // The key such a frame should get.
  function FrameKey(buf: seq<byte>, kind: int): (k: FlowKey)
    requires IsFrame(buf, kind)
    ensures Raw(k)
  {
    FlowKey({ETHERNET, IP4, kind}, Zeros(32), true, 3,
            [(Source(buf), Destination(buf)), (buf[23], buf[23]), (SourcePort(buf, kind), DestinationPort(buf, kind))],
            [(0, 0), (0, 0), (0, 0)], [IP4, IP4, kind])
  }

  // The frame that answers: addresses and ports change places.
  predicate IsReply(buf: seq<byte>, reply: seq<byte>, kind: int) {
    && IsFrame(buf, kind) && IsFrame(reply, kind)
    && Source(reply) == Destination(buf) && Destination(reply) == Source(buf)
    && SourcePort(reply, kind) == DestinationPort(buf, kind)
    && DestinationPort(reply, kind) == SourcePort(buf, kind)
  }

  // Ethernet and this kind of IP are bound by their own type fields alone.
  ghost predicate PlainEnv(env: Scanner, h: Host, ip: int) {
    NativeEnv(env, h) && {ETHERNET, ip} !! env.overriding + env.heuristic
  }

  // Ethernet II with this kind of IP behind it.
  predicate Carries(buf: seq<byte>, ip: int) {
    ip in {IP4, IP6} && |buf| >= 34 && Big16(buf, 12) == if ip == IP4 then 0x0800 else 0x86DD
  }

  // --------------------------------------------------------- turn by turn

  // The state in front of the header at offset, with a key so far.
  predicate InFront(t: Scan, buf: seq<byte>, id: int, offset: nat, key: FlowKey) {
    && t.buf == buf && t.id == id && t.offset == offset && t.key == key && t.bufLen <= t.wireLen && t.length == 0
    && t.bufLen <= |buf| && t.memLen == |buf|
    && t.prefix == 0 && t.gap == 0 && t.payload == 0 && t.postfix == 0 && t.nextId == PAYLOAD
  }

  function EthernetKey(h: Host, buf: seq<byte>): FlowKey {
    AddressKey(ZeroKey(), ETHERNET, EthernetAddresses(h, Start(buf, 0, 0)), Net16(Start(buf, 0, 0), 12))
  }

  // A header that fits is recorded at its full length.
  lemma RecordWhole(t: Scan)
    requires !t.recorded && t.length > 0 && t.postfix == 0 && t.prefix == 0 && t.gap == 0
    requires t.bufLen <= t.wireLen && t.offset + t.length < t.bufLen
    ensures var u := Record(t);
      && u.length == t.length && u.bufLen == t.bufLen && u.wireLen == t.wireLen && u.buf == t.buf
      && u.memLen == t.memLen && u.offset == t.offset && u.nextId == t.nextId && u.key == t.key
      && u.prefix == 0 && u.gap == 0 && u.payload == 0 && u.postfix == 0
      && u.headers != [] && Last(u).id == t.id
  {
  }

  lemma NativeDispatch(env: Scanner, h: Host, s: Scan)
    requires NativeEnv(env, h) && s.id in NATIVE
    ensures Dispatch(env, s) == Native(h, s)
  {
    hide Dispatch, Native;
  }

  lemma PlainBind(env: Scanner, h: Host, t: Scan, ip: int)
    requires PlainEnv(env, h, ip) && t.id in {ETHERNET, ip}
    ensures Bind(env, t) == t.nextId
  {
    hide NativeEnv;
  }

  // One turn that finds and records a whole header.
  lemma WholeTurn(env: Scanner, s: Scan, t: Scan, buf: seq<byte>, kind: int, key: FlowKey)
    requires Dispatch(env, s.(recorded := false)) == t && Bind(env, t) == t.nextId == kind != END
    requires t.length > 0 && t.offset + t.length < t.bufLen <= t.wireLen && t.memLen == |buf| >= t.bufLen
    requires !t.recorded && t.postfix == 0 && t.prefix == 0 && t.gap == 0 && t.buf == buf && t.key == key
    requires t.offset >= 0
    ensures InFront(Body(env, s), buf, kind, t.offset + t.length, key) && Body(env, s).bufLen == t.bufLen
  {
    hide Dispatch, Bind, Record;
    assert t.(nextId := kind) == t;
    RecordWhole(t);
  }

  lemma FrameReads(s: Scan)
    ensures forall i {:trigger Net16(s, i)} :: 0 <= i && i + 2 <= |s.buf| ==> Net16(s, i) == Big16(s.buf, i)
    ensures forall i {:trigger At(s, i)} :: 0 <= i < |s.buf| ==> At(s, i) == s.buf[i]
  {
  }

  lemma EthernetOfFrame(h: Host, s: Scan, ip: int)
    requires SaneHost(h) && Carries(s.buf, ip) && InFront(s, s.buf, ETHERNET, 0, ZeroKey()) && s.bufLen == |s.buf|
    ensures var t := ScanEthernet(h, s);
      t == s.(length := 14, nextId := ip, key := EthernetKey(h, s.buf))
  {
    FrameReads(s);
    SameEthernet(h, s, Start(s.buf, 0, 0));
    assert Net16(s, 12) == Net16(Start(s.buf, 0, 0), 12) == Big16(s.buf, 12);
    hide EthernetAddresses, AddressKey, Net16;
    assert ip !in h.validate;
  }

  // What EthernetTurn needs to know about its start.
  lemma EthernetStart(h: Host, s: Scan)
    requires InFront(s, s.buf, ETHERNET, 0, ZeroKey())
    ensures var r := s.(recorded := false);
      && InFront(r, s.buf, ETHERNET, 0, ZeroKey()) && r.id == ETHERNET && ETHERNET in NATIVE
      && Native(h, r) == ScanEthernet(h, r)
      && s.offset == 0 && s.bufLen <= s.wireLen && s.memLen == |s.buf|
      && s.prefix == 0 && s.gap == 0 && s.payload == 0 && s.postfix == 0
  {
    hide ScanEthernet;
  }

  lemma EthernetTurn(env: Scanner, h: Host, s: Scan, ip: int)
    requires PlainEnv(env, h, ip) && Carries(s.buf, ip) && InFront(s, s.buf, ETHERNET, 0, ZeroKey())
    requires s.bufLen == |s.buf|
    ensures var t := Body(env, s);
      InFront(t, s.buf, ip, 14, EthernetKey(h, s.buf)) && t.bufLen == |s.buf|
  {
    hide *;
    var r := s.(recorded := false);
    var t := ScanEthernet(h, r);
    Plain(env, h, ip);
    CarriesKind(s.buf, ip);
    EthernetStart(h, s);
    EthernetOfFrame(h, r, ip);
    NativeDispatch(env, h, r);
    PlainBind(env, h, t, ip);
    WholeTurn(env, s, t, s.buf, ip, EthernetKey(h, s.buf));
  }

  function Ip4Key(h: Host, buf: seq<byte>): FlowKey
    requires |buf| >= 34
  {
    AddressKey(EthernetKey(h, buf), IP4, (Source(buf), Destination(buf)), buf[23])
  }

  lemma Ip4ExtentOfFrame(h: Host, s: Scan, kind: int)
    requires IsFrame(s.buf, kind) && InFront(s, s.buf, IP4, 14, EthernetKey(h, s.buf)) && s.bufLen == |s.buf|
    ensures var v := Ip4Extent(s);
      && v == s.(length := IpLength(s.buf), payload := v.payload, headers := v.headers, bufLen := v.bufLen)
      && 14 + v.length + TransportSize(kind) <= v.bufLen <= s.bufLen
  {
    FrameReads(s);
    assert Ip4TotalLength(s) == Big16(s.buf, 16) && Ip4HeaderLength(s) == IpLength(s.buf);
    assert Net16(s, 20) == Big16(s.buf, 20);
    assert !Ip4IsFragment(s);
    hide EthernetKey, Net16, Big16, Ip4IsFragment;
  }

  lemma Ip4BindOfFrame(h: Host, v: Scan, kind: int)
    requires SaneHost(h) && IsFrame(v.buf, kind) && v.key == EthernetKey(h, v.buf) && v.offset == 14
    requires 34 <= v.bufLen
    ensures Ip4Bind(h, v) == v.(key := Ip4Key(h, v.buf), nextId := kind)
  {
    FrameReads(v);
    assert Net32(v, 26) == Source(v.buf) && Net32(v, 30) == Destination(v.buf) && At(v, 23) == v.buf[23];
    assert Net16(v, 20) == Big16(v.buf, 20);
    assert Ip4FragOff(v) == 0;
    assert Ip4Protocol(At(v, 23)) == kind && kind !in h.validate;
    hide AddressKey, EthernetKey, Net16, Net32, Source, Destination, Ip4FragOff, Ip4Protocol, At, SaneHost, IsFrame;
  }

  lemma Ip4OfFrame(h: Host, s: Scan, kind: int)
    requires SaneHost(h) && IsFrame(s.buf, kind) && InFront(s, s.buf, IP4, 14, EthernetKey(h, s.buf))
    requires s.bufLen == |s.buf|
    ensures var t := ScanIp4(h, s);
      && t == s.(length := IpLength(s.buf), payload := t.payload, headers := t.headers, bufLen := t.bufLen,
                 key := Ip4Key(h, s.buf), nextId := kind)
      && 14 + t.length + TransportSize(kind) <= t.bufLen <= s.bufLen
  {
    FrameKind(s.buf, kind);
    Ip4ExtentOfFrame(h, s, kind);
    hide SaneHost, IsFrame, Ip4Extent, Ip4Bind, EthernetKey, Ip4Key, IpLength;
    Ip4BindOfFrame(h, Ip4Extent(s), kind);
  }

  lemma Ip4Turn(env: Scanner, h: Host, s: Scan, kind: int)
    requires PlainEnv(env, h, IP4) && IsFrame(s.buf, kind) && InFront(s, s.buf, IP4, 14, EthernetKey(h, s.buf))
    requires s.bufLen == |s.buf|
    ensures var t := Body(env, s);
      InFront(t, s.buf, kind, 14 + IpLength(s.buf), Ip4Key(h, s.buf))
      && t.offset + TransportSize(kind) <= t.bufLen
  {
    var r := s.(recorded := false);
    var t := ScanIp4(h, r);
    hide PlainEnv, NativeEnv, SaneHost, Body, Bind, Record, Dispatch, EthernetKey, Ip4Key, IsFrame, ScanIp4, IpLength;
    Plain(env, h, IP4);
    FrameKind(s.buf, kind);
    Ip4OfFrame(h, r, kind);
    NativeDispatch(env, h, r);
    assert Native(h, r) == t;
    hide Native;
    PlainBind(env, h, t, IP4);
    WholeTurn(env, s, t, s.buf, kind, Ip4Key(h, s.buf));
  }

  lemma TransportOfFrame(h: Host, s: Scan, kind: int)
    requires IsFrame(s.buf, kind) && s.offset == 14 + IpLength(s.buf) && s.offset + TransportSize(kind) <= s.bufLen
    requires s.id == kind && s.bufLen <= |s.buf|
    ensures Native(h, s).key == PortKey(s.key, kind, (SourcePort(s.buf, kind), DestinationPort(s.buf, kind)))
  {
    FrameReads(s);
    assert Net16(s, s.offset) == SourcePort(s.buf, kind) && Net16(s, s.offset + 2) == DestinationPort(s.buf, kind);
    hide PortKey, ByPorts, SourcePort, DestinationPort, Net16;
    if kind == TCP {
      assert Native(h, s) == ScanTcp(h, s);
    } else {
      assert Native(h, s) == ScanUdp(h, s);
    }
  }

  lemma TransportTurn(env: Scanner, h: Host, s: Scan, kind: int)
    requires NativeEnv(env, h) && IsFrame(s.buf, kind)
    requires InFront(s, s.buf, kind, 14 + IpLength(s.buf), Ip4Key(h, s.buf))
    requires s.offset + TransportSize(kind) <= s.bufLen
    ensures Body(env, s).key == FrameKey(s.buf, kind)
  {
    var r := s.(recorded := false);
    FrameKind(s.buf, kind);
    hide NativeEnv, IsFrame, Native, PortKey, Dispatch, Body, Ip4Key, FrameKey, SourcePort, DestinationPort, IpLength;
    NativeDispatch(env, h, r);
    BodyKey(env, s);
    TransportOfFrame(h, r, kind);
    KeyInThreeSteps(h, s.buf, kind);
  }

  lemma KeyInThreeSteps(h: Host, buf: seq<byte>, kind: int)
    requires IsFrame(buf, kind)
    ensures PortKey(Ip4Key(h, buf), kind, (SourcePort(buf, kind), DestinationPort(buf, kind))) == FrameKey(buf, kind)
  {
    hide Source, Destination, SourcePort, DestinationPort, EthernetAddresses, Net16;
    var k := PortKey(Ip4Key(h, buf), kind, (SourcePort(buf, kind), DestinationPort(buf, kind)));
    assert k.headerMap == {ETHERNET, IP4, kind};
    assert k.forward == FrameKey(buf, kind).forward;
    assert k.ids == [IP4, IP4, kind];
  }

  // A header that adds no pair to the flow key: a native one of these, one whose
  // pairs are there already, or one of another protocol whose scanner leaves the
  // key alone.
  ghost predicate NoPair(env: Scanner, t: Scan) {
    || t.id in {END, PAYLOAD, IEEE_802DOT1Q, PPP, ICMP, ARP}
    || (t.id in {IP4, IP6, TCP, UDP} && t.id in t.key.headerMap)
    || (t.id !in NATIVE && Dispatch(env, t.(recorded := false)).key == t.key)
  }

  // From turn m on there are only such headers.
  ghost predicate NoPairFrom(env: Scanner, s: Scan, m: nat, n: nat) {
    forall k :: m <= k < n ==> NoPair(env, After(env, s, k))
  }

  // The native scanners of those headers do leave the key alone.
  lemma NoPairKeepsKey(env: Scanner, h: Host, s: Scan)
    requires NativeEnv(env, h) && NoPair(env, s) && s.id != END
    ensures Dispatch(env, s.(recorded := false)).key == s.key
  {
    var r := s.(recorded := false);
    if s.id in NATIVE {
      assert Dispatch(env, r) == Native(h, r);
      hide NativeEnv, Dispatch, Native;
      NativeKeepsKey(h, r);
    }
  }

  lemma ThreeTurns(env: Scanner, h: Host, buf: seq<byte>, wireLen: int, kind: int)
    requires PlainEnv(env, h, IP4) && IsFrame(buf, kind) && wireLen >= |buf|
    ensures After(env, Start(buf, wireLen, ETHERNET), 3).key == FrameKey(buf, kind)
  {
    hide PlainEnv, IsFrame, Body, EthernetKey, Ip4Key, FrameKey, IpLength;
    var s := Start(buf, wireLen, ETHERNET);
    var t1 := Body(env, s);
    var t2 := Body(env, t1);
    Plain(env, h, IP4);
    hide NativeEnv;
    FrameKind(buf, kind);
    hide Carries;
    EthernetTurn(env, h, s, IP4);
    Ip4Turn(env, h, t1, kind);
    TransportTurn(env, h, t2, kind);
    assert kind != END by { FrameKind(buf, kind); }
    assert After(env, s, 1) == t1;
    assert After(env, s, 2) == t2;
  }

  lemma Plain(env: Scanner, h: Host, ip: int)
    requires PlainEnv(env, h, ip)
    ensures NativeEnv(env, h) && SaneHost(h)
  {
  }

  lemma FrameKind(buf: seq<byte>, kind: int)
    requires IsFrame(buf, kind)
    ensures kind in {TCP, UDP} && |buf| >= 34 && IpLength(buf) >= 20 && Carries(buf, IP4)
  {
  }

  lemma CarriesKind(buf: seq<byte>, ip: int)
    requires Carries(buf, ip)
    ensures |buf| >= 34 && ip in {IP4, IP6} && ip != END
  {
  }

  lemma {:induction false} KeyKept(env: Scanner, h: Host, s: Scan, m: nat, n: nat)
    requires NativeEnv(env, h) && m <= n && NoPairFrom(env, s, m, n)
    ensures After(env, s, n).key == After(env, s, m).key
    decreases n
  {
    hide NativeEnv, Body, Dispatch;
    if n > m {
      KeyKept(env, h, s, m, n - 1);
      var t := After(env, s, n - 1);
      if t.id != END {
        NoPairKeepsKey(env, h, t);
        BodyKey(env, t);
      }
    }
  }

  lemma KeyOfScan(env: Scanner, h: Host, buf: seq<byte>, wireLen: int, kind: int, n: nat)
    requires PlainEnv(env, h, IP4) && IsFrame(buf, kind) && wireLen >= |buf|
    requires n >= 3 && NoPairFrom(env, Start(buf, wireLen, ETHERNET), 3, n)
    ensures After(env, Start(buf, wireLen, ETHERNET), n).key == FrameKey(buf, kind)
  {
    hide *;
    Plain(env, h, IP4);
    ThreeTurns(env, h, buf, wireLen, kind);
    KeyKept(env, h, Start(buf, wireLen, ETHERNET), 3, n);
  }

  // The reply lands in the same flow: whatever else is in the two frames, and
  // whatever their IPv4 options, the processed keys have equal hash, flags and
  // header map, and match and the documented comparison both find each other.
  lemma ReplyInSameFlow(env: Scanner, h: Host, buf: seq<byte>, reply: seq<byte>, wire1: int, wire2: int, kind: int,
                        m: nat, n: nat)
    requires PlainEnv(env, h, IP4) && IsReply(buf, reply, kind) && wire1 >= |buf| && wire2 >= |reply|
    requires m >= 3 && NoPairFrom(env, Start(buf, wire1, ETHERNET), 3, m)
    requires n >= 3 && NoPairFrom(env, Start(reply, wire2, ETHERNET), 3, n)
    ensures var k1 := After(env, Start(buf, wire1, ETHERNET), m).key;
      var k2 := After(env, Start(reply, wire2, ETHERNET), n).key;
      && Valid(k1) && Valid(k2)
      && var p1, p2 := Processed(k1), Processed(k2);
        && BasicsMatch(p1, p2)
        && Match(h.big, p1, p2) != 0 && Match(h.big, p2, p1) != 0
        && DocumentedMatch(p1, p2) != 0
  {
    KeyOfScan(env, h, buf, wire1, kind, m);
    KeyOfScan(env, h, reply, wire2, kind, n);
    SwappedFrameKeys(buf, reply, kind);
    hide After, NoPairFrom, PlainEnv, IsReply, Start, FrameKey, Match, DocumentedMatch, Processed, BasicsMatch, Used;
    SwappedKeysMatch(h.big, FrameKey(buf, kind), FrameKey(reply, kind));
  }

  lemma SwappedFrameKeys(buf: seq<byte>, reply: seq<byte>, kind: int)
    requires IsReply(buf, reply, kind)
    ensures var k1, k2 := FrameKey(buf, kind), FrameKey(reply, kind);
      && k1.reversable && k2.reversable && k1.headerMap == k2.headerMap && Used(k2) == SwapAll(Used(k1))
  {
    hide Source, Destination, SourcePort, DestinationPort;
  }

  // ------------------------------------------------------- packets without ports

  // Ethernet II and an IPv4 packet of any protocol, fragments included, whose fixed
  // header is there.
  predicate IsIp4(buf: seq<byte>) { Carries(buf, IP4) && Big16(buf, 16) >= 20 }

  // The key such a packet should get when no ports follow.
  function PairKey(buf: seq<byte>): FlowKey
    requires IsIp4(buf)
  {
    FlowKey({ETHERNET, IP4}, Zeros(32), false, 2,
            [(Source(buf), Destination(buf)), (buf[23], buf[23]), (0, 0)], [(0, 0), (0, 0), (0, 0)], [IP4, IP4, 0])
  }

  lemma PairKeyIs(h: Host, buf: seq<byte>)
    requires IsIp4(buf)
    ensures Ip4Key(h, buf) == PairKey(buf)
  {
    hide Source, Destination, EthernetAddresses, Net16;
    assert Ip4Key(h, buf).headerMap == {ETHERNET, IP4};
  }

  lemma ExtentOfIp4(s: Scan)
    requires IsIp4(s.buf) && s.offset == 14 && s.bufLen == |s.buf|
    ensures var v := Ip4Extent(s);
      v.key == s.key && v.buf == s.buf && v.offset == 14 && 34 <= v.bufLen && Room(s) >= 20
  {
    FrameReads(s);
    assert Ip4TotalLength(s) == Big16(s.buf, 16);
    hide Net16, Big16, Ip4IsFragment;
  }

  lemma KeyOfIp4(h: Host, s: Scan)
    requires IsIp4(s.buf) && InFront(s, s.buf, IP4, 14, EthernetKey(h, s.buf)) && s.bufLen == |s.buf|
    ensures ScanIp4(h, s).key == Ip4Key(h, s.buf)
  {
    ExtentOfIp4(s);
    var v := Ip4Extent(s);
    FrameReads(v);
    assert Net32(v, 26) == Source(v.buf) && Net32(v, 30) == Destination(v.buf) && At(v, 23) == v.buf[23];
    hide Ip4Extent, AddressKey, EthernetKey, Net16, Net32, Source, Destination, At, IsIp4, ValidateNext;
  }

  lemma TwoTurns(env: Scanner, h: Host, buf: seq<byte>, wireLen: int)
    requires PlainEnv(env, h, IP4) && IsIp4(buf) && wireLen >= |buf|
    ensures After(env, Start(buf, wireLen, ETHERNET), 2).key == PairKey(buf)
  {
    hide PlainEnv, Body, EthernetKey, Ip4Key, PairKey, Native, Dispatch;
    var s := Start(buf, wireLen, ETHERNET);
    var t1 := Body(env, s);
    var r := t1.(recorded := false);
    Plain(env, h, IP4);
    hide NativeEnv;
    EthernetTurn(env, h, s, IP4);
    assert After(env, s, 1) == t1;
    assert After(env, s, 2) == Body(env, t1);
    BodyKey(env, t1);
    NativeDispatch(env, h, r);
    assert Native(h, r) == ScanIp4(h, r) by { NativeIp4(h, r); }
    KeyOfIp4(h, r);
    PairKeyIs(h, buf);
  }

  lemma NativeIp4(h: Host, s: Scan)
    requires s.id == IP4
    ensures Native(h, s) == ScanIp4(h, s)
  {
    hide ScanIp4;
  }

  // And this is the key at the end of the scan.
  lemma PairKeyOfScan(env: Scanner, h: Host, buf: seq<byte>, wireLen: int, n: nat)
    requires PlainEnv(env, h, IP4) && IsIp4(buf) && wireLen >= |buf|
    requires n >= 2 && NoPairFrom(env, Start(buf, wireLen, ETHERNET), 2, n)
    ensures After(env, Start(buf, wireLen, ETHERNET), n).key == PairKey(buf)
  {
    hide *;
    Plain(env, h, IP4);
    TwoTurns(env, h, buf, wireLen);
    KeyKept(env, h, Start(buf, wireLen, ETHERNET), 2, n);
  }
}
