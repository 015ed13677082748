/**
 From bytes to records: how an Ethernet frame with an IPv4 packet is taken apart,
 trailer, fragment and truncated capture included.
 */
module FrameRecords {
  import opened Bytes
  import opened PacketState
  import opened RecordHeader
  import opened ScanLoop
  import opened ScanRuns
  import opened Protocols
  import opened NativeScanners
  import opened NativeRuns
  import opened Dissection
  import opened FlowReplies

  // Ethernet II and an IPv4 packet, of any protocol and perhaps a fragment, whose
  // header is captured and fits the total length.
  predicate IsPacket(buf: seq<byte>) {
    Carries(buf, IP4) && 20 <= IpLength(buf) <= Big16(buf, 16) && 14 + IpLength(buf) <= |buf|
  }

  // The more-fragments bit, or a fragment offset.
  predicate IsPart(buf: seq<byte>)
    requires |buf| >= 34
  {
    buf[20] / 32 % 2 == 1 || buf[20] % 32 != 0 || buf[21] != 0
  }

  // The bytes of the IPv4 packet that are there: its total length, or less if
  // the capture ends before.
  function IpSize(buf: seq<byte>): nat
    requires |buf| >= 34
  {
    Min(Big16(buf, 16), |buf| - 14)
  }

  predicate Describes(h: Header, id: int, offset: int, length: int, payload: int, postfix: int) {
    && h.id == id && h.offset == offset && h.length == length && h.payload == payload && h.postfix == postfix
    && h.prefix == 0 && h.gap == 0
  }

  // A header that asks for no postfix is recorded as it is, as far as it is there;
  // its payload is the rest of the buffer unless it said less.
  lemma RecordPlain(t: Scan)
    requires !t.recorded && t.length > 0 && t.payload >= 0 && t.postfix == 0 && t.prefix == 0 && t.gap == 0
    requires t.id != PAYLOAD && t.offset <= t.bufLen <= t.wireLen && t.hdrFlags == {}
    ensures var u := Record(t); var length := Min(t.length, t.bufLen - t.offset);
      var room := t.bufLen - t.offset - length;
      && |u.headers| == |t.headers| + 1 && u.headers[..|t.headers|] == t.headers
      && Describes(Last(u), t.id, t.offset, length, if t.payload == 0 then room else Min(t.payload, room), 0)
      && (Fragmented in Last(u).flags <==> Fragmented in t.flags)
  {
    RecordedFlags(t);
    hide AddHeader, RecordFlags;
  }

  lemma BodyRecords(env: Scanner, s: Scan)
    requires Dispatch(env, s.(recorded := false)).length > 0
    ensures var t := Dispatch(env, s.(recorded := false)); var u := Record(t.(nextId := Bind(env, t)));
      && Body(env, s).headers == u.headers && Body(env, s).bufLen == u.bufLen
      && Body(env, s).flags == u.flags && Body(env, s).hdrFlags == u.hdrFlags
  {
    hide Dispatch, Bind, Record;
  }

  lemma EthernetIds()
    ensures ETHERNET != PAYLOAD && ValidId(ETHERNET)
  {
  }

  lemma OpenedAfter(s: Scan, t: Scan, ip: int, key: FlowKey)
    requires InFront(s, s.buf, ETHERNET, 0, ZeroKey()) && s.bufLen == |s.buf| >= 34 && s.headers == []
    requires s.flags == {} && s.hdrFlags == {} && t == s.(recorded := false, length := 14, nextId := ip, key := key)
    ensures var u := Record(t);
      && u.bufLen == |s.buf| && u.headers != [] && |u.headers| == 1 && u.flags == {} && u.hdrFlags == {}
      && Describes(u.headers[0], ETHERNET, 0, 14, |s.buf| - 14, 0) && Fragmented !in u.headers[0].flags
  {
    RecordPlain(t);
    hide AddHeader, RecordFlags, Describes;
  }

  lemma EthernetOpened(env: Scanner, h: Host, s: Scan, ip: int)
    requires PlainEnv(env, h, ip) && Carries(s.buf, ip) && InFront(s, s.buf, ETHERNET, 0, ZeroKey())
    requires s.bufLen == |s.buf| && s.headers == [] && s.flags == {} && s.hdrFlags == {}
    ensures var t := Body(env, s);
      && t.bufLen == |s.buf| && |t.headers| == 1 && t.flags == {} && t.hdrFlags == {}
      && Describes(t.headers[0], ETHERNET, 0, 14, |s.buf| - 14, 0) && Fragmented !in t.headers[0].flags
  {
    hide *;
    var r := s.(recorded := false);
    var t := ScanEthernet(h, r);
    Plain(env, h, ip);
    CarriesKind(s.buf, ip);
    EthernetStart(h, s);
    EthernetOfFrame(h, r, ip);
    NativeDispatch(env, h, r);
    PlainBind(env, h, t, ip);
    EthernetIds();
    BodyRecords(env, s);
    assert t.(nextId := Bind(env, t)) == t;
    OpenedAfter(s, t, ip, EthernetKey(h, s.buf));
  }

  // ------------------------------------------------------------------------ IPv4

  // What is known in front of the IPv4 header.
  predicate BeforeIp4(s: Scan) {
    && IsPacket(s.buf) && s.id == IP4 && s.offset == 14 && s.bufLen == |s.buf| <= s.wireLen && s.memLen == |s.buf|
    && s.length == 0 && s.prefix == 0 && s.gap == 0 && s.payload == 0 && s.postfix == 0 && s.nextId == PAYLOAD
    && !s.recorded && s.hdrFlags == {} && s.flags == {}
    && |s.headers| == 1 && Describes(s.headers[0], ETHERNET, 0, 14, |s.buf| - 14, 0) && Fragmented !in s.headers[0].flags
  }

  // What scan_ip4 says about the packet, and does to the record before it.
  predicate Split(t: Scan, buf: seq<byte>)
    requires |buf| >= 34
  {
    var size := IpSize(buf);
    && |t.headers| == 1 && Describes(t.headers[0], ETHERNET, 0, 14, size, |buf| - 14 - size)
    && Fragmented !in t.headers[0].flags && (Fragmented in t.flags <==> IsPart(buf))
    && t.bufLen == 14 + size && t.length == IpLength(buf)
    && t.payload == (if IsPart(buf) then size else Big16(buf, 16)) - IpLength(buf)
  }

  lemma PacketReads(s: Scan)
    requires IsPacket(s.buf) && s.offset == 14 && s.bufLen == |s.buf|
    ensures Ip4TotalLength(s) == Big16(s.buf, 16) && Ip4HeaderLength(s) == IpLength(s.buf)
    ensures Ip4IsFragment(s) <==> IsPart(s.buf)
    ensures |s.buf| >= 34 && Room(s) >= 20 && 20 <= IpLength(s.buf) <= IpSize(s.buf)
  {
    FrameReads(s);
    FragmentBytes(s.buf[20], s.buf[21]);
    assert Net16(s, 20) == Big16(s.buf, 20) && Net16(s, 16) == Big16(s.buf, 16);
    hide Net16;
  }

  lemma ExtentSplits(s: Scan)
    requires BeforeIp4(s)
    ensures Split(Ip4Extent(s), s.buf)
    ensures var v := Ip4Extent(s);
      v == s.(length := v.length, payload := v.payload, headers := v.headers, bufLen := v.bufLen, flags := v.flags)
  {
    PacketReads(s);
    hide Net16, Big16, Ip4IsFragment, IpLength, Ip4TotalLength, Ip4HeaderLength, IsPart;
  }

  lemma Ip4Splits(h: Host, s: Scan)
    requires SaneHost(h) && BeforeIp4(s)
    ensures |s.buf| >= 34 && Split(ScanIp4(h, s), s.buf)
    ensures var t := ScanIp4(h, s);
      t == s.(length := t.length, payload := t.payload, headers := t.headers, bufLen := t.bufLen, flags := t.flags,
              key := t.key, nextId := t.nextId)
  {
    PacketReads(s);
    ExtentSplits(s);
    Ip4BindFrame(h, Ip4Extent(s));
    hide Ip4Bind, Ip4Extent, Describes, IpSize, IpLength, IsPart, IsPacket, SaneHost;
  }

  // Both records, with their marks.
  predicate TwoRecords(hs: seq<Header>, buf: seq<byte>)
    requires |buf| >= 34
  {
    var size, length := IpSize(buf), IpLength(buf);
    && |hs| == 2
    && Describes(hs[0], ETHERNET, 0, 14, size, |buf| - 14 - size) && Fragmented !in hs[0].flags
    && Describes(hs[1], IP4, 14, length, size - length, 0) && (Fragmented in hs[1].flags <==> IsPart(buf))
  }

  lemma SplitRecorded(t: Scan, buf: seq<byte>)
    requires IsPacket(buf) && Split(t, buf) && t.id == IP4 && t.offset == 14 && !t.recorded && t.hdrFlags == {}
    requires t.postfix == 0 && t.prefix == 0 && t.gap == 0 && t.bufLen <= t.wireLen
    ensures var u := Record(t); TwoRecords(u.headers, buf) && u.bufLen == 14 + IpSize(buf) && u.hdrFlags == {}
  {
    var size, length := IpSize(buf), IpLength(buf);
    assert 20 <= length <= size;
    RecordPlain(t);
    RecordEnd0(t);
    hide Record, IpLength, Big16, IsPart, IpSize;
    var hs := Record(t).headers;
    assert hs[0] == hs[..1][0] == t.headers[0];
  }

  lemma RecordEnd0(t: Scan)
    requires !t.recorded && t.postfix == 0 && t.bufLen <= t.wireLen
    ensures Record(t).bufLen == t.bufLen && Record(t).hdrFlags == {}
  {
    hide AddHeader, RecordFlags;
  }

  lemma Ip4Recorded(env: Scanner, h: Host, s: Scan)
    requires NativeEnv(env, h) && BeforeIp4(s.(recorded := false))
    ensures var t := Body(env, s);
      |s.buf| >= 34 && TwoRecords(t.headers, s.buf) && t.bufLen == 14 + IpSize(s.buf) && t.hdrFlags == {}
  {
    var r := s.(recorded := false);
    var t := ScanIp4(h, r);
    hide NativeEnv, SaneHost, Native, Dispatch, Body, Record, ScanIp4, Split, TwoRecords, IsPacket, IpSize, Bind, Describes;
    FoundNative(env, h, s);
    NativeIp4(h, r);
    Ip4Splits(h, r);
    PacketReads(r);
    SplitLength(t, s.buf);
    BodyRecords(env, s);
    SplitNext(t, s.buf, Bind(env, t));
    SplitRecorded(t.(nextId := Bind(env, t)), s.buf);
  }

  lemma SplitLength(t: Scan, buf: seq<byte>)
    requires |buf| >= 34 && Split(t, buf)
    ensures t.length == IpLength(buf) && t.bufLen <= |buf|
  {
    hide Describes, IsPart, IpLength;
  }

  lemma SplitNext(t: Scan, buf: seq<byte>, next: int)
    requires |buf| >= 34 && Split(t, buf)
    ensures Split(t.(nextId := next), buf)
  {
    hide Describes, IsPart, IpLength, IpSize;
  }

  // After two turns the frame is an Ethernet and an IPv4 record: the Ethernet
  // payload is what is there of the packet, everything behind it is postfix, the
  // IPv4 payload is the packet without its header, and it is marked as a fragment
  // exactly when it is one.
  lemma FrameIsRecorded(env: Scanner, h: Host, buf: seq<byte>, wireLen: int)
    requires PlainEnv(env, h, IP4) && IsPacket(buf) && wireLen >= |buf|
    ensures var t := After(env, Start(buf, wireLen, ETHERNET), 2);
      |buf| >= 34 && TwoRecords(t.headers, buf) && t.bufLen == 14 + IpSize(buf) && t.hdrFlags == {}
  {
    var s := Start(buf, wireLen, ETHERNET);
    var t := Body(env, s);
    hide PlainEnv, NativeEnv, Body, EthernetKey, IpSize, TwoRecords, Describes;
    Plain(env, h, IP4);
    EthernetTurn(env, h, s, IP4);
    EthernetOpened(env, h, s, IP4);
    Ip4Recorded(env, h, t);
    assert After(env, s, 1) == t;
    assert After(env, s, 2) == Body(env, t);
  }

  // -------------------------------------------------------------------- transport

  // The length that the transport header at this place tells.
  function TransportLength(buf: seq<byte>, at: nat, kind: int): nat
    requires at + TransportSize(kind) <= |buf|
  {
    if kind == TCP then buf[at + 12] / 16 * 4 else 8
  }

  lemma FoundTransport(h: Host, s: Scan, kind: int)
    requires SaneHost(h) && Fresh(s) && s.id == kind && kind in {TCP, UDP} && Room(s) >= TransportSize(kind)
    ensures var t := Native(h, s);
      && t == s.(length := t.length, nextId := t.nextId, key := t.key, sport := t.sport, dport := t.dport)
      && t.length == TransportLength(s.buf, s.offset, kind)
  {
    hide ByPorts, PortKey, SaneHost, Net16, At, Confirmed, ByPort;
    if kind == TCP {
      assert Native(h, s) == ScanTcp(h, s);
      TcpFound(h, s);
    } else {
      assert Native(h, s) == ScanUdp(h, s);
      UdpFound(h, s);
    }
  }

  // A transport header gets the length that its own data offset tells, as far as
  // it is there, and the rest of the packet as payload.
  lemma TransportTaken(env: Scanner, h: Host, s: Scan, kind: int, key: FlowKey)
    requires 0 <= s.offset && s.offset + TransportSize(kind) <= s.bufLen
    requires NativeEnv(env, h) && kind in {TCP, UDP} && InFront(s, s.buf, kind, s.offset, key) && s.hdrFlags == {}
    requires TransportLength(s.buf, s.offset, kind) > 0
    ensures var hs := Body(env, s).headers;
      var room := s.bufLen - s.offset; var length := Min(TransportLength(s.buf, s.offset, kind), room);
      && |hs| == |s.headers| + 1 && hs[..|s.headers|] == s.headers
      && Describes(hs[|s.headers|], kind, s.offset, length, room - length, 0)
  {
    var r := s.(recorded := false);
    var t := Native(h, r);
    hide NativeEnv, Native, Dispatch, Bind, Record, Body, Describes, TransportLength;
    FoundNative(env, h, s);
    FoundTransport(h, r, kind);
    BodyRecords(env, s);
    RecordPlain(t.(nextId := Bind(env, t)));
  }

  // Ethernet, IPv4 and transport.
  predicate ThreeRecords(hs: seq<Header>, buf: seq<byte>, kind: int)
    requires IsFrame(buf, kind)
  {
    var size, at := IpSize(buf), 14 + IpLength(buf);
    var room := 14 + size - at; var length := Min(TransportLength(buf, at, kind), room);
    && |hs| == 3 && TwoRecords(hs[..2], buf) && Describes(hs[2], kind, at, length, room - length, 0)
  }

  lemma FrameIsPacket(buf: seq<byte>, kind: int)
    requires IsFrame(buf, kind)
    ensures IsPacket(buf) && !IsPart(buf) && kind in {TCP, UDP}
    ensures 14 + IpLength(buf) + TransportSize(kind) <= 14 + IpSize(buf) <= |buf|
  {
    FragmentBytes(buf[20], buf[21]);
  }

  lemma ThirdRecord(hs: seq<Header>, ks: seq<Header>, buf: seq<byte>, kind: int)
    requires IsFrame(buf, kind) && TwoRecords(hs, buf) && |ks| == |hs| + 1 && ks[..|hs|] == hs
    requires var room := IpSize(buf) - IpLength(buf);
      var length := Min(TransportLength(buf, 14 + IpLength(buf), kind), room);
      Describes(ks[|hs|], kind, 14 + IpLength(buf), length, room - length, 0)
    ensures ThreeRecords(ks, buf, kind)
  {
    assert |hs| == 2;
    hide IsFrame, TwoRecords, Describes, TransportLength, IpSize, IpLength;
  }

  // After three turns a TCP or UDP frame has its third record: the transport header,
  // with its options, and the data of the packet as payload.
  lemma TransportIsRecorded(env: Scanner, h: Host, buf: seq<byte>, wireLen: int, kind: int)
    requires PlainEnv(env, h, IP4) && IsFrame(buf, kind) && wireLen >= |buf|
    requires TransportLength(buf, 14 + IpLength(buf), kind) > 0
    ensures ThreeRecords(After(env, Start(buf, wireLen, ETHERNET), 3).headers, buf, kind)
  {
    var s := Start(buf, wireLen, ETHERNET);
    var t := Body(env, s);
    var u := Body(env, t);
    hide PlainEnv, NativeEnv, Body, EthernetKey, Ip4Key, IpSize, TwoRecords, Describes, IsFrame, IpLength, TransportLength;
    hide IsPacket, IsPart, ThreeRecords;
    Plain(env, h, IP4);
    FrameKind(buf, kind);
    FrameIsPacket(buf, kind);
    FrameIsRecorded(env, h, buf, wireLen);
    EthernetTurn(env, h, s, IP4);
    Ip4Turn(env, h, t, kind);
    assert After(env, s, 1) == t;
    assert After(env, s, 2) == u;
    assert After(env, s, 3) == Body(env, u);
    hide After;
    TransportTaken(env, h, u, kind, Ip4Key(h, buf));
    ThirdRecord(u.headers, Body(env, u).headers, buf, kind);
  }

  // ------------------------------------------------------------------- over runs

  // Whatever legal turns follow, these stay the first records: Ethernet as it is,
  // IPv4 with its place, header and mark, and an extent inside the packet.
  predicate TwoRecordsFirst(hs: seq<Header>, buf: seq<byte>)
    requires |buf| >= 34
  {
    var size, length := IpSize(buf), IpLength(buf);
    && |hs| >= 2
    && Describes(hs[0], ETHERNET, 0, 14, size, |buf| - 14 - size) && Fragmented !in hs[0].flags
    && Describes(hs[1], IP4, 14, length, hs[1].payload, hs[1].postfix) && (Fragmented in hs[1].flags <==> IsPart(buf))
    && 0 <= hs[1].payload <= size - length && hs[1].postfix >= 0 && length + hs[1].payload + hs[1].postfix <= size
  }

  lemma TwoRecordsStay(hs: seq<Header>, t: Scan, buf: seq<byte>)
    requires |buf| >= 34 && TwoRecords(hs, buf) && Extends(hs, t.headers) && AllInside(t.headers, t.memLen)
    ensures TwoRecordsFirst(t.headers, buf)
  {
    assert Inside(t.headers[1], t.memLen);
    hide IsPart, IpSize, IpLength;
  }

  lemma FrameStaysRecorded(env: Scanner, h: Host, buf: seq<byte>, wireLen: int, n: nat)
    requires PlainEnv(env, h, IP4) && IsPacket(buf) && wireLen >= |buf|
    requires n >= 2 && LegalRun(env, Start(buf, wireLen, ETHERNET), n)
    ensures |buf| >= 34 && TwoRecordsFirst(After(env, Start(buf, wireLen, ETHERNET), n).headers, buf)
  {
    hide *;
    var s := Start(buf, wireLen, ETHERNET);
    EthernetIds();
    StartInv(buf, wireLen, ETHERNET);
    FrameIsRecorded(env, h, buf, wireLen);
    RecordsRemain(env, s, 2, n);
    RunInv(env, s, n);
    InvGives(After(env, s, n));
    TwoRecordsStay(After(env, s, 2).headers, After(env, s, n), buf);
  }

  // Of a fragment the IPv4 record and every one behind it are marked, however the
  // scan goes on.
  lemma FragmentIsMarked(env: Scanner, h: Host, buf: seq<byte>, wireLen: int, n: nat)
    requires PlainEnv(env, h, IP4) && IsPacket(buf) && IsPart(buf) && wireLen >= |buf|
    requires n >= 2 && LegalRun(env, Start(buf, wireLen, ETHERNET), n)
    ensures forall i :: 0 < i < |After(env, Start(buf, wireLen, ETHERNET), n).headers| ==>
      Fragmented in After(env, Start(buf, wireLen, ETHERNET), n).headers[i].flags
  {
    hide PlainEnv, IsPacket, IsPart, LegalRun, After, Describes, IpSize, IpLength;
    var s := Start(buf, wireLen, ETHERNET);
    FrameStaysRecorded(env, h, buf, wireLen, n);
    StartInv(buf, wireLen, ETHERNET);
    FlagsOverRuns(env, s, n);
  }

  // The transport record stays, too, with a payload that does not grow.
  lemma TransportStaysRecorded(env: Scanner, h: Host, buf: seq<byte>, wireLen: int, kind: int, n: nat)
    requires PlainEnv(env, h, IP4) && IsFrame(buf, kind) && wireLen >= |buf|
    requires TransportLength(buf, 14 + IpLength(buf), kind) > 0
    requires n >= 3 && LegalRun(env, Start(buf, wireLen, ETHERNET), n)
    ensures var hs := After(env, Start(buf, wireLen, ETHERNET), n).headers;
      var room := IpSize(buf) - IpLength(buf); var length := Min(TransportLength(buf, 14 + IpLength(buf), kind), room);
      && |hs| >= 3 && TwoRecords(hs[..2], buf)
      && Describes(hs[2], kind, 14 + IpLength(buf), length, hs[2].payload, hs[2].postfix)
      && hs[2].payload <= room - length && length + hs[2].payload + hs[2].postfix <= room
  {
    hide PlainEnv, IsFrame, LegalRun, After, IpSize, IpLength, TransportLength, Start, TwoRecords;
    var s := Start(buf, wireLen, ETHERNET);
    EthernetIds();
    StartInv(buf, wireLen, ETHERNET);
    TransportIsRecorded(env, h, buf, wireLen, kind);
    RecordsRemain(env, s, 3, n);
    var hs, ks := After(env, s, 3).headers, After(env, s, n).headers;
    assert hs[..2] == ks[..2];
  }
}
