/**
 Concrete frames: where match fails the documented comparison, and a scan whose
 key the flow theorems describe.
 */
module FlowExamples {
  import opened Bytes
  import opened Words
  import opened PacketState
  import opened RecordHeader
  import opened ScanLoop
  import opened Protocols
  import opened NativeRuns
  import opened FlowKeys
  import opened FlowReplies
  import opened FlowMatches
  import opened ScanKeys

  // A TCP segment without options or data, from 10.0.0.a to 10.0.0.b.
  function Segment(a: byte, b: byte, sport: byte, dport: byte): (buf: seq<byte>)
    ensures |buf| == 54
  {
    seq(54, i =>
      if i == 12 then 8                     // IPv4
      else if i == 14 then 0x45             // a header of 20 bytes
      else if i == 17 then 40               // total length
      else if i == 23 then 6                // TCP
      else if i == 26 || i == 30 then 10
      else if i == 29 then a
      else if i == 33 then b
      else if i == 35 then sport
      else if i == 37 then dport
      else if i == 46 then 0x50             // a header of 20 bytes
      else 0)
  }

  lemma SegmentIsFrame(a: byte, b: byte, sport: byte, dport: byte)
    ensures var buf := Segment(a, b, sport, dport);
      && IsFrame(buf, TCP) && IpLength(buf) == 20
      && Used(FrameKey(buf, TCP)) == [(0xa00_0000 + a, 0xa00_0000 + b), (6, 6), (sport, dport)]
  {
  }

  // Between the same hosts, ports (2x, 2y) and (2x + 1, 2y + 1) have the same
  // exclusive or. For x different from y these are two flows, which match takes
  // for one whatever the byte order of the host.
  lemma PortsCollide(big: bool, x: byte, y: byte)
    requires x < 128 && y < 128 && x != y
    ensures var a, b := Segment(1, 2, 2 * x, 2 * y), Segment(1, 2, 2 * x + 1, 2 * y + 1);
      && IsFrame(a, TCP) && IsFrame(b, TCP)
      && Match(big, Processed(FrameKey(a, TCP)), Processed(FrameKey(b, TCP))) == 1
      && DocumentedMatch(Processed(FrameKey(a, TCP)), Processed(FrameKey(b, TCP))) == 0
  {
    hide *;
    SegmentIsFrame(1, 2, 2 * x, 2 * y);
    SegmentIsFrame(1, 2, 2 * x + 1, 2 * y + 1);
    SameXor(x, y);
    PortsConfused(big, Segment(1, 2, 2 * x, 2 * y), Segment(1, 2, 2 * x + 1, 2 * y + 1), TCP);
  }

  lemma SameXor(x: nat, y: nat)
    requires x != y
    ensures XorWord(2 * x, 2 * y) == XorWord(2 * x + 1, 2 * y + 1)
  {
    assert 2 * x / 2 == (2 * x + 1) / 2 == x && 2 * y / 2 == (2 * y + 1) / 2 == y;
    assert 2 * x % 2 == 2 * y % 2 == 0 && (2 * x + 1) % 2 == (2 * y + 1) % 2 == 1;
  }

  // ---------------------------------------------------------------- a whole scan

  function PlainHost(big: bool): Host { Host(big, map[]) }

  // The native table alone.
  function NativeOnly(h: Host): Scanner {
    Scanner(map id | id in NATIVE :: (s: Scan) => Native(h, s), {}, {}, {}, map[])
  }

  lemma NativeOnlyIsPlain(big: bool)
    ensures PlainEnv(NativeOnly(PlainHost(big)), PlainHost(big), IP4)
  {
    var h := PlainHost(big);
    forall s: Scan | s.id in NATIVE ensures Dispatch(NativeOnly(h), s) == Native(h, s) {
      hide Native;
    }
    hide Native, Dispatch;
  }

  lemma TcpOfSegment(h: Host, s: Scan, a: byte, b: byte, sport: byte, dport: byte)
    requires s.buf == Segment(a, b, sport, dport) && s.offset == 34 && s.bufLen == 54 && s.id == TCP
    ensures var t := Native(h, s);
      t == s.(length := 20, key := t.key, sport := t.sport, dport := t.dport, nextId := t.nextId)
  {
    assert At(s, 46) == 0x50;
    hide Segment, PortKey, ByPorts, Net16;
    assert Native(h, s) == ScanTcp(h, s);
  }

  // The IPv4 header of a packet of this protocol, with nothing behind it.
  function Probe(a: byte, b: byte, protocol: byte): (buf: seq<byte>)
    ensures |buf| == 34
  {
    seq(34, i =>
      if i == 12 then 8                     // IPv4
      else if i == 14 then 0x45             // a header of 20 bytes
      else if i == 17 then 20               // total length
      else if i == 23 then protocol
      else if i == 26 || i == 30 then 10
      else if i == 29 then a
      else if i == 33 then b
      else 0)
  }

  lemma ProbeIsIp4(a: byte, b: byte, protocol: byte)
    ensures var buf := Probe(a, b, protocol);
      && IsIp4(buf) && buf[23] == protocol
      && Source(buf) == 0xa00_0000 + a && Destination(buf) == 0xa00_0000 + b
  {
  }

  lemma Ip4OfProbe(h: Host, s: Scan, a: byte, b: byte, protocol: byte)
    requires s.buf == Probe(a, b, protocol) && s.offset == 14 && s.bufLen == 34 && s.id == IP4
    ensures var t := Native(h, s);
      t == s.(length := 20, payload := 0, key := t.key, nextId := t.nextId)
  {
    assert At(s, 14) == 0x45 && Net16(s, 16) == 20 && Net16(s, 20) == 0;
    hide Probe, Net16, Net32, At, AddressKey, ValidateNext;
    assert !Ip4IsFragment(s) && !Ip4Trims(s);
    assert Ip4Extent(s) == s.(length := 20, payload := 0);
    NativeIp4(h, s);
  }

  // A record that ends with the buffer is the last one.
  lemma LastTurn(env: Scanner, s: Scan, t: Scan)
    requires Dispatch(env, s.(recorded := false)) == t && t.length > 0 && !t.recorded
    requires t.offset >= 0 && t.offset + t.length == t.bufLen <= t.wireLen
    requires t.prefix == 0 && t.gap == 0 && t.payload == 0 && t.postfix == 0
    ensures Body(env, s).id == END
  {
    hide Dispatch, Bind, AddHeader;
  }

  // The scan ends behind the third header.
  lemma SegmentEnds(big: bool, a: byte, b: byte, sport: byte, dport: byte, wireLen: int)
    requires wireLen >= 54
    ensures var env := NativeOnly(PlainHost(big));
      After(env, Start(Segment(a, b, sport, dport), wireLen, ETHERNET), 3).id == END
  {
    hide *;
    var h := PlainHost(big);
    var env, buf := NativeOnly(h), Segment(a, b, sport, dport);
    var s := Start(buf, wireLen, ETHERNET);
    NativeOnlyIsPlain(big);
    Plain(env, h, IP4);
    SegmentIsFrame(a, b, sport, dport);
    StartsInFront(buf, wireLen);
    FrameKind(buf, TCP);
    EthernetTurn(env, h, s, IP4);
    var t1 := Body(env, s);
    InFrontIs(t1, buf, IP4, 14, EthernetKey(h, buf));
    Ip4Turn(env, h, t1, TCP);
    var t2 := Body(env, t1);
    InFrontIs(t2, buf, TCP, 34, Ip4Key(h, buf));
    TcpSize();
    var r := t2.(recorded := false);
    TcpOfSegment(h, r, a, b, sport, dport);
    IsNative();
    NativeDispatch(env, h, r);
    LastTurn(env, t2, Native(h, r));
    ThreeBodies(env, s);
  }

  lemma StartsInFront(buf: seq<byte>, wireLen: int)
    requires wireLen >= |buf|
    ensures var s := Start(buf, wireLen, ETHERNET);
      InFront(s, buf, ETHERNET, 0, ZeroKey()) && s.bufLen == |s.buf| && s.buf == buf && s.id == ETHERNET
  {
  }

  lemma InFrontIs(t: Scan, buf: seq<byte>, id: int, offset: nat, key: FlowKey)
    requires InFront(t, buf, id, offset, key)
    ensures t.buf == buf && t.id == id && t.offset == offset && t.key == key && t.bufLen <= t.wireLen && t.bufLen <= |buf|
    ensures t.prefix == 0 && t.gap == 0 && t.payload == 0 && t.postfix == 0
  {
  }

  lemma TcpSize()
    ensures TransportSize(TCP) == 20
  {
  }

  lemma IsNative()
    ensures TCP in NATIVE && IP4 in NATIVE && TCP == 4 && IP4 == 2 && ETHERNET == 1 && END == -1
  {
  }

  lemma ThreeBodies(env: Scanner, s: Scan)
    requires s.id != END && Body(env, s).id != END && Body(env, Body(env, s)).id != END
    ensures After(env, s, 3) == Body(env, Body(env, Body(env, s)))
  {
    hide Body;
    assert After(env, s, 1) == Body(env, s);
    assert After(env, s, 2) == Body(env, Body(env, s));
  }

  lemma {:induction false} StaysEnded(env: Scanner, s: Scan, m: nat, n: nat)
    requires After(env, s, m).id == END && n >= m
    ensures After(env, s, n).id == END
    decreases n
  {
    if n > m {
      StaysEnded(env, s, m, n - 1);
    }
  }

  // The hypotheses of ReplyInSameFlow are met, for any number of turns, by a
  // segment and the segment that answers it.
  lemma SegmentsFlow(big: bool, a: byte, b: byte, sport: byte, dport: byte, n: nat)
    ensures var h := PlainHost(big);
      var env, buf, reply := NativeOnly(h), Segment(a, b, sport, dport), Segment(b, a, dport, sport);
      && PlainEnv(env, h, IP4) && IsReply(buf, reply, TCP)
      && NoPairFrom(env, Start(buf, 54, ETHERNET), 3, n) && NoPairFrom(env, Start(reply, 54, ETHERNET), 3, n)
  {
    SegmentIsFrame(a, b, sport, dport);
    SegmentIsFrame(b, a, dport, sport);
    NativeOnlyIsPlain(big);
    SegmentAlone(big, a, b, sport, dport, n);
    SegmentAlone(big, b, a, dport, sport, n);
    hide Segment, IsFrame, PlainEnv, NoPairFrom, Source, Destination, SourcePort, DestinationPort, FrameKey, Used;
    FramePairs(Segment(a, b, sport, dport), TCP);
    FramePairs(Segment(b, a, dport, sport), TCP);
  }

  lemma SegmentAlone(big: bool, a: byte, b: byte, sport: byte, dport: byte, n: nat)
    ensures NoPairFrom(NativeOnly(PlainHost(big)), Start(Segment(a, b, sport, dport), 54, ETHERNET), 3, n)
  {
    hide Segment, NativeOnly, Start, After, NativeEnv;
    var env, s := NativeOnly(PlainHost(big)), Start(Segment(a, b, sport, dport), 54, ETHERNET);
    SegmentEnds(big, a, b, sport, dport, 54);
    forall k | 3 <= k < n ensures NoPair(env, After(env, s, k)) {
      StaysEnded(env, s, 3, k);
    }
  }

  // The scan of such a packet ends behind its second header.
  lemma ProbeEnds(big: bool, a: byte, b: byte, protocol: byte)
    ensures var env := NativeOnly(PlainHost(big));
      After(env, Start(Probe(a, b, protocol), 34, ETHERNET), 2).id == END
  {
    hide *;
    var h := PlainHost(big);
    var env, buf := NativeOnly(h), Probe(a, b, protocol);
    var s := Start(buf, 34, ETHERNET);
    NativeOnlyIsPlain(big);
    Plain(env, h, IP4);
    ProbeIsIp4(a, b, protocol);
    Ip4Carried(buf);
    StartsInFront(buf, 34);
    EthernetTurn(env, h, s, IP4);
    var t1 := Body(env, s);
    InFrontIs(t1, buf, IP4, 14, EthernetKey(h, buf));
    var r := t1.(recorded := false);
    Ip4OfProbe(h, r, a, b, protocol);
    IsNative();
    NativeDispatch(env, h, r);
    ForgottenRecord(t1);
    LastTurn(env, t1, Native(h, r));
    TwoBodies(env, s);
  }

  lemma Ip4Carried(buf: seq<byte>)
    requires IsIp4(buf)
    ensures Carries(buf, IP4)
  {
  }

  lemma ForgottenRecord(t: Scan)
    ensures !t.(recorded := false).recorded
  {
  }

  lemma TwoBodies(env: Scanner, s: Scan)
    requires s.id != END && Body(env, s).id != END
    ensures After(env, s, 2) == Body(env, Body(env, s))
  {
    hide Body;
    assert After(env, s, 1) == Body(env, s);
  }

  lemma ProbeKey(big: bool, a: byte, b: byte, protocol: byte, n: nat)
    requires n >= 2
    ensures IsIp4(Probe(a, b, protocol))
    ensures After(NativeOnly(PlainHost(big)), Start(Probe(a, b, protocol), 34, ETHERNET), n).key == PairKey(Probe(a, b, protocol))
  {
    hide Probe, NativeOnly, Start, After, NativeEnv, IsIp4, PairKey;
    var h := PlainHost(big);
    var env, buf := NativeOnly(h), Probe(a, b, protocol);
    var s := Start(buf, 34, ETHERNET);
    NativeOnlyIsPlain(big);
    ProbeIsIp4(a, b, protocol);
    ProbeEnds(big, a, b, protocol);
    forall k | 2 <= k < n ensures NoPair(env, After(env, s, k)) {
      StaysEnded(env, s, 2, k);
    }
    PairKeyOfScan(env, h, buf, 34, n);
  }

  // Two packets of different protocols between the same hosts, ICMP and IGMP for
  // example: the keys of their scans are two flows, which match takes for one.
  lemma ProtocolsCollide(big: bool, p: byte, q: byte, n: nat)
    requires p != q && n >= 2
    ensures var env := NativeOnly(PlainHost(big));
      var j := After(env, Start(Probe(1, 2, p), 34, ETHERNET), n).key;
      var k := After(env, Start(Probe(1, 2, q), 34, ETHERNET), n).key;
      && Valid(j) && Valid(k)
      && Match(big, Processed(j), Processed(k)) == 1 && DocumentedMatch(Processed(j), Processed(k)) == 0
  {
    ProbeKey(big, 1, 2, p, n);
    ProbeKey(big, 1, 2, q, n);
    ProbeIsIp4(1, 2, p);
    ProbeIsIp4(1, 2, q);
    hide Probe, NativeOnly, Start, After, IsIp4, PairKey, Match, DocumentedMatch, Processed, Source, Destination, Shape;
    var a, b := Probe(1, 2, p), Probe(1, 2, q);
    PairMatch(big, a, b);
    PairShape(a);
    PairShape(b);
    DocumentedFinds(PairKey(a), PairKey(b));
  }
}
