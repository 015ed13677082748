/**
 From bytes to records with IPv6: the extension headers belong to the record of the
 IPv6 header, and the transport header follows them.
 */
module FrameRecords6 {
  import opened Bytes
  import opened PacketState
  import opened RecordHeader
  import opened ScanLoop
  import opened Protocols
  import opened NativeRuns
  import opened FlowReplies
  import opened FlowReplies6
  import opened FrameRecords

  // The payload that the IPv6 record gets: what the payload length leaves behind the
  // extension headers, as far as it is there, and all that is there if that is zero.
  function Payload6(buf: seq<byte>): int
    requires |buf| >= 54
  {
    var told, room := Big16(buf, 18) - Chain6(buf).size, |buf| - At6(buf);
    if told == 0 then room else Min(told, room)
  }

  // Ethernet and IPv6, with their marks.
  predicate TwoRecords6(hs: seq<Header>, buf: seq<byte>)
    requires |buf| >= 54
  {
    && |hs| == 2
    && Describes(hs[0], ETHERNET, 0, 14, |buf| - 14, 0) && Fragmented !in hs[0].flags
    && Describes(hs[1], IP6, 14, 40 + Chain6(buf).size, Payload6(buf), 0)
    && (Fragmented in hs[1].flags <==> Chain6(buf).fragment)
  }

  lemma Ip6Records(h: Host, s: Scan, t: Scan, kind: int)
    requires IsFrame6(s.buf, kind) && Ip6Finds(h, s, t, kind) && Big16(s.buf, 18) >= Chain6(s.buf).size
    requires InFront(s, s.buf, IP6, 14, EthernetKey(h, s.buf)) && s.bufLen == |s.buf| && !s.recorded && s.flags == {}
    requires |s.headers| == 1 && Describes(s.headers[0], ETHERNET, 0, 14, |s.buf| - 14, 0)
    requires Fragmented !in s.headers[0].flags && s.hdrFlags == {}
    ensures var u := Record(t); TwoRecords6(u.headers, s.buf) && u.hdrFlags == {}
  {
    hide *;
    Frame6Kind(s.buf, kind);
    Ip6Reports(h, s, t, kind);
    RecordPlain(t);
    RecordEnd0(t);
    SecondIsLast(Record(t));
    TwoAre(t.headers, Record(t).headers, s.buf);
  }

  // What is handed to record_header.
  lemma Ip6Reports(h: Host, s: Scan, t: Scan, kind: int)
    requires |s.buf| >= 54 && At6(s.buf) <= |s.buf| && Ip6Finds(h, s, t, kind)
    requires InFront(s, s.buf, IP6, 14, EthernetKey(h, s.buf)) && s.bufLen == |s.buf| && !s.recorded && s.flags == {}
    requires s.hdrFlags == {} && Big16(s.buf, 18) >= Chain6(s.buf).size
    ensures !t.recorded && t.length == At6(s.buf) - 14 == 40 + Chain6(s.buf).size && t.length > 0
    ensures t.payload == Big16(s.buf, 18) - Chain6(s.buf).size >= 0
    ensures t.postfix == 0 && t.prefix == 0 && t.gap == 0 && t.id == IP6 != PAYLOAD && t.offset == 14 && t.hdrFlags == {}
    ensures t.bufLen == |s.buf| <= t.wireLen && t.headers == s.headers
    ensures Min(t.length, t.bufLen - t.offset) == t.length
    ensures Payload6(s.buf) == (if t.payload == 0 then t.bufLen - t.offset - t.length
                                else Min(t.payload, t.bufLen - t.offset - t.length))
    ensures Fragmented in t.flags <==> Chain6(s.buf).fragment
  {
    hide Chain6, Big16, EthernetKey, Ip6FrameKey;
  }

  lemma SecondIsLast(u: Scan)
    requires |u.headers| == 2
    ensures Last(u) == u.headers[1]
  {
  }

  lemma TwoAre(hs: seq<Header>, ks: seq<Header>, buf: seq<byte>)
    requires |buf| >= 54 && |hs| == 1 && |ks| == 2 && ks[..1] == hs
    requires Describes(hs[0], ETHERNET, 0, 14, |buf| - 14, 0) && Fragmented !in hs[0].flags
    requires Describes(ks[1], IP6, 14, 40 + Chain6(buf).size, Payload6(buf), 0)
    requires Fragmented in ks[1].flags <==> Chain6(buf).fragment
    ensures TwoRecords6(ks, buf)
  {
    assert ks[0] == ks[..1][0];
    hide Describes, Chain6, Payload6;
  }

  lemma Ip6Recorded(env: Scanner, h: Host, s: Scan, kind: int)
    requires PlainEnv(env, h, IP6) && IsFrame6(s.buf, kind) && Big16(s.buf, 18) >= Chain6(s.buf).size
    requires InFront(s, s.buf, IP6, 14, EthernetKey(h, s.buf)) && s.bufLen == |s.buf| && s.flags == {}
    requires |s.headers| == 1 && Describes(s.headers[0], ETHERNET, 0, 14, |s.buf| - 14, 0)
    requires Fragmented !in s.headers[0].flags && s.hdrFlags == {}
    ensures var u := Body(env, s); TwoRecords6(u.headers, s.buf) && u.hdrFlags == {}
  {
    hide *;
    var r := s.(recorded := false);
    var t := ScanIp6(h, r);
    Plain(env, h, IP6);
    Frame6Kind(s.buf, kind);
    InFront6(h, s);
    Ip6OfFrame(h, r, kind);
    Ip6FindsIs(h, r, t, kind);
    NativeIp6(h, r);
    NativeDispatch(env, h, r);
    PlainBind(env, h, t, IP6);
    assert t.(nextId := Bind(env, t)) == t;
    BodyRecords(env, s);
    Ip6Records(h, r, t, kind);
  }

  // After three turns: Ethernet, IPv6 with all its extension headers, marked as a
  // fragment exactly when one of them is a fragment header, and the transport header
  // behind them.
  lemma FrameIsRecorded6(env: Scanner, h: Host, buf: seq<byte>, wireLen: int, kind: int)
    requires PlainEnv(env, h, IP6) && IsFrame6(buf, kind) && wireLen >= |buf|
    requires Big16(buf, 18) >= Chain6(buf).size && TransportLength(buf, At6(buf), kind) > 0
    ensures var hs := After(env, Start(buf, wireLen, ETHERNET), 3).headers;
      var room := |buf| - At6(buf); var length := Min(TransportLength(buf, At6(buf), kind), room);
      |hs| == 3 && TwoRecords6(hs[..2], buf) && Describes(hs[2], kind, At6(buf), length, room - length, 0)
  {
    var s := Start(buf, wireLen, ETHERNET);
    var t := Body(env, s);
    var u := Body(env, t);
    hide PlainEnv, NativeEnv, Body, EthernetKey, Ip6FrameKey, Describes, IsFrame6, At6, TransportLength, Chain6, Carries;
    Plain(env, h, IP6);
    Frame6Kind(buf, kind);
    EthernetTurn(env, h, s, IP6);
    EthernetOpened(env, h, s, IP6);
    Ip6Turn(env, h, t, kind);
    Ip6Recorded(env, h, t, kind);
    assert After(env, s, 1) == t;
    assert After(env, s, 2) == u;
    assert After(env, s, 3) == Body(env, u);
    hide After;
    TransportTaken(env, h, u, kind, Ip6FrameKey(h, buf));
  }
}
