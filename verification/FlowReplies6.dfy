/**
 From bytes to flows with IPv6: a TCP or UDP frame, behind any extension headers,
 and its reply land in the same flow.
 */
module FlowReplies6 {
  import opened Bytes
  import opened Gf2
  import opened PacketState
  import opened ScanLoop
  import opened Protocols
  import opened NativeScanners
  import opened NativeRuns
  import opened Dissection
  import opened FlowKeys
  import opened FlowReplies
  import opened FlowMatches
  import opened FrameRecords
  import opened ScanKeys
  import Words

  // The extension headers between the IPv6 header and the transport header.
  function Chain6(buf: seq<byte>): Chain
    requires |buf| >= 54
  {
    Extensions(buf, 14, 54, |buf|, buf[20])
  }

  // Where the transport header is.
  function At6(buf: seq<byte>): nat
    requires |buf| >= 54
  {
    54 + Chain6(buf).size
  }

  // Ethernet II, an IPv6 packet with any chain of extension headers, and its whole
  // transport header, captured.
  predicate IsFrame6(buf: seq<byte>, kind: int) {
    && Carries(buf, IP6) && kind in {TCP, UDP} && |buf| >= 54
    && Chain6(buf).whole && Chain6(buf).last == (if kind == TCP then 6 else 17)
    && At6(buf) + TransportSize(kind) <= |buf|
  }

  // Four bytes, as a word of the host.
  function HostWord(big: bool, buf: seq<byte>, i: nat): nat
    requires i + 4 <= |buf|
  {
    if big then buf[i] as nat * 0x100_0000 + buf[i + 1] as nat * 0x1_0000 + buf[i + 2] as nat * 0x100 + buf[i + 3]
    else buf[i] as nat + buf[i + 1] as nat * 0x100 + buf[i + 2] as nat * 0x1_0000 + buf[i + 3] as nat * 0x100_0000
  }

  // An address as the flow key has it: the exclusive or of its four words.
  function Address(big: bool, buf: seq<byte>, i: nat): nat
    requires i + 16 <= |buf|
  {
    Words.XorWord(Words.XorWord(HostWord(big, buf, i), HostWord(big, buf, i + 4)),
                  Words.XorWord(HostWord(big, buf, i + 8), HostWord(big, buf, i + 12)))
  }

  function Ports6(buf: seq<byte>): (nat, nat)
    requires |buf| >= 54 && At6(buf) + 4 <= |buf|
  {
    (Big16(buf, At6(buf)), Big16(buf, At6(buf) + 2))
  }

  // The key such a frame should get.
  function FrameKey6(h: Host, buf: seq<byte>, kind: int): (k: FlowKey)
    requires IsFrame6(buf, kind)
    ensures Raw(k)
  {
    FlowKey({ETHERNET, IP6, kind}, Zeros(32), true, 3,
            [(Address(h.big, buf, 22), Address(h.big, buf, 38)), (buf[20], buf[20]), Ports6(buf)],
            [(0, 0), (0, 0), (0, 0)], [IP6, IP6, kind])
  }

  // The frame that answers: addresses and ports change places.
  predicate IsReply6(buf: seq<byte>, reply: seq<byte>, kind: int) {
    && IsFrame6(buf, kind) && IsFrame6(reply, kind)
    && reply[22..38] == buf[38..54] && reply[38..54] == buf[22..38]
    && Ports6(reply) == (Ports6(buf).1, Ports6(buf).0)
  }

  // ------------------------------------------------------------------ addresses

  lemma WordHere(h: Host, s: Scan, i: nat)
    requires i + 4 <= |s.buf|
    ensures Host32(h, s, i) == HostWord(h.big, s.buf, i)
  {
    Reads(s, i);
    Reads(s, i + 2);
  }

  lemma AddressHere(h: Host, s: Scan, i: nat)
    requires i + 16 <= |s.buf|
    ensures Address6(h, s, i) == Address(h.big, s.buf, i)
  {
    hide Host32, HostWord, Words.XorWord;
    WordHere(h, s, i);
    WordHere(h, s, i + 4);
    WordHere(h, s, i + 8);
    WordHere(h, s, i + 12);
  }

  lemma WordOf(big: bool, a: seq<byte>, b: seq<byte>, i: nat, j: nat, k: nat)
    requires i + 16 <= |a| && j + 16 <= |b| && a[i..i + 16] == b[j..j + 16] && k <= 12
    ensures HostWord(big, a, i + k) == HostWord(big, b, j + k)
  {
    var u, v := a[i..i + 16], b[j..j + 16];
    assert u[k] == v[k] && u[k + 1] == v[k + 1] && u[k + 2] == v[k + 2] && u[k + 3] == v[k + 3];
  }

  // The address depends on its sixteen bytes alone.
  lemma AddressBytes(big: bool, a: seq<byte>, b: seq<byte>, i: nat, j: nat)
    requires i + 16 <= |a| && j + 16 <= |b| && a[i..i + 16] == b[j..j + 16]
    ensures Address(big, a, i) == Address(big, b, j)
  {
    WordOf(big, a, b, i, j, 0);
    WordOf(big, a, b, i, j, 4);
    WordOf(big, a, b, i, j, 8);
    WordOf(big, a, b, i, j, 12);
    hide HostWord, Words.XorWord;
  }

  lemma AddressSized(h: Host, buf: seq<byte>, i: nat)
    requires i + 16 <= |buf|
    ensures Address(h.big, buf, i) < WORD
  {
    AddressHere(h, Start(buf, 0, 0), i);
    Address6Size(h, Start(buf, 0, 0), i);
    hide Address, Address6;
  }

  // ---------------------------------------------------------------- turn by turn

  function Ip6FrameKey(h: Host, buf: seq<byte>): FlowKey
    requires |buf| >= 54
  {
    AddressKey(EthernetKey(h, buf), IP6, (Address(h.big, buf, 22), Address(h.big, buf, 38)), buf[20])
  }

  // What scan_ip6 finds in the frame.
  predicate Ip6Finds(h: Host, s: Scan, t: Scan, kind: int)
    requires |s.buf| >= 54
  {
    && t == s.(length := 40 + Chain6(s.buf).size, payload := Big16(s.buf, 18) - Chain6(s.buf).size,
               key := Ip6FrameKey(h, s.buf), nextId := kind, flags := t.flags)
    && t.flags == s.flags + if Chain6(s.buf).fragment then {Fragmented, IgnoreBounds} else {}
  }

  // The Ethernet record is the only one before IPv6, so that nothing is trimmed.
  lemma Ip6KeyOfFrame(h: Host, s: Scan)
    requires |s.buf| >= 54 && s.offset == 14 && s.bufLen == |s.buf| && |s.headers| == 1 && s.key == EthernetKey(h, s.buf)
    ensures Ip6Key(h, Ip6Extent(s)) == s.(length := 40, payload := Big16(s.buf, 18), key := Ip6FrameKey(h, s.buf))
  {
    Reads(s, 18);
    var u := Ip6Extent(s);
    assert u == s.(length := 40, payload := Big16(s.buf, 18));
    AddressHere(h, u, 22);
    AddressHere(h, u, 38);
    Reads(u, 20);
    hide Ip6Extent, Address, Address6, AddressKey, EthernetKey, At, Net16, Big16;
  }

  lemma LastIsKind(buf: seq<byte>, kind: int)
    requires IsFrame6(buf, kind)
    ensures Ip6Layer(buf, 14, |buf|) ==
      Layer(40 + Chain6(buf).size, kind, if Chain6(buf).fragment then {Fragmented, IgnoreBounds} else {})
  {
    hide Extensions;
  }

  lemma WalkOfFrame(h: Host, s: Scan)
    requires |s.buf| >= 54 && s.offset == 14 && s.bufLen == |s.buf| && |s.headers| == 1 && s.key == EthernetKey(h, s.buf)
    ensures var t := ScanIp6(h, s);
      && t.bufLen == |s.buf|
      && t == s.(length := t.length, payload := Big16(s.buf, 18) - (t.length - 40), key := Ip6FrameKey(h, s.buf),
                 nextId := t.nextId, flags := t.flags)
  {
    var v := Ip6Key(h, Ip6Extent(s));
    Reads(s, 20);
    Ip6KeyOfFrame(h, s);
    Ip6IsWalk(h, s);
    WalkConserves(h, v, s.buf[20]);
    hide Walk, ScanIp6, Ip6Key, Ip6Extent, Ip6FrameKey, EthernetKey, At, Big16, Ahead;
  }

  lemma FreshInFront(s: Scan, key: FlowKey)
    requires InFront(s, s.buf, IP6, 14, key) && |s.buf| >= 54 && s.bufLen == |s.buf|
    ensures Fresh(s) && Room(s) >= 40 && s.offset == 14 && s.key == key
  {
  }

  lemma FindsAll(h: Host, s: Scan, t: Scan, d: Layer, kind: int)
    requires |s.buf| >= 54 && d == Layer(40 + Chain6(s.buf).size, kind,
                                         if Chain6(s.buf).fragment then {Fragmented, IgnoreBounds} else {})
    requires t.length == d.size && t.flags == s.flags + d.marks && t.nextId == d.next
    requires t == s.(length := t.length, payload := Big16(s.buf, 18) - (t.length - 40), key := Ip6FrameKey(h, s.buf),
                     nextId := t.nextId, flags := t.flags)
    ensures Ip6Finds(h, s, t, kind)
  {
    hide Chain6, Big16, Ip6FrameKey;
  }

  lemma Ip6OfFrame(h: Host, s: Scan, kind: int)
    requires SaneHost(h) && IsFrame6(s.buf, kind) && InFront(s, s.buf, IP6, 14, EthernetKey(h, s.buf))
    requires s.bufLen == |s.buf| && |s.headers| == 1
    ensures |s.buf| >= 54 && Ip6Finds(h, s, ScanIp6(h, s), kind)
  {
    hide *;
    Frame6Kind(s.buf, kind);
    FreshInFront(s, EthernetKey(h, s.buf));
    Ip6Found(h, s);
    WalkOfFrame(h, s);
    LastIsKind(s.buf, kind);
    FindsAll(h, s, ScanIp6(h, s), Ip6Layer(s.buf, 14, |s.buf|), kind);
  }

  lemma Frame6Kind(buf: seq<byte>, kind: int)
    requires IsFrame6(buf, kind)
    ensures Carries(buf, IP6) && kind in {TCP, UDP} && kind != END && |buf| >= 54
    ensures At6(buf) + TransportSize(kind) <= |buf| && TransportSize(kind) >= 8 && At6(buf) >= 54
  {
  }

  lemma NativeIp6(h: Host, s: Scan)
    requires s.id == IP6
    ensures Native(h, s) == ScanIp6(h, s) && s.id in NATIVE
  {
    hide ScanIp6;
  }

  lemma InFront6(h: Host, s: Scan)
    requires InFront(s, s.buf, IP6, 14, EthernetKey(h, s.buf))
    ensures var r := s.(recorded := false);
      && InFront(r, s.buf, IP6, 14, EthernetKey(h, s.buf)) && r.id == IP6 && !r.recorded && r.offset == 14
      && r.postfix == 0 && r.prefix == 0 && r.gap == 0 && r.bufLen <= r.wireLen && r.memLen == |s.buf|
  {
  }

  lemma Ip6FindsIs(h: Host, s: Scan, t: Scan, kind: int)
    requires |s.buf| >= 54 && Ip6Finds(h, s, t, kind)
    ensures t == s.(length := At6(s.buf) - 14, payload := t.payload, key := Ip6FrameKey(h, s.buf), nextId := kind,
                    flags := t.flags)
  {
    hide Chain6, Ip6FrameKey, Big16;
  }

  lemma Ip6Turn(env: Scanner, h: Host, s: Scan, kind: int)
    requires PlainEnv(env, h, IP6) && IsFrame6(s.buf, kind) && InFront(s, s.buf, IP6, 14, EthernetKey(h, s.buf))
    requires s.bufLen == |s.buf| && |s.headers| == 1
    ensures |s.buf| >= 54 && InFront(Body(env, s), s.buf, kind, At6(s.buf), Ip6FrameKey(h, s.buf))
    ensures Body(env, s).bufLen == |s.buf|
  {
    hide *;
    var r := s.(recorded := false);
    var t := ScanIp6(h, r);
    Plain(env, h, IP6);
    Frame6Kind(s.buf, kind);
    InFront6(h, s);
    Ip6OfFrame(h, r, kind);
    Ip6FindsIs(h, r, t, kind);
    NativeIp6(h, r);
    NativeDispatch(env, h, r);
    PlainBind(env, h, t, IP6);
    WholeTurn(env, s, t, s.buf, kind, Ip6FrameKey(h, s.buf));
  }

  lemma Transport6(h: Host, s: Scan, kind: int)
    requires IsFrame6(s.buf, kind) && s.offset == At6(s.buf) && s.bufLen == |s.buf| && s.id == kind
    ensures Native(h, s).key == PortKey(s.key, kind, Ports6(s.buf))
  {
    Reads(s, s.offset);
    Reads(s, s.offset + 2);
    hide PortKey, ByPorts, Big16, Net16, Chain6;
    if kind == TCP {
      assert Native(h, s) == ScanTcp(h, s);
    } else {
      assert Native(h, s) == ScanUdp(h, s);
    }
  }

  lemma KeyInThreeSteps6(h: Host, buf: seq<byte>, kind: int)
    requires IsFrame6(buf, kind)
    ensures PortKey(Ip6FrameKey(h, buf), kind, Ports6(buf)) == FrameKey6(h, buf, kind)
  {
    hide Address, Ports6, EthernetAddresses, Net16, Chain6;
    var k := PortKey(Ip6FrameKey(h, buf), kind, Ports6(buf));
    assert k.headerMap == {ETHERNET, IP6, kind};
  }

  lemma ThreeTurns6(env: Scanner, h: Host, buf: seq<byte>, wireLen: int, kind: int)
    requires PlainEnv(env, h, IP6) && IsFrame6(buf, kind) && wireLen >= |buf|
    ensures After(env, Start(buf, wireLen, ETHERNET), 3).key == FrameKey6(h, buf, kind)
  {
    hide PlainEnv, IsFrame6, Carries, Body, EthernetKey, Ip6FrameKey, FrameKey6, PortKey, Native, Dispatch, At6, Describes;
    var s := Start(buf, wireLen, ETHERNET);
    var t1 := Body(env, s);
    var t2 := Body(env, t1);
    var r := t2.(recorded := false);
    Plain(env, h, IP6);
    hide NativeEnv;
    Frame6Kind(buf, kind);
    EthernetTurn(env, h, s, IP6);
    EthernetOpened(env, h, s, IP6);
    Ip6Turn(env, h, t1, kind);
    NativeDispatch(env, h, r);
    BodyKey(env, t2);
    Transport6(h, r, kind);
    KeyInThreeSteps6(h, buf, kind);
    assert After(env, s, 1) == t1;
    assert After(env, s, 2) == t2;
    assert After(env, s, 3) == Body(env, t2);
  }

  lemma KeyOfScan6(env: Scanner, h: Host, buf: seq<byte>, wireLen: int, kind: int, n: nat)
    requires PlainEnv(env, h, IP6) && IsFrame6(buf, kind) && wireLen >= |buf|
    requires n >= 3 && NoPairFrom(env, Start(buf, wireLen, ETHERNET), 3, n)
    ensures After(env, Start(buf, wireLen, ETHERNET), n).key == FrameKey6(h, buf, kind)
  {
    hide *;
    Plain(env, h, IP6);
    ThreeTurns6(env, h, buf, wireLen, kind);
    KeyKept(env, h, Start(buf, wireLen, ETHERNET), 3, n);
  }

  // --------------------------------------------------------------------- the reply

  lemma Shape6(h: Host, buf: seq<byte>, kind: int)
    requires IsFrame6(buf, kind)
    ensures var k := FrameKey6(h, buf, kind);
      && Shape(k) && Valid(k) && k.pairCount == 3 && k.reversable && k.headerMap == {ETHERNET, IP6, kind}
      && Used(k) == [(Address(h.big, buf, 22), Address(h.big, buf, 38)), (buf[20], buf[20]), Ports6(buf)]
  {
    AddressSized(h, buf, 22);
    AddressSized(h, buf, 38);
    hide Address, Chain6;
  }

  // Swapped addresses and ports are alike for match in one direction.
  lemma SwappedAlike(big: bool, u: seq<(nat, nat)>, v: seq<(nat, nat)>)
    requires |u| == |v| == 3 && v[0] == SwapPair(u[0]) && v[2] == SwapPair(u[2])
    requires u[1].0 == u[1].1 && v[1].0 == v[1].1
    ensures Alike(big, u, SwapAll(v))
    ensures u[1] == v[1] ==> u == SwapAll(v)
    ensures u[1] != v[1] ==> u != v && u != SwapAll(v)
  {
    hide Words.XorWord;
    var w := SwapAll(v);
    assert w[0] == u[0] && w[2] == u[2] && w[1] == v[1];
  }

  // For match the reply lands in the same flow, and it should, exactly when the two
  // packets have the same next header behind the fixed one.
  lemma ReplyInSameFlow6(env: Scanner, h: Host, buf: seq<byte>, reply: seq<byte>, wire1: int, wire2: int, kind: int,
                         m: nat, n: nat)
    requires PlainEnv(env, h, IP6) && IsReply6(buf, reply, kind) && wire1 >= |buf| && wire2 >= |reply|
    requires m >= 3 && NoPairFrom(env, Start(buf, wire1, ETHERNET), 3, m)
    requires n >= 3 && NoPairFrom(env, Start(reply, wire2, ETHERNET), 3, n)
    ensures var k1 := After(env, Start(buf, wire1, ETHERNET), m).key;
      var k2 := After(env, Start(reply, wire2, ETHERNET), n).key;
      && Valid(k1) && Valid(k2) && |buf| >= 54 && |reply| >= 54
      && var p1, p2 := Processed(k1), Processed(k2);
        && BasicsMatch(p1, p2)
        && Match(h.big, p1, p2) != 0 && Match(h.big, p2, p1) != 0
        && (DocumentedMatch(p1, p2) != 0 <==> buf[20] == reply[20])
  {
    KeyOfScan6(env, h, buf, wire1, kind, m);
    KeyOfScan6(env, h, reply, wire2, kind, n);
    ReplyKeys6(h, buf, reply, kind);
    hide *;
  }

  lemma ReplyKeys6(h: Host, buf: seq<byte>, reply: seq<byte>, kind: int)
    requires IsReply6(buf, reply, kind)
    ensures var k1, k2 := FrameKey6(h, buf, kind), FrameKey6(h, reply, kind);
      && Valid(k1) && Valid(k2) && |buf| >= 54 && |reply| >= 54
      && var p1, p2 := Processed(k1), Processed(k2);
        && BasicsMatch(p1, p2)
        && Match(h.big, p1, p2) != 0 && Match(h.big, p2, p1) != 0
        && (DocumentedMatch(p1, p2) != 0 <==> buf[20] == reply[20])
  {
    Shape6(h, buf, kind);
    Shape6(h, reply, kind);
    AddressBytes(h.big, reply, buf, 22, 38);
    AddressBytes(h.big, reply, buf, 38, 22);
    var k1, k2 := FrameKey6(h, buf, kind), FrameKey6(h, reply, kind);
    var u, v := Used(k1), Used(k2);
    SwappedAlike(h.big, u, v);
    SwappedAlike(h.big, v, u);
    hide FrameKey6, Match, DocumentedMatch, Processed, Shape, Address, Ports6, Alike, Chain6, Used, BasicsMatch, IsFrame6;
    KeyMatch(h.big, k1, k2);
    KeyMatch(h.big, k2, k1);
    DocumentedFinds(k1, k2);
    BasicsAreMixes(k1, k2);
    MixOfAlike(h.big, u, v);
  }

  lemma MixOfAlike(big: bool, u: seq<(nat, nat)>, v: seq<(nat, nat)>)
    requires |u| == |v| <= 3 && Alike(big, u, SwapAll(v))
    ensures Mix(u) == Mix(v)
  {
    MixSwaps(v);
    hide Mix, SameFront;
  }
}
