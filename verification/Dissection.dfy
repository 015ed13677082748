/**
 What the bytes of a packet say, layer by layer, in the terms of the wire formats:
 sizes, what comes next, and fragments. The native scanners find exactly that.
 */
module Dissection {
  import opened Bytes
  import opened PacketState
  import opened RecordHeader
  import opened ScanLoop
  import opened ScanRuns
  import opened Protocols
  import opened NativeScanners
  import opened NativeRuns
  import opened Bindings

  // The layer at some place, or nothing, where its fixed part has not been captured.
  datatype Layer = Nothing | Layer(size: nat, next: int, marks: set<Flag>)

  // ------------------------------------------------------------------ who is next

  // The type field of Ethernet and VLAN; a length means that 802.2 follows.
  function ByType(high: byte, low: byte): int {
    match (high, low)
    case (0x08, 0x00) => IP4
    case (0x08, 0x06) => ARP
    case (0x86, 0xDD) => IP6
    case (0x81, 0x00) => IEEE_802DOT1Q
    case (0x88, 0xA8) => IEEE_802DOT1Q
    case (0x91, 0x00) => IEEE_802DOT1Q
    case _ => if high < 6 then IEEE_802DOT2 else PAYLOAD
  }

  // The protocol numbers that IPv4 and IPv6 share.
  function ByProtocol(number: byte, other: int): int {
    match number
    case 1 => ICMP
    case 4 => IP4
    case 6 => TCP
    case 17 => UDP
    case 132 => SCTP
    case _ => other
  }

  // A well-known port on either side, the destination first; behind a privileged
  // port that is not known nothing is tried.
  function ByPort(known: map<nat, int>, source: nat, destination: nat): int {
    if destination in known then known[destination]
    else if source in known then known[source]
    else if source >= 1024 && destination >= 1024 then PAYLOAD
    else END
  }

  const TCP_PORTS: map<nat, int> := map[80 := HTTP, 8080 := HTTP, 8081 := HTTP, 5060 := SIP]
  const UDP_PORTS: map<nat, int> := map[1701 := L2TP, 5004 := RTP, 5005 := RTCP, 5060 := SIP]

  // -------------------------------------------------------- IPv6 extension headers

  // How many bytes of extension headers there are, what the last one says is next,
  // whether a fragment header is among them, and whether all could be read.
  datatype Chain = Chain(size: nat, last: byte, fragment: bool, whole: bool)

  function ExtensionSize(buf: seq<byte>, cursor: nat): nat
    requires cursor + 2 <= |buf|
  {
    8 * (buf[cursor + 1] as nat + 1)
  }

  // Hop-by-hop, routing, fragment, encrypted, authentication, destination and
  // mobility headers; all are measured in units of eight bytes. Each size is checked
  // against what is left behind twice the offset of the IP header.
  function Extensions(buf: seq<byte>, at: nat, cursor: nat, limit: int, kind: byte): Chain
    requires limit <= |buf|
    decreases limit - cursor
  {
    if kind !in {0, 43, 44, 50, 51, 60, 135} then Chain(0, kind, false, true)
    else if cursor + 2 > limit || 2 * at + ExtensionSize(buf, cursor) > limit then Chain(0, kind, kind == 44, false)
    else
      var size := ExtensionSize(buf, cursor);
      var rest := Extensions(buf, at, cursor + size, limit, buf[cursor]);
      Chain(size + rest.size, rest.last, kind == 44 || rest.fragment, rest.whole)
  }

  // ----------------------------------------------------------------- layer by layer

  function Ip4Layer(buf: seq<byte>, at: nat, limit: int): Layer
    requires at + 20 <= |buf|
  {
    var later := buf[at + 6] % 32 != 0 || buf[at + 7] != 0;
    var more := buf[at + 6] / 32 % 2 == 1;
    Layer(buf[at] % 16 * 4,
          if later || limit < at + 16 then PAYLOAD
          else if buf[at + 9] == 115 then L2TP else ByProtocol(buf[at + 9], PAYLOAD),
          if later || more then {Fragmented, IgnoreBounds} else {})
  }

  function Ip6Layer(buf: seq<byte>, at: nat, limit: int): Layer
    requires at + 40 <= |buf| && limit <= |buf|
  {
    var chain := Extensions(buf, at, at + 40, limit, buf[at + 6]);
    Layer(40 + chain.size,
          if !chain.whole || chain.last == 58 then PAYLOAD
          else ByProtocol(chain.last, if chain.size == Big16(buf, at + 4) then END else PAYLOAD),
          if chain.fragment then {Fragmented, IgnoreBounds} else {})
  }

  // The layer of protocol id at this place of a packet that ends at end, or, behind
  // an IP header that has told its own length, at limit.
  function Dissect(buf: seq<byte>, id: int, at: nat, end: int, limit: int): Layer
    requires end <= |buf| && limit <= |buf|
  {
    var room := end - at;
    if id == PAYLOAD && room >= 0 then Layer(room, END, {})
    else if id == ETHERNET && room >= 14 then Layer(14, ByType(buf[at + 12], buf[at + 13]), {})
    else if id == IEEE_802DOT1Q && room >= 4 then Layer(4, ByType(buf[at + 2], buf[at + 3]), {})
    else if id == PPP && room >= 4 then
      Layer(4, if buf[at + 2] != 0 then PAYLOAD
               else if buf[at + 3] == 0x21 then IP4 else if buf[at + 3] == 0x57 then IP6 else PAYLOAD, {})
    else if id == ARP && room >= 6 then Layer(8 + 2 * (buf[at + 4] as nat + buf[at + 5]), PAYLOAD, {})
    else if id == ICMP && room >= 4 then
      if buf[at] == 3 || buf[at] == 12 then Layer(8, IP4, {IgnoreBounds}) else Layer(8, PAYLOAD, {})
    else if id == IP4 && room >= 20 then Ip4Layer(buf, at, limit)
    else if id == IP6 && room >= 40 then Ip6Layer(buf, at, limit)
    else if id == TCP && room >= 20 then
      Layer(buf[at + 12] / 16 * 4, ByPort(TCP_PORTS, Big16(buf, at), Big16(buf, at + 2)), {})
    else if id == UDP && room >= 8 then Layer(8, ByPort(UDP_PORTS, Big16(buf, at), Big16(buf, at + 2)), {})
    else Nothing
  }

  // ------------------------------------------------------ the scanners find just that

  // A protocol with a validation function is asked first, at the bytes it would get.
  function Confirmed(h: Host, t: Scan, id: int): int {
    if id in h.validate then h.validate[id](Shown(t)) else id
  }

  predicate Agrees(h: Host, s: Scan, t: Scan)
    requires 0 <= s.offset && s.bufLen <= |s.buf| && t.bufLen <= |s.buf|
  {
    var d := Dissect(s.buf, s.id, s.offset, s.bufLen, t.bufLen);
    if d.Nothing? then t == s
    else t.length == d.size && t.flags == s.flags + d.marks && t.nextId == Confirmed(h, t, d.next)
  }

  // In front of a header.
  predicate Fresh(s: Scan) {
    0 <= s.offset && s.bufLen <= |s.buf| && s.length == 0 && s.gap == 0 && s.nextId == PAYLOAD
  }

  // Reading in the packet.
  lemma Reads(s: Scan, i: int)
    requires 0 <= i && i + 2 <= |s.buf|
    ensures At(s, i) == s.buf[i] && At(s, i + 1) == s.buf[i + 1]
    ensures Net16(s, i) == 256 * (s.buf[i] as nat) + s.buf[i + 1] == Big16(s.buf, i)
  {
  }

  // Only these have a validation function.
  lemma NotValidated(h: Host, id: int)
    requires SaneHost(h) && id !in {HTTP, SIP, RTP, RTCP}
    ensures id !in h.validate
  {
  }

  // A header at the very end of the buffer leads to the payload, without a look ahead.
  lemma NothingAhead(h: Host, id: int, s: Scan)
    requires s.offset == s.bufLen
    ensures ValidateNext(h, id, s) == PAYLOAD
  {
  }

  lemma TypeIs(a: byte, b: byte)
    ensures var kind := 256 * (a as nat) + b; ByType(a, b) == if kind < 0x600 then IEEE_802DOT2 else LookupEthertype(kind)
  {
  }

  lemma PayloadAgrees(h: Host, s: Scan)
    requires SaneHost(h) && Fresh(s) && s.id == PAYLOAD && s.offset <= s.bufLen
    ensures Agrees(h, s, ScanPayload(s))
  {
    NotValidated(h, END);
    hide SaneHost;
  }

  lemma EthernetFound(h: Host, s: Scan)
    requires SaneHost(h) && Fresh(s) && Room(s) >= 14
    ensures var t := ScanEthernet(h, s); var next := ByType(s.buf[s.offset + 12], s.buf[s.offset + 13]);
      t.length == 14 && t.flags == s.flags && t.nextId == next && next !in h.validate && t.bufLen == s.bufLen
  {
    Reads(s, s.offset + 12);
    var a, b := s.buf[s.offset + 12], s.buf[s.offset + 13];
    TypeIs(a, b);
    NotValidated(h, ByType(a, b));
    hide Net16, AddressKey, Dot3Key, EthernetAddresses, SaneHost, ByType, LookupEthertype;
  }

  lemma EthernetAgrees(h: Host, s: Scan)
    requires SaneHost(h) && Fresh(s) && s.id == ETHERNET && ScanEthernet(h, s).bufLen <= |s.buf|
    ensures Agrees(h, s, ScanEthernet(h, s))
  {
    if Room(s) >= 14 {
      EthernetFound(h, s);
      hide ScanEthernet, ByType, SaneHost;
    }
  }

  lemma VlanAgrees(h: Host, s: Scan)
    requires SaneHost(h) && Fresh(s) && s.id == IEEE_802DOT1Q
    ensures Agrees(h, s, ScanVlan(h, s))
  {
    if Room(s) >= 4 {
      Reads(s, s.offset + 2);
      var a, b := s.buf[s.offset + 2], s.buf[s.offset + 3];
      TypeIs(a, b);
      NotValidated(h, ByType(a, b));
      hide Net16, SaneHost, ByType, LookupEthertype;
    }
  }

  lemma PppAgrees(h: Host, s: Scan)
    requires SaneHost(h) && Fresh(s) && s.id == PPP
    ensures Agrees(h, s, ScanPpp(h, s))
  {
    if Room(s) >= 4 {
      Reads(s, s.offset + 2);
      NotValidated(h, IP4);
      NotValidated(h, IP6);
      NotValidated(h, PAYLOAD);
      hide Net16, SaneHost;
    }
  }

  lemma ArpAgrees(h: Host, s: Scan)
    requires SaneHost(h) && Fresh(s) && s.id == ARP
    ensures Agrees(h, s, ScanArp(s))
  {
    if Room(s) >= 6 {
      Reads(s, s.offset + 4);
      NotValidated(h, PAYLOAD);
      hide SaneHost;
    }
  }

  lemma IcmpAgrees(h: Host, s: Scan)
    requires SaneHost(h) && Fresh(s) && s.id == ICMP
    ensures Agrees(h, s, ScanIcmp(h, s))
  {
    if Room(s) >= 4 {
      Reads(s, s.offset);
      NotValidated(h, IP4);
      NotValidated(h, PAYLOAD);
      hide SaneHost;
    }
  }

  // ------------------------------------------------------------- TCP and UDP

  lemma PortsAgree(h: Host, s: Scan, ofPort: nat -> int, known: map<nat, int>, source: nat, destination: nat)
    requires SaneHost(h) && s.nextId == PAYLOAD && Room(s) != 0
    requires forall p: nat :: ofPort(p) == if p in known then known[p] else END
    requires forall p :: p in known ==> known[p] != END
    ensures ByPorts(h, s, ofPort, source, destination) == Confirmed(h, s, ByPort(known, source, destination))
  {
    NotValidated(h, PAYLOAD);
    NotValidated(h, END);
    hide SaneHost;
  }

  lemma TcpFound(h: Host, s: Scan)
    requires SaneHost(h) && Fresh(s) && Room(s) >= 20
    ensures var t := ScanTcp(h, s);
      && t.length == s.buf[s.offset + 12] / 16 * 4 && t.flags == s.flags && t.bufLen == s.bufLen
      && t.sport == Big16(s.buf, s.offset) && t.dport == Big16(s.buf, s.offset + 2)
      && t.nextId == Confirmed(h, t, ByPort(TCP_PORTS, Big16(s.buf, s.offset), Big16(s.buf, s.offset + 2)))
  {
    Reads(s, s.offset);
    Reads(s, s.offset + 2);
    Reads(s, s.offset + 12);
    var source, destination := Net16(s, s.offset), Net16(s, s.offset + 2);
    var t := s.(length := At(s, s.offset + 12) / 16 * 4, key := PortKey(s.key, TCP, (source, destination)),
                sport := source, dport := destination);
    PortsAgree(h, t, TcpPort, TCP_PORTS, source, destination);
    assert ScanTcp(h, s) == t.(nextId := ByPorts(h, t, TcpPort, source, destination));
    hide SaneHost, ByPorts, ByPort, PortKey, Net16, At, ScanTcp;
    assert Shown(ScanTcp(h, s)) == Shown(t);
  }

  lemma TcpAgrees(h: Host, s: Scan)
    requires SaneHost(h) && Fresh(s) && s.id == TCP && ScanTcp(h, s).bufLen <= |s.buf|
    ensures Agrees(h, s, ScanTcp(h, s))
  {
    if Room(s) >= 20 {
      TcpFound(h, s);
      hide ScanTcp, ByPort, SaneHost, Confirmed;
    }
  }

  lemma UdpFound(h: Host, s: Scan)
    requires SaneHost(h) && Fresh(s) && Room(s) >= 8
    ensures var t := ScanUdp(h, s);
      && t.length == 8 && t.flags == s.flags && t.bufLen == s.bufLen
      && t.sport == Big16(s.buf, s.offset) && t.dport == Big16(s.buf, s.offset + 2)
      && t.nextId == Confirmed(h, t, ByPort(UDP_PORTS, Big16(s.buf, s.offset), Big16(s.buf, s.offset + 2)))
  {
    Reads(s, s.offset);
    Reads(s, s.offset + 2);
    var source, destination := Net16(s, s.offset), Net16(s, s.offset + 2);
    var t := s.(length := 8, key := PortKey(s.key, UDP, (source, destination)), sport := source, dport := destination);
    PortsAgree(h, t, UdpPort, UDP_PORTS, source, destination);
    assert ScanUdp(h, s) == t.(nextId := ByPorts(h, t, UdpPort, source, destination));
    hide SaneHost, ByPorts, ByPort, PortKey, Net16, ScanUdp;
    assert Shown(ScanUdp(h, s)) == Shown(t);
  }

  lemma UdpAgrees(h: Host, s: Scan)
    requires SaneHost(h) && Fresh(s) && s.id == UDP && ScanUdp(h, s).bufLen <= |s.buf|
    ensures Agrees(h, s, ScanUdp(h, s))
  {
    if Room(s) >= 8 {
      UdpFound(h, s);
      hide ScanUdp, ByPort, SaneHost, Confirmed;
    }
  }

  // --------------------------------------------------------------------- IPv4

  lemma ProtocolIs(number: byte)
    ensures Ip4Protocol(number) == if number == 115 then L2TP else ByProtocol(number, END)
    ensures Ip6Protocol(number) == if number == 58 then PAYLOAD else ByProtocol(number, END)
    ensures ByProtocol(number, PAYLOAD) == if ByProtocol(number, END) == END then PAYLOAD else ByProtocol(number, END)
    ensures ByProtocol(number, END) !in {HTTP, SIP, RTP, RTCP, PAYLOAD}
  {
  }

  lemma FragmentBytes(high: byte, low: byte)
    ensures var word := 256 * (high as nat) + low;
      && (word % 0x2000 > 0 <==> high % 32 != 0 || low != 0)
      && (word / 0x2000 % 2 == 1 <==> high / 32 % 2 == 1)
  {
    var word := 256 * (high as nat) + low;
    assert word % 0x2000 == 256 * (high % 32) + low;
    assert word / 0x2000 == high / 32;
  }

  // The fragment word, byte by byte.
  lemma Ip4Fragments(s: Scan)
    requires Fresh(s) && Room(s) >= 20
    ensures var high, low := s.buf[s.offset + 6], s.buf[s.offset + 7];
      && (Ip4FragOff(s) != 0 <==> high % 32 != 0 || low != 0)
      && (Ip4IsFragment(s) <==> high % 32 != 0 || low != 0 || high / 32 % 2 == 1)
    ensures Ip4HeaderLength(s) == s.buf[s.offset] % 16 * 4
  {
    Reads(s, s.offset);
    Reads(s, s.offset + 6);
    FragmentBytes(s.buf[s.offset + 6], s.buf[s.offset + 7]);
    hide Net16, At;
  }

  lemma Ip4Found(h: Host, s: Scan)
    requires SaneHost(h) && Fresh(s) && Room(s) >= 20
    ensures var t := ScanIp4(h, s); var d := Ip4Layer(s.buf, s.offset, t.bufLen);
      t.length == d.size && t.flags == s.flags + d.marks && t.nextId == d.next && d.next !in h.validate
  {
    var number := s.buf[s.offset + 9];
    Ip4Fragments(s);
    ProtocolIs(number);
    NotValidated(h, PAYLOAD);
    NotValidated(h, Ip4Protocol(number));
    Ip4ExtentIs(s);
    Ip4BindIs(h, Ip4Extent(s));
    hide SaneHost, Ip4Extent, Ip4Bind, Ip4Protocol, ByProtocol, Ip4FragOff, Ip4IsFragment, Ip4HeaderLength, Fresh;
  }

  lemma Ip4Agrees(h: Host, s: Scan)
    requires SaneHost(h) && Fresh(s) && s.id == IP4 && ScanIp4(h, s).bufLen <= |s.buf|
    ensures Agrees(h, s, ScanIp4(h, s))
  {
    if Room(s) >= 20 {
      Ip4Found(h, s);
      hide ScanIp4, Ip4Layer, SaneHost;
    }
  }

  lemma Ip4ExtentIs(s: Scan)
    ensures var v := Ip4Extent(s);
      && v.length == Ip4HeaderLength(s) && v.offset == s.offset && v.buf == s.buf && v.gap == s.gap && v.nextId == s.nextId
      && v.flags == s.flags + (if Ip4IsFragment(s) then {Fragmented, IgnoreBounds} else {})
      && Ip4FragOff(v) == Ip4FragOff(s)
  {
    SameNet16(Ip4Extent(s), s, s.offset + 6);
    hide Net16;
  }

  lemma Ip4BindIs(h: Host, v: Scan)
    requires SaneHost(h) && v.nextId == PAYLOAD && 0 <= v.offset && v.offset + 20 <= |v.buf|
    ensures var w := Ip4Bind(h, v); var next := Ip4Protocol(v.buf[v.offset + 9]);
      && w == v.(key := w.key, nextId := w.nextId)
      && w.nextId == if v.offset + 16 > v.bufLen || Ip4FragOff(v) != 0 || next == END then PAYLOAD else next
  {
    Reads(v, v.offset + 8);
    ProtocolIs(v.buf[v.offset + 9]);
    NotValidated(h, Ip4Protocol(v.buf[v.offset + 9]));
    hide SaneHost, Net16, Net32, AddressKey, Ip4Protocol, ByProtocol;
  }

  // --------------------------------------------------------------------- IPv6

  lemma SkipAgrees(s: Scan, kind: byte)
    requires 0 <= s.offset < s.bufLen <= |s.buf| && s.length >= 0 && CanSkip(s, kind)
    ensures var t, len := Skip(s, kind), ExtensionSize(s.buf, s.offset + s.length);
      var next := s.buf[s.offset + s.length];
      var c := Extensions(s.buf, s.offset, s.offset + s.length, s.bufLen, kind);
      var rest := Extensions(s.buf, s.offset, s.offset + s.length + len, s.bufLen, next);
      && At(s, s.offset + s.length) == next
      && t == s.(length := s.length + len, payload := s.payload - len, flags := t.flags)
      && t.flags == s.flags + (if kind == 44 then {Fragmented, IgnoreBounds} else {})
      && c == Chain(len + rest.size, rest.last, kind == 44 || rest.fragment, rest.whole)
  {
    Reads(s, s.offset + s.length);
  }

  lemma StopAgrees(h: Host, s: Scan, kind: byte)
    requires SaneHost(h) && 0 <= s.offset < s.bufLen <= |s.buf| && s.length >= 0 && s.nextId == PAYLOAD
    requires !CanSkip(s, kind)
    ensures var c := Extensions(s.buf, s.offset, s.offset + s.length, s.bufLen, kind); var t := WalkEnd(h, s, kind);
      && c == Chain(0, kind, kind == 44, kind !in {0, 43, 44, 50, 51, 60, 135})
      && t.length == s.length && t.flags == s.flags + (if kind == 44 then {Fragmented, IgnoreBounds} else {})
      && t.nextId == (if !c.whole || kind == 58 then PAYLOAD
                      else ByProtocol(kind, if s.payload == 0 then END else PAYLOAD))
  {
    if IsOption(kind) && IsAccessible(s, s.length + 2) {
      Reads(s, s.offset + s.length);
    }
    ProtocolIs(kind);
    NotValidated(h, Ip6Protocol(kind));
    hide SaneHost;
  }

  lemma {:induction false} WalkAgrees(h: Host, s: Scan, kind: byte)
    requires SaneHost(h) && 0 <= s.offset < s.bufLen <= |s.buf| && s.length >= 0 && s.nextId == PAYLOAD
    ensures var c := Extensions(s.buf, s.offset, s.offset + s.length, s.bufLen, kind); var t := Walk(h, s, kind);
      && t.length == s.length + c.size
      && t.flags == s.flags + (if c.fragment then {Fragmented, IgnoreBounds} else {})
      && t.nextId == (if !c.whole || c.last == 58 then PAYLOAD
                      else ByProtocol(c.last, if s.payload == c.size then END else PAYLOAD))
    decreases s.bufLen - s.offset - s.length
  {
    hide SaneHost, ByProtocol, Extensions, CanSkip, Skip, WalkEnd, At, ExtensionSize;
    if CanSkip(s, kind) {
      SkipShorter(s, kind);
      SkipAgrees(s, kind);
      var t, next := Skip(s, kind), s.buf[s.offset + s.length];
      assert Walk(h, s, kind) == Walk(h, t, next);
      hide Walk;
      WalkAgrees(h, t, next);
    } else {
      StopAgrees(h, s, kind);
    }
  }

  lemma SkipShorter(s: Scan, kind: byte)
    requires CanSkip(s, kind)
    ensures Skip(s, kind).length > s.length && s.offset + s.length < s.bufLen
  {
    hide At;
  }

  lemma Ip6ExtentIs(h: Host, s: Scan)
    requires Fresh(s) && Room(s) >= 40
    ensures var u := Ip6Key(h, Ip6Extent(s));
      && u.length == 40 && u.payload == Big16(s.buf, s.offset + 4) && u.offset == s.offset < u.bufLen <= |s.buf|
      && u.buf == s.buf && u.flags == s.flags && u.nextId == PAYLOAD
  {
    Reads(s, s.offset + 4);
    Ip6KeyFrame(h, Ip6Extent(s));
    hide Net16, Ip6Key;
  }

  lemma Ip6NextIs(h: Host, buf: seq<byte>, at: nat, limit: int)
    requires SaneHost(h) && at + 40 <= |buf| && limit <= |buf|
    ensures Ip6Layer(buf, at, limit).next !in h.validate
  {
    var chain := Extensions(buf, at, at + 40, limit, buf[at + 6]);
    ProtocolIs(chain.last);
    NotValidated(h, Ip6Layer(buf, at, limit).next);
    hide SaneHost, Extensions;
  }

  lemma WalkFindsLayer(h: Host, u: Scan)
    requires SaneHost(h) && 0 <= u.offset < u.bufLen <= |u.buf| && u.offset + 40 <= |u.buf|
    requires u.length == 40 && u.nextId == PAYLOAD && u.payload == Big16(u.buf, u.offset + 4)
    ensures var t := Walk(h, u, u.buf[u.offset + 6]); var d := Ip6Layer(u.buf, u.offset, u.bufLen);
      && t.bufLen == u.bufLen && t.length == d.size && t.flags == u.flags + d.marks && t.nextId == d.next
  {
    WalkConserves(h, u, u.buf[u.offset + 6]);
    WalkAgrees(h, u, u.buf[u.offset + 6]);
    hide SaneHost, Walk, Extensions, ByProtocol, Ahead, Big16;
  }

  // scan_ip6 is the walk, from behind the fixed header.
  lemma Ip6Found(h: Host, s: Scan)
    requires SaneHost(h) && Fresh(s) && Room(s) >= 40
    ensures 0 <= s.offset && s.offset + 40 <= |s.buf|
    ensures var t := ScanIp6(h, s); t.bufLen <= |s.buf|
    ensures var t := ScanIp6(h, s); var d := Ip6Layer(s.buf, s.offset, t.bufLen);
      t.length == d.size && t.flags == s.flags + d.marks && t.nextId == d.next
  {
    FreshReads(s, 40);
    Reads(s, s.offset + 6);
    Ip6ExtentIs(h, s);
    Ip6IsWalk(h, s);
    hide *;
    WalkFindsLayer(h, Ip6Key(h, Ip6Extent(s)));
  }

  lemma FreshReads(s: Scan, n: nat)
    requires Fresh(s) && Room(s) >= n
    ensures 0 <= s.offset && s.offset + n <= |s.buf|
  {
  }

  lemma Ip6Agrees(h: Host, s: Scan)
    requires SaneHost(h) && Fresh(s) && s.id == IP6 && ScanIp6(h, s).bufLen <= |s.buf|
    ensures Agrees(h, s, ScanIp6(h, s))
  {
    if Room(s) >= 40 {
      Ip6Found(h, s);
      Ip6NextIs(h, s.buf, s.offset, ScanIp6(h, s).bufLen);
      hide ScanIp6, Ip6Layer, SaneHost;
    }
  }

  // ------------------------------------------------------------------ over a turn

  // The state that the scanner of the current header is called in.
  lemma FreshStart(s: Scan)
    requires Inv(s)
    ensures Fresh(s.(recorded := false)) && (s.id != END ==> s.offset <= s.bufLen)
  {
    hide Tiled, AllInside, EthernetCovers;
  }

  lemma NativeAgrees(h: Host, s: Scan)
    requires SaneHost(h) && Fresh(s) && s.offset <= s.bufLen && s.id in NATIVE && Native(h, s).bufLen <= |s.buf|
    ensures Agrees(h, s, Native(h, s))
  {
    hide Agrees, Fresh, SaneHost;
    hide ScanPayload, ScanEthernet, ScanIp4, ScanIp6, ScanTcp, ScanUdp, ScanVlan, ScanPpp, ScanIcmp, ScanArp;
    if s.id == PAYLOAD { PayloadAgrees(h, s); }
    else if s.id == ETHERNET { EthernetAgrees(h, s); }
    else if s.id == IP4 { Ip4Agrees(h, s); }
    else if s.id == IP6 { Ip6Agrees(h, s); }
    else if s.id == TCP { TcpAgrees(h, s); }
    else if s.id == UDP { UdpAgrees(h, s); }
    else if s.id == IEEE_802DOT1Q { VlanAgrees(h, s); }
    else if s.id == PPP { PppAgrees(h, s); }
    else if s.id == ICMP { IcmpAgrees(h, s); }
    else { ArpAgrees(h, s); }
  }

  // What a turn at some header does with what it found: nothing was found, and the
  // payload is tried or the scan ends; or one record more, cut where the buffer ends
  // now, and marked as a fragment if this or an earlier header was one.
  predicate Taken(s: Scan, u: Scan, size: nat) {
    && |u.headers| == |s.headers| + (if size == 0 then 0 else 1)
    && (size == 0 ==> u.id == if s.id == PAYLOAD || s.offset >= u.bufLen then END else PAYLOAD)
    && (size > 0 ==>
      var k := Last(u);
      && k.id == s.id && k.offset == s.offset && k.length == Min(size, Max(0, u.bufLen - s.offset))
      && (Fragmented in k.flags <==> Fragmented in u.flags))
  }

  lemma RecordTakes(s: Scan, t: Scan)
    requires !t.recorded && t.hdrFlags == {} && t.length > 0 && t.payload >= 0 && t.postfix >= 0
    requires t.prefix == 0 && t.gap == 0 && 0 <= t.offset <= t.memLen && t.bufLen <= t.memLen
    requires |t.headers| == |s.headers| && t.id == s.id && t.offset == s.offset
    ensures var u := Advance(Record(t)); Taken(s, u, t.length) && u.flags == t.flags
  {
    RecordedFlags(t);
    AdjustCases(Lengths(t));
    RecordInside(t);
    hide Adjust, AddHeader, RecordFlags;
  }

  lemma NothingTaken(s: Scan, t: Scan)
    requires t.length == 0 && t.gap == 0 && t.id == s.id && t.offset == s.offset && |t.headers| == |s.headers|
    ensures Taken(s, Advance(t.(nextId := if s.id == PAYLOAD then END else PAYLOAD)), 0)
  {
  }

  lemma TurnTakes(env: Scanner, s: Scan)
    requires Inv(s) && s.id != END && LegalTurn(env, s)
    ensures var t, u := Found(env, s), Body(env, s);
      && t.bufLen <= |s.buf| && s.bufLen <= |s.buf| && 0 <= s.offset <= s.bufLen && t.length >= 0
      && Taken(s, u, t.length) && u.flags == t.flags
  {
    var t := Found(env, s);
    TurnCases(env, s);
    hide Dispatch, LegalTurn, SameRecords, Tiled, AllInside, EthernetCovers, Body, Record, Bind, Taken, Advance;
    if t.length > 0 {
      RecordTakes(s, t.(nextId := Bind(env, t)));
    } else {
      NothingTaken(s, t);
      AdvanceFlags(t.(nextId := if s.id == PAYLOAD then END else PAYLOAD));
    }
  }

  lemma AdvanceFlags(t: Scan)
    ensures Advance(t).flags == t.flags
  {
  }

  lemma FoundNative(env: Scanner, h: Host, s: Scan)
    requires NativeEnv(env, h) && s.id in NATIVE
    ensures Found(env, s) == Native(h, s.(recorded := false)) && SaneHost(h) && s.id != END
  {
    hide Native, Dispatch;
  }

  // Where the reference finds nothing, the scanner reports nothing.
  lemma FoundAgrees(env: Scanner, h: Host, s: Scan)
    requires NativeEnv(env, h) && Inv(s) && s.id in NATIVE && LegalTurn(env, s)
    ensures Found(env, s).bufLen <= |s.buf| && s.bufLen <= |s.buf| && 0 <= s.offset
    ensures var t := Found(env, s); var d := Dissect(s.buf, s.id, s.offset, s.bufLen, t.bufLen);
      if d.Nothing? then t.length == 0 && t.flags == s.flags
      else t.length == d.size && t.flags == s.flags + d.marks && t.nextId == Confirmed(h, t, d.next)
  {
    var r := s.(recorded := false);
    FoundNative(env, h, s);
    FreshStart(s);
    TurnTakes(env, s);
    hide NativeEnv, SaneHost, Native, Found, Inv, LegalTurn, Dissect, Confirmed, Taken, Body;
    NativeAgrees(h, r);
  }

  lemma FoundId(env: Scanner, s: Scan)
    requires Inv(s) && LegalTurn(env, s)
    ensures Found(env, s).id == s.id
  {
    hide Dispatch, Inv, SameRecords, Bind;
  }

  // In every state of every legal run, at every native header: the turn finds and
  // records the layer that the bytes say, and, where neither heuristics nor overriding
  // step in, goes on to the protocol that they name.
  lemma TurnDissects(env: Scanner, h: Host, s: Scan)
    requires NativeEnv(env, h) && Inv(s) && s.id in NATIVE && LegalTurn(env, s)
    ensures Found(env, s).bufLen <= |s.buf| && s.bufLen <= |s.buf| && 0 <= s.offset
    ensures var t, u := Found(env, s), Body(env, s); var d := Dissect(s.buf, s.id, s.offset, s.bufLen, t.bufLen);
      && Taken(s, u, if d.Nothing? then 0 else d.size)
      && u.flags == s.flags + (if d.Nothing? then {} else d.marks)
      && (d.Layer? && d.size > 0 && s.id !in env.overriding + env.heuristic ==>
        u.id == if GoesOn(env, s) then Confirmed(h, t, d.next) else END)
  {
    hide *;
    FoundNative(env, h, s);
    FoundAgrees(env, h, s);
    TurnTakes(env, s);
    FoundId(env, s);
    if Found(env, s).length > 0 && s.id !in env.overriding + env.heuristic {
      TurnBinds(env, s);
      if GoesOn(env, s) {
        DirectDiscovery(env, s);
      }
    }
  }

  // With heuristics that come after the direct discovery: a UDP header behind which
  // nothing is known, with a privileged port, ends the scan, whatever they say.
  lemma PrivilegedPortEnds(env: Scanner, h: Host, s: Scan)
    requires NativeEnv(env, h) && Inv(s) && LegalTurn(env, s) && s.id == UDP
    requires 0 <= s.offset && s.offset + 8 <= s.bufLen <= |s.buf|
    requires UDP !in env.overriding && UDP !in env.pre
    requires var source, destination := Big16(s.buf, s.offset), Big16(s.buf, s.offset + 2);
      && {source, destination} !! {1701, 5004, 5005, 5060} && (source < 1024 || destination < 1024)
    ensures Body(env, s).id == END
  {
    hide *;
    UdpIsNative();
    FoundNative(env, h, s);
    FoundAgrees(env, h, s);
    PrivilegedPort(h, s, Found(env, s));
    FoundId(env, s);
    TurnBinds(env, s);
    if GoesOn(env, s) {
      if UDP in env.heuristic {
        PostHeuristics(env, s);
      } else {
        DirectDiscovery(env, s);
      }
    }
  }

  lemma UdpIsNative()
    ensures UDP in NATIVE && END != PAYLOAD
  {
  }

  lemma PrivilegedPort(h: Host, s: Scan, t: Scan)
    requires SaneHost(h) && s.id == UDP && 0 <= s.offset && s.offset + 8 <= s.bufLen <= |s.buf| && t.bufLen <= |s.buf|
    requires var source, destination := Big16(s.buf, s.offset), Big16(s.buf, s.offset + 2);
      && {source, destination} !! {1701, 5004, 5005, 5060} && (source < 1024 || destination < 1024)
    ensures var d := Dissect(s.buf, s.id, s.offset, s.bufLen, t.bufLen);
      d.Layer? && d.size == 8 && Confirmed(h, t, d.next) == END
  {
    var source, destination := Big16(s.buf, s.offset), Big16(s.buf, s.offset + 2);
    assert source in {source, destination} && destination in {source, destination};
    NotValidated(h, END);
    hide SaneHost, Big16;
  }
}
