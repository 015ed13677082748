/**
 The native header scanners of packet_protocol.cpp, as functions from state to
 state, and for each the exact condition under which it keeps the contract of
 the scan loop.
 */
module Protocols {
  import opened Bytes
  import opened PacketState
  import Words

  // The host's byte order and validate_table.
  datatype Host = Host(big: bool, validate: map<int, Scan -> int>)

  // ------------------------------------------------------------------- reading

  function At(s: Scan, i: int): byte {
    if 0 <= i < |s.buf| then s.buf[i] else 0
  }

  // 16 and 32 bits in network byte order.
  function Net16(s: Scan, i: int): nat { 256 * At(s, i) + At(s, i + 1) }

  function Net32(s: Scan, i: int): nat { 0x1_0000 * Net16(s, i) + Net16(s, i + 2) }

  // 16 and 32 bits as the host reads them.
  function Host16(h: Host, s: Scan, i: int): nat {
    if h.big then Net16(s, i) else At(s, i) + 256 * At(s, i + 1)
  }

  function Host32(h: Host, s: Scan, i: int): nat {
    if h.big then Net32(s, i) else Host16(h, s, i) + 0x1_0000 * Host16(h, s, i + 2)
  }

  function Room(s: Scan): int { s.bufLen - s.offset }

  predicate IsAccessible(s: Scan, n: int) { s.offset + n <= s.bufLen }

  // validate_next: the validation function looks at the bytes after this header.
  function ValidateNext(h: Host, id: int, s: Scan): int {
    if Room(s) == 0 then PAYLOAD
    else if id in h.validate then h.validate[id](s.(offset := s.offset + s.length + s.gap))
    else id
  }

  function LookupEthertype(kind: nat): int {
    if kind == 0x0800 then IP4
    else if kind == 0x0806 then ARP
    else if kind == 0x86DD then IP6
    else if kind in {0x8100, 0x88a8, 0x9100} then IEEE_802DOT1Q
    else PAYLOAD
  }

  // ----------------------------------------------------------------- flow keys

  function PutPair(k: FlowKey, i: nat, id: int, pair: (nat, nat)): FlowKey {
    if i < |k.forward| && i < |k.ids| then k.(forward := k.forward[i := pair], ids := k.ids[i := id]) else k
  }

  // Two pairs, from pair 0: addresses and the next protocol on both sides.
  function AddressKey(k: FlowKey, id: int, addresses: (nat, nat), next: nat): FlowKey {
    if id in k.headerMap then k
    else PutPair(PutPair(k.(headerMap := k.headerMap + {id}, pairCount := 2), 0, id, addresses), 1, id, (next, next))
  }

  // One more pair: the ports.
  function PortKey(k: FlowKey, id: int, ports: (nat, nat)): FlowKey {
    if id in k.headerMap then k
    else PutPair(k.(headerMap := k.headerMap + {id}, pairCount := k.pairCount + 1, reversable := true),
                 k.pairCount, id, ports)
  }

  function EthernetAddresses(h: Host, s: Scan): (nat, nat) {
    var high, low := if h.big then s.offset + 4 else s.offset + 6, if h.big then s.offset + 6 else s.offset + 4;
    (Words.XorWord(Host32(h, s, s.offset), Host16(h, s, high)),
     Words.XorWord(Host32(h, s, s.offset + 8), Host16(h, s, low)))
  }

  function Dot3Key(k: FlowKey, addresses: (nat, nat)): FlowKey {
    if IEEE_802DOT3 in k.headerMap then k
    else PutPair(k.(headerMap := k.headerMap + {IEEE_802DOT3}, pairCount := 1), 0, IEEE_802DOT3, addresses)
  }

  function Address6(h: Host, s: Scan, i: int): nat {
    Words.XorWord(Words.XorWord(Host32(h, s, i), Host32(h, s, i + 4)),
                  Words.XorWord(Host32(h, s, i + 8), Host32(h, s, i + 12)))
  }

  // ------------------------------------------------------------------ scanners

  function ScanPayload(s: Scan): Scan {
    s.(id := PAYLOAD, nextId := END, length := s.bufLen - s.offset)
  }

  function ScanEthernet(h: Host, s: Scan): Scan {
    if Room(s) < 14 then s
    else
      var kind := Net16(s, s.offset + 12);
      var t := s.(length := 14, key := AddressKey(s.key, ETHERNET, EthernetAddresses(h, s), kind));
      if kind < 0x600 then Scan802dot3(h, t, kind)
      else t.(nextId := ValidateNext(h, LookupEthertype(kind), t))
  }

  // The part of scan_802dot3 that scan_ethernet reaches, with the frame length.
  function Scan802dot3(h: Host, s: Scan, frameLen: nat): Scan {
    s.(nextId := ValidateNext(h, IEEE_802DOT2, s),
       payload := frameLen - 14, postfix := s.bufLen - frameLen,
       key := Dot3Key(s.key, EthernetAddresses(h, s)))
  }

  function ScanVlan(h: Host, s: Scan): Scan {
    if Room(s) < 4 then s
    else
      var t, kind := s.(length := 4), Net16(s, s.offset + 2);
      if kind < 0x600 then t.(nextId := ValidateNext(h, IEEE_802DOT2, t), payload := kind - 4 - s.offset)
      else t.(nextId := ValidateNext(h, LookupEthertype(kind), t))
  }

  function ScanPpp(h: Host, s: Scan): Scan {
    if Room(s) < 4 then s
    else
      var t, protocol := s.(length := 4), Net16(s, s.offset + 2);
      if protocol == 0x21 then t.(nextId := ValidateNext(h, IP4, t))
      else if protocol == 0x57 then t.(nextId := ValidateNext(h, IP6, t))
      else t
  }

  function ScanArp(s: Scan): Scan {
    if Room(s) < 6 then s
    else s.(length := (At(s, s.offset + 4) + At(s, s.offset + 5)) * 2 + 8)
  }

  function ScanIcmp(h: Host, s: Scan): Scan {
    if Room(s) < 4 then s
    else
      var t := s.(length := 8);
      if At(s, s.offset) in {3, 12} then t.(nextId := ValidateNext(h, IP4, t), flags := s.flags + {IgnoreBounds})
      else t
  }

  function TcpPort(port: nat): int {
    if port in {80, 8080, 8081} then HTTP else if port == 5060 then SIP else END
  }

  function UdpPort(port: nat): int {
    if port == 1701 then L2TP
    else if port == 5004 then RTP
    else if port == 5005 then RTCP
    else if port == 5060 then SIP
    else END
  }

  // By the destination port, else by the source port, else nothing is tried
  // behind a well-known port.
  function ByPorts(h: Host, s: Scan, ofPort: nat -> int, sport: nat, dport: nat): int {
    if ofPort(dport) != END then ValidateNext(h, ofPort(dport), s)
    else if ofPort(sport) != END then ValidateNext(h, ofPort(sport), s)
    else if dport < 1024 || sport < 1024 then END
    else s.nextId
  }

  function ScanTcp(h: Host, s: Scan): Scan {
    if Room(s) < 20 then s
    else
      var sport, dport := Net16(s, s.offset), Net16(s, s.offset + 2);
      var t := s.(length := At(s, s.offset + 12) / 16 * 4, key := PortKey(s.key, TCP, (sport, dport)),
                  sport := sport, dport := dport);
      t.(nextId := ByPorts(h, t, TcpPort, sport, dport))
  }

  function ScanUdp(h: Host, s: Scan): Scan {
    if Room(s) < 8 then s
    else
      var sport, dport := Net16(s, s.offset), Net16(s, s.offset + 2);
      var t := s.(length := 8, key := PortKey(s.key, UDP, (sport, dport)), sport := sport, dport := dport);
      t.(nextId := ByPorts(h, t, UdpPort, sport, dport))
  }

  // Bytes behind the IP packet become the postfix of the Ethernet record.
  function TrimEthernet(s: Scan, postfix: int): Scan
    requires s.headers != []
  {
    var eth := Last(s);
    s.(headers := s.headers[|s.headers| - 1 := eth.(postfix := postfix, payload := eth.payload - postfix)],
       bufLen := s.bufLen - postfix)
  }

  function Ip4TotalLength(s: Scan): nat { Net16(s, s.offset + 2) }

  function Ip4HeaderLength(s: Scan): nat { At(s, s.offset) % 16 * 4 }

  function Ip4FragOff(s: Scan): nat { Net16(s, s.offset + 6) % 0x2000 }

  predicate Ip4IsFragment(s: Scan) {
    Net16(s, s.offset + 6) / 0x2000 % 2 == 1 || Ip4FragOff(s) > 0
  }

  predicate Ip4Trims(s: Scan) {
    && s.headers != [] && Last(s).id == ETHERNET
    && Ip4TotalLength(s) <= s.bufLen && Room(s) > Ip4TotalLength(s)
  }

  function Ip4Protocol(protocol: nat): int {
    if protocol == 1 then ICMP
    else if protocol == 4 then IP4
    else if protocol == 6 then TCP
    else if protocol == 17 then UDP
    else if protocol == 115 then L2TP
    else if protocol == 132 then SCTP
    else END
  }

  // Lengths, the Ethernet trailer and fragments.
  function Ip4Extent(s: Scan): Scan {
    var total, length := Ip4TotalLength(s), Ip4HeaderLength(s);
    var t := s.(length := length, payload := total - length);
    var u := if Ip4Trims(s) then TrimEthernet(t, Room(s) - total) else t;
    if Ip4IsFragment(s)
    then u.(flags := u.flags + {Fragmented, IgnoreBounds}, payload := u.bufLen - length - u.offset) else u
  }

  // The flow key and the next protocol.
  function Ip4Bind(h: Host, v: Scan): Scan {
    if !IsAccessible(v, 16) then v
    else
      var protocol := At(v, v.offset + 9);
      var w := v.(key := AddressKey(v.key, IP4, (Net32(v, v.offset + 12), Net32(v, v.offset + 16)), protocol));
      if Ip4FragOff(v) != 0 then w.(nextId := PAYLOAD)
      else if Ip4Protocol(protocol) != END then w.(nextId := ValidateNext(h, Ip4Protocol(protocol), w))
      else w
  }

  function ScanIp4(h: Host, s: Scan): Scan {
    if Room(s) < 20 then s else Ip4Bind(h, Ip4Extent(s))
  }

  function Ip6PayloadLength(s: Scan): nat { Net16(s, s.offset + 4) }

  predicate Ip6Trims(s: Scan) {
    |s.headers| > 1 && Last(s).id == ETHERNET && Room(s) - Ip6PayloadLength(s) - 40 > 0
  }

  predicate IsOption(kind: nat) { kind in {44, 0, 60, 43, 51, 50, 135} }

  function Ip6Protocol(kind: nat): int {
    if kind == 1 then ICMP
    else if kind == 4 then IP4
    else if kind == 6 then TCP
    else if kind == 17 then UDP
    else if kind == 58 then PAYLOAD
    else if kind == 132 then SCTP
    else END
  }

  // The next header is an option, both its first bytes are there, and its
  // length passes the check against a looping packet.
  predicate CanSkip(s: Scan, kind: nat) {
    && IsOption(kind) && IsAccessible(s, s.length + 2)
    && IsAccessible(s, s.offset + OptionLength(s, s.offset + s.length))
  }

  function OptionLength(s: Scan, cursor: int): nat { At(s, cursor + 1) as int * 8 + 8 }

  function MarkFragment(s: Scan, kind: nat): Scan {
    if kind == 44 then s.(flags := s.flags + {Fragmented, IgnoreBounds}) else s
  }

  function Skip(s: Scan, kind: nat): Scan {
    var len := OptionLength(s, s.offset + s.length);
    MarkFragment(s, kind).(length := s.length + len, payload := s.payload - len)
  }

  // The loop over extension headers; s.length says where the next one is.
  function Walk(h: Host, s: Scan, kind: nat): Scan
    decreases s.bufLen - s.offset - s.length
  {
    if CanSkip(s, kind) then Walk(h, Skip(s, kind), At(s, s.offset + s.length)) else WalkEnd(h, s, kind)
  }

  function WalkEnd(h: Host, s: Scan, kind: nat): Scan {
    if IsOption(kind) then
      var t := MarkFragment(s, kind);
      if IsAccessible(s, s.length + 2) then t.(nextId := PAYLOAD) else t
    else if Ip6Protocol(kind) != END then s.(nextId := ValidateNext(h, Ip6Protocol(kind), s))
    else s.(nextId := if s.payload == 0 then END else PAYLOAD)
  }

  function Ip6Extent(s: Scan): Scan {
    var t := s.(length := 40, payload := Ip6PayloadLength(s));
    if Ip6Trims(s) then TrimEthernet(t, Room(s) - Ip6PayloadLength(s) - 40) else t
  }

  function Ip6Key(h: Host, u: Scan): Scan {
    var addresses := (Address6(h, u, u.offset + 8), Address6(h, u, u.offset + 24));
    u.(key := AddressKey(u.key, IP6, addresses, At(u, u.offset + 6)))
  }

  function ScanIp6(h: Host, s: Scan): Scan {
    if Room(s) < 40 then s else Walk(h, Ip6Key(h, Ip6Extent(s)), At(s, s.offset + 6))
  }

  // ------------------------------------------------------- the IPv6 option walk

  // How many bytes of extension headers lie at cursor: each has its first two
  // bytes before the end of the packet and is no longer than reach.
  function OptionBytes(buf: seq<byte>, cursor: nat, limit: int, reach: int, kind: nat): nat
    requires limit <= |buf|
    decreases limit - cursor
  {
    if !IsOption(kind) || cursor + 2 > limit then 0
    else
      var len: int := buf[cursor + 1] as int * 8 + 8;
      if len > reach then 0 else len + OptionBytes(buf, cursor + len, limit, reach, buf[cursor])
  }

  // The extension headers in front of the walk.
  function Ahead(s: Scan, kind: nat): nat
    requires s.offset >= 0 && s.length >= 0 && s.bufLen <= |s.buf|
  {
    OptionBytes(s.buf, s.offset + s.length, s.bufLen, s.bufLen - 2 * s.offset, kind)
  }

  lemma AheadSkips(s: Scan, kind: nat)
    requires s.offset >= 0 && s.length >= 0 && s.bufLen <= |s.buf| && CanSkip(s, kind)
    ensures var t, len := Skip(s, kind), OptionLength(s, s.offset + s.length);
      && len > 0 && s.offset + s.length < s.bufLen
      && Ahead(s, kind) == len + Ahead(t, At(s, s.offset + s.length))
      && t == s.(length := s.length + len, payload := s.payload - len, flags := t.flags) && s.flags <= t.flags
  {
    assert Skip(s, kind).length == s.length + OptionLength(s, s.offset + s.length);
    assert s.buf[s.offset + s.length] == At(s, s.offset + s.length);
    hide IsOption;
  }

  lemma AheadEnds(h: Host, s: Scan, kind: nat)
    requires s.offset >= 0 && s.length >= 0 && s.bufLen <= |s.buf| && !CanSkip(s, kind)
    ensures Ahead(s, kind) == 0
    ensures var t := WalkEnd(h, s, kind); t == s.(flags := t.flags, nextId := t.nextId) && s.flags <= t.flags
  {
    hide ValidateNext;
  }

  // Header and payload share what the packet says: whatever the options take,
  // the payload loses, and the walk changes nothing else but flags and next id.
  lemma {:induction false} WalkConserves(h: Host, s: Scan, kind: nat)
    requires s.offset >= 0 && s.length >= 0 && s.bufLen <= |s.buf|
    ensures var n := Ahead(s, kind);
      var t := Walk(h, s, kind);
      && t == s.(length := s.length + n, payload := s.payload - n, flags := t.flags, nextId := t.nextId)
      && s.flags <= t.flags
    decreases s.bufLen - s.offset - s.length
  {
    hide OptionBytes, CanSkip, Skip, WalkEnd, At, OptionLength;
    if CanSkip(s, kind) {
      var t, next := Skip(s, kind), At(s, s.offset + s.length);
      assert Walk(h, s, kind) == Walk(h, t, next);
      AheadSkips(s, kind);
      hide Walk;
      WalkConserves(h, t, next);
    } else {
      assert Walk(h, s, kind) == WalkEnd(h, s, kind);
      AheadEnds(h, s, kind);
    }
  }
}
