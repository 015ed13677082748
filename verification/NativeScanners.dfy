/**
 Which packets the native header scanners handle within the contract of the
 scan loop, and what follows for whole scans with the native table.
 */
module NativeScanners {
  import opened PacketState
  import opened ScanLoop
  import opened Protocols

  // The validation functions that exist name a protocol, or PAYLOAD.
  ghost predicate SaneHost(h: Host) {
    && h.validate.Keys <= {HTTP, SIP, RTP, RTCP}
    && forall id, s :: id in h.validate ==> h.validate[id](s) == END || ValidId(h.validate[id](s))
  }

  lemma ValidateNextValid(h: Host, id: int, s: Scan)
    requires SaneHost(h) && ValidId(id)
    ensures ValidateNext(h, id, s) == END || ValidId(ValidateNext(h, id, s))
  {
  }

  lemma SameLegal(s: Scan)
    requires Inv(s)
    ensures Legal(s, s)
  {
    SameRecordsAgain(s);
  }

  // ------------------------------------------------- scanners that always comply

  lemma PayloadLegal(s: Scan)
    requires Inv(s) && s.id == PAYLOAD
    ensures Legal(s, ScanPayload(s))
  {
  }

  // A scanner that leaves the records and the end of the buffer alone is legal
  // exactly when the extents it reports are not negative.
  lemma FrameLegal(s: Scan, t: Scan)
    requires Inv(s)
    requires t == s.(length := t.length, payload := t.payload, postfix := t.postfix, nextId := t.nextId,
                     flags := t.flags, key := t.key, sport := t.sport, dport := t.dport)
    requires t.length >= 0 && (t.nextId == END || ValidId(t.nextId)) && s.flags <= t.flags
    ensures Legal(s, t) <==> t.payload >= 0 && t.postfix >= 0
  {
    SameRecordsAgain(s);
    hide SameRecords, Tiled, AllInside, EthernetCovers;
  }

  lemma NothingYet(s: Scan)
    requires Inv(s)
    ensures s.payload >= 0 && s.postfix >= 0 && ValidId(s.nextId)
  {
    hide Tiled, AllInside, EthernetCovers;
  }

  lemma PppLegal(h: Host, s: Scan)
    requires Inv(s) && SaneHost(h)
    ensures Legal(s, ScanPpp(h, s))
  {
    if Room(s) < 4 {
      SameLegal(s);
    } else {
      var t := s.(length := 4);
      ValidateNextValid(h, IP4, t);
      ValidateNextValid(h, IP6, t);
      NothingYet(s);
      hide Inv, Legal, ValidateNext, SaneHost, Net16;
      assert ScanPpp(h, s) in {t, t.(nextId := ValidateNext(h, IP4, t)), t.(nextId := ValidateNext(h, IP6, t))};
      hide ScanPpp;
      FrameLegal(s, ScanPpp(h, s));
    }
  }

  lemma ArpLegal(s: Scan)
    requires Inv(s)
    ensures Legal(s, ScanArp(s))
  {
    SameRecordsAgain(s);
    hide SameRecords, Tiled, AllInside, EthernetCovers;
  }

  lemma IcmpLegal(h: Host, s: Scan)
    requires Inv(s) && SaneHost(h)
    ensures Legal(s, ScanIcmp(h, s))
  {
    SameRecordsAgain(s);
    hide SameRecords, Tiled, AllInside, EthernetCovers, ValidateNext;
    ValidateNextValid(h, IP4, s.(length := 8));
  }

  lemma ByPortsValid(h: Host, s: Scan, ofPort: nat -> int, sport: nat, dport: nat)
    requires SaneHost(h) && ValidId(s.nextId)
    requires forall p :: ofPort(p) == END || ValidId(ofPort(p))
    ensures var id := ByPorts(h, s, ofPort, sport, dport); id == END || ValidId(id)
  {
    if ofPort(dport) != END {
      ValidateNextValid(h, ofPort(dport), s);
    } else if ofPort(sport) != END {
      ValidateNextValid(h, ofPort(sport), s);
    }
  }

  lemma TcpLegal(h: Host, s: Scan)
    requires Inv(s) && SaneHost(h)
    ensures Legal(s, ScanTcp(h, s))
  {
    SameRecordsAgain(s);
    hide SameRecords, Tiled, AllInside, EthernetCovers, ByPorts, PortKey;
    if Room(s) >= 20 {
      var sport, dport := Net16(s, s.offset), Net16(s, s.offset + 2);
      ByPortsValid(h, ScanTcp(h, s).(nextId := PAYLOAD), TcpPort, sport, dport);
    }
  }

  lemma UdpLegal(h: Host, s: Scan)
    requires Inv(s) && SaneHost(h)
    ensures Legal(s, ScanUdp(h, s))
  {
    SameRecordsAgain(s);
    hide SameRecords, Tiled, AllInside, EthernetCovers, ByPorts, PortKey;
    if Room(s) >= 8 {
      var sport, dport := Net16(s, s.offset), Net16(s, s.offset + 2);
      ByPortsValid(h, ScanUdp(h, s).(nextId := PAYLOAD), UdpPort, sport, dport);
    }
  }

  // ------------------------------------------- scanners that comply on condition

  // An 802.3 length must lie between the header and the end of the buffer.
  predicate EthernetOk(s: Scan) {
    var kind := Net16(s, s.offset + 12);
    Room(s) < 14 || kind >= 0x600 || 14 <= kind <= s.bufLen
  }

  lemma EthernetLegal(h: Host, s: Scan)
    requires Inv(s) && SaneHost(h)
    ensures Legal(s, ScanEthernet(h, s)) <==> EthernetOk(s)
  {
    hide Inv, Legal, SaneHost, Net16, ScanEthernet;
    if Room(s) < 14 {
      assert ScanEthernet(h, s) == s by { EthernetAbsent(h, s); }
      SameLegal(s);
    } else {
      NothingYet(s);
      EthernetParts(h, s);
      FrameLegal(s, ScanEthernet(h, s));
    }
  }

  lemma EthernetAbsent(h: Host, s: Scan)
    requires Room(s) < 14
    ensures ScanEthernet(h, s) == s
  {
  }

  // What scan_ethernet reports.
  lemma EthernetParts(h: Host, s: Scan)
    requires SaneHost(h) && Room(s) >= 14
    ensures var t := ScanEthernet(h, s); var kind := Net16(s, s.offset + 12);
      && t == s.(length := 14, payload := t.payload, postfix := t.postfix, nextId := t.nextId, key := t.key)
      && (t.nextId == END || ValidId(t.nextId))
      && t.payload == (if kind < 0x600 then kind - 14 else s.payload)
      && t.postfix == if kind < 0x600 then s.bufLen - kind else s.postfix
  {
    hide Net16, AddressKey, Dot3Key, EthernetAddresses, ValidateNext, SaneHost;
    var kind := Net16(s, s.offset + 12);
    var t := s.(length := 14, key := AddressKey(s.key, ETHERNET, EthernetAddresses(h, s), kind));
    ValidateNextValid(h, IEEE_802DOT2, t);
    ValidateNextValid(h, LookupEthertype(kind), t);
  }

  // A VLAN length must reach past this header, counted from the packet's start.
  predicate VlanOk(s: Scan) {
    var kind := Net16(s, s.offset + 2);
    Room(s) < 4 || kind >= 0x600 || kind >= s.offset + 4
  }

  lemma VlanLegal(h: Host, s: Scan)
    requires Inv(s) && SaneHost(h)
    ensures Legal(s, ScanVlan(h, s)) <==> VlanOk(s)
  {
    hide Inv, Legal, SaneHost, Net16, ScanVlan;
    if Room(s) < 4 {
      assert ScanVlan(h, s) == s by { VlanAbsent(h, s); }
      SameLegal(s);
    } else {
      NothingYet(s);
      VlanParts(h, s);
      FrameLegal(s, ScanVlan(h, s));
    }
  }

  lemma VlanAbsent(h: Host, s: Scan)
    requires Room(s) < 4
    ensures ScanVlan(h, s) == s
  {
  }

  // What scan_802dot1q reports.
  lemma VlanParts(h: Host, s: Scan)
    requires SaneHost(h) && Room(s) >= 4
    ensures var t := ScanVlan(h, s); var kind := Net16(s, s.offset + 2);
      && t == s.(length := 4, payload := t.payload, nextId := t.nextId)
      && (t.nextId == END || ValidId(t.nextId))
      && t.payload == if kind < 0x600 then kind - 4 - s.offset else s.payload
  {
    hide Net16, ValidateNext, SaneHost;
    var t, kind := s.(length := 4), Net16(s, s.offset + 2);
    ValidateNextValid(h, IEEE_802DOT2, t);
    ValidateNextValid(h, LookupEthertype(kind), t);
  }

  // The header must fit what the total length allows; in a fragment, what has
  // been captured of the packet.
  predicate Ip4Ok(s: Scan) {
    Room(s) < 20 || Ip4HeaderLength(s) <=
      if !Ip4IsFragment(s) then Ip4TotalLength(s)
      else if Ip4Trims(s) then Ip4TotalLength(s)
      else Room(s)
  }

  // The Ethernet record gives up the trailing bytes, and only those: its extent
  // stays, and its payload now ends with the IP packet.
  lemma TrimLegal(s: Scan, t: Scan, packet: nat)
    requires Inv(s) && s.id in {IP4, IP6} && s.headers != [] && Last(s).id == ETHERNET && Room(s) > packet
    requires t.headers == s.headers && t.bufLen == s.bufLen
    ensures var u := TrimEthernet(t, Room(s) - packet);
      && SameRecords(s.headers, u.headers) && |u.headers| == |s.headers|
      && RecordEnd(Last(u)) == RecordEnd(Last(s)) == s.bufLen
      && Last(u).offset + Last(u).length + Last(u).payload == u.bufLen == s.offset + packet
      && Last(u).postfix == s.bufLen - u.bufLen
  {
    assert Inside(Last(s), s.memLen);
  }

  lemma Ip4ExtentLegal(s: Scan)
    requires Inv(s) && s.id == IP4 && Room(s) >= 20
    ensures Legal(s, Ip4Extent(s)) <==> Ip4Ok(s)
    ensures SameRecords(s.headers, Ip4Extent(s).headers)
  {
    SameRecordsAgain(s);
    if Ip4Trims(s) {
      TrimLegal(s, s, Ip4TotalLength(s));
    }
    hide SameRecords, Tiled, AllInside, EthernetCovers, Net16;
  }

  lemma Ip4BindFrame(h: Host, v: Scan)
    requires SaneHost(h) && ValidId(v.nextId)
    ensures var w := Ip4Bind(h, v);
      w == v.(key := w.key, nextId := w.nextId) && (w.nextId == END || ValidId(w.nextId))
  {
    hide AddressKey, Net32, Net16, ValidateNext;
    if IsAccessible(v, 16) {
      var protocol := At(v, v.offset + 9);
      var w := v.(key := AddressKey(v.key, IP4, (Net32(v, v.offset + 12), Net32(v, v.offset + 16)), protocol));
      if Ip4Protocol(protocol) != END {
        ValidateNextValid(h, Ip4Protocol(protocol), w);
      }
    }
  }

  lemma Ip4Legal(h: Host, s: Scan)
    requires Inv(s) && s.id == IP4 && SaneHost(h)
    ensures Legal(s, ScanIp4(h, s)) <==> Ip4Ok(s)
  {
    if Room(s) >= 20 {
      Ip4ExtentLegal(s);
      Ip4ExtentFrame(s);
      Ip4BindFrame(h, Ip4Extent(s));
      hide Ip4Extent, Ip4Bind, Ip4Ok, SameRecords;
    } else {
      SameLegal(s);
    }
  }

  lemma Ip4ExtentFrame(s: Scan)
    ensures Ip4Extent(s).nextId == s.nextId
  {
  }

  // Trailing bytes behind IPv4 in Ethernet move to the Ethernet postfix; without
  // them, or without Ethernet, no record and no limit changes.
  lemma Ip4TrimConserves(h: Host, s: Scan)
    requires Inv(s) && s.id == IP4 && Room(s) >= 20
    ensures var t := ScanIp4(h, s); var total := Ip4TotalLength(s);
      if s.headers != [] && Last(s).id == ETHERNET && s.offset + total < s.bufLen then
        && |t.headers| == |s.headers| && t.headers[..|s.headers| - 1] == s.headers[..|s.headers| - 1]
        && RecordEnd(Last(t)) == RecordEnd(Last(s))
        && Last(t).offset + Last(t).length + Last(t).payload == s.offset + total == t.bufLen
        && Last(t).postfix == s.bufLen - t.bufLen
      else
        t.headers == s.headers && t.bufLen == s.bufLen
  {
    if Ip4Trims(s) {
      TrimLegal(s, s, Ip4TotalLength(s));
    }
    Ip4BindKeeps(h, Ip4Extent(s));
    hide Ip4Bind, Net16;
  }

  lemma Ip4BindKeeps(h: Host, v: Scan)
    ensures Ip4Bind(h, v).headers == v.headers && Ip4Bind(h, v).bufLen == v.bufLen
  {
    hide AddressKey, Net32, Net16, ValidateNext;
  }

  predicate Ip6Ok(s: Scan) {
    Room(s) < 40 || Ip6Options(s) <= Ip6PayloadLength(s)
  }

  // The extension headers the walk skips, behind the fixed header.
  function Ip6Options(s: Scan): nat {
    var limit := if Ip6Trims(s) then s.offset + 40 + Ip6PayloadLength(s) else s.bufLen;
    if 0 <= s.offset && limit <= |s.buf|
    then OptionBytes(s.buf, s.offset + 40, limit, limit - 2 * s.offset, At(s, s.offset + 6)) else 0
  }

  // What scan_ip6 does to everything but flags, key and next id.
  lemma Ip6Conserves(h: Host, s: Scan)
    requires Inv(s) && s.id == IP6 && Room(s) >= 40
    ensures var t := ScanIp6(h, s);
      && t.length == 40 + Ip6Options(s) && t.length + t.payload == 40 + Ip6PayloadLength(s)
      && s.flags <= t.flags
      && t == s.(length := t.length, payload := t.payload, headers := t.headers, bufLen := t.bufLen,
                 flags := t.flags, key := t.key, nextId := t.nextId)
    ensures var t := ScanIp6(h, s); var packet := 40 + Ip6PayloadLength(s);
      if |s.headers| > 1 && Last(s).id == ETHERNET && s.offset + packet < s.bufLen then
        && SameRecords(s.headers, t.headers)
        && RecordEnd(Last(t)) == RecordEnd(Last(s))
        && Last(t).offset + Last(t).length + Last(t).payload == s.offset + packet == t.bufLen
      else
        t.headers == s.headers && t.bufLen == s.bufLen
  {
    hide Walk, ScanIp6, Ip6Key, Ip6Extent, Ip6Options, OptionBytes, Net16, SameRecords, Inv, RecordEnd, Ip6PayloadLength;
    Ip6ExtentConserves(s);
    var w, next := Ip6Key(h, Ip6Extent(s)), At(s, s.offset + 6);
    Ip6KeyFrame(h, Ip6Extent(s));
    Ip6OptionsAre(s);
    WalkConserves(h, w, next);
    Ip6IsWalk(h, s);
  }

  lemma Ip6IsWalk(h: Host, s: Scan)
    requires Room(s) >= 40
    ensures ScanIp6(h, s) == Walk(h, Ip6Key(h, Ip6Extent(s)), At(s, s.offset + 6))
  {
  }

  lemma Ip6OptionsAre(s: Scan)
    requires Inv(s) && s.id == IP6 && Room(s) >= 40
    ensures var u := Ip6Extent(s);
      && u.bufLen <= |u.buf|
      && Ip6Options(s) == OptionBytes(u.buf, u.offset + u.length, u.bufLen, u.bufLen - 2 * u.offset, At(s, s.offset + 6))
  {
    Ip6ExtentConserves(s);
    hide OptionBytes, Net16, SameRecords;
  }

  lemma Ip6ExtentConserves(s: Scan)
    requires Inv(s) && s.id == IP6 && Room(s) >= 40
    ensures var u := Ip6Extent(s); var packet := 40 + Ip6PayloadLength(s);
      && u == s.(length := 40, payload := Ip6PayloadLength(s), headers := u.headers, bufLen := u.bufLen)
      && s.offset >= 0 && u.bufLen <= |u.buf|
      && if |s.headers| > 1 && Last(s).id == ETHERNET && s.offset + packet < s.bufLen then
        && SameRecords(s.headers, u.headers) && |u.headers| == |s.headers|
        && RecordEnd(Last(u)) == RecordEnd(Last(s)) && Ip6Trims(s)
        && Last(u).offset + Last(u).length + Last(u).payload == s.offset + packet == u.bufLen
      else
        u.headers == s.headers && u.bufLen == s.bufLen && !Ip6Trims(s)
  {
    if Ip6Trims(s) {
      TrimLegal(s, s.(length := 40, payload := Ip6PayloadLength(s)), 40 + Ip6PayloadLength(s));
    }
    hide Net16, SameRecords;
  }

  lemma Ip6KeyFrame(h: Host, u: Scan)
    ensures Ip6Key(h, u) == u.(key := Ip6Key(h, u).key)
  {
    hide AddressKey, Address6;
  }

  lemma {:induction false} WalkNextValid(h: Host, s: Scan, kind: nat)
    requires SaneHost(h)
    requires ValidId(s.nextId)
    ensures var id := Walk(h, s, kind).nextId; id == END || ValidId(id)
    decreases s.bufLen - s.offset - s.length
  {
    if CanSkip(s, kind) {
      WalkNextValid(h, Skip(s, kind), At(s, s.offset + s.length));
    } else if Ip6Protocol(kind) != END {
      ValidateNextValid(h, Ip6Protocol(kind), s);
    }
  }

  lemma Ip6NextValid(h: Host, s: Scan)
    requires SaneHost(h) && ValidId(s.nextId)
    ensures var id := ScanIp6(h, s).nextId; id == END || ValidId(id)
  {
    if Room(s) >= 40 {
      Ip6KeyFrame(h, Ip6Extent(s));
      hide Walk, Ip6Key, Net16;
      WalkNextValid(h, Ip6Key(h, Ip6Extent(s)), At(s, s.offset + 6));
    }
  }

  lemma Ip6Legal(h: Host, s: Scan)
    requires Inv(s) && s.id == IP6 && SaneHost(h)
    ensures Legal(s, ScanIp6(h, s)) <==> Ip6Ok(s)
  {
    if Room(s) >= 40 {
      Ip6Conserves(h, s);
      Ip6NextValid(h, s);
      SameRecordsAgain(s);
      hide ScanIp6, Ip6Options, Ip6PayloadLength, SameRecords, Tiled, AllInside, EthernetCovers;
    } else {
      SameLegal(s);
    }
  }
}
