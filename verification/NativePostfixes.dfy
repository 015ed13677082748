/**
 The postfix of a record can grow when it is adjusted to a truncated packet.
 With the native scanners it never does.
 */
module NativePostfixes {
  import opened Bytes
  import opened PacketState
  import opened RecordHeader
  import opened ScanLoop
  import opened Protocols
  import opened NativeScanners
  import opened NativeRuns
  import opened RtpPadding

  // Validation functions and heuristics that do not name Ethernet.
  ghost predicate NoEthernetInside(env: Scanner, h: Host) {
    && (forall id, s :: id in h.validate ==> h.validate[id](s) != ETHERNET)
    && (forall id, k, s :: id in env.heuristics && 0 <= k < |env.heuristics[id]| ==>
      env.heuristics[id][k](s) != ETHERNET)
  }

  // A turn of a native scanner, of scan_rtp behind another header, or of another
  // scanner that reports no postfix, does not name Ethernet and leaves the stack
  // empty.
  ghost predicate Quiet(env: Scanner, s: Scan) {
    var t := Dispatch(env, s.(recorded := false));
    || s.id == END || s.id in NATIVE || (IsRtp(env, s) && Behind(s))
    || (t.postfix == 0 && t.nextId != ETHERNET && t.stack == [])
  }

  // A turn of scan_rtp.
  ghost predicate IsRtp(env: Scanner, s: Scan) {
    var r := s.(recorded := false);
    s.id == RTP && (Dispatch(env, r) == ScanRtp(true, r) || Dispatch(env, r) == ScanRtp(false, r))
  }

  predicate Behind(s: Scan) { s.offset >= 2 && s.bufLen <= s.wireLen }

  // What every turn finds: no postfix is left over, and Ethernet comes first or
  // not at all.
  predicate Clean(s: Scan) {
    && s.postfix == 0 && s.stack == [] && s.nextId == PAYLOAD && s.length == 0
    && (s.id == ETHERNET ==> s.offset == 0 && s.bufLen == s.memLen && s.prefix == 0 && s.gap == 0)
  }

  lemma ValidateNextInside(h: Host, env: Scanner, id: int, s: Scan)
    requires NoEthernetInside(env, h) && id != ETHERNET
    ensures ValidateNext(h, id, s) != ETHERNET
  {
  }

  lemma ByPortsInside(h: Host, env: Scanner, s: Scan, ofPort: nat -> int, sport: nat, dport: nat)
    requires NoEthernetInside(env, h) && s.nextId != ETHERNET && forall p :: ofPort(p) != ETHERNET
    ensures ByPorts(h, s, ofPort, sport, dport) != ETHERNET
  {
    hide ValidateNext, NoEthernetInside;
    if ofPort(dport) != END {
      ValidateNextInside(h, env, ofPort(dport), s);
    } else if ofPort(sport) != END {
      ValidateNextInside(h, env, ofPort(sport), s);
    }
  }

  // Scanners that report neither a postfix nor Ethernet; a header has at least
  // four bytes, unless it is the payload.
  predicate Reports(s: Scan, t: Scan) {
    && t.postfix == s.postfix && t.stack == s.stack && t.nextId != ETHERNET && t.recorded == s.recorded
    && StepsAhead(s, t)
  }

  predicate StepsAhead(s: Scan, t: Scan) {
    && t.offset == s.offset && t.prefix == s.prefix && t.gap == s.gap
    && (t.length == s.length || t.length >= 4 || (t.id == PAYLOAD && t.length == Room(s) == Room(t)))
  }

  lemma LinkReports(h: Host, env: Scanner, s: Scan)
    requires NoEthernetInside(env, h) && s.nextId == PAYLOAD
    ensures Reports(s, ScanPayload(s)) && Reports(s, ScanVlan(h, s)) && Reports(s, ScanPpp(h, s)) && Reports(s, ScanArp(s))
  {
    hide Net16, ValidateNext, NoEthernetInside;
    var t, kind := s.(length := 4), Net16(s, s.offset + 2);
    ValidateNextInside(h, env, IEEE_802DOT2, t);
    ValidateNextInside(h, env, LookupEthertype(kind), t);
    ValidateNextInside(h, env, IP4, t);
    ValidateNextInside(h, env, IP6, t);
  }

  lemma TransportReports(h: Host, env: Scanner, s: Scan)
    requires NoEthernetInside(env, h) && s.nextId == PAYLOAD && s.length == 0
    ensures Reports(s, ScanTcp(h, s)) && Reports(s, ScanUdp(h, s)) && Reports(s, ScanIcmp(h, s))
  {
    hide Net16, ValidateNext, NoEthernetInside, ByPorts, PortKey;
    var sport, dport := Net16(s, s.offset), Net16(s, s.offset + 2);
    ByPortsInside(h, env, ScanTcp(h, s).(nextId := PAYLOAD), TcpPort, sport, dport);
    ByPortsInside(h, env, ScanUdp(h, s).(nextId := PAYLOAD), UdpPort, sport, dport);
    ValidateNextInside(h, env, IP4, s.(length := 8));
  }

  lemma Ip4Reports(h: Host, env: Scanner, s: Scan)
    requires NoEthernetInside(env, h) && s.nextId == PAYLOAD && s.length == 0
    ensures Reports(s, ScanIp4(h, s))
  {
    hide Net16, Net32, ValidateNext, NoEthernetInside, AddressKey;
    if Room(s) >= 20 {
      var v := Ip4Extent(s);
      assert v.postfix == s.postfix && v.stack == s.stack && v.nextId == PAYLOAD && v.recorded == s.recorded;
      hide Ip4Extent;
      if IsAccessible(v, 16) {
        var protocol := At(v, v.offset + 9);
        var w := v.(key := AddressKey(v.key, IP4, (Net32(v, v.offset + 12), Net32(v, v.offset + 16)), protocol));
        ValidateNextInside(h, env, Ip4Protocol(protocol), w);
      }
    }
  }

  lemma {:induction false} WalkReports(h: Host, env: Scanner, s: Scan, kind: nat)
    requires NoEthernetInside(env, h) && s.nextId == PAYLOAD && s.length >= 0
    ensures Reports(s, Walk(h, s, kind)) && Walk(h, s, kind).length >= s.length
    decreases s.bufLen - s.offset - s.length
  {
    hide NoEthernetInside, ValidateNext;
    if CanSkip(s, kind) {
      WalkReports(h, env, Skip(s, kind), At(s, s.offset + s.length));
    } else {
      ValidateNextInside(h, env, Ip6Protocol(kind), s);
    }
  }

  lemma Ip6ExtentReports(s: Scan)
    ensures var u := Ip6Extent(s);
      && u.length == 40 && u.postfix == s.postfix && u.stack == s.stack && u.nextId == s.nextId && u.recorded == s.recorded
      && u.offset == s.offset && u.prefix == s.prefix && u.gap == s.gap && u.id == s.id
  {
    hide Net16;
  }

  lemma Ip6Reports(h: Host, env: Scanner, s: Scan)
    requires NoEthernetInside(env, h) && s.nextId == PAYLOAD && s.length == 0
    ensures Reports(s, ScanIp6(h, s))
  {
    hide Walk, Ip6Key, Ip6Extent, Net16, NoEthernetInside, At;
    if Room(s) >= 40 {
      var u := Ip6Extent(s);
      Ip6ExtentReports(s);
      Ip6KeyFrame(h, u);
      WalkReports(h, env, Ip6Key(h, u), At(s, s.offset + 6));
    }
  }

  // Every native scanner but that of Ethernet.
  lemma NativeReports(h: Host, env: Scanner, s: Scan)
    requires NoEthernetInside(env, h) && s.nextId == PAYLOAD && s.length == 0 && s.id in NATIVE && s.id != ETHERNET
    ensures Reports(s, Native(h, s))
  {
    hide NoEthernetInside, Reports;
    hide ScanPayload, ScanEthernet, ScanIp4, ScanIp6, ScanTcp, ScanUdp, ScanVlan, ScanPpp, ScanIcmp, ScanArp;
    if s.id == IP4 {
      Ip4Reports(h, env, s);
    } else if s.id == IP6 {
      Ip6Reports(h, env, s);
    } else if s.id in {TCP, UDP, ICMP} {
      TransportReports(h, env, s);
    } else {
      LinkReports(h, env, s);
    }
  }

  // The postfix of an 802.3 frame ends where the captured packet does.
  lemma EthernetReports(h: Host, env: Scanner, s: Scan)
    requires NoEthernetInside(env, h) && Clean(s) && s.id == ETHERNET
    ensures var t := ScanEthernet(h, s);
      && t.stack == [] && t.nextId != ETHERNET && t.recorded == s.recorded
      && (t.postfix == 0 || (t.length == 14 && t.offset == 0 && t.prefix == 0 && t.gap == 0
        && 14 + t.payload + t.postfix == t.memLen))
      && (t.length == 0 ==> t.postfix == 0) && StepsAhead(s, t)
  {
    hide NoEthernetInside, ValidateNext, Net16, AddressKey, Dot3Key, EthernetAddresses;
    if Room(s) >= 14 {
      var kind := Net16(s, s.offset + 12);
      var t := s.(length := 14, key := AddressKey(s.key, ETHERNET, EthernetAddresses(h, s), kind));
      ValidateNextInside(h, env, IEEE_802DOT2, t);
      ValidateNextInside(h, env, LookupEthertype(kind), t);
    }
  }

  // Recording such a header leaves the postfix as it is, or cuts it.
  lemma RecordedPostfix(t: Scan)
    requires !t.recorded
    requires t.postfix == 0 || (t.length == 14 && t.offset == 0 && t.prefix == 0 && t.gap == 0
      && 14 + t.payload + t.postfix == t.memLen)
    ensures var u := Record(t); u.headers != [] && Last(u).postfix <= t.postfix && u.postfix == 0 && u.stack == t.stack
  {
    hide AddHeader, RecordFlags;
  }

  lemma {:induction false} GuessInside(hs: seq<Scan -> int>, s: Scan)
    requires forall k :: 0 <= k < |hs| ==> hs[k](s) != ETHERNET
    ensures Guess(hs, s) != ETHERNET
  {
    if hs != [] {
      GuessInside(hs[1..], s);
    }
  }

  lemma BindInside(env: Scanner, h: Host, t: Scan)
    requires NoEthernetInside(env, h) && t.nextId != ETHERNET
    ensures Bind(env, t) != ETHERNET
  {
    if t.id in env.heuristics {
      GuessInside(env.heuristics[t.id], t.(offset := t.offset + t.length + t.gap, nextId := PAYLOAD));
    }
    hide Guess;
  }

  // The rest of a turn.
  lemma SettleClean(env: Scanner, h: Host, s: Scan, t: Scan)
    requires NoEthernetInside(env, h) && t == Dispatch(env, s.(recorded := false))
    requires t.stack == [] && t.nextId != ETHERNET && (t.length == 0 ==> t.postfix == 0)
    requires t.length != 0 ==> Record(t.(nextId := Bind(env, t))).postfix == 0
    requires t.length != 0 ==> Record(t.(nextId := Bind(env, t))).stack == []
    ensures Clean(Body(env, s)) && Body(env, s).id != ETHERNET
  {
    BindInside(env, h, t);
    RecordKeepsNext(t.(nextId := Bind(env, t)));
    hide NoEthernetInside, Dispatch, Bind, Record;
  }

  lemma RtpReports(env: Scanner, s: Scan)
    requires IsRtp(env, s) && Behind(s) && s.length == 0 && s.nextId == PAYLOAD
    ensures var r := s.(recorded := false); Reports(r, Dispatch(env, r))
  {
    var r := s.(recorded := false);
    PaddingIsIgnored(true, r);
    PaddingIsIgnored(false, r);
    hide ScanRtp, Dispatch;
  }

  // A native scanner, or scan_rtp behind another header.
  ghost predicate Modelled(env: Scanner, s: Scan) { s.id in NATIVE || (IsRtp(env, s) && Behind(s)) }

  // One turn: a native scanner's postfix is not larger in the record, and the
  // next turn finds everything clean.
  lemma TurnPostfix(env: Scanner, h: Host, s: Scan)
    requires NativeEnv(env, h) && NoEthernetInside(env, h) && Clean(s) && Quiet(env, s) && s.id != END
    ensures Clean(Body(env, s)) && Body(env, s).id != ETHERNET
    ensures var t := Dispatch(env, s.(recorded := false));
      Modelled(env, s) && t.length != 0 ==> Body(env, s).headers != [] && Last(Body(env, s)).postfix <= t.postfix
  {
    var r := s.(recorded := false);
    var t := Dispatch(env, r);
    var v := t.(nextId := Bind(env, t));
    if Modelled(env, s) {
      ModelledTurn(env, h, s);
      hide NativeEnv, NoEthernetInside, Dispatch, Bind, Record, Modelled;
      RecordedPostfix(v);
      SettleClean(env, h, s, t);
    } else {
      hide NativeEnv, NoEthernetInside, Dispatch, Native, Bind;
      QuietRecord(v);
      hide Record;
      SettleClean(env, h, s, t);
    }
  }

  // What the lemmas about the scanners come to.
  lemma ModelledTurn(env: Scanner, h: Host, s: Scan)
    requires NativeEnv(env, h) && NoEthernetInside(env, h) && Clean(s) && Modelled(env, s)
    ensures var r := s.(recorded := false); var t := Dispatch(env, r);
      && t.stack == [] && t.nextId != ETHERNET && !t.recorded && (t.length == 0 ==> t.postfix == 0)
      && (t.postfix == 0 || (t.length == 14 && t.offset == 0 && t.prefix == 0 && t.gap == 0
        && 14 + t.payload + t.postfix == t.memLen))
      && StepsAhead(r, t)
  {
    var r := s.(recorded := false);
    hide NoEthernetInside, Native, ScanEthernet, StepsAhead;
    if s.id == ETHERNET {
      assert Dispatch(env, r) == ScanEthernet(h, r) by {
        NativeIsEthernet(h, r);
      }
      hide NativeEnv, Dispatch;
      EthernetReports(h, env, r);
    } else if s.id in NATIVE {
      assert Dispatch(env, r) == Native(h, r);
      hide NativeEnv, Dispatch;
      NativeReports(h, env, r);
    } else {
      hide NativeEnv, Dispatch;
      RtpReports(env, s);
    }
  }

  lemma NativeIsEthernet(h: Host, s: Scan)
    requires s.id == ETHERNET
    ensures Native(h, s) == ScanEthernet(h, s) && ETHERNET in NATIVE
  {
    hide ScanEthernet;
  }

  lemma QuietRecord(t: Scan)
    requires t.postfix == 0 && t.stack == []
    ensures Record(t).postfix == 0 && Record(t).stack == []
  {
  }

  // In every run from scan() on, whatever the packet and however long: no record
  // of a native header, or of RTP behind another header, has a postfix larger than
  // its scanner reported.
  lemma {:induction false} PostfixNeverGrows(env: Scanner, h: Host, buf: seq<byte>, wireLen: int, firstId: int, n: nat)
    requires NativeEnv(env, h) && NoEthernetInside(env, h)
    requires forall k :: 0 <= k < n ==> Quiet(env, After(env, Start(buf, wireLen, firstId), k))
    ensures Clean(After(env, Start(buf, wireLen, firstId), n))
    ensures forall k :: 0 <= k < n ==>
      var s := After(env, Start(buf, wireLen, firstId), k); var t := Dispatch(env, s.(recorded := false));
      Modelled(env, s) && t.length != 0 ==> Body(env, s).headers != [] && Last(Body(env, s)).postfix <= t.postfix
  {
    hide NativeEnv, NoEthernetInside, Quiet, Dispatch, Body;
    if n > 0 {
      PostfixNeverGrows(env, h, buf, wireLen, firstId, n - 1);
      var s := After(env, Start(buf, wireLen, firstId), n - 1);
      hide Start, Clean;
      if s.id != END {
        TurnPostfix(env, h, s);
      }
    }
  }

  // ------------------------------------------------------- native headers and RTP

  ghost predicate Known(env: Scanner, s: Scan) { s.id == END || s.id in NATIVE || IsRtp(env, s) }

  // Where the loop stands: RTP is never the first header.
  predicate Stands(s: Scan) {
    && s.offset >= 0 && s.prefix == 0 && s.gap == 0 && (s.id == END || s.offset <= s.bufLen)
    && (s.id == RTP ==> Behind(s))
  }

  lemma RecordAhead(t: Scan)
    requires !t.recorded && t.prefix == 0 && t.gap == 0 && t.offset >= 0 && t.length >= 0
    ensures var u := Record(t);
      && u.offset == t.offset && u.prefix == 0 && u.gap == 0 && u.bufLen <= u.wireLen && u.bufLen <= t.bufLen
      && u.length >= 0 && (u.length == t.length || u.offset + u.length >= u.bufLen)
  {
    hide AddHeader, RecordFlags;
  }

  // Once a header has been recorded, wire_len bounds buf_len.
  lemma SettleStands(env: Scanner, r: Scan, t: Scan)
    requires r.offset >= 0 && r.prefix == 0 && r.gap == 0 && r.offset <= r.bufLen && r.length == 0
    requires StepsAhead(r, t) && t.stack == [] && !t.recorded
    ensures Stands(Advance(Settle(env, t)))
  {
    hide Bind, Record;
    if t.length != 0 {
      RecordAhead(t.(nextId := Bind(env, t)));
    }
  }

  lemma StandsNext(env: Scanner, h: Host, s: Scan)
    requires NativeEnv(env, h) && NoEthernetInside(env, h) && Clean(s) && Stands(s) && Modelled(env, s) && s.id != END
    ensures Stands(Body(env, s))
  {
    var r := s.(recorded := false);
    ModelledTurn(env, h, s);
    hide NativeEnv, NoEthernetInside, Modelled, Dispatch, StepsAhead, Settle, Advance, Behind;
    SettleStands(env, r, Dispatch(env, r));
  }

  lemma KnownIsModelled(env: Scanner, s: Scan)
    requires Known(env, s) && Stands(s) && s.id != END
    ensures Modelled(env, s) && Quiet(env, s)
  {
    hide ScanRtp, Dispatch;
  }

  lemma RtpStands(env: Scanner, s: Scan)
    requires Known(env, s) && Clean(s) && Stands(s) && s.id == RTP
    ensures Dispatch(env, s.(recorded := false)).postfix == 0
  {
    RtpReports(env, s);
    hide IsRtp, Dispatch;
  }

  lemma {:induction false} KnownStands(env: Scanner, h: Host, buf: seq<byte>, wireLen: int, firstId: int, n: nat)
    requires NativeEnv(env, h) && NoEthernetInside(env, h) && firstId != RTP
    requires forall k :: 0 <= k < n ==> Known(env, After(env, Start(buf, wireLen, firstId), k))
    ensures var s := After(env, Start(buf, wireLen, firstId), n); Clean(s) && Stands(s)
  {
    hide NativeEnv, NoEthernetInside, Known, Quiet, Modelled, Dispatch, Body;
    if n > 0 {
      KnownStands(env, h, buf, wireLen, firstId, n - 1);
      var s := After(env, Start(buf, wireLen, firstId), n - 1);
      hide Start, Clean, Stands;
      if s.id != END {
        KnownIsModelled(env, s);
        StandsNext(env, h, s);
        TurnPostfix(env, h, s);
      }
    }
  }

  // So a scan that meets only native headers and RTP, whatever the packet, records
  // no postfix larger than reported, and never looks for the padding of RTP.
  lemma PaddingNeverRead(env: Scanner, h: Host, buf: seq<byte>, wireLen: int, firstId: int, n: nat)
    requires NativeEnv(env, h) && NoEthernetInside(env, h) && firstId != RTP
    requires forall k :: 0 <= k <= n ==> Known(env, After(env, Start(buf, wireLen, firstId), k))
    ensures var s := After(env, Start(buf, wireLen, firstId), n); var t := Dispatch(env, s.(recorded := false));
      && (s.id != END && t.length != 0 ==> Body(env, s).headers != [] && Last(Body(env, s)).postfix <= t.postfix)
      && (s.id == RTP ==> t.postfix == 0)
  {
    hide *;
    KnownStands(env, h, buf, wireLen, firstId, n);
    var s := After(env, Start(buf, wireLen, firstId), n);
    if s.id != END {
      KnownIsModelled(env, s);
      TurnPostfix(env, h, s);
    }
    if s.id == RTP {
      RtpStands(env, s);
    }
  }
}
