/**
 Whole scans with the native table: exactly which packets keep every turn of
 the loop within its contract.
 */
module NativeRuns {
  import opened Bytes
  import opened PacketState
  import opened RecordHeader
  import opened ScanLoop
  import opened ScanRuns
  import opened Protocols
  import opened NativeScanners

  const NATIVE := {PAYLOAD, ETHERNET, IP4, IP6, TCP, UDP, IEEE_802DOT1Q, PPP, ICMP, ARP}

  // init_native_protocols, for the scanners that are modelled.
  function Native(h: Host, s: Scan): Scan {
    if s.id == PAYLOAD then ScanPayload(s)
    else if s.id == ETHERNET then ScanEthernet(h, s)
    else if s.id == IP4 then ScanIp4(h, s)
    else if s.id == IP6 then ScanIp6(h, s)
    else if s.id == TCP then ScanTcp(h, s)
    else if s.id == UDP then ScanUdp(h, s)
    else if s.id == IEEE_802DOT1Q then ScanVlan(h, s)
    else if s.id == PPP then ScanPpp(h, s)
    else if s.id == ICMP then ScanIcmp(h, s)
    else if s.id == ARP then ScanArp(s)
    else s
  }

  predicate NativeOk(s: Scan) {
    && (s.id == ETHERNET ==> EthernetOk(s))
    && (s.id == IP4 ==> Ip4Ok(s))
    && (s.id == IP6 ==> Ip6Ok(s))
    && (s.id == IEEE_802DOT1Q ==> VlanOk(s))
  }

  lemma NativeLegal(h: Host, s: Scan)
    requires Inv(s) && s.id in NATIVE && SaneHost(h)
    ensures Legal(s, Native(h, s)) <==> NativeOk(s)
  {
    hide Legal, Inv, EthernetOk, Ip4Ok, Ip6Ok, VlanOk, SaneHost;
    hide ScanPayload, ScanEthernet, ScanIp4, ScanIp6, ScanTcp, ScanUdp, ScanVlan, ScanPpp, ScanIcmp, ScanArp;
    if s.id == PAYLOAD { PayloadLegal(s); }
    else if s.id == ETHERNET { EthernetLegal(h, s); }
    else if s.id == IP4 { Ip4Legal(h, s); }
    else if s.id == IP6 { Ip6Legal(h, s); }
    else if s.id == TCP { TcpLegal(h, s); }
    else if s.id == UDP { UdpLegal(h, s); }
    else if s.id == IEEE_802DOT1Q { VlanLegal(h, s); }
    else if s.id == PPP { PppLegal(h, s); }
    else if s.id == ICMP { IcmpLegal(h, s); }
    else { ArpLegal(s); }
  }

  // A scanner with the native table, with any scanners for other protocols, any
  // overrides, and heuristics that name real protocols and leave Ethernet alone.
  ghost predicate NativeEnv(env: Scanner, h: Host) {
    && SaneHost(h)
    && (forall s: Scan :: s.id in NATIVE ==> Dispatch(env, s) == Native(h, s))
    && (forall id, k, s :: id in env.heuristics && 0 <= k < |env.heuristics[id]| ==>
      env.heuristics[id][k](s) == END || ValidId(env.heuristics[id][k](s)))
    && ETHERNET !in env.heuristic
  }

  lemma {:induction false} GuessValid(hs: seq<Scan -> int>, s: Scan)
    requires forall k :: 0 <= k < |hs| ==> hs[k](s) == END || ValidId(hs[k](s))
    ensures Guess(hs, s) == END || ValidId(Guess(hs, s))
  {
    if hs != [] {
      GuessValid(hs[1..], s);
    }
  }

  lemma BindValid(env: Scanner, h: Host, t: Scan)
    requires NativeEnv(env, h) && (t.nextId == END || ValidId(t.nextId))
    ensures Bind(env, t) == END || ValidId(Bind(env, t))
    ensures t.id == ETHERNET ==> Bind(env, t) in {t.nextId, PAYLOAD}
  {
    if t.id in env.heuristics {
      GuessValid(env.heuristics[t.id], t.(offset := t.offset + t.length + t.gap, nextId := PAYLOAD));
    }
    hide Guess;
  }

  // An Ethernet II frame leaves payload and postfix alone, and a length frame
  // does not lead straight to IP.
  lemma EthernetToIp(h: Host, s: Scan)
    requires s.id == ETHERNET && SaneHost(h) && s.payload == 0 && s.postfix == 0
    ensures var t := ScanEthernet(h, s);
      t.length > 0 && t.nextId in {IP4, IP6} && s.length == 0 ==> t.payload == 0 && t.postfix == 0
  {
    hide AddressKey, Dot3Key, EthernetAddresses;
  }

  // A turn of the loop at a native id is legal exactly when its guard holds.
  lemma TurnLegal(env: Scanner, h: Host, s: Scan)
    requires NativeEnv(env, h) && Inv(s) && s.id in NATIVE
    ensures LegalTurn(env, s) <==> NativeOk(s)
  {
    var r := s.(recorded := false);
    assert Inv(r) by { InvForgets(s); }
    OkForgets(s);
    assert Dispatch(env, r) == Native(h, r);
    NativeLegal(h, r);
    if NativeOk(s) {
      var t := Native(h, r);
      BindValid(env, h, t);
      if s.id == ETHERNET {
        EthernetToIp(h, r);
        hide ScanEthernet, Bind, Dispatch, NativeEnv, Legal, NativeOk;
      }
      hide Native, Bind, Dispatch, NativeEnv, NativeOk;
    } else {
      hide Native, Bind, NativeOk, Legal;
    }
  }

  lemma InvForgets(s: Scan)
    requires Inv(s)
    ensures Inv(s.(recorded := false))
  {
    hide Tiled, AllInside;
  }

  lemma SameNet16(s: Scan, t: Scan, i: int)
    requires s.buf == t.buf
    ensures Net16(s, i) == Net16(t, i)
  {
  }

  lemma OkForgets(s: Scan)
    ensures NativeOk(s.(recorded := false)) <==> NativeOk(s)
  {
    hide OptionBytes, Net16;
    forall i ensures Net16(s.(recorded := false), i) == Net16(s, i) {
      SameNet16(s.(recorded := false), s, i);
    }
  }

  // Every turn so far was at a native id with its guard, or legal by itself.
  ghost predicate Handled(env: Scanner, s: Scan) {
    s.id == END || (if s.id in NATIVE then NativeOk(s) else LegalTurn(env, s))
  }

  // A whole scan is legal if and only if the guards hold along the way; so the
  // safety, record, flag and termination theorems apply to exactly these scans.
  lemma {:induction false} NativeRunLegal(env: Scanner, h: Host, s: Scan, n: nat)
    requires NativeEnv(env, h) && Inv(s)
    ensures LegalRun(env, s, n) <==> forall k :: 0 <= k < n ==> Handled(env, After(env, s, k))
  {
    hide NativeEnv, Inv, LegalTurn, After, NativeOk;
    if n > 0 {
      NativeRunLegal(env, h, s, n - 1);
      var t := After(env, s, n - 1);
      assert LegalRun(env, s, n) <==> LegalRun(env, s, n - 1) && (t.id != END ==> LegalTurn(env, t));
      if LegalRun(env, s, n - 1) {
        RunInv(env, s, n - 1);
        if t.id in NATIVE {
          TurnLegal(env, h, t);
        }
      }
    }
  }

  // What a captured packet of any content is guaranteed, from scan() to its end.
  lemma NativeScan(env: Scanner, h: Host, buf: seq<byte>, wireLen: int, firstId: int, n: nat)
    requires NativeEnv(env, h) && ValidId(firstId) && n > |buf|
    requires forall k :: 0 <= k < n ==> Handled(env, After(env, Start(buf, wireLen, firstId), k))
    ensures var t := After(env, Start(buf, wireLen, firstId), n);
      && t.id == END
      && Tiled(t.headers, t.offset) && AllInside(t.headers, |buf|) && TotalLength(t.headers) == t.offset <= |buf|
      && FlagsInv(t)
  {
    var s := Start(buf, wireLen, firstId);
    StartInv(buf, wireLen, firstId);
    NativeRunLegal(env, h, s, n);
    RunInv(env, s, n);
    assert PayloadTakesAll(env) by {
      NativePayload(env, h);
    }
    assert s.id == firstId && Remaining(s) == |buf| && s.headers == [] && s.memLen == |buf|;
    RunMemory(env, s, n);
    hide Inv, LegalRun, After, NativeEnv, Handled, FlagsInv, PayloadTakesAll;
    RunEndsSoon(env, s, n);
    OffsetIsTotal(env, s, n);
    FlagsOverRuns(env, s, n);
    InvGives(After(env, s, n));
  }

  lemma InvGives(t: Scan)
    requires Inv(t)
    ensures Tiled(t.headers, t.offset) && AllInside(t.headers, t.memLen) && t.offset <= t.memLen
  {
  }

  lemma NativePayload(env: Scanner, h: Host)
    requires NativeEnv(env, h)
    ensures PayloadTakesAll(env)
  {
    var one := Start([1], 1, PAYLOAD);
    assert Dispatch(env, one) == Native(h, one) == ScanPayload(one);
    assert ScanPayload(one).length == 1 != one.length;
    assert PAYLOAD in env.table;
    forall s: Scan | s.id == PAYLOAD
      ensures env.table[PAYLOAD](s) == ScanPayload(s)
    {
      assert Dispatch(env, s) == Native(h, s);
    }
  }

  lemma {:induction false} RunMemory(env: Scanner, s: Scan, n: nat)
    requires Inv(s) && LegalRun(env, s, n)
    ensures After(env, s, n).memLen == s.memLen
  {
    hide Inv, LegalRun, LegalTurn, Body;
    if n > 0 {
      RunStep(env, s, n);
      RunMemory(env, s, n - 1);
      RunInv(env, s, n - 1);
      var t := After(env, s, n - 1);
      if t.id != END {
        BodyMemory(env, t);
      }
    }
  }

  lemma BodyMemory(env: Scanner, s: Scan)
    requires Inv(s) && s.id != END && LegalTurn(env, s)
    ensures Body(env, s).memLen == s.memLen
  {
    TurnCases(env, s);
    var t := Dispatch(env, s.(recorded := false));
    hide Body, Bind, Dispatch, LegalTurn, SameRecords, Tiled, AllInside, Record;
    if t.length > 0 {
      RecordInside(t.(nextId := Bind(env, t)));
    }
  }

  // What the guard of scan_ip4 prevents: a total length shorter than the header
  // is recorded as a negative payload, unless the capture ends even earlier.
  lemma Ip4ShortTotal(h: Host, s: Scan)
    requires Inv(s) && s.id == IP4 && SaneHost(h) && Room(s) >= 20 && !s.recorded && s.bufLen <= s.wireLen
    requires !Ip4IsFragment(s) && !Ip4Ok(s)
    ensures Last(Record(ScanIp4(h, s))).payload < 0 <==> Ip4TotalLength(s) <= Room(s)
  {
    var v := Ip4Extent(s);
    Ip4BindFrame(h, v);
    hide Ip4Bind, Net16, Tiled, AllInside, EthernetCovers;
    var w := Ip4Bind(h, v);
    assert w.payload == Ip4TotalLength(s) - Ip4HeaderLength(s) < 0 && w.postfix == 0 && w.length == Ip4HeaderLength(s);
    assert w.bufLen == (if Ip4Trims(s) then s.offset + Ip4TotalLength(s) else s.bufLen);
    assert w.bufLen <= w.wireLen && w.prefix == 0 && w.gap == 0 && w.offset == s.offset && w.id == IP4;
    NegativePayload(w);
  }

  lemma NegativePayload(w: Scan)
    requires !w.recorded && w.payload < 0 && w.postfix == 0 && w.prefix == 0 && w.gap == 0 && w.bufLen <= w.wireLen
    ensures Last(Record(w)).payload < 0 <==> w.offset + w.length + w.payload <= w.bufLen
  {
  }
}
