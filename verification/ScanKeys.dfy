/**
 What the native header scanners put into the flow key, and which keys whole scans
 produce.
 */
module ScanKeys {
  import opened Bytes
  import opened PacketState
  import opened ScanLoop
  import opened Protocols
  import opened NativeRuns
  import opened FlowKeys
  import opened Words

  // ------------------------------------------------------------ scanner by scanner

  lemma Ip4Keys(h: Host, s: Scan)
    ensures var k := ScanIp4(h, s).key;
      k == s.key || k == AddressKey(s.key, IP4, (Net32(s, s.offset + 12), Net32(s, s.offset + 16)), At(s, s.offset + 9))
  {
    hide Net16, Net32, ValidateNext, AddressKey;
    if Room(s) >= 20 {
      var v := Ip4Extent(s);
      assert v.key == s.key && v.offset == s.offset && v.buf == s.buf;
      hide Ip4Extent;
      SameNet32(v, s, s.offset + 12);
      SameNet32(v, s, s.offset + 16);
    }
  }

  lemma SameNet32(s: Scan, t: Scan, i: int)
    requires s.buf == t.buf
    ensures Net32(s, i) == Net32(t, i)
  {
    SameNet16(s, t, i);
    SameNet16(s, t, i + 2);
    hide Net16;
  }

  lemma {:induction false} WalkKey(h: Host, s: Scan, kind: nat)
    ensures Walk(h, s, kind).key == s.key
    decreases s.bufLen - s.offset - s.length
  {
    hide ValidateNext;
    if CanSkip(s, kind) {
      WalkKey(h, Skip(s, kind), At(s, s.offset + s.length));
    }
  }

  lemma Ip6Keys(h: Host, s: Scan)
    ensures var k := ScanIp6(h, s).key; var u := Ip6Extent(s);
      k == s.key || k == AddressKey(s.key, IP6, (Address6(h, u, u.offset + 8), Address6(h, u, u.offset + 24)), At(u, u.offset + 6))
  {
    hide Walk, AddressKey, Address6, Net16;
    if Room(s) >= 40 {
      assert Ip6Extent(s).key == s.key;
      hide Ip6Extent;
      WalkKey(h, Ip6Key(h, Ip6Extent(s)), At(s, s.offset + 6));
    }
  }

  lemma EthernetKeys(h: Host, s: Scan)
    ensures var k := ScanEthernet(h, s).key; var a := EthernetAddresses(h, s);
      || k == s.key || k == AddressKey(s.key, ETHERNET, a, Net16(s, s.offset + 12))
      || k == Dot3Key(AddressKey(s.key, ETHERNET, a, Net16(s, s.offset + 12)), a)
  {
    hide AddressKey, Dot3Key, ValidateNext, Net16;
    SameEthernet(h, s, s.(length := 14, key := AddressKey(s.key, ETHERNET, EthernetAddresses(h, s), Net16(s, s.offset + 12))));
    hide EthernetAddresses;
  }

  lemma SameEthernet(h: Host, s: Scan, t: Scan)
    requires s.buf == t.buf && s.offset == t.offset
    ensures EthernetAddresses(h, s) == EthernetAddresses(h, t)
  {
    hide XorWord, Net16;
    forall i ensures Net16(s, i) == Net16(t, i) && At(s, i) == At(t, i) {
      SameNet16(s, t, i);
    }
  }

  lemma PortKeys(h: Host, s: Scan)
    ensures var ports := (Net16(s, s.offset), Net16(s, s.offset + 2));
      && ScanTcp(h, s).key in {s.key, PortKey(s.key, TCP, ports)}
      && ScanUdp(h, s).key in {s.key, PortKey(s.key, UDP, ports)}
  {
    hide PortKey, ByPorts, Net16;
  }

  lemma OtherKeys(h: Host, s: Scan)
    ensures s.key == ScanPayload(s).key == ScanVlan(h, s).key == ScanPpp(h, s).key == ScanIcmp(h, s).key == ScanArp(s).key
  {
    hide ValidateNext, Net16;
  }

  // Headers without pairs, and those whose pairs are there, leave the key alone.
  lemma NativeKeepsKey(h: Host, s: Scan)
    requires s.id in NATIVE && s.id != ETHERNET && (s.id in {IP4, IP6, TCP, UDP} ==> s.id in s.key.headerMap)
    ensures Native(h, s).key == s.key
  {
    hide ScanPayload, ScanIp4, ScanIp6, ScanTcp, ScanUdp, ScanVlan, ScanPpp, ScanIcmp, ScanArp;
    hide Net16, Net32, Address6, Ip6Extent;
    if s.id == IP4 {
      Ip4Keys(h, s);
    } else if s.id == IP6 {
      Ip6Keys(h, s);
    } else if s.id in {TCP, UDP} {
      PortKeys(h, s);
    } else {
      OtherKeys(h, s);
    }
  }

  // ------------------------------------------------------------- keys of whole scans

  const WORD := 0x1_0000_0000

  predicate Sized(ps: seq<(nat, nat)>) {
    forall i :: 0 <= i < |ps| ==> ps[i].0 < WORD && ps[i].1 < WORD
  }

  // A key as scans make it: up to three pairs of 32-bit words, of which the second
  // has two equal sides, and a third one, of ports, only in a reversable key.
  predicate Shape(k: FlowKey) {
    && Raw(k) && |k.ids| == PAIRS && Sized(k.forward)
    && (k.pairCount >= 2 ==> k.forward[1].0 == k.forward[1].1)
    && (k.pairCount == 3 ==> k.reversable && k.forward[2].0 < 0x1_0000 && k.forward[2].1 < 0x1_0000)
  }

  lemma ShapeStart()
    ensures Shape(ZeroKey())
  {
  }

  lemma AddressShape(k: FlowKey, id: int, addresses: (nat, nat), next: nat)
    requires Shape(k) && addresses.0 < WORD && addresses.1 < WORD && next < WORD
    ensures Shape(AddressKey(k, id, addresses, next))
  {
  }

  lemma Dot3Shape(k: FlowKey, addresses: (nat, nat))
    requires Shape(k) && addresses.0 < WORD && addresses.1 < WORD
    ensures Shape(Dot3Key(k, addresses))
  {
  }

  lemma PortShape(k: FlowKey, id: int, ports: (nat, nat))
    requires Shape(k) && ports.0 < 0x1_0000 && ports.1 < 0x1_0000 && (id in k.headerMap || k.pairCount in {0, 2})
    ensures Shape(PortKey(k, id, ports))
  {
  }

  lemma NetSizes(s: Scan, i: int)
    ensures Net16(s, i) < 0x1_0000 && Net32(s, i) < WORD
  {
  }

  lemma HostSizes(h: Host, s: Scan, i: int)
    ensures Host16(h, s, i) < 0x1_0000 && Host32(h, s, i) < WORD
  {
  }

  lemma XorSize(x: nat, y: nat)
    requires x < WORD && y < WORD
    ensures XorWord(x, y) < WORD
  {
    WordSize();
    XorWordBound(x, y, 32);
  }

  lemma EthernetSizes(h: Host, s: Scan)
    ensures EthernetAddresses(h, s).0 < WORD && EthernetAddresses(h, s).1 < WORD
  {
    hide XorWord, Host16, Host32;
    HostSizes(h, s, s.offset);
    HostSizes(h, s, s.offset + 8);
    HostSizes(h, s, s.offset + 4);
    HostSizes(h, s, s.offset + 6);
    var high, low := if h.big then s.offset + 4 else s.offset + 6, if h.big then s.offset + 6 else s.offset + 4;
    XorSize(Host32(h, s, s.offset), Host16(h, s, high));
    XorSize(Host32(h, s, s.offset + 8), Host16(h, s, low));
  }

  lemma Address6Size(h: Host, s: Scan, i: int)
    ensures Address6(h, s, i) < WORD
  {
    hide XorWord, Host32;
    HostSizes(h, s, i);
    HostSizes(h, s, i + 4);
    HostSizes(h, s, i + 8);
    HostSizes(h, s, i + 12);
    XorSize(Host32(h, s, i), Host32(h, s, i + 4));
    XorSize(Host32(h, s, i + 8), Host32(h, s, i + 12));
    XorSize(XorWord(Host32(h, s, i), Host32(h, s, i + 4)), XorWord(Host32(h, s, i + 8), Host32(h, s, i + 12)));
  }

  // A transport header finds no pairs or the two of an address header. With three
  // pairs the code would write behind its arrays.
  predicate HasRoom(s: Scan) {
    s.id in {TCP, UDP} ==> s.id in s.key.headerMap || s.key.pairCount in {0, 2}
  }

  lemma NativeShape(h: Host, s: Scan)
    requires Shape(s.key) && s.id in NATIVE && HasRoom(s)
    ensures Shape(Native(h, s).key)
  {
    hide ScanPayload, ScanEthernet, ScanIp4, ScanIp6, ScanTcp, ScanUdp, ScanVlan, ScanPpp, ScanIcmp, ScanArp;
    hide Shape, AddressKey, PortKey, Dot3Key, Net16, Net32, EthernetAddresses, Address6, Ip6Extent;
    NetSizes(s, s.offset);
    NetSizes(s, s.offset + 2);
    if s.id == ETHERNET {
      EthernetKeys(h, s);
      EthernetSizes(h, s);
      NetSizes(s, s.offset + 12);
      var a := EthernetAddresses(h, s);
      AddressShape(s.key, ETHERNET, a, Net16(s, s.offset + 12));
      Dot3Shape(AddressKey(s.key, ETHERNET, a, Net16(s, s.offset + 12)), a);
    } else if s.id == IP4 {
      Ip4Keys(h, s);
      NetSizes(s, s.offset + 12);
      NetSizes(s, s.offset + 16);
      AddressShape(s.key, IP4, (Net32(s, s.offset + 12), Net32(s, s.offset + 16)), At(s, s.offset + 9));
    } else if s.id == IP6 {
      Ip6Keys(h, s);
      var u := Ip6Extent(s);
      Address6Size(h, u, u.offset + 8);
      Address6Size(h, u, u.offset + 24);
      AddressShape(s.key, IP6, (Address6(h, u, u.offset + 8), Address6(h, u, u.offset + 24)), At(u, u.offset + 6));
    } else if s.id in {TCP, UDP} {
      PortKeys(h, s);
      PortShape(s.key, s.id, (Net16(s, s.offset), Net16(s, s.offset + 2)));
    } else {
      OtherKeys(h, s);
    }
  }

  // A turn of a native scanner with room for its pair, or of another scanner that
  // leaves a key of the same shape.
  ghost predicate KeepsShape(env: Scanner, s: Scan) {
    s.id == END || (if s.id in NATIVE then HasRoom(s) else Shape(Dispatch(env, s.(recorded := false)).key))
  }

  // A turn of the loop leaves the key as the scanner left it.
  lemma BodyKey(env: Scanner, s: Scan)
    ensures Body(env, s).key == Dispatch(env, s.(recorded := false)).key
  {
    hide Bind, Dispatch;
  }

  // Every scan, of any packet and of any length, leaves a key of this shape.
  lemma {:induction false} KeyShapes(env: Scanner, h: Host, buf: seq<byte>, wireLen: int, firstId: int, n: nat)
    requires NativeEnv(env, h) && forall k :: 0 <= k < n ==> KeepsShape(env, After(env, Start(buf, wireLen, firstId), k))
    ensures Shape(After(env, Start(buf, wireLen, firstId), n).key)
  {
    hide Shape, Body, Dispatch, Native, HasRoom;
    if n == 0 {
      ShapeStart();
    } else {
      KeyShapes(env, h, buf, wireLen, firstId, n - 1);
      var s := After(env, Start(buf, wireLen, firstId), n - 1);
      hide Start;
      assert KeepsShape(env, s);
      if s.id != END {
        BodyKey(env, s);
        var r := s.(recorded := false);
        if s.id in NATIVE {
          assert Dispatch(env, r) == Native(h, r);
          hide NativeEnv;
          assert HasRoom(r) by { RoomForgets(s); }
          NativeShape(h, r);
        }
      }
    }
  }

  lemma RoomForgets(s: Scan)
    ensures HasRoom(s.(recorded := false)) <==> HasRoom(s)
  {
  }
}
