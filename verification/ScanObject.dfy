/**
 scan_t as the object that the scanner's C functions update in place: each
 method is proved to compute the corresponding function of its members.
 */
module ScanObject {
  import opened Bytes
  import opened Gf2
  import opened PacketState
  import opened RecordHeader
  import opened ScanLoop
  import opened ScanRuns
  import opened Protocols
  import opened NativeScanners
  import opened NativeRuns
  import opened RtpPadding
  import FlowKeys

  class ScanT {
    var buf: seq<byte>
    var bufLen: int
    var wireLen: int
    var memLen: int
    var offset: int
    var length: int
    var id: int
    var nextId: int
    var flags: set<Flag>
    var prefix: int
    var gap: int
    var payload: int
    var postfix: int
    var hdrFlags: set<Flag>
    var recorded: bool
    var headers: seq<Header>
    var maps: seq<Bits>
    var key: FlowKey
    var sport: int
    var dport: int
    var stack: seq<Pending>

    function State(): Scan
      reads this
    {
      Scan(buf, bufLen, wireLen, memLen, offset, length, id, nextId, flags, prefix, gap, payload, postfix, hdrFlags,
           recorded, headers, maps, key, sport, dport, stack)
    }

    constructor (buf: seq<byte>, wireLen: int, firstId: int)
      ensures State() == Start(buf, wireLen, firstId)
    {
      this.buf, bufLen, this.wireLen, memLen, offset, length := buf, |buf|, wireLen, |buf|, 0, 0;
      id, nextId, flags, prefix, gap, payload, postfix, hdrFlags := firstId, PAYLOAD, {}, 0, 0, 0, 0, {};
      recorded, headers, maps, key, sport, dport, stack := false, [], seq(8, _ => Zeros(64)), ZeroKey(), 0, 0, [];
    }

    // What a header scanner from the table leaves behind.
    method Become(t: Scan)
      modifies this
      ensures State() == t
    {
      BecomeLengths(t);
      BecomeHeader(t);
      BecomeRecords(t);
    }

    method BecomeLengths(t: Scan)
      modifies `buf, `bufLen, `wireLen, `memLen, `offset, `length, `id
      ensures buf == t.buf && bufLen == t.bufLen && wireLen == t.wireLen && memLen == t.memLen
      ensures offset == t.offset && length == t.length && id == t.id
    {
      buf, bufLen, wireLen, memLen, offset, length, id := t.buf, t.bufLen, t.wireLen, t.memLen, t.offset, t.length, t.id;
    }

    method BecomeHeader(t: Scan)
      modifies `nextId, `flags, `prefix, `gap, `payload, `postfix, `hdrFlags
      ensures nextId == t.nextId && flags == t.flags && prefix == t.prefix && gap == t.gap
      ensures payload == t.payload && postfix == t.postfix && hdrFlags == t.hdrFlags
    {
      nextId, flags, prefix, gap, payload, postfix := t.nextId, t.flags, t.prefix, t.gap, t.payload, t.postfix;
      hdrFlags := t.hdrFlags;
    }

    method BecomeRecords(t: Scan)
      modifies `recorded, `headers, `maps, `key, `sport, `dport, `stack
      ensures recorded == t.recorded && headers == t.headers && maps == t.maps && key == t.key
      ensures sport == t.sport && dport == t.dport && stack == t.stack
    {
      recorded, headers, maps, key, sport, dport, stack := t.recorded, t.headers, t.maps, t.key, t.sport, t.dport, t.stack;
    }

    // ------------------------------------------------- packet_jsmall_scanner.cpp

    // void adjustForTruncatedPacket(scan_t *scan)
    method AdjustForTruncatedPacket()
      modifies `hdrFlags, `postfix, `payload, `gap, `length
      ensures State() == Adjust(old(State()))
    {
      hide AdjustPayload;
      var start := offset + prefix + length + gap + payload;
      var end := start + postfix;
      if end > bufLen {
        if postfix > 0 {
          hdrFlags := hdrFlags + {PrefixTruncated};
          postfix := if start > memLen then 0 else memLen - start;
          postfix := if postfix < 0 then 0 else postfix;
        }
        start := start - payload;
        end := start + payload;
        if end > bufLen {
          TruncatePayload(start);
        }
      }
    }

    // from "position at payload" on
    method TruncatePayload(start0: int)
      modifies `hdrFlags, `payload, `gap, `length
      ensures State() == AdjustPayload(old(State()), start0)
    {
      hide AdjustGap, AdjustHeader;
      var start := start0;
      CutPayload(start);
      start := start - gap;
      TruncateGap(start);
      start := start - length;
      TruncateHeader(start);
    }

    method CutPayload(start: int)
      modifies `hdrFlags, `payload
      ensures hdrFlags == old(hdrFlags) + {PayloadTruncated} && payload == Max(0, bufLen - start)
    {
      hdrFlags := hdrFlags + {PayloadTruncated};
      payload := if start > bufLen then 0 else bufLen - start;
      payload := if payload < 0 then 0 else payload;
    }

    method TruncateGap(start: int)
      modifies `hdrFlags, `gap
      ensures State() == AdjustGap(old(State()), start)
    {
      var end := start + gap;
      if gap > 0 && end > bufLen {
        hdrFlags := hdrFlags + {GapTruncated};
        gap := if start > bufLen then 0 else bufLen - start;
        gap := if gap < 0 then 0 else gap;
      }
    }

    method TruncateHeader(start: int)
      modifies `hdrFlags, `length
      ensures State() == AdjustHeader(old(State()), start)
    {
      var end := start + length;
      if end > bufLen {
        hdrFlags := hdrFlags + {HeaderTruncated};
        length := if start > bufLen then 0 else bufLen - start;
        length := if length < 0 then 0 else length;
      }
    }

    // void record_header(scan_t *scan)
    method RecordHeader()
      modifies `wireLen, `bufLen, `payload, `hdrFlags, `postfix, `gap, `length, `maps, `prefix, `recorded, `headers
      ensures State() == Record(old(State()))
    {
      hide Adjust, Lengths, Store;
      if recorded {
        return;
      }
      ReduceLengths();
      AdjustForTruncatedPacket();
      StoreHeader();
    }

    // wire_len, buf_len, and a payload that was not given
    method ReduceLengths()
      modifies `wireLen, `bufLen, `payload
      ensures State() == Lengths(old(State()))
    {
      wireLen := wireLen - postfix;
      if bufLen > wireLen {
        bufLen := wireLen;
      }
      if payload == 0 && id != PAYLOAD {
        payload := bufLen - (offset + prefix + length + gap);
        payload := if payload < 0 then 0 else payload;
      }
    }

    // the new header_t, and the scanner's fields for the next one
    method StoreHeader()
      modifies `maps, `headers, `hdrFlags, `prefix, `gap, `payload, `postfix, `recorded
      ensures State() == Store(old(State()))
    {
      hide AddHeader, RecordFlags;
      var marks := hdrFlags + flags * {Fragmented} + {IgnoreBounds};
      FlagsAre(State());
      AddRecord(Header(id, offset + prefix, length, prefix, gap, payload, postfix, marks));
      ClearHeader();
    }

    method AddRecord(header: Header)
      modifies `maps, `headers
      ensures maps == AddHeader(old(maps), id) && headers == old(headers) + [header]
    {
      hide AddHeader;
      maps := AddHeader(maps, id);
      headers := headers + [header];
    }

    method ClearHeader()
      modifies `hdrFlags, `prefix, `gap, `payload, `postfix, `recorded
      ensures hdrFlags == {} && prefix == 0 && gap == 0 && payload == 0 && postfix == 0 && recorded
    {
      hdrFlags, prefix, gap, payload, postfix, recorded := {}, 0, 0, 0, 0, true;
    }

    // The loop over the heuristics of one protocol.
    method TryHeuristics(hs: seq<Scan -> int>) returns (guess: int)
      ensures guess == Guess(hs, State())
    {
      guess := PAYLOAD;
      for i := 0 to |hs|
        invariant guess == PAYLOAD && Guess(hs, State()) == Guess(hs[i..], State())
      {
        guess := hs[i](State());
        if guess != PAYLOAD {
          break;
        }
      }
    }

    // Overriding and heuristics, for a header that was found.
    method BindNext(env: Scanner)
      modifies `nextId, `offset, `length
      ensures State() == old(State()).(nextId := Bind(env, old(State())))
    {
      hide Guess;
      if id in env.overriding {
        nextId := PAYLOAD;
      }
      if id in env.heuristic {
        var savedOffset, savedLength := offset, length;
        var hs := if id in env.heuristics then env.heuristics[id] else [];
        NoHeuristics();
        BindGuess(hs, id in env.pre);
        offset, length := savedOffset, savedLength;
      }
    }

    // The heuristics, which look at the bytes behind the header, before or after
    // the direct discovery.
    method BindGuess(hs: seq<Scan -> int>, pre: bool)
      modifies `nextId, `offset
      ensures offset == old(offset + length + gap)
      ensures var guess := Guess(hs, old(State()).(offset := offset, nextId := PAYLOAD));
        nextId == if pre then (if guess == PAYLOAD then old(nextId) else guess)
          else if old(nextId) == PAYLOAD then guess else old(nextId)
    {
      hide Guess;
      offset := offset + length + gap;
      if pre {
        var savedNextId := nextId;
        nextId := PAYLOAD;
        var guess := TryHeuristics(hs);
        nextId := guess;
        if nextId == PAYLOAD {
          nextId := savedNextId;
        }
      } else if nextId == PAYLOAD {
        var guess := TryHeuristics(hs);
        nextId := guess;
      }
    }

    // Nothing is left of a payload.
    method PopStack()
      modifies `nextId, `stack, `offset
      ensures State() == Pop(old(State()))
    {
      if |stack| == 0 {
        nextId := END;
      } else {
        var top := stack[|stack| - 1];
        stack := stack[..|stack| - 1];
        nextId := top.nextId;
        offset := top.offset;
      }
    }

    // One turn of the main loop.
    method Turn(env: Scanner)
      requires id != END
      modifies this
      ensures State() == Body(env, old(State()))
    {
      hide Dispatch, Settle, Advance;
      Find(env);
      Finish(env);
      Step();
    }

    // The header scanner of the current id.
    method Find(env: Scanner)
      modifies this
      ensures State() == Dispatch(env, old(State()).(recorded := false))
    {
      recorded := false;
      if id in env.table {
        Become(env.table[id](State()));
      }
    }

    // What it found is recorded, or where to go on is decided.
    method Finish(env: Scanner)
      modifies this
      ensures State() == Settle(env, old(State()))
    {
      hide Record, Bind, Pop;
      if length == 0 {
        if id == PAYLOAD {
          PopStack();
        } else {
          nextId := PAYLOAD;
        }
      } else {
        BindNext(env);
        RecordHeader();
      }
    }

    // To the next header.
    method Step()
      modifies `id, `offset, `length, `nextId
      ensures State() == Advance(old(State()))
    {
      Leave();
      if offset >= bufLen {
        id := END;
      }
    }

    method Leave()
      modifies `id, `offset, `length, `nextId
      ensures id == old(nextId) && offset == old(offset + length + gap) && length == 0 && nextId == PAYLOAD
    {
      id := nextId;
      offset := offset + length + gap;
      length, nextId := 0, PAYLOAD;
    }

    // scan() behind its initialisation: the main loop ends, the flow key is
    // processed, and the result is the sum of the lengths of the headers that
    // were recorded.
    method Run(env: Scanner) returns (r: int, ghost turns: nat)
      requires Inv(State()) && (forall n: nat :: LegalRun(env, State(), n))
      requires forall n: nat :: FlowKeys.Valid(After(env, State(), n).key)
      modifies this
      ensures var t := After(env, old(State()), turns);
        t.id == END && State() == t.(key := FlowKeys.Processed(t.key))
      ensures r == offset == TotalLength(headers)
      ensures turns <= Max(1, 2 * Remaining(old(State())))
    {
      hide Inv, Body, LegalTurn, LegalRun, After, Measure, Remaining, FlowKeys.Processed, FlowKeys.Valid;
      ghost var start := State();
      turns := 0;
      AfterZero(env, start);
      while id != END
        invariant State() == After(env, start, turns) && Inv(State())
        invariant if turns == 0 then State() == start else After(env, start, turns - 1).id != END
        decreases if id == END then -1 else Measure(State())
      {
        ghost var t := State();
        assert LegalRun(env, start, turns + 1);
        RunStep(env, start, turns + 1);
        TurnProgress(env, t);
        BodyInv(env, t);
        MeasureBound(t);
        Turn(env);
        turns := turns + 1;
      }
      if turns > 0 {
        FirstNotEnd(env, start, turns - 1);
        TurnsBound(env, start, turns);
      }
      TiledEnd(State());
      var processed := FlowKeys.ProcessFlowKey(key);
      key := processed;
      r := offset;
    }

    // ------------------------------------------------------- packet_protocol.cpp

    method Read16(i: int) returns (r: nat)
      requires 0 <= i && i + 2 <= |buf|
      ensures r == Net16(State(), i)
    {
      r := 256 * (buf[i] as nat) + buf[i + 1];
    }

    method Read32(i: int) returns (r: nat)
      requires 0 <= i && i + 4 <= |buf|
      ensures r == Net32(State(), i)
    {
      var high := Read16(i);
      var low := Read16(i + 2);
      r := 0x1_0000 * high + low;
    }

    // int validate_next(int id, scan_t *scan)
    method ValidateNextId(h: Host, next: int) returns (r: int)
      modifies `offset, `length
      ensures State() == old(State()) && r == ValidateNext(h, next, State())
    {
      if bufLen - offset == 0 {
        return PAYLOAD;
      }
      if next !in h.validate {
        return next;
      }
      var savedOffset, savedLength := offset, length;
      offset := offset + length + gap;
      r := h.validate[next](State());
      offset, length := savedOffset, savedLength;
    }

    // void scan_payload(scan_t *scan)
    method Payload()
      modifies `id, `nextId, `length
      ensures State() == ScanPayload(old(State()))
    {
      id := PAYLOAD;
      nextId := END;
      length := bufLen - offset;
    }

    // void scan_ethernet(scan_t *scan)
    method Ethernet(h: Host)
      requires Readable(State())
      modifies `length, `key, `nextId, `payload, `postfix, `offset
      ensures State() == ScanEthernet(h, old(State()))
    {
      hide AddressKey, EthernetAddresses, ValidateNext, Net16, Dot3Key;
      if bufLen - offset < 14 {
        return;
      }
      var kind := Read16(offset + 12);
      var addresses := EthernetAddresses(h, State());
      length := 14;
      key := AddressKey(key, ETHERNET, addresses, kind);
      if kind < 0x600 {
        Ieee802dot3(h, kind);
      } else {
        var next := ValidateNextId(h, LookupEthertype(kind));
        nextId := next;
      }
    }

    // void scan_802dot3(scan_t *scan), reached from scan_ethernet
    method Ieee802dot3(h: Host, kind: nat)
      requires Readable(State()) && bufLen - offset >= 14 && length == 14
      modifies `nextId, `payload, `postfix, `key, `offset, `length
      ensures State() == Scan802dot3(h, old(State()), kind)
    {
      hide EthernetAddresses, ValidateNext, Dot3Key;
      var addresses := EthernetAddresses(h, State());
      var next := ValidateNextId(h, IEEE_802DOT2);
      nextId := next;
      payload := kind - 14;
      postfix := bufLen - kind;
      key := Dot3Key(key, addresses);
    }

    // void scan_vlan(scan_t *scan)
    method Vlan(h: Host)
      requires Readable(State())
      modifies `length, `nextId, `payload, `offset
      ensures State() == ScanVlan(h, old(State()))
    {
      hide ValidateNext, Net16;
      if bufLen - offset < 4 {
        return;
      }
      var kind := Read16(offset + 2);
      length := 4;
      if kind < 0x600 {
        var next := ValidateNextId(h, IEEE_802DOT2);
        nextId := next;
        payload := kind - length - offset;
      } else {
        var next := ValidateNextId(h, LookupEthertype(kind));
        nextId := next;
      }
    }

    // void scan_ppp(scan_t *scan)
    method Ppp(h: Host)
      requires Readable(State())
      modifies `length, `nextId, `offset
      ensures State() == ScanPpp(h, old(State()))
    {
      hide ValidateNext, Net16;
      if bufLen - offset < 4 {
        return;
      }
      var protocol := Read16(offset + 2);
      length := 4;
      if protocol == 0x21 {
        var next := ValidateNextId(h, IP4);
        nextId := next;
      } else if protocol == 0x57 {
        var next := ValidateNextId(h, IP6);
        nextId := next;
      }
    }

    // void scan_arp(scan_t *scan)
    method Arp()
      requires Readable(State())
      modifies `length
      ensures State() == ScanArp(old(State()))
    {
      if bufLen - offset < 6 {
        return;
      }
      length := (buf[offset + 4] as int + buf[offset + 5]) * 2 + 8;
    }

    // void scan_icmp(scan_t *scan)
    method Icmp(h: Host)
      requires Readable(State())
      modifies `length, `nextId, `flags, `offset
      ensures State() == ScanIcmp(h, old(State()))
    {
      hide ValidateNext;
      if bufLen - offset < 4 {
        return;
      }
      var kind := buf[offset];
      length := 8;
      if kind == 3 || kind == 12 {
        var next := ValidateNextId(h, IP4);
        nextId := next;
        flags := flags + {IgnoreBounds};
      }
    }

    // void scan_rtp(scan_t *scan), behind at least one byte: at the very start it can
    // read the byte behind the capture.
    method Rtp(signedChar: bool)
      requires Readable(State()) && offset >= 1 && bufLen <= wireLen && length >= 0
      modifies `length, `postfix
      ensures State() == ScanRtp(signedChar, old(State()))
    {
      hide Net16, At, Char;
      if offset + 12 > bufLen {
        return;
      }
      ghost var s := State();
      AtIs(s, offset);
      var first := buf[offset];
      length := length + 12 + first as int % 16 * 4;
      if offset + length + 4 > bufLen {
        return;
      }
      if first / 16 % 2 == 1 {
        var words := Read16(offset + length + 2);
        SameNet16(State(), s, offset + length + 2);
        length := length + words * 4 + 4;
      }
      if first / 32 % 2 == 1 {
        if offset + wireLen - 1 > bufLen {
          return;
        }
        AtIs(s, wireLen - 1);
        postfix := Char(signedChar, buf[wireLen - 1]);
      }
    }

    // The switches on destination and source port.
    method NextByPorts(h: Host, ofPort: nat -> int, source: nat, target: nat)
      modifies `nextId, `offset, `length
      ensures State() == old(State()).(nextId := ByPorts(h, old(State()), ofPort, source, target))
    {
      hide ValidateNext;
      if ofPort(target) != END {
        var next := ValidateNextId(h, ofPort(target));
        nextId := next;
        return;
      }
      if ofPort(source) != END {
        var next := ValidateNextId(h, ofPort(source));
        nextId := next;
        return;
      }
      if target < 1024 || source < 1024 {
        nextId := END;
      }
    }

    // The part of scan_tcp and scan_udp that is the same.
    method Transport(protocol: int, size: int, source: nat, target: nat)
      modifies `length, `key, `dport, `sport
      ensures length == size && key == PortKey(old(key), protocol, (source, target)) && dport == target && sport == source
    {
      hide PortKey;
      length := size;
      key := PortKey(key, protocol, (source, target));
      dport := target;
      sport := source;
    }

    // void scan_tcp(scan_t *scan)
    method Tcp(h: Host)
      requires Readable(State())
      modifies `length, `key, `dport, `sport, `nextId, `offset
      ensures State() == ScanTcp(h, old(State()))
    {
      hide ByPorts, PortKey, Net16, At;
      if bufLen - offset < 20 {
        return;
      }
      AtIs(State(), offset + 12);
      var source := Read16(offset);
      var target := Read16(offset + 2);
      Transport(TCP, buf[offset + 12] / 16 * 4, source, target);
      NextByPorts(h, TcpPort, source, target);
    }

    // void scan_udp(scan_t *scan)
    method Udp(h: Host)
      requires Readable(State())
      modifies `length, `key, `dport, `sport, `nextId, `offset
      ensures State() == ScanUdp(h, old(State()))
    {
      hide ByPorts, PortKey, Net16;
      if bufLen - offset < 8 {
        return;
      }
      var source := Read16(offset);
      var target := Read16(offset + 2);
      Transport(UDP, 8, source, target);
      NextByPorts(h, UdpPort, source, target);
    }

    // The Ethernet trailer: the record before this header is rewritten.
    method TrimRecord(trailer: int)
      requires headers != [] && 0 < trailer < 0x1_0000
      modifies `headers, `bufLen
      ensures State() == TrimEthernet(old(State()), trailer)
    {
      var eth := headers[|headers| - 1];
      eth := eth.(postfix := trailer);
      eth := eth.(payload := eth.payload - trailer);
      headers := headers[|headers| - 1 := eth];
      bufLen := bufLen - trailer;
    }

    // void scan_ip4(scan_t *scan)
    method Ip4(h: Host)
      requires Readable(State()) && |buf| < 0x1_0000
      modifies `length, `payload, `headers, `bufLen, `flags, `key, `nextId, `offset
      ensures State() == ScanIp4(h, old(State()))
    {
      hide Ip4Bind, Ip4Extent;
      if bufLen - offset < 20 {
        return;
      }
      Ip4Sizes();
      assert State() == Ip4Extent(old(State()));
      Ip4ExtentKeeps(old(State()));
      Ip4Key(h);
    }

    // The Ethernet trailer, if there is one, moves to the Ethernet record.
    method TrimTrailer(trailer: int)
      requires headers != [] && trailer < 0x1_0000
      modifies `headers, `bufLen
      ensures State() == if trailer > 0 then TrimEthernet(old(State()), trailer) else old(State())
    {
      if trailer > 0 {
        TrimRecord(trailer);
      }
    }

    method Fragment()
      modifies `flags
      ensures flags == old(flags) + {Fragmented, IgnoreBounds}
    {
      flags := flags + {Fragmented, IgnoreBounds};
    }

    method Extent(size: int, total: int)
      modifies `length, `payload
      ensures length == size && payload == total - size
    {
      length := size;
      payload := total - length;
    }

    // scan_ip4 as far as the fragment check
    method Ip4Sizes()
      requires Readable(State()) && bufLen - offset >= 20 && |buf| < 0x1_0000
      modifies `length, `payload, `headers, `bufLen, `flags
      ensures State() == Ip4Extent(old(State()))
    {
      hide Ip4Extent, Trimmed, Marked, Net16, At;
      Ip4ExtentParts(State());
      AtIs(State(), offset);
      var total := Read16(offset + 2);
      var fragment := Read16(offset + 6);
      Extent(buf[offset] % 16 * 4, total);
      Ip4Trailer(total);
      Ip4Fragment(fragment);
    }

    method Ip4Trailer(total: int)
      requires 0 <= offset && 0 <= total && bufLen < 0x1_0000
      modifies `headers, `bufLen
      ensures State() == Trimmed(old(State()), total)
    {
      hide TrimEthernet;
      if |headers| >= 1 && total <= bufLen && headers[|headers| - 1].id == ETHERNET {
        TrimTrailer(bufLen - offset - total);
      }
    }

    method Ip4Fragment(fragment: nat)
      modifies `flags, `payload
      ensures State() == Marked(old(State()), fragment)
    {
      if fragment / 0x2000 % 2 == 1 || fragment % 0x2000 > 0 {
        Fragment();
        payload := bufLen - length - offset;
      }
    }

    // the rest of scan_ip4
    method Ip4Key(h: Host)
      requires 0 <= offset && offset + 20 <= |buf|
      modifies `key, `nextId, `offset, `length
      ensures State() == Ip4Bind(h, old(State()))
    {
      hide Net16, Net32, AddressKey, ValidateNext;
      if offset + 16 > bufLen {
        return;
      }
      var source := Read32(offset + 12);
      var destination := Read32(offset + 16);
      var fragment := Read16(offset + 6);
      var protocol := buf[offset + 9];
      key := AddressKey(key, IP4, (source, destination), protocol);
      if fragment % 0x2000 != 0 {
        nextId := PAYLOAD;
        return;
      }
      if Ip4Protocol(protocol) != END {
        var next := ValidateNextId(h, Ip4Protocol(protocol));
        nextId := next;
      }
    }

    // void scan_ip6(scan_t *scan)
    method Ip6(h: Host)
      requires Readable(State()) && |buf| < 0x1_0000
      modifies `length, `payload, `headers, `bufLen, `flags, `key, `nextId, `offset
      ensures State() == ScanIp6(h, old(State()))
    {
      hide Walk, Ip6Key, Ip6Extent, Net16;
      if bufLen - offset < 40 {
        return;
      }
      var next := buf[offset + 6];
      Ip6Sizes();
      Ip6ExtentKeeps(old(State()));
      Ip6KeyFrame(h, State());
      key := Ip6Key(h, State()).key;
      WalkOptions(h, next);
    }

    // scan_ip6 as far as the trailer
    method Ip6Sizes()
      requires Readable(State()) && bufLen - offset >= 40 && |buf| < 0x1_0000
      modifies `length, `payload, `headers, `bufLen
      ensures State() == Ip6Extent(old(State()))
    {
      hide Net16, TrimEthernet;
      var size := Read16(offset + 4);
      length := 40;
      payload := size;
      if |headers| > 1 && headers[|headers| - 1].id == ETHERNET {
        TrimTrailer(bufLen - offset - size - 40);
      }
    }

    // The loop over the extension headers: the cursor is always at the end of
    // what the header length covers, and both bytes it reads are in the packet.
    method WalkOptions(h: Host, next: nat)
      requires 0 <= offset && length == 40 && bufLen <= |buf|
      modifies `flags, `nextId, `length, `payload, `offset
      ensures State() == Walk(h, old(State()), next)
    {
      hide Walk, WalkEnd, CanSkip, Skip, At, IsOption, Ip6Protocol;
      var kind := next;
      var cursor := offset + 40;
      while IsOption(kind)
        invariant Walk(h, State(), kind) == Walk(h, old(State()), next)
        invariant cursor == offset + length && length >= 40 && offset == old(offset)
        decreases bufLen - offset - length
      {
        ghost var t := State();
        var skips := SkipOption(kind, cursor);
        WalkOption(h, t, kind);
        if !skips {
          return;
        }
        var len := length - (cursor - offset);
        kind := buf[cursor];
        AtIs(t, cursor);
        cursor := cursor + len;
      }
      WalkOther(h, State(), kind);
      NextByProtocol(h, kind);
    }

    // One extension header, of a kind that is one.
    method SkipOption(kind: nat, cursor: int) returns (skips: bool)
      requires IsOption(kind) && cursor == offset + length && 0 <= cursor && bufLen <= |buf|
      modifies `flags, `nextId, `length, `payload
      ensures skips <==> CanSkip(old(State()), kind)
      ensures skips ==> State() == Skip(old(State()), kind) && cursor + 2 <= bufLen && length >= old(length) + 8
      ensures !skips ==> State() == OptionEnd(old(State()), kind)
    {
      hide IsOption;
      if kind == 44 {
        Fragment();
      }
      if offset + (length + 2) > bufLen {
        return false;
      }
      var len: int := buf[cursor + 1] as int * 8 + 8;
      if offset + (offset + len) > bufLen {
        nextId := PAYLOAD;
        return false;
      }
      length := length + len;
      payload := payload - len;
      return true;
    }

    // What the first header that is no option leads to.
    method NextByProtocol(h: Host, kind: nat)
      modifies `nextId, `offset, `length
      ensures State() == old(State()).(nextId := ProtocolEnd(h, old(State()), kind))
    {
      hide ValidateNext;
      if Ip6Protocol(kind) != END {
        var named := ValidateNextId(h, Ip6Protocol(kind));
        nextId := named;
      } else {
        nextId := if payload == 0 then END else PAYLOAD;
      }
    }

    // The dispatch through native_protocols.
    method NativeDispatch(h: Host)
      requires Readable(State()) && |buf| < 0x1_0000
      modifies this
      ensures State() == Native(h, old(State()))
    {
      hide ScanEthernet, ScanIp4, ScanIp6, ScanTcp, ScanUdp, ScanVlan, ScanPpp, ScanIcmp, ScanArp, ScanPayload, Readable;
      match id {
        case 0 => Payload();
        case 1 => Ethernet(h);
        case 2 => Ip4(h);
        case 3 => Ip6(h);
        case 4 => Tcp(h);
        case 5 => Udp(h);
        case 9 => Vlan(h);
        case 11 => Ppp(h);
        case 12 => Icmp(h);
        case 16 => Arp();
        case _ =>
      }
    }
  }

  // What the scanners rely on to read the packet.
  predicate Readable(s: Scan) { 0 <= s.offset && s.bufLen <= |s.buf| }

  lemma ReachedIsReadable(s: Scan)
    requires Inv(s)
    ensures Readable(s)
  {
  }

  // The two later parts of Ip4Extent.
  function Trimmed(s: Scan, total: int): Scan {
    if s.headers != [] && Last(s).id == ETHERNET && total <= s.bufLen && Room(s) > total
    then TrimEthernet(s, Room(s) - total) else s
  }

  function Marked(s: Scan, fragment: nat): Scan {
    if fragment / 0x2000 % 2 == 1 || fragment % 0x2000 > 0
    then s.(flags := s.flags + {Fragmented, IgnoreBounds}, payload := s.bufLen - s.length - s.offset) else s
  }

  lemma Ip4ExtentParts(s: Scan)
    ensures var total, length := Net16(s, s.offset + 2), At(s, s.offset) % 16 * 4;
      Ip4Extent(s) == Marked(Trimmed(s.(length := length, payload := total - length), total), Net16(s, s.offset + 6))
  {
    hide Net16, At;
  }

  lemma AtIs(s: Scan, i: int)
    requires 0 <= i < |s.buf|
    ensures At(s, i) == s.buf[i]
  {
  }

  // How the walk ends, at an option and elsewhere.
  function OptionEnd(s: Scan, kind: nat): Scan {
    var t := MarkFragment(s, kind);
    if IsAccessible(s, s.length + 2) then t.(nextId := PAYLOAD) else t
  }

  function ProtocolEnd(h: Host, s: Scan, kind: nat): int {
    if Ip6Protocol(kind) != END then ValidateNext(h, Ip6Protocol(kind), s)
    else if s.payload == 0 then END
    else PAYLOAD
  }

  lemma WalkOption(h: Host, s: Scan, kind: nat)
    requires IsOption(kind)
    ensures Walk(h, s, kind) ==
      if CanSkip(s, kind) then Walk(h, Skip(s, kind), At(s, s.offset + s.length)) else OptionEnd(s, kind)
  {
    hide IsOption;
  }

  lemma WalkOther(h: Host, s: Scan, kind: nat)
    requires !IsOption(kind)
    ensures Walk(h, s, kind) == s.(nextId := ProtocolEnd(h, s, kind))
  {
    hide IsOption, Ip6Protocol, ValidateNext;
  }

  lemma NoHeuristics()
    ensures forall s: Scan :: Guess([], s) == PAYLOAD
  {
  }

  lemma Ip4ExtentKeeps(s: Scan)
    ensures Ip4Extent(s).offset == s.offset && Ip4Extent(s).buf == s.buf
  {
  }

  lemma Ip6ExtentKeeps(s: Scan)
    ensures var t := Ip6Extent(s);
      t.offset == s.offset && t.buf == s.buf && t.length == 40 && (s.bufLen <= |s.buf| ==> t.bufLen <= |s.buf|)
  {
  }

  lemma FlagsAre(s: Scan)
    ensures RecordFlags(s) == s.hdrFlags + s.flags * {Fragmented} + {IgnoreBounds}
  {
  }

  lemma MeasureBound(s: Scan)
    requires Inv(s) && s.id != END
    ensures Measure(s) >= 0
  {
    hide Tiled, AllInside, EthernetCovers;
  }

  lemma TiledEnd(s: Scan)
    requires Inv(s)
    ensures s.offset == TotalLength(s.headers)
  {
    TiledTotal(s.headers, s.offset);
  }

  lemma TurnsBound(env: Scanner, start: Scan, turns: nat)
    requires Inv(start) && start.id != END && turns > 0 && (forall n: nat :: LegalRun(env, start, n))
    requires After(env, start, turns - 1).id != END
    ensures turns <= Max(1, 2 * Remaining(start))
  {
    if turns > 1 && turns - 1 >= 2 * Remaining(start) {
      RunEnds(env, start, turns - 1);
    }
  }

  lemma {:induction false} FirstNotEnd(env: Scanner, start: Scan, n: nat)
    requires After(env, start, n).id != END
    ensures start.id != END
  {
    hide Body;
    if n > 0 {
      FirstNotEnd(env, start, n - 1);
    }
  }
}
