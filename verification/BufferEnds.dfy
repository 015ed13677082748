/**
 The end of what is scanned: behind a header that reports a postfix, buf_len is
 cut, and nothing that is recorded later reaches behind it. When that keeps later
 records out of the postfix.
 */
module BufferEnds {
  import opened Bytes
  import opened PacketState
  import opened RecordHeader
  import opened ScanLoop
  import opened ScanRuns
  import opened Protocols
  import opened NativeRuns
  import opened FrameRecords

  function PayloadEnd(h: Header): int { h.offset + h.length + h.gap + h.payload }

  // ------------------------------------------------------------------ one record

  predicate Reported(t: Scan) {
    !t.recorded && t.length >= 0 && t.payload >= 0 && t.postfix >= 0 && t.prefix == 0 && t.gap == 0
  }

  // The bytes of the postfix are taken off the wire length, and what is recorded
  // ends inside what is left.
  lemma RecordEnds(t: Scan)
    requires Reported(t)
    ensures var u := Record(t);
      && |u.headers| == |t.headers| + 1 && u.headers[..|t.headers|] == t.headers
      && u.bufLen == Min(t.bufLen, t.wireLen - t.postfix)
      && PayloadEnd(Last(u)) <= Max(t.offset, u.bufLen)
  {
    hide AddHeader, RecordFlags;
  }

  // Nothing is left to scan behind the payload exactly when the payload was not
  // given, or it reaches the end of the buffer, or its postfix the end of the wire.
  lemma RecordCuts(t: Scan)
    requires Reported(t) && t.offset <= Min(t.bufLen, t.wireLen - t.postfix)
    ensures var u := Record(t); var end := t.offset + t.length + t.payload;
      u.bufLen <= PayloadEnd(Last(u)) <==>
        (t.payload == 0 && t.id != PAYLOAD) || t.bufLen <= end || t.wireLen <= end + t.postfix
  {
    hide AddHeader, RecordFlags;
  }

  // --------------------------------------------------------------------- over runs

  lemma BodyEnds(env: Scanner, s: Scan)
    requires Inv(s) && s.id != END && LegalTurn(env, s)
    ensures var t := Body(env, s);
      && t.bufLen <= s.bufLen && |s.headers| <= |t.headers| <= |s.headers| + 1
      && (|t.headers| > |s.headers| ==> PayloadEnd(Last(t)) <= s.bufLen)
  {
    TurnCases(env, s);
    var t := Dispatch(env, s.(recorded := false));
    hide Body, Bind, Dispatch, Record, SameRecords, Tiled, AllInside, LegalTurn, EthernetCovers;
    if t.length > 0 {
      RecordEnds(t.(nextId := Bind(env, t)));
    }
  }

  // Whatever any legal table does, everything that is recorded from some turn on
  // ends where the buffer ended then.
  lemma {:induction false} EndBounds(env: Scanner, s: Scan, m: nat, n: nat)
    requires Inv(s) && LegalRun(env, s, n) && m <= n
    ensures var a, b := After(env, s, m), After(env, s, n);
      && b.bufLen <= a.bufLen && |a.headers| <= |b.headers|
      && forall i :: |a.headers| <= i < |b.headers| ==> PayloadEnd(b.headers[i]) <= a.bufLen
    decreases n
  {
    hide Inv, LegalRun, LegalTurn, Body, After, PayloadEnd;
    if m < n {
      RunStep(env, s, n);
      EndBounds(env, s, m, n - 1);
      RunInv(env, s, n - 1);
      var a, t := After(env, s, m), After(env, s, n - 1);
      if t.id != END {
        BodyEnds(env, t);
        BodyExtends(env, t);
        EndsStay(t.headers, Body(env, t).headers, |a.headers|, a.bufLen);
      }
    }
  }

  lemma EndsStay(hs: seq<Header>, ks: seq<Header>, from: nat, end: int)
    requires Extends(hs, ks) && |hs| <= |ks| <= |hs| + 1 && from <= |hs|
    requires forall i :: from <= i < |hs| ==> PayloadEnd(hs[i]) <= end
    requires |ks| > |hs| ==> PayloadEnd(ks[|ks| - 1]) <= end
    ensures forall i :: from <= i < |ks| ==> PayloadEnd(ks[i]) <= end
  {
  }

  // So no later record reaches into the postfix of an earlier one, if that postfix
  // reached the end of the wire.
  lemma PostfixUntouched(env: Scanner, s: Scan, m: nat, n: nat)
    requires Inv(s) && LegalRun(env, s, n) && m < n && After(env, s, m).id != END
    requires var a := After(env, s, m); var t := Dispatch(env, a.(recorded := false));
      && t.length > 0 && t.offset <= Min(t.bufLen, t.wireLen - t.postfix)
      && t.wireLen <= t.offset + t.length + t.payload + t.postfix
    ensures var a, b := After(env, s, m + 1), After(env, s, n);
      && a.headers != []
      && forall i :: |a.headers| <= i < |b.headers| ==> PayloadEnd(b.headers[i]) <= PayloadEnd(Last(a))
  {
    hide Body, Bind, Dispatch, Record, SameRecords, Tiled, AllInside, LegalTurn, EthernetCovers, PayloadEnd;
    RunInv(env, s, m);
    EndBounds(env, s, m + 1, n);
    var a := After(env, s, m);
    TurnCases(env, a);
    var b := Dispatch(env, a.(recorded := false));
    var t := b.(nextId := Bind(env, b));
    RecordCuts(t);
    RecordEnds(t);
    assert After(env, s, m + 1) == Body(env, a) == Advance(Record(t));
  }

  // ----------------------------------------------------------- frames with a length

  // An 802.3 frame whose length field lies inside the capture.
  predicate IsLengthFrame(buf: seq<byte>) {
    |buf| >= 14 && 14 <= Big16(buf, 12) <= |buf| && Big16(buf, 12) < 0x600
  }

  // Where the scan stops: at the end of the frame if all of it has been captured,
  // else as many bytes behind it as are missing.
  function FrameEnd(buf: seq<byte>, wireLen: int): int
    requires IsLengthFrame(buf)
  {
    Min(|buf|, wireLen - (|buf| - Big16(buf, 12)))
  }

  lemma ScannedLengthFrame(h: Host, buf: seq<byte>, wireLen: int)
    requires IsLengthFrame(buf)
    ensures var s := Start(buf, wireLen, ETHERNET); var t := ScanEthernet(h, s);
      t == s.(length := 14, payload := Big16(buf, 12) - 14, postfix := |buf| - Big16(buf, 12), nextId := t.nextId,
              key := t.key)
    ensures var s := Start(buf, wireLen, ETHERNET); IEEE_802DOT2 !in h.validate ==> ScanEthernet(h, s).nextId == IEEE_802DOT2
  {
    var s := Start(buf, wireLen, ETHERNET);
    assert Net16(s, 12) == Big16(buf, 12);
    hide Net16, Big16, AddressKey, Dot3Key, EthernetAddresses;
  }

  lemma RecordedLengthFrame(t: Scan, frame: nat, wireLen: int)
    requires !t.recorded && t.id == ETHERNET && t.offset == 0 && t.length == 14 && t.prefix == 0 && t.gap == 0
    requires 14 <= frame <= t.bufLen == t.memLen <= wireLen == t.wireLen && t.headers == []
    requires t.payload == frame - 14 && t.postfix == t.memLen - frame
    ensures var u := Record(t); var end := Min(t.memLen, wireLen - (t.memLen - frame));
      && |u.headers| == 1 && u.bufLen == end && u.length == 14 && u.offset == 0 && u.gap == 0
      && Describes(u.headers[0], ETHERNET, 0, 14, if frame > 14 then frame - 14 else end - 14,
                   t.memLen - if frame > 14 then frame else end)
  {
    hide AddHeader, RecordFlags;
  }

  // The first turn: header, data and trailer, and the end of the scan.
  lemma LengthFrameRecorded(env: Scanner, h: Host, buf: seq<byte>, wireLen: int)
    requires NativeEnv(env, h) && IsLengthFrame(buf) && wireLen >= |buf|
    ensures var t, frame, end := After(env, Start(buf, wireLen, ETHERNET), 1), Big16(buf, 12), FrameEnd(buf, wireLen);
      && |t.headers| == 1 && t.bufLen == end
      && Describes(t.headers[0], ETHERNET, 0, 14, if frame > 14 then frame - 14 else end - 14,
                   |buf| - if frame > 14 then frame else end)
  {
    var s := Start(buf, wireLen, ETHERNET);
    hide NativeEnv, Dispatch, Bind, Record, ScanEthernet, Big16, Describes;
    assert s.(recorded := false) == s;
    ScannedLengthFrame(h, buf, wireLen);
    NativeTurn(env, h, s);
    var t := ScanEthernet(h, s);
    RecordedLengthFrame(t.(nextId := Bind(env, t)), Big16(buf, 12), wireLen);
    assert After(env, s, 0) == s;
    assert After(env, s, 1) == Body(env, s);
  }

  lemma NativeTurn(env: Scanner, h: Host, s: Scan)
    requires NativeEnv(env, h) && s.id == ETHERNET
    ensures Dispatch(env, s) == ScanEthernet(h, s)
  {
    assert Dispatch(env, s) == Native(h, s);
    hide ScanEthernet, Dispatch;
  }

  // Every record behind the first one ends there. So a frame that has been captured
  // whole never has its trailer scanned.
  lemma LengthFrameEnds(env: Scanner, h: Host, buf: seq<byte>, wireLen: int, n: nat)
    requires NativeEnv(env, h) && IsLengthFrame(buf) && wireLen >= |buf|
    requires n >= 1 && LegalRun(env, Start(buf, wireLen, ETHERNET), n)
    ensures var hs := After(env, Start(buf, wireLen, ETHERNET), n).headers;
      && (forall i :: 1 <= i < |hs| ==> PayloadEnd(hs[i]) <= FrameEnd(buf, wireLen))
      && (wireLen == |buf| ==> forall i :: 1 <= i < |hs| ==> PayloadEnd(hs[i]) <= Big16(buf, 12))
  {
    hide NativeEnv, LegalRun, After, Describes, PayloadEnd;
    LengthFrameRecorded(env, h, buf, wireLen);
    StartInv(buf, wireLen, ETHERNET);
    EndBounds(env, Start(buf, wireLen, ETHERNET), 1, n);
  }

  // A header that no scanner finds leads to the payload.
  lemma UnknownTurn(env: Scanner, s: Scan)
    requires s.id !in env.table && s.id != PAYLOAD && s.length == 0 && s.gap == 0 && s.offset < s.bufLen
    ensures Body(env, s) == s.(recorded := false, id := PAYLOAD, nextId := PAYLOAD)
  {
  }

  lemma RecordedTurn(env: Scanner, s: Scan, t: Scan)
    requires Dispatch(env, s.(recorded := false)) == t && t.length != 0
    ensures Body(env, s) == Advance(Record(t.(nextId := Bind(env, t))))
  {
    hide Dispatch, Record, Bind, Advance;
  }

  lemma RecordedPayload(t: Scan)
    requires !t.recorded && t.id == PAYLOAD && t.offset < t.bufLen <= t.wireLen && t.length == t.bufLen - t.offset
    requires t.prefix == 0 && t.gap == 0 && t.payload == 0 && t.postfix == 0
    ensures var hs := Advance(Record(t)).headers;
      && |hs| == |t.headers| + 1 && hs[..|t.headers|] == t.headers
      && Describes(hs[|t.headers|], PAYLOAD, t.offset, t.bufLen - t.offset, 0, 0)
  {
    hide AddHeader, RecordFlags;
  }

  // The payload takes what is left.
  lemma PayloadTurn(env: Scanner, h: Host, s: Scan)
    requires NativeEnv(env, h) && s.id == PAYLOAD && s.offset < s.bufLen <= s.wireLen
    requires s.length == 0 && s.prefix == 0 && s.gap == 0 && s.payload == 0 && s.postfix == 0
    ensures var hs := Body(env, s).headers;
      && |hs| == |s.headers| + 1 && hs[..|s.headers|] == s.headers
      && Describes(hs[|s.headers|], PAYLOAD, s.offset, s.bufLen - s.offset, 0, 0)
  {
    var r := s.(recorded := false);
    var t := ScanPayload(r);
    assert Dispatch(env, r) == Native(h, r) == t;
    hide NativeEnv, Native, Dispatch, Bind, Record, Advance, Describes, Body;
    RecordedTurn(env, s, t);
    RecordedPayload(t.(nextId := Bind(env, t)));
  }

  // In front of the second header.
  predicate AtPayload(t: Scan) {
    && t.id == IEEE_802DOT2 && t.offset == 14 < t.bufLen <= t.wireLen && t.length == 0
    && t.prefix == 0 && t.gap == 0 && t.payload == 0 && t.postfix == 0
  }

  lemma LengthFrameAdvances(t: Scan, frame: nat, wireLen: int)
    requires !t.recorded && t.id == ETHERNET && t.offset == 0 && t.length == 14 && t.prefix == 0 && t.gap == 0
    requires 14 < frame <= t.bufLen == t.memLen <= wireLen == t.wireLen && t.headers == []
    requires t.payload == frame - 14 && t.postfix == t.memLen - frame && t.nextId == IEEE_802DOT2
    ensures AtPayload(Advance(Record(t)))
  {
    hide Record, Describes;
    RecordedLengthFrame(t, frame, wireLen);
    RecordClears(t);
  }

  // Behind the first turn, if nothing overrides what it found.
  lemma LengthFrameNext(env: Scanner, h: Host, buf: seq<byte>, wireLen: int)
    requires NativeEnv(env, h) && IsLengthFrame(buf) && wireLen >= |buf| && Big16(buf, 12) > 14
    requires ETHERNET !in env.overriding
    ensures AtPayload(After(env, Start(buf, wireLen, ETHERNET), 1))
  {
    var s := Start(buf, wireLen, ETHERNET);
    var t := ScanEthernet(h, s);
    hide Dispatch, Record, ScanEthernet, Big16, Describes, Bind, Advance, Body, AtPayload;
    assert IEEE_802DOT2 !in h.validate;
    NativeTurn(env, h, s);
    ScannedLengthFrame(h, buf, wireLen);
    PlainEthernet(env, h, t);
    hide NativeEnv;
    assert s.(recorded := false) == s;
    RecordedTurn(env, s, t);
    assert t.(nextId := Bind(env, t)) == t;
    LengthFrameAdvances(t, Big16(buf, 12), wireLen);
    FirstTurn(env, s);
  }

  lemma PlainEthernet(env: Scanner, h: Host, t: Scan)
    requires NativeEnv(env, h) && ETHERNET !in env.overriding && t.id == ETHERNET
    ensures Bind(env, t) == t.nextId
  {
    assert ETHERNET !in env.heuristic;
    hide NativeEnv;
  }

  lemma FirstTurn(env: Scanner, s: Scan)
    requires s.id != END
    ensures After(env, s, 1) == Body(env, s)
  {
    hide Body;
    assert After(env, s, 0) == s;
  }

  lemma RecordClears(t: Scan)
    requires !t.recorded
    ensures var u := Record(t);
      u.nextId == t.nextId && u.prefix == 0 && u.gap == 0 && u.payload == 0 && u.postfix == 0 && u.bufLen <= u.wireLen
  {
    hide AddHeader, RecordFlags;
  }

  // That is exact: when nothing is known about what the frame carries, all up to
  // this end is one payload record. So the trailer is taken for data if and only if
  // there is one and the capture is not whole.
  lemma TrailerInPayload(env: Scanner, h: Host, buf: seq<byte>, wireLen: int)
    requires NativeEnv(env, h) && IsLengthFrame(buf) && wireLen >= |buf| && Big16(buf, 12) > 14
    requires ETHERNET !in env.overriding && IEEE_802DOT2 !in env.table
    ensures var hs := After(env, Start(buf, wireLen, ETHERNET), 3).headers;
      && |hs| == 2 && Describes(hs[1], PAYLOAD, 14, FrameEnd(buf, wireLen) - 14, 0, 0)
      && (PayloadEnd(hs[1]) > Big16(buf, 12) <==> Big16(buf, 12) < |buf| < wireLen)
  {
    hide NativeEnv, Body, Big16;
    var s := Start(buf, wireLen, ETHERNET);
    LengthFrameRecorded(env, h, buf, wireLen);
    LengthFrameNext(env, h, buf, wireLen);
    var t := After(env, s, 1);
    UnknownTurn(env, t);
    var u := Body(env, t);
    hide Start;
    assert After(env, s, 2) == u;
    PayloadTurn(env, h, u);
    assert After(env, s, 3) == Body(env, u);
  }
}
