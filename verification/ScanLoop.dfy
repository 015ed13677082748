/**
 The scanner's main loop: scan() of packet_jsmall_scanner.cpp, over any table
 of header scanners that keep a contract.
 */
module ScanLoop {
  import opened Bytes
  import opened PacketState
  import opened RecordHeader

  // scanner_t: the dispatch table, the ids with each flag, and the heuristics
  // of each id up to the first NULL.
  datatype Scanner = Scanner(
    table: map<int, Scan -> Scan>,
    overriding: set<int>, heuristic: set<int>, pre: set<int>,
    heuristics: map<int, seq<Scan -> int>>)

  function Dispatch(env: Scanner, s: Scan): Scan {
    if s.id in env.table then env.table[s.id](s) else s
  }

  // The first heuristic that recognises something.
  function Guess(hs: seq<Scan -> int>, s: Scan): int {
    if hs == [] then PAYLOAD
    else if hs[0](s) != PAYLOAD then hs[0](s)
    else Guess(hs[1..], s)
  }

  // The next id after bindings: overridden, then heuristics before or after
  // the direct discovery.
  function Bind(env: Scanner, s: Scan): int {
    var direct := if s.id in env.overriding then PAYLOAD else s.nextId;
    if s.id !in env.heuristic then direct
    else
      var ahead := s.(offset := s.offset + s.length + s.gap, nextId := PAYLOAD);
      var guess := if s.id in env.heuristics then Guess(env.heuristics[s.id], ahead) else PAYLOAD;
      if s.id in env.pre then (if guess == PAYLOAD then direct else guess)
      else if direct == PAYLOAD then guess
      else direct
  }

  // Nothing is left of a payload: go on where the stack says, or end.
  function Pop(t: Scan): Scan {
    if t.stack == [] then t.(nextId := END)
    else
      var top := t.stack[|t.stack| - 1];
      t.(nextId := top.nextId, offset := top.offset, stack := t.stack[..|t.stack| - 1])
  }

  // The middle of the loop body: nothing found, or a header to record.
  function Settle(env: Scanner, t: Scan): Scan {
    if t.length == 0 then (if t.id == PAYLOAD then Pop(t) else t.(nextId := PAYLOAD))
    else Record(t.(nextId := Bind(env, t)))
  }

  // The bottom of the loop body.
  function Advance(u: Scan): Scan {
    var offset := u.offset + u.length + u.gap;
    u.(id := if offset >= u.bufLen then END else u.nextId, offset := offset, length := 0, nextId := PAYLOAD)
  }

  function Body(env: Scanner, s: Scan): Scan {
    Advance(Settle(env, Dispatch(env, s.(recorded := false))))
  }

  // The state after at most n turns of the loop.
  function After(env: Scanner, s: Scan, n: nat): Scan {
    if n == 0 then s
    else var t := After(env, s, n - 1);
      if t.id == END then t else Body(env, t)
  }

  // -------------------------------------------------------------- the contract

  // What one call of a header scanner may do: it reports lengths that are not
  // negative, leaves prefix and gap at zero, stays where it is, never gains
  // bytes, and of the records touches only the last one, whose last payload bytes
  // it may pass to the postfix.
  predicate Legal(s: Scan, t: Scan) {
    && t.buf == s.buf && t.memLen == s.memLen && t.wireLen == s.wireLen && t.bufLen <= s.bufLen
    && t.offset == s.offset && t.id == s.id && t.recorded == s.recorded
    && t.length >= 0 && t.payload >= 0 && t.postfix >= 0 && t.prefix == 0 && t.gap == 0
    && (t.nextId == END || ValidId(t.nextId))
    && s.flags <= t.flags && t.hdrFlags == s.hdrFlags && t.maps == s.maps && t.stack == s.stack
    && SameRecords(s.headers, t.headers)
  }

  predicate SameRecords(hs: seq<Header>, ks: seq<Header>) {
    && |ks| == |hs|
    && (hs != [] ==>
      var h, k := hs[|hs| - 1], ks[|hs| - 1];
      && ks[..|hs| - 1] == hs[..|hs| - 1]
      && k == h.(payload := k.payload, postfix := k.postfix)
      && 0 <= k.payload <= h.payload && k.postfix >= 0 && RecordEnd(k) <= RecordEnd(h))
  }

  // One turn: the scanner keeps the contract, heuristics name real protocols,
  // and an Ethernet header that leads to IP leaves its payload to the loop.
  ghost predicate LegalTurn(env: Scanner, s: Scan) {
    var t := Dispatch(env, s.(recorded := false));
    && Legal(s.(recorded := false), t)
    && (t.length > 0 ==>
      && (Bind(env, t) == END || ValidId(Bind(env, t)))
      && (s.id == ETHERNET && Bind(env, t) in {IP4, IP6} ==> t.payload == 0 && t.postfix == 0))
  }

  // The first n turns from s.
  ghost predicate LegalRun(env: Scanner, s: Scan, n: nat) {
    forall k :: 0 <= k < n && After(env, s, k).id != END ==> LegalTurn(env, After(env, s, k))
  }

  // ------------------------------------------------------------- the invariant

  // The records lie one after another from the start of the packet.
  predicate Tiled(hs: seq<Header>, end: int) {
    && (hs == [] ==> end == 0)
    && (hs != [] ==> hs[0].offset == 0 && end == hs[|hs| - 1].offset + hs[|hs| - 1].length)
    && (forall i :: 0 < i < |hs| ==> hs[i].offset == hs[i - 1].offset + hs[i - 1].length)
  }

  // A record is made of real bytes of the packet.
  predicate Inside(h: Header, memLen: int) {
    && h.offset >= 0 && h.length >= 0 && h.payload >= 0 && h.postfix >= 0 && h.prefix == 0 && h.gap == 0
    && RecordEnd(h) <= memLen
  }

  predicate AllInside(hs: seq<Header>, memLen: int) {
    forall i :: 0 <= i < |hs| ==> Inside(hs[i], memLen)
  }

  // Before IP is scanned behind an Ethernet record, that record's payload
  // reaches the end of what is left to scan.
  predicate EthernetCovers(s: Scan) {
    s.id in {IP4, IP6} && s.headers != [] && Last(s).id == ETHERNET ==>
      Last(s).offset + Last(s).length + Last(s).payload == s.bufLen && Last(s).postfix == 0
  }

  predicate Inv(s: Scan) {
    && s.memLen == |s.buf| && s.bufLen <= s.memLen && 0 <= s.offset <= s.memLen
    && (s.id == END || (ValidId(s.id) && s.offset <= s.bufLen))
    && s.length == 0 && s.nextId == PAYLOAD && s.stack == []
    && s.prefix == 0 && s.gap == 0 && s.payload >= 0 && s.postfix >= 0 && s.hdrFlags == {}
    && (s.id in {PAYLOAD, END} || (s.payload == 0 && s.postfix == 0))
    && Tiled(s.headers, s.offset)
    && AllInside(s.headers, s.memLen)
    && EthernetCovers(s)
  }

  lemma StartInv(buf: seq<byte>, wireLen: int, firstId: int)
    requires ValidId(firstId)
    ensures Inv(Start(buf, wireLen, firstId))
  {
  }

  // Recording closes the gap between what was asked for and what is there.
  lemma RecordInside(t: Scan)
    requires !t.recorded && t.length >= 0 && t.payload >= 0 && t.postfix >= 0 && t.prefix == 0 && t.gap == 0
    requires 0 <= t.offset <= t.memLen && t.bufLen <= t.memLen
    ensures var u := Record(t);
      && |u.headers| == |t.headers| + 1 && u.headers[..|t.headers|] == t.headers
      && Inside(Last(u), t.memLen) && Last(u).offset == t.offset && Last(u).length == u.length
      && Last(u).id == t.id
      && u == t.(wireLen := u.wireLen, bufLen := u.bufLen, length := u.length, headers := u.headers, maps := u.maps,
                 hdrFlags := {}, payload := 0, postfix := 0, recorded := true)
      && u.bufLen <= t.bufLen && 0 <= u.length <= t.length
      && (u.length < t.length ==> u.offset + u.length >= u.bufLen)
      && (t.payload == 0 && t.postfix == 0 && t.id != PAYLOAD ==>
        (u.offset + u.length + Last(u).payload == u.bufLen || u.bufLen <= u.offset) && Last(u).postfix == 0)
  {
    var v := Lengths(t);
    AdjustCases(v);
  }

  lemma AdjustCases(v: Scan)
    requires v.length >= 0 && v.payload >= 0 && v.postfix >= 0 && v.prefix == 0 && v.gap == 0
    requires 0 <= v.offset <= v.memLen && v.bufLen <= v.memLen
    ensures var w := Adjust(v);
      && w == v.(length := w.length, payload := w.payload, postfix := w.postfix, hdrFlags := w.hdrFlags)
      && 0 <= w.length <= v.length && 0 <= w.payload <= v.payload && 0 <= w.postfix
      && w.offset + w.length + w.payload + w.postfix <= w.memLen
      && (w.length < v.length ==> w.offset + w.length >= w.bufLen)
      && (v.offset + v.length + v.payload <= v.bufLen ==> w.payload == v.payload && w.length == v.length)
      && (v.payload == 0 ==> w.payload == 0) && (v.postfix == 0 ==> w.postfix == 0)
      && w.length == Min(v.length, Max(0, v.bufLen - v.offset))
  {
  }

  lemma TiledSnoc(hs: seq<Header>, h: Header, end: int)
    requires Tiled(hs, end) && h.offset == end
    ensures Tiled(hs + [h], end + h.length)
  {
  }

  lemma InsideSnoc(hs: seq<Header>, h: Header, memLen: int)
    requires AllInside(hs, memLen) && Inside(h, memLen)
    ensures AllInside(hs + [h], memLen)
  {
  }

  lemma SameRecordsAgain(s: Scan)
    requires Inv(s)
    ensures SameRecords(s.headers, s.headers)
  {
    if s.headers != [] {
      assert Inside(Last(s), s.memLen);
    }
  }

  // A legal change of the last record keeps the picture.
  lemma SameRecordsKeep(hs: seq<Header>, ks: seq<Header>, end: int, memLen: int)
    requires SameRecords(hs, ks) && Tiled(hs, end) && AllInside(hs, memLen)
    ensures Tiled(ks, end) && AllInside(ks, memLen)
  {
    if hs != [] {
      assert forall i :: 0 <= i < |hs| - 1 ==> ks[i] == ks[..|hs| - 1][i] == hs[..|hs| - 1][i] == hs[i];
      assert Inside(hs[|hs| - 1], memLen);
    }
  }

  // A header that is about to be recorded, in a state where the records so far
  // are in order.
  predicate Ready(b: Scan) {
    && b.memLen == |b.buf| && b.bufLen <= b.memLen && 0 <= b.offset <= b.memLen && !b.recorded
    && b.stack == [] && b.length > 0 && b.prefix == 0 && b.gap == 0 && b.payload >= 0 && b.postfix >= 0 && b.hdrFlags == {}
    && (b.nextId == END || ValidId(b.nextId))
    && Tiled(b.headers, b.offset) && AllInside(b.headers, b.memLen)
    && (b.id == ETHERNET && b.nextId in {IP4, IP6} ==> b.payload == 0 && b.postfix == 0)
  }

  lemma RecordingInv(b: Scan)
    requires Ready(b)
    ensures Inv(Advance(Record(b)))
  {
    RecordInside(b);
    var u := Record(b);
    hide Record, Tiled, AllInside, Inside;
    TiledSnoc(b.headers, Last(u), b.offset);
    InsideSnoc(b.headers, Last(u), b.memLen);
    assert u.headers == b.headers + [Last(u)];
  }

  // One turn in two forms: nothing was found, or a header is recorded.
  lemma TurnCases(env: Scanner, s: Scan)
    requires Inv(s) && s.id != END && LegalTurn(env, s)
    ensures var t := Dispatch(env, s.(recorded := false));
      && Legal(s.(recorded := false), t)
      && Tiled(t.headers, t.offset) && AllInside(t.headers, t.memLen)
      && if t.length == 0
        then Body(env, s) == Advance(t.(nextId := if s.id == PAYLOAD then END else PAYLOAD))
        else
          && Ready(t.(nextId := Bind(env, t)))
          && Body(env, s) == Advance(Record(t.(nextId := Bind(env, t))))
  {
    hide Record, Bind, Dispatch, Advance, SameRecords, Tiled, AllInside;
    var t := Dispatch(env, s.(recorded := false));
    SameRecordsKeep(s.headers, t.headers, s.offset, s.memLen);
  }

  lemma BodyInv(env: Scanner, s: Scan)
    requires Inv(s) && s.id != END && LegalTurn(env, s)
    ensures Inv(Body(env, s))
  {
    TurnCases(env, s);
    var t := Dispatch(env, s.(recorded := false));
    hide Record, Bind, Dispatch, SameRecords, Body, Tiled, AllInside, Ready, LegalTurn;
    if t.length > 0 {
      RecordingInv(t.(nextId := Bind(env, t)));
    }
  }

  // The last of n turns.
  lemma RunStep(env: Scanner, s: Scan, n: nat)
    requires n > 0 && LegalRun(env, s, n)
    ensures LegalRun(env, s, n - 1)
    ensures var t := After(env, s, n - 1);
      && After(env, s, n) == (if t.id == END then t else Body(env, t))
      && (t.id != END ==> LegalTurn(env, t))
  {
    hide LegalTurn, Body;
  }

  // Whole-run safety: in every reachable state the records tile the scanned
  // part of the packet and every one of them, also after a later scanner has
  // rewritten it, lies inside the captured bytes.
  lemma {:induction false} RunInv(env: Scanner, s: Scan, n: nat)
    requires Inv(s) && LegalRun(env, s, n)
    ensures Inv(After(env, s, n))
  {
    if n > 0 {
      hide *;
      RunStep(env, s, n);
      RunInv(env, s, n - 1);
      var t := After(env, s, n - 1);
      if t.id != END {
        BodyInv(env, t);
      }
    }
  }
}
