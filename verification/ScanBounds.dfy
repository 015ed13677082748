/**
 The bounds on the number of turns of the scan loop are reached, for packets of
 every length.
 */
module ScanBounds {
  import opened Bytes
  import opened PacketState
  import opened RecordHeader
  import opened ScanLoop
  import opened ScanRuns
  import opened Protocols

  const PROBE := 64

  function OneByte(s: Scan): Scan { s.(length := 1, nextId := PROBE) }

  // Eager: one protocol takes a byte at a time and leaves the last one to
  // scan_payload. Otherwise: it never recognises anything, and the payload slot
  // takes one byte at a time.
  function Table(eager: bool): Scanner {
    Scanner(map[PROBE := (s: Scan) => if eager && s.offset + 1 < s.bufLen then OneByte(s) else s,
                PAYLOAD := (s: Scan) => if eager then ScanPayload(s) else OneByte(s)],
            {}, {}, {}, map[])
  }

  predicate Quiet(s: Scan, len: nat, offset: nat, id: int) {
    && s.bufLen == s.wireLen == s.memLen == len && s.offset == offset && s.id == id && s.length == 0
    && s.prefix == 0 && s.gap == 0 && s.payload == 0 && s.postfix == 0 && s.nextId == PAYLOAD
  }

  lemma OneByteTurn(eager: bool, s: Scan, len: nat, offset: nat, id: int)
    requires Quiet(s, len, offset, id) && offset + 1 < len && id == (if eager then PROBE else PAYLOAD)
    ensures Quiet(Body(Table(eager), s), len, offset + 1, PROBE)
  {
    var t := OneByte(s.(recorded := false));
    assert Dispatch(Table(eager), s.(recorded := false)) == t;
    assert Bind(Table(eager), t) == PROBE;
    RecordOneByte(t, len, offset);
    hide Record, Dispatch, Bind, Table;
  }

  lemma RecordOneByte(t: Scan, len: nat, offset: nat)
    requires t.bufLen == t.wireLen == t.memLen == len && t.offset == offset < len && t.length == 1 && !t.recorded
    requires t.prefix == 0 && t.gap == 0 && t.payload == 0 && t.postfix == 0
    ensures var u := Record(t);
      && u.bufLen == u.wireLen == u.memLen == len && u.offset == offset && u.length == 1 && u.nextId == t.nextId
      && u.prefix == 0 && u.gap == 0 && u.payload == 0 && u.postfix == 0
  {
  }

  lemma EmptyTurn(eager: bool, s: Scan, len: nat, offset: nat)
    requires Quiet(s, len, offset, PROBE) && offset < len && (eager ==> offset + 1 == len)
    ensures Quiet(Body(Table(eager), s), len, offset, PAYLOAD)
  {
    assert Dispatch(Table(eager), s.(recorded := false)) == s.(recorded := false);
  }

  lemma {:induction false} EagerRun(buf: seq<byte>, k: nat)
    requires k < |buf|
    ensures Quiet(After(Table(true), Start(buf, |buf|, PROBE), k), |buf|, k, PROBE)
  {
    hide Table, Body;
    var s := Start(buf, |buf|, PROBE);
    if k > 0 {
      hide Quiet, Start, After;
      EagerRun(buf, k - 1);
      var t := After(Table(true), s, k - 1);
      OneByteTurn(true, t, |buf|, k - 1, PROBE);
      QuietId(t, |buf|, k - 1, PROBE);
      AfterNext(Table(true), s, k - 1);
    }
  }

  lemma {:induction false} LazyRun(buf: seq<byte>, k: nat)
    requires k < |buf|
    ensures Quiet(After(Table(false), Start(buf, |buf|, PROBE), 2 * k), |buf|, k, PROBE)
    ensures Quiet(After(Table(false), Start(buf, |buf|, PROBE), 2 * k + 1), |buf|, k, PAYLOAD)
  {
    hide Table, Body;
    var s := Start(buf, |buf|, PROBE);
    if k > 0 {
      LazyRun(buf, k - 1);
      OneByteTurn(false, After(Table(false), s, 2 * k - 1), |buf|, k - 1, PAYLOAD);
      assert After(Table(false), s, 2 * k) == Body(Table(false), After(Table(false), s, 2 * k - 1));
    }
    EmptyTurn(false, After(Table(false), s, 2 * k), |buf|, k);
    assert After(Table(false), s, 2 * k + 1) == Body(Table(false), After(Table(false), s, 2 * k));
  }

  lemma TableLegal(eager: bool, s: Scan)
    requires Inv(s) && s.id in {PROBE, PAYLOAD} && s.offset < s.bufLen
    ensures LegalTurn(Table(eager), s)
    ensures Body(Table(eager), s).id in {PROBE, PAYLOAD, END}
  {
    var r := s.(recorded := false);
    SameRecordsAgain(s);
    hide Record, SameRecords, Tiled, AllInside;
    var t := Dispatch(Table(eager), r);
    assert t == r || t == OneByte(r) || t == ScanPayload(r);
    assert Bind(Table(eager), t) == t.nextId;
    if t.length > 0 {
      RecordKeepsNext(t);
    }
  }

  lemma {:induction false} TableRunLegal(eager: bool, s: Scan, n: nat)
    requires Inv(s) && s.id in {PROBE, PAYLOAD} && s.offset < s.bufLen
    ensures LegalRun(Table(eager), s, n)
    ensures var t := After(Table(eager), s, n); t.id == END || (t.id in {PROBE, PAYLOAD} && t.offset < t.bufLen)
  {
    var env := Table(eager);
    hide Table, Inv, LegalTurn, Body, Measure, Remaining;
    if n > 0 {
      TableRunLegal(eager, s, n - 1);
      RunInv(env, s, n - 1);
      var t := After(env, s, n - 1);
      if t.id != END {
        TableLegal(eager, t);
        TurnProgress(env, t);
        assert Remaining(Body(env, t)) == Body(env, t).bufLen - Body(env, t).offset by { RemainingIs(Body(env, t)); }
      }
    }
  }

  lemma RemainingIs(s: Scan)
    ensures Remaining(s) == s.bufLen - s.offset
  {
  }

  lemma AfterNext(env: Scanner, s: Scan, k: nat)
    requires After(env, s, k).id != END
    ensures After(env, s, k + 1) == Body(env, After(env, s, k))
  {
    hide Body;
  }

  lemma QuietId(s: Scan, len: nat, offset: nat, id: int)
    requires Quiet(s, len, offset, id) && id in {PROBE, PAYLOAD}
    ensures s.id == id != END
  {
  }

  lemma StartIs(buf: seq<byte>)
    requires buf != []
    ensures var s := Start(buf, |buf|, PROBE);
      Inv(s) && s.id == PROBE != END && s.offset == 0 < s.bufLen == |buf| && Remaining(s) == |buf|
  {
  }

  lemma EagerTable()
    ensures PayloadTakesAll(Table(true))
  {
  }

  // With scan_payload in its slot no smaller bound than |buf| + 1 turns will do.
  lemma EagerBoundIsReached(buf: seq<byte>)
    requires buf != []
    ensures var s := Start(buf, |buf|, PROBE);
      && Inv(s) && s.id != END && PayloadTakesAll(Table(true)) && LegalRun(Table(true), s, |buf| + 1)
      && After(Table(true), s, |buf|).id != END && After(Table(true), s, |buf| + 1).id == END
  {
    hide *;
    var s, env, n := Start(buf, |buf|, PROBE), Table(true), |buf|;
    StartIs(buf);
    EagerTable();
    TableRunLegal(true, s, n + 1);
    EagerRun(buf, n - 1);
    var t := After(env, s, n - 1);
    EmptyTurn(true, t, n, n - 1);
    QuietId(t, n, n - 1, PROBE);
    AfterNext(env, s, n - 1);
    QuietId(Body(env, t), n, n - 1, PAYLOAD);
    RunEndsSoon(env, s, n + 1);
  }

  // For tables in general none smaller than 2 * |buf|.
  lemma LazyBoundIsReached(buf: seq<byte>)
    requires buf != []
    ensures var s := Start(buf, |buf|, PROBE);
      && Inv(s) && s.id != END && LegalRun(Table(false), s, 2 * |buf|)
      && After(Table(false), s, 2 * |buf| - 1).id != END && After(Table(false), s, 2 * |buf|).id == END
  {
    hide *;
    var s, env, n := Start(buf, |buf|, PROBE), Table(false), |buf|;
    StartIs(buf);
    TableRunLegal(false, s, 2 * n);
    LazyRun(buf, n - 1);
    QuietId(After(env, s, 2 * (n - 1) + 1), n, n - 1, PAYLOAD);
    RunEnds(env, s, 2 * n);
  }
}
