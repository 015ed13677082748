/**
 What holds over whole runs of the scanner's loop: how the records add up, that
 they are not lost, which flags they inherit, and how soon the loop ends.
 */
module ScanRuns {
  import opened PacketState
  import opened RecordHeader
  import opened ScanLoop

  // ----------------------------------------------------------- adding up bytes

  function TotalLength(hs: seq<Header>): int {
    if hs == [] then 0 else TotalLength(hs[..|hs| - 1]) + hs[|hs| - 1].length
  }

  lemma {:induction false} TiledTotal(hs: seq<Header>, end: int)
    requires Tiled(hs, end)
    ensures TotalLength(hs) == end
  {
    if hs != [] {
      TiledTotal(hs[..|hs| - 1], hs[|hs| - 1].offset);
    }
  }

  // What scan() returns is the sum of the header lengths it recorded.
  lemma OffsetIsTotal(env: Scanner, s: Scan, n: nat)
    requires Inv(s) && LegalRun(env, s, n)
    ensures After(env, s, n).offset == TotalLength(After(env, s, n).headers)
  {
    RunInv(env, s, n);
    TiledTotal(After(env, s, n).headers, After(env, s, n).offset);
  }

  // ------------------------------------------------------------ records remain

  // Everything but the split of the last record's tail is final once recorded.
  predicate Extends(hs: seq<Header>, ks: seq<Header>) {
    && |hs| <= |ks|
    && (forall i :: 0 <= i < |hs| - 1 ==> ks[i] == hs[i])
    && (hs != [] ==>
      var h, k := hs[|hs| - 1], ks[|hs| - 1];
      && k == h.(payload := k.payload, postfix := k.postfix)
      && k.payload <= h.payload && RecordEnd(k) <= RecordEnd(h))
  }

  lemma ExtendsChain(hs: seq<Header>, ks: seq<Header>, ms: seq<Header>)
    requires Extends(hs, ks) && Extends(ks, ms)
    ensures Extends(hs, ms)
  {
  }

  lemma SameRecordsExtend(hs: seq<Header>, ks: seq<Header>)
    requires SameRecords(hs, ks)
    ensures Extends(hs, ks)
  {
    if hs != [] {
      var k := |hs| - 1;
      assert forall i :: 0 <= i < k ==> ks[i] == ks[..k][i] == hs[..k][i] == hs[i];
    }
  }

  lemma SnocExtends(ks: seq<Header>, us: seq<Header>)
    requires |us| > |ks| && us[..|ks|] == ks
    ensures Extends(ks, us)
  {
    assert forall i :: 0 <= i < |ks| ==> us[i] == us[..|ks|][i] == ks[i];
  }

  lemma BodyExtends(env: Scanner, s: Scan)
    requires Inv(s) && s.id != END && LegalTurn(env, s)
    ensures Extends(s.headers, Body(env, s).headers)
  {
    TurnCases(env, s);
    var t := Dispatch(env, s.(recorded := false));
    hide Body, Bind, Dispatch, Record, SameRecords, Tiled, AllInside, LegalTurn, Inv, Extends;
    SameRecordsExtend(s.headers, t.headers);
    if t.length > 0 {
      var b := t.(nextId := Bind(env, t));
      RecordInside(b);
      SnocExtends(t.headers, Record(b).headers);
      ExtendsChain(s.headers, t.headers, Record(b).headers);
    }
  }

  // No record is ever lost, moved or resized, and only its last bytes may be
  // handed from payload to postfix, while it is the last record.
  lemma {:induction false} RecordsRemain(env: Scanner, s: Scan, m: nat, n: nat)
    requires Inv(s) && LegalRun(env, s, n) && m <= n
    ensures Extends(After(env, s, m).headers, After(env, s, n).headers)
    decreases n
  {
    if m < n {
      hide *;
      RunStep(env, s, n);
      RecordsRemain(env, s, m, n - 1);
      RunInv(env, s, n - 1);
      var t := After(env, s, n - 1);
      if t.id != END {
        BodyExtends(env, t);
        ExtendsChain(After(env, s, m).headers, t.headers, Body(env, t).headers);
      }
    } else {
      hide After;
    }
  }

  // --------------------------------------------------------------------- flags

  predicate FlagsInv(s: Scan) {
    && (forall i :: 0 <= i < |s.headers| ==> IgnoreBounds in s.headers[i].flags)
    && (forall i :: 0 <= i < |s.headers| && Fragmented in s.headers[i].flags ==> Fragmented in s.flags)
    && (forall i, j :: 0 <= i < j < |s.headers| && Fragmented in s.headers[i].flags ==>
      Fragmented in s.headers[j].flags)
  }

  lemma AdjustFlags(s: Scan)
    ensures Fragmented in Adjust(s).hdrFlags <==> Fragmented in s.hdrFlags
    ensures Adjust(s).flags == s.flags && Adjust(s).headers == s.headers
  {
  }

  lemma RecordedFlags(t: Scan)
    requires !t.recorded && t.hdrFlags == {}
    ensures var u := Record(t);
      && u.headers != [] && u.headers[..|u.headers| - 1] == t.headers && u.flags == t.flags
      && IgnoreBounds in Last(u).flags && (Fragmented in Last(u).flags <==> Fragmented in t.flags)
  {
    AdjustFlags(Lengths(t));
  }

  lemma BodyFlags(env: Scanner, s: Scan)
    requires Inv(s) && s.id != END && LegalTurn(env, s) && FlagsInv(s)
    ensures FlagsInv(Body(env, s))
  {
    TurnCases(env, s);
    var t := Dispatch(env, s.(recorded := false));
    hide Body, Bind, Dispatch, Record, SameRecords, Tiled, AllInside, LegalTurn, Inv, FlagsInv;
    FlagsKept(s, t);
    if t.length > 0 {
      var b := t.(nextId := Bind(env, t));
      RecordedFlags(b);
      FlagsKept(t, b);
      var u := Record(b);
      FlagsSnoc(b, u);
      FlagsKept(u, Advance(u));
    } else {
      FlagsKept(t, Body(env, s));
    }
  }

  lemma FlagsKept(s: Scan, t: Scan)
    requires FlagsInv(s) && s.flags <= t.flags && (t.headers == s.headers || SameRecords(s.headers, t.headers))
    ensures FlagsInv(t)
  {
    if t.headers != s.headers {
      SameFlags(s.headers, t.headers);
    }
  }

  lemma FlagsSnoc(t: Scan, u: Scan)
    requires FlagsInv(t) && u.headers != [] && u.headers[..|u.headers| - 1] == t.headers && u.flags == t.flags
    requires IgnoreBounds in Last(u).flags && (Fragmented in Last(u).flags <==> Fragmented in t.flags)
    ensures FlagsInv(u)
  {
    assert u.headers == t.headers + [Last(u)];
  }

  lemma SameFlags(hs: seq<Header>, ks: seq<Header>)
    requires SameRecords(hs, ks)
    ensures |ks| == |hs| && forall i :: 0 <= i < |hs| ==> ks[i].flags == hs[i].flags
  {
    if hs != [] {
      var k := |hs| - 1;
      assert forall i :: 0 <= i < k ==> ks[i] == ks[..k][i] == hs[..k][i] == hs[i];
    }
  }

  lemma FlagsStart(s: Scan)
    requires s.headers == []
    ensures FlagsInv(s)
  {
  }

  // Behind a fragment every record is marked as fragmented. And every record of
  // every packet carries IgnoreBounds, whether or not any header asked for it.
  lemma {:induction false} FlagsOverRuns(env: Scanner, s: Scan, n: nat)
    requires Inv(s) && s.headers == [] && LegalRun(env, s, n)
    ensures FlagsInv(After(env, s, n))
  {
    hide *;
    if n == 0 {
      AfterZero(env, s);
      FlagsStart(s);
    } else {
      RunStep(env, s, n);
      FlagsOverRuns(env, s, n - 1);
      RunInv(env, s, n - 1);
      var t := After(env, s, n - 1);
      if t.id != END {
        BodyFlags(env, t);
      }
    }
  }

  // What CUMULATIVE_FLAG_MASK was meant to give, and exactly when it does.
  lemma MaskAsMeant(s: Scan)
    ensures RecordFlags(s) == s.hdrFlags + s.flags * {Fragmented, IgnoreBounds}
      <==> IgnoreBounds in s.flags + s.hdrFlags
  {
    var meant := s.hdrFlags + s.flags * {Fragmented, IgnoreBounds};
    assert IgnoreBounds in RecordFlags(s);
    assert IgnoreBounds in meant <==> IgnoreBounds in s.flags + s.hdrFlags;
    assert forall f :: f != IgnoreBounds ==> (f in RecordFlags(s) <==> f in meant);
  }

  // --------------------------------------------------------------- termination

  function Remaining(s: Scan): int { s.bufLen - s.offset }

  // Bytes to go first, then whether the payload id has been reached.
  function Measure(s: Scan): int {
    2 * Remaining(s) + if s.id == PAYLOAD then 0 else 1
  }

  lemma TurnProgress(env: Scanner, s: Scan)
    requires Inv(s) && s.id != END && LegalTurn(env, s)
    ensures var t := Body(env, s);
      t.id == END || (0 < Remaining(t) && Measure(t) < Measure(s)
        && (Remaining(t) < Remaining(s) || (t.id == PAYLOAD != s.id && Remaining(t) <= Remaining(s))))
  {
    TurnCases(env, s);
    var t := Dispatch(env, s.(recorded := false));
    hide Body, Bind, Dispatch, Record, SameRecords, Tiled, AllInside, LegalTurn;
    if t.length > 0 {
      RecordInside(t.(nextId := Bind(env, t)));
    }
  }

  lemma AfterZero(env: Scanner, s: Scan)
    ensures After(env, s, 0) == s
  {
  }

  lemma {:induction false} Countdown(env: Scanner, s: Scan, n: nat)
    requires Inv(s) && s.id != END && LegalRun(env, s, n)
    ensures var t := After(env, s, n);
      t.id == END || (Measure(t) <= Measure(s) - n && (n > 0 ==> Remaining(t) > 0))
  {
    hide Inv, LegalTurn, LegalRun, Body, After;
    AfterZero(env, s);
    if n > 0 {
      RunStep(env, s, n);
      Countdown(env, s, n - 1);
      RunInv(env, s, n - 1);
      var t := After(env, s, n - 1);
      if t.id != END {
        TurnProgress(env, t);
      }
    }
  }

  // Any table that keeps the contract: two turns a byte are enough.
  lemma RunEnds(env: Scanner, s: Scan, n: nat)
    requires Inv(s) && s.id != END && LegalRun(env, s, n)
    requires n >= 2 * Remaining(s) && n > 0
    ensures After(env, s, n).id == END
  {
    Countdown(env, s, n);
  }

  // The payload slot takes whatever is left, as scan_payload does.
  ghost predicate PayloadTakesAll(env: Scanner) {
    && PAYLOAD in env.table
    && forall s: Scan :: var t := env.table[PAYLOAD](s);
      s.id == PAYLOAD ==> t.length == s.bufLen - s.offset && t.bufLen == s.bufLen
  }

  function Turns(s: Scan): int {
    if s.id == PAYLOAD then 1 else Remaining(s) + 1
  }

  lemma PayloadTurnEnds(env: Scanner, s: Scan)
    requires Inv(s) && s.id == PAYLOAD && LegalTurn(env, s) && PayloadTakesAll(env)
    ensures Body(env, s).id == END
  {
    TurnCases(env, s);
    var t := Dispatch(env, s.(recorded := false));
    hide Body, Bind, Record, SameRecords, Tiled, AllInside, LegalTurn;
    if t.length > 0 {
      RecordInside(t.(nextId := Bind(env, t)));
    }
  }

  lemma {:induction false} FastCountdown(env: Scanner, s: Scan, n: nat)
    requires Inv(s) && s.id != END && LegalRun(env, s, n) && PayloadTakesAll(env)
    ensures var t := After(env, s, n);
      t.id == END || (Turns(t) <= Turns(s) - n && (n > 0 ==> Remaining(t) > 0))
  {
    hide Inv, LegalTurn, LegalRun, Body, After, PayloadTakesAll;
    AfterZero(env, s);
    if n > 0 {
      RunStep(env, s, n);
      FastCountdown(env, s, n - 1);
      RunInv(env, s, n - 1);
      var t := After(env, s, n - 1);
      if t.id != END {
        TurnProgress(env, t);
        if t.id == PAYLOAD {
          PayloadTurnEnds(env, t);
        }
      }
    }
  }

  // With scan_payload in its slot: one turn a byte, and one to spare.
  lemma RunEndsSoon(env: Scanner, s: Scan, n: nat)
    requires Inv(s) && s.id != END && LegalRun(env, s, n) && PayloadTakesAll(env)
    requires n >= Remaining(s) + 1
    ensures After(env, s, n).id == END
  {
    FastCountdown(env, s, n);
  }
}
