/**
 Which protocol comes next: what overriding, heuristics before and after the direct
 discovery, and the scanner's own answer come to over one turn of the loop.
 */
module Bindings {
  import opened PacketState
  import opened RecordHeader
  import opened ScanLoop

  // What the header scanner of the current id leaves.
  function Found(env: Scanner, s: Scan): Scan { Dispatch(env, s.(recorded := false)) }

  // What a heuristic is shown: the state in front of the bytes behind the header.
  function Shown(t: Scan): Scan { t.(offset := t.offset + t.length + t.gap, nextId := PAYLOAD) }

  // Something is left to scan after the turn.
  predicate GoesOn(env: Scanner, s: Scan) { Body(env, s).offset < Body(env, s).bufLen }

  // Heuristic k is the first one of this protocol to recognise something.
  predicate Recognises(env: Scanner, t: Scan, k: nat) {
    && t.id in env.heuristics && k < |env.heuristics[t.id]| && env.heuristics[t.id][k](Shown(t)) != PAYLOAD
    && forall j :: 0 <= j < k ==> env.heuristics[t.id][j](Shown(t)) == PAYLOAD
  }

  predicate NoneRecognises(env: Scanner, t: Scan) {
    t.id in env.heuristics ==>
      forall j :: 0 <= j < |env.heuristics[t.id]| ==> env.heuristics[t.id][j](Shown(t)) == PAYLOAD
  }

  lemma {:induction false} FirstGuess(hs: seq<Scan -> int>, s: Scan, k: nat)
    requires k < |hs| && hs[k](s) != PAYLOAD && forall j :: 0 <= j < k ==> hs[j](s) == PAYLOAD
    ensures Guess(hs, s) == hs[k](s)
  {
    if k > 0 {
      assert hs[0](s) == PAYLOAD;
      FirstGuess(hs[1..], s, k - 1);
    }
  }

  lemma {:induction false} NoGuess(hs: seq<Scan -> int>, s: Scan)
    requires forall j :: 0 <= j < |hs| ==> hs[j](s) == PAYLOAD
    ensures Guess(hs, s) == PAYLOAD
  {
    if hs != [] {
      NoGuess(hs[1..], s);
    }
  }

  // The turn goes on where Bind says.
  lemma TurnBinds(env: Scanner, s: Scan)
    requires Found(env, s).length != 0
    ensures Body(env, s).id == if GoesOn(env, s) then Bind(env, Found(env, s)) else END
  {
    var t := Found(env, s);
    RecordKeepsNext(t.(nextId := Bind(env, t)));
    hide Dispatch, Bind, Record;
  }

  // Without heuristics the scanner's own answer counts, unless it is overridden.
  lemma DirectDiscovery(env: Scanner, s: Scan)
    requires var t := Found(env, s); t.length != 0 && t.id !in env.heuristic && GoesOn(env, s)
    ensures var t := Found(env, s); Body(env, s).id == if t.id in env.overriding then PAYLOAD else t.nextId
  {
    TurnBinds(env, s);
    hide Body, Found;
  }

  // Heuristics afterwards are not asked when the scanner has found something.
  lemma PostHeuristics(env: Scanner, s: Scan)
    requires var t := Found(env, s);
      t.length != 0 && t.id in env.heuristic && t.id !in env.pre && t.id !in env.overriding && t.nextId != PAYLOAD
    ensures Body(env, s).id == if GoesOn(env, s) then Found(env, s).nextId else END
  {
    TurnBinds(env, s);
    hide Body, Found, GoesOn, Guess;
  }

  // Where they are asked, first, or because nothing else has been found, or because
  // what has been found is overridden, the first that recognises something decides.
  lemma FirstHeuristic(env: Scanner, s: Scan, k: nat)
    requires var t := Found(env, s);
      && t.length != 0 && GoesOn(env, s) && t.id in env.heuristic && Recognises(env, t, k)
      && (t.id in env.pre || t.id in env.overriding || t.nextId == PAYLOAD)
    ensures var t := Found(env, s); Body(env, s).id == env.heuristics[t.id][k](Shown(t))
  {
    var t := Found(env, s);
    FirstGuess(env.heuristics[t.id], Shown(t), k);
    TurnBinds(env, s);
    hide Body, Found, Guess;
  }

  // And if none does, it is as without heuristics.
  lemma NoHeuristic(env: Scanner, s: Scan)
    requires var t := Found(env, s); t.length != 0 && GoesOn(env, s) && t.id in env.heuristic && NoneRecognises(env, t)
    ensures var t := Found(env, s); Body(env, s).id == if t.id in env.overriding then PAYLOAD else t.nextId
  {
    var t := Found(env, s);
    if t.id in env.heuristics {
      NoGuess(env.heuristics[t.id], Shown(t));
    }
    TurnBinds(env, s);
    hide Body, Found, Guess;
  }

  // ------------------------------------------------------------- nothing found

  // Nothing is left of a payload: the scan goes on where the last entry of the stack
  // says, which is taken off, and ends without one.
  lemma StackTurn(env: Scanner, s: Scan, st: seq<Pending>, id: int, offset: int)
    requires var t := Found(env, s); t.length == 0 && t.id == PAYLOAD && t.gap == 0 && t.stack == st + [Pending(id, offset)]
    ensures var u := Body(env, s);
      u.stack == st && u.offset == offset && u.id == (if offset < u.bufLen then id else END)
  {
    var t := Found(env, s);
    assert (st + [Pending(id, offset)])[..|st|] == st;
    hide Dispatch, Record, Bind;
  }

  lemma EmptyStack(env: Scanner, s: Scan)
    requires var t := Found(env, s); t.length == 0 && t.id == PAYLOAD && t.stack == []
    ensures Body(env, s).id == END
  {
    hide Dispatch, Record, Bind;
  }

  // A header that its scanner has recorded itself is not recorded again; the scan goes
  // on behind its length and gap.
  lemma AlreadyRecorded(env: Scanner, s: Scan)
    requires var t := Found(env, s); t.length != 0 && t.recorded
    ensures var t, u := Found(env, s), Body(env, s);
      u.headers == t.headers && u.offset == t.offset + t.length + t.gap && u.bufLen == t.bufLen
  {
    hide Dispatch, Bind;
  }
}
