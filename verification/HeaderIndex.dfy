/**
 The index of a packet's headers: pkt_header_map of packet_jscanner.h, and the
 searches of packet_jpacket.cpp.
 */
module HeaderIndex {
  import opened Bytes
  import opened PacketState
  import opened RecordHeader
  import opened ScanLoop

  // ------------------------------------------------------------ the header map

  predicate Recorded(hs: seq<Header>, id: int) {
    exists i :: 0 <= i < |hs| && hs[i].id == id
  }

  predicate GroupUsed(hs: seq<Header>, g: nat) {
    exists i :: 0 <= i < |hs| && hs[i].id / 32 == g
  }

  // Bit b of word g says whether id 32 * g + b has been recorded; the high half
  // of a word that is in use is its own number.
  predicate MapsAgree(s: Scan) {
    && |s.maps| == 8 && (forall g :: 0 <= g < 8 ==> |s.maps[g]| == 64)
    && (forall g, b :: 0 <= g < 8 && 0 <= b < 32 ==> (s.maps[g][b] <==> Recorded(s.headers, 32 * g + b)))
    && (forall g, b :: 0 <= g < 8 && 32 <= b < 64 ==> (s.maps[g][b] <==> GroupUsed(s.headers, g) && Bit(g, b - 32)))
  }

  lemma StartAgrees(buf: seq<byte>, wireLen: int, firstId: int)
    ensures MapsAgree(Start(buf, wireLen, firstId))
  {
  }

  lemma RecordedSnoc(hs: seq<Header>, h: Header, id: int)
    ensures Recorded(hs + [h], id) <==> Recorded(hs, id) || h.id == id
    ensures forall g: nat :: GroupUsed(hs + [h], g) <==> GroupUsed(hs, g) || h.id / 32 == g
  {
    var ks := hs + [h];
    assert ks[|hs|] == h;
    if Recorded(hs, id) {
      var i :| 0 <= i < |hs| && hs[i].id == id;
      assert ks[i].id == id;
    }
    forall g: nat | GroupUsed(hs, g)
      ensures GroupUsed(ks, g)
    {
      var i :| 0 <= i < |hs| && hs[i].id / 32 == g;
      assert ks[i].id / 32 == g;
    }
  }

  lemma AddAgrees(s: Scan, u: Scan, h: Header)
    requires MapsAgree(s) && ValidId(h.id) && u.headers == s.headers + [h] && u.maps == AddHeader(s.maps, h.id)
    ensures MapsAgree(u)
  {
    hide Recorded, GroupUsed, Bit;
    var k := h.id / 32;
    forall g, b | 0 <= g < 8 && 0 <= b < 32
      ensures u.maps[g][b] <==> Recorded(u.headers, 32 * g + b)
    {
      RecordedSnoc(s.headers, h, 32 * g + b);
      assert h.id == 32 * g + b <==> g == k && b == h.id % 32;
    }
    forall g, b | 0 <= g < 8 && 32 <= b < 64
      ensures u.maps[g][b] <==> GroupUsed(u.headers, g) && Bit(g, b - 32)
    {
      RecordedSnoc(s.headers, h, 0);
    }
  }

  lemma SameAgrees(s: Scan, t: Scan)
    requires MapsAgree(s) && t.maps == s.maps && (t.headers == s.headers || SameRecords(s.headers, t.headers))
    ensures MapsAgree(t)
  {
    if t.headers != s.headers {
      SameIds(s.headers, t.headers);
      forall id ensures Recorded(t.headers, id) <==> Recorded(s.headers, id) {
        SameFinds(s.headers, t.headers, id);
        SameFinds(t.headers, s.headers, id);
      }
      forall g: nat ensures GroupUsed(t.headers, g) <==> GroupUsed(s.headers, g) {
        SameGroups(s.headers, t.headers, g);
        SameGroups(t.headers, s.headers, g);
      }
    }
  }

  lemma SameIds(hs: seq<Header>, ks: seq<Header>)
    requires SameRecords(hs, ks)
    ensures |ks| == |hs| && forall i :: 0 <= i < |hs| ==> ks[i].id == hs[i].id
  {
    if hs != [] {
      var k := |hs| - 1;
      assert forall i :: 0 <= i < k ==> ks[i] == ks[..k][i] == hs[..k][i] == hs[i];
    }
  }

  lemma SameFinds(hs: seq<Header>, ks: seq<Header>, id: int)
    requires |ks| == |hs| && forall i :: 0 <= i < |hs| ==> ks[i].id == hs[i].id
    ensures Recorded(hs, id) ==> Recorded(ks, id)
  {
    if Recorded(hs, id) {
      var i :| 0 <= i < |hs| && hs[i].id == id;
      assert ks[i].id == id;
    }
  }

  lemma SameGroups(hs: seq<Header>, ks: seq<Header>, g: nat)
    requires |ks| == |hs| && forall i :: 0 <= i < |hs| ==> ks[i].id == hs[i].id
    ensures GroupUsed(hs, g) ==> GroupUsed(ks, g)
  {
    if GroupUsed(hs, g) {
      var i :| 0 <= i < |hs| && hs[i].id / 32 == g;
      assert ks[i].id / 32 == g;
    }
  }

  lemma RecordAdds(t: Scan)
    requires !t.recorded
    ensures var u := Record(t);
      && u.headers != [] && u.headers == t.headers + [Last(u)] && Last(u).id == t.id && u.maps == AddHeader(t.maps, t.id)
  {
    AdjustFrame(Lengths(t));
    hide Adjust, AddHeader, RecordFlags;
  }

  lemma BodyAgrees(env: Scanner, s: Scan)
    requires Inv(s) && s.id != END && LegalTurn(env, s) && MapsAgree(s)
    ensures MapsAgree(Body(env, s))
  {
    TurnCases(env, s);
    var t := Dispatch(env, s.(recorded := false));
    hide Body, Bind, Dispatch, Record, AddHeader, SameRecords, Tiled, AllInside, LegalTurn, MapsAgree;
    SameAgrees(s, t);
    if t.length > 0 {
      var b := t.(nextId := Bind(env, t));
      RecordAdds(b);
      var u := Record(b);
      AddAgrees(t, u, Last(u));
      SameAgrees(u, Advance(u));
    } else {
      SameAgrees(t, Body(env, s));
    }
  }

  // Over any run the map answers exactly which protocols have been recorded.
  lemma {:induction false} MapsOverRuns(env: Scanner, s: Scan, n: nat)
    requires Inv(s) && MapsAgree(s) && LegalRun(env, s, n)
    ensures MapsAgree(After(env, s, n))
  {
    hide Inv, MapsAgree, LegalRun, LegalTurn, Body;
    if n > 0 {
      RunStep(env, s, n);
      MapsOverRuns(env, s, n - 1);
      RunInv(env, s, n - 1);
      var t := After(env, s, n - 1);
      if t.id != END {
        BodyAgrees(env, t);
      }
    }
  }

  // ------------------------------------------------------------------ searches

  // pkt_header_count is an int8_t.
  function Int8(n: nat): int { (n + 128) % 256 - 128 }

  // The records a search looks at.
  function Visible(hs: seq<Header>): seq<Header> {
    if 0 <= Int8(|hs|) <= |hs| then hs[..Int8(|hs|)] else []
  }

  lemma AllVisible(hs: seq<Header>)
    ensures Visible(hs) == hs <==> |hs| <= 127
  {
  }

  // The places of an id, in order.
  function Places(hs: seq<Header>, id: int): (r: seq<nat>)
    ensures |r| <= |hs|
  {
    if hs == [] then []
    else
      var rest := Places(hs[..|hs| - 1], id);
      if hs[|hs| - 1].id == id then rest + [|hs| - 1] else rest
  }

  // All the places of an id, and nothing else, in increasing order.
  ghost predicate ArePlaces(r: seq<nat>, hs: seq<Header>, id: int) {
    && (forall k :: 0 <= k < |r| ==> IsPlace(r[k], hs, id))
    && (forall i :: IsPlace(i, hs, id) ==> i in r)
    && (forall j, k :: 0 <= j < k < |r| ==> r[j] < r[k])
  }

  predicate IsPlace(i: int, hs: seq<Header>, id: int) { 0 <= i < |hs| && hs[i].id == id }

  lemma {:induction false} PlacesMeaning(hs: seq<Header>, id: int)
    ensures ArePlaces(Places(hs, id), hs, id)
  {
    if hs != [] {
      var front := hs[..|hs| - 1];
      PlacesMeaning(front, id);
      PlacesSnoc(Places(front, id), hs, id);
    }
  }

  lemma PlaceCases(hs: seq<Header>, id: int, i: int)
    requires hs != []
    ensures IsPlace(i, hs, id) <==> IsPlace(i, hs[..|hs| - 1], id) || (i == |hs| - 1 && hs[i].id == id)
    ensures IsPlace(i, hs[..|hs| - 1], id) ==> i < |hs| - 1
  {
  }

  lemma PlacesSnoc(rest: seq<nat>, hs: seq<Header>, id: int)
    requires hs != [] && ArePlaces(rest, hs[..|hs| - 1], id)
    ensures ArePlaces(if hs[|hs| - 1].id == id then rest + [|hs| - 1] else rest, hs, id)
  {
    hide IsPlace;
    var last := |hs| - 1;
    var r := if hs[last].id == id then rest + [last] else rest;
    forall k | 0 <= k < |r| ensures IsPlace(r[k], hs, id) {
      PlaceCases(hs, id, r[k]);
      if k < |rest| {
        assert IsPlace(rest[k], hs[..last], id);
      }
    }
    forall i | IsPlace(i, hs, id) ensures i in r {
      PlaceCases(hs, id, i);
      if i == last && hs[last].id == id {
        assert r[|rest|] == i;
      } else {
        assert i in rest;
      }
    }
    forall j, k | 0 <= j < k < |r| ensures r[j] < r[k] {
      PlaceCases(hs, id, rest[j]);
      assert IsPlace(rest[j], hs[..last], id);
    }
  }

  // jint findHeaderById(packet_state_t *packet, jint id, jint instance)
  method FindHeaderById(hs: seq<Header>, id: int, instance0: int) returns (r: int)
    ensures var places := Places(Visible(hs), id);
      r == if 0 <= instance0 < |places| then places[instance0] else -1
  {
    var instance := instance0;
    var vs := Visible(hs);
    for i := 0 to |vs|
      invariant instance == instance0 - |Places(vs[..i], id)|
      invariant instance0 >= 0 ==> instance >= 0
    {
      assert vs[..i + 1][..i] == vs[..i];
      if vs[i].id == id {
        if instance == 0 {
          PlacesPrefix(vs, i + 1, id);
          return i;
        } else {
          instance := instance - 1;
        }
      }
    }
    assert vs[..|vs|] == vs;
    return -1;
  }

  lemma {:induction false} PlacesPrefix(hs: seq<Header>, i: nat, id: int)
    requires i <= |hs|
    ensures Places(hs[..i], id) <= Places(hs, id)
  {
    if i < |hs| {
      assert hs[..|hs| - 1][..i] == hs[..i];
      PlacesPrefix(hs[..|hs| - 1], i, id);
    } else {
      assert hs[..i] == hs;
    }
  }

  // jint getInstanceCount(jint id)
  method GetInstanceCount(hs: seq<Header>, id: int) returns (count: int)
    ensures count == |Places(Visible(hs), id)|
  {
    count := 0;
    var vs := Visible(hs);
    for i := 0 to |vs|
      invariant count == |Places(vs[..i], id)|
    {
      assert vs[..i + 1][..i] == vs[..i];
      if vs[i].id == id {
        count := count + 1;
      }
    }
    assert vs[..|vs|] == vs;
  }

  // Asking for instances 0 .. count-1 lists every record of the id, once, in
  // packet order, exactly when the searches can see all the records that carry
  // it; with at most 127 records they always can.
  lemma SearchIsComplete(hs: seq<Header>, id: int)
    ensures ArePlaces(Places(Visible(hs), id), hs, id) <==>
      forall i :: IsPlace(i, hs, id) ==> i < |Visible(hs)|
    ensures |hs| <= 127 ==> ArePlaces(Places(Visible(hs), id), hs, id)
  {
    AllVisible(hs);
    var vs := Visible(hs);
    var r := Places(vs, id);
    PlacesMeaning(vs, id);
    assert forall i :: IsPlace(i, vs, id) <==> IsPlace(i, hs, id) && i < |vs|;
    if ArePlaces(r, hs, id) {
      forall i | IsPlace(i, hs, id)
        ensures i < |vs|
      {
        var k :| 0 <= k < |r| && r[k] == i;
        assert IsPlace(r[k], vs, id);
      }
    }
  }

  // The map and the searches agree: the bit of an id is set if and only if its
  // first instance can be found, in packets of at most 127 records.
  lemma MapFindsFirst(s: Scan, id: int)
    requires MapsAgree(s) && ValidId(id) && |s.headers| <= 127
    ensures s.maps[id / 32][id % 32] <==> Places(Visible(s.headers), id) != []
  {
    AllVisible(s.headers);
    var r := Places(s.headers, id);
    PlacesMeaning(s.headers, id);
    assert id == 32 * (id / 32) + id % 32;
    assert s.maps[id / 32][id % 32] <==> Recorded(s.headers, id);
    if r != [] {
      assert IsPlace(r[0], s.headers, id);
    }
    if Recorded(s.headers, id) {
      var i :| 0 <= i < |s.headers| && s.headers[i].id == id;
      assert IsPlace(i, s.headers, id);
    }
  }
}
