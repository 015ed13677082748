/**
 When in_cksum sums what it should: the bytes of the pieces, one piece after
 another, with a zero byte behind an odd number of them.
 */
module VectorConditions {
  import opened Bytes
  import opened InternetChecksum
  import opened VectorSum

  // ----------------------------------------------- pieces of even length, anywhere

  predicate EvenLengths(vs: seq<Vec>) {
    forall v :: v in vs ==> Readable(v) && v.len % 2 == 0
  }

  // A piece of even length as the code sums it: at an odd address all its words
  // but the first have their bytes exchanged.
  function AsRead(odd: bool, bs: seq<byte>): (r: seq<byte>)
    requires |bs| % 2 == 0
    ensures |r| == |bs|
  {
    if odd && bs != [] then SwapPairs(bs[2..]) + bs[..2] else bs
  }

  function ReadAll(vs: seq<Vec>): (r: seq<byte>)
    requires EvenLengths(vs)
    ensures |r| % 2 == 0
  {
    if vs == [] then []
    else
      var v := vs[|vs| - 1];
      assert v in vs && forall u :: u in vs[..|vs| - 1] ==> u in vs;
      var front := ReadAll(vs[..|vs| - 1]);
      EvenSum(|front|, v.len);
      front + AsRead(OddAddress(v), PieceBytes(v))
  }

  // Such pieces leave no word for later.
  lemma {:induction false} EvenSummed(vs: seq<Vec>)
    requires EvenLengths(vs)
    ensures InMemory(vs) && TallyAll(vs) == Tally(ReadAll(vs), []) && Summed(vs) == ReadAll(vs)
  {
    if vs != [] {
      var us, v := vs[..|vs| - 1], vs[|vs| - 1];
      assert v in vs && forall u :: u in us ==> u in vs;
      EvenSummed(us);
      assert Reach(Tally(ReadAll(us), []), v);
      EvenStep(ReadAll(us), v);
      hide ReadAll, AddVec, AsRead;
      assert TallyAll(vs) == AddVec(TallyAll(us), v);
    }
    hide AddVec, AsRead;
    assert ReadAll(vs) + [] == ReadAll(vs);
  }

  lemma EvenStep(x: seq<byte>, v: Vec)
    requires |x| % 2 == 0 && Readable(v) && v.len % 2 == 0
    ensures Reach(Tally(x, []), v)
    ensures AddVec(Tally(x, []), v) == Tally(x + AsRead(OddAddress(v), PieceBytes(v)), [])
  {
    hide SwapPairs;
    assert x + [] == x;
    if v.len == 0 {
      assert x + PieceBytes(v) == x;
    } else if OddAddress(v) {
      var bs := PieceBytes(v);
      assert bs[2..] == v.mem[v.off + 2..v.off + v.len] && bs[..2] == v.mem[v.off..v.off + 2];
      assert x + (SwapPairs(bs[2..]) + bs[..2]) == x + SwapPairs(bs[2..]) + bs[..2];
    } else {
      assert v.len - v.len % 2 == v.len;
    }
  }

  // What exchanged words there are, as a sum.
  function MovedIn(big: bool, odd: bool, bs: seq<byte>): nat
    requires |bs| % 2 == 0
  {
    if odd && bs != [] then Sum(big, bs[2..]) else 0
  }

  function Moved(big: bool, vs: seq<Vec>): nat
    requires EvenLengths(vs)
  {
    if vs == [] then 0
    else var v := vs[|vs| - 1]; Moved(big, vs[..|vs| - 1]) + MovedIn(big, OddAddress(v), PieceBytes(v))
  }

  // Each exchanged word counts 255 times more, modulo 0xffff.
  lemma MovedInCounts(big: bool, odd: bool, bs: seq<byte>) returns (k: nat)
    requires |bs| % 2 == 0
    ensures Sum(big, bs) + 255 * MovedIn(big, odd, bs) == Sum(big, AsRead(odd, bs)) + 0xffff * k
    ensures Sum(big, AsRead(odd, bs)) == 0 <==> Sum(big, bs) == 0
  {
    k := 0;
    if odd && bs != [] {
      k := SwappedSum(big, bs[2..]);
      SumConcat(big, SwapPairs(bs[2..]), bs[..2]);
      assert bs == bs[..2] + bs[2..];
      SumConcat(big, bs[..2], bs[2..]);
      hide Sum, SwapPairs;
    }
  }

  lemma {:induction false} GatheredEven(vs: seq<Vec>)
    requires EvenLengths(vs)
    ensures AllReadable(vs) && |Gather(vs)| % 2 == 0
  {
    if vs != [] {
      assert forall u :: u in vs[..|vs| - 1] ==> u in vs;
      assert vs[|vs| - 1] in vs;
      GatheredEven(vs[..|vs| - 1]);
    }
  }

  lemma LastPiece(big: bool, vs: seq<Vec>)
    requires EvenLengths(vs) && vs != []
    ensures var us, v := vs[..|vs| - 1], vs[|vs| - 1];
      && EvenLengths(us) && Readable(v) && v.len % 2 == 0 && AllReadable(us) && AllReadable(vs)
      && Gather(vs) == Gather(us) + PieceBytes(v)
      && ReadAll(vs) == ReadAll(us) + AsRead(OddAddress(v), PieceBytes(v))
      && Moved(big, vs) == Moved(big, us) + MovedIn(big, OddAddress(v), PieceBytes(v))
  {
    var us, v := vs[..|vs| - 1], vs[|vs| - 1];
    assert v in vs && forall u :: u in us ==> u in vs;
    hide AsRead, MovedIn;
    assert ReadAll(vs) == ReadAll(us) + AsRead(OddAddress(v), PieceBytes(v));
  }

  lemma {:induction false} MovedCounts(big: bool, vs: seq<Vec>) returns (k: nat)
    requires EvenLengths(vs)
    ensures AllReadable(vs) && |Gather(vs)| % 2 == 0
    ensures Sum(big, Gather(vs)) + 255 * Moved(big, vs) == Sum(big, ReadAll(vs)) + 0xffff * k
    ensures Sum(big, ReadAll(vs)) == 0 <==> Sum(big, Gather(vs)) == 0
  {
    k := 0;
    GatheredEven(vs);
    if vs != [] {
      hide *;
      LastPiece(big, vs);
      var us, v := vs[..|vs| - 1], vs[|vs| - 1];
      var i := MovedCounts(big, us);
      var j := MovedInCounts(big, OddAddress(v), PieceBytes(v));
      SumConcat(big, Gather(us), PieceBytes(v));
      SumConcat(big, ReadAll(us), AsRead(OddAddress(v), PieceBytes(v)));
      k := i + j;
    }
  }

  lemma SameChecksum(big: bool, x: seq<byte>, y: seq<byte>)
    requires |x| % 2 == 0 && |y| % 2 == 0 && (Sum(big, x) == 0 <==> Sum(big, y) == 0)
    ensures Checksum(big, x) == Checksum(big, y) <==> Sum(big, x) % 0xffff == Sum(big, y) % 0xffff
  {
    OnesSumIsCanon(big, x);
    OnesSumIsCanon(big, y);
    hide Sum, OnesSum, Canon;
    if Sum(big, x) % 0xffff == Sum(big, y) % 0xffff {
      SameCanon(Sum(big, x), Sum(big, y));
    }
  }

  // The law and its exact condition: pieces of even length at any addresses are
  // summed as they should be if and only if what lies behind the first words of
  // those at odd addresses sums to a multiple of 257.
  lemma EvenPiecesCondition(big: bool, vs: seq<Vec>)
    requires EvenLengths(vs)
    ensures InMemory(vs) && AllReadable(vs) && |Gather(vs)| % 2 == 0
    ensures Checksum(big, Summed(vs)) == Checksum(big, Gather(vs)) <==> Moved(big, vs) % 257 == 0
  {
    EvenSummed(vs);
    var k := MovedCounts(big, vs);
    hide Sum, Gather, ReadAll, Moved, InMemory, Summed, Checksum;
    SameChecksum(big, ReadAll(vs), Gather(vs));
    Factor257(Sum(big, Gather(vs)), Sum(big, ReadAll(vs)), Moved(big, vs), k);
  }

  // ----------------------------------------------- even addresses, one odd length

  predicate OddTail(vs: seq<Vec>) {
    vs != [] && vs[|vs| - 1].len % 2 == 1
  }

  // Pieces at even addresses, of even length except that the last one may be
  // odd, with one more byte of memory after it.
  predicate Aligned(vs: seq<Vec>) {
    && (forall v :: v in vs ==> Readable(v) && !OddAddress(v))
    && (forall i :: 0 <= i < |vs| - 1 ==> vs[i].len % 2 == 0)
    && (OddTail(vs) ==> vs[|vs| - 1].off + vs[|vs| - 1].len < |vs[|vs| - 1].mem|)
  }

  // The byte that follows the last piece in memory.
  function Behind(vs: seq<Vec>): byte
    requires Aligned(vs) && OddTail(vs)
  {
    var v := vs[|vs| - 1];
    assert v in vs;
    v.mem[v.off + v.len]
  }

  lemma {:induction false} AlignedRead(vs: seq<Vec>)
    requires EvenLengths(vs) && forall v :: v in vs ==> !OddAddress(v)
    ensures AllReadable(vs) && ReadAll(vs) == Gather(vs)
  {
    if vs != [] {
      assert forall u :: u in vs[..|vs| - 1] ==> u in vs;
      assert vs[|vs| - 1] in vs;
      AlignedRead(vs[..|vs| - 1]);
    }
  }

  lemma OddStep(x: seq<byte>, v: Vec)
    requires |x| % 2 == 0 && Readable(v) && v.len % 2 == 1 && !OddAddress(v) && v.off + v.len < |v.mem|
    ensures Reach(Tally(x, []), v)
    ensures var t := AddVec(Tally(x, []), v); t.sum + t.left == x + PieceBytes(v) + [v.mem[v.off + v.len]]
  {
    assert x + [] == x;
    var k := v.off + v.len - 1;
    assert v.len - v.len % 2 == v.len - 1;
    assert v.mem[v.off..k] + v.mem[k..k + 2] == PieceBytes(v) + [v.mem[v.off + v.len]];
  }

  lemma AlignedFront(vs: seq<Vec>)
    requires Aligned(vs) && OddTail(vs)
    ensures var us, v := vs[..|vs| - 1], vs[|vs| - 1];
      && EvenLengths(us) && (forall u :: u in us ==> !OddAddress(u))
      && Readable(v) && !OddAddress(v) && v.off + v.len < |v.mem| && AllReadable(vs)
  {
    var us, v := vs[..|vs| - 1], vs[|vs| - 1];
    assert v in vs && forall u :: u in us ==> u in vs;
    forall u | u in us ensures u.len % 2 == 0 {
      var i :| 0 <= i < |us| && us[i] == u;
      assert vs[i] == u;
    }
  }

  // What in_cksum adds up then: the bytes of the pieces, and if their number is
  // odd the byte that happens to follow.
  lemma AlignedSummed(vs: seq<Vec>)
    requires Aligned(vs)
    ensures InMemory(vs) && AllReadable(vs)
    ensures Summed(vs) == if OddTail(vs) then Gather(vs) + [Behind(vs)] else Gather(vs)
  {
    if OddTail(vs) {
      var us, v := vs[..|vs| - 1], vs[|vs| - 1];
      AlignedFront(vs);
      EvenSummed(us);
      AlignedRead(us);
      OddStep(Gather(us), v);
      assert Gather(vs) == Gather(us) + PieceBytes(v);
      hide AddVec, Gather, ReadAll;
    } else {
      forall u | u in vs ensures u.len % 2 == 0 {
        var i :| 0 <= i < |vs| && vs[i] == u;
      }
      EvenSummed(vs);
      AlignedRead(vs);
    }
  }

  // With a zero byte behind an odd number of bytes.
  function Padded(bs: seq<byte>): (r: seq<byte>)
    ensures |r| == |bs| + |bs| % 2 && |r| % 2 == 0
  {
    if |bs| % 2 == 1 then bs + [0] else bs
  }

  lemma OneLonger(g: seq<byte>, x: byte, r: seq<byte>)
    requires r == g + [x] && |r| % 2 == 0
    ensures |g| % 2 == 1 && Padded(g) == g + [0]
  {
  }

  // An odd number of bytes is summed correctly, as if a zero byte followed,
  // exactly when a zero byte does follow in memory.
  lemma OddTailCondition(big: bool, vs: seq<Vec>)
    requires Aligned(vs) && OddTail(vs)
    ensures InMemory(vs) && AllReadable(vs)
    ensures Checksum(big, Summed(vs)) == Checksum(big, Padded(Gather(vs))) <==> Behind(vs) == 0
  {
    AlignedSummed(vs);
    hide *;
    OneLonger(Gather(vs), Behind(vs), Summed(vs));
    LastByteMatters(big, Gather(vs), Behind(vs), 0);
  }
}
