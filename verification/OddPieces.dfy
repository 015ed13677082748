/**
 A piece of odd length at an odd address: in_cksum reads the byte behind it, and all
 its words but the first with exchanged bytes.
 */
module OddPieces {
  import opened Bytes
  import opened InternetChecksum
  import opened SplitWords
  import opened VectorConditions
  import opened VectorSum

  // Three bytes or more, and the one behind them.
  predicate IsOddPiece(v: Vec) { OddAddress(v) && v.len % 2 == 1 && v.len >= 3 && v.off + v.len < |v.mem| }

  // What is read behind the first word: the rest of the piece and the byte behind it.
  function Rest(v: Vec): (r: seq<byte>)
    requires IsOddPiece(v)
    ensures |r| == v.len - 1
  {
    v.mem[v.off + 2..v.off + v.len + 1]
  }

  function ByteBehind(v: Vec): byte
    requires IsOddPiece(v)
  {
    v.mem[v.off + v.len]
  }

  lemma OneTally(v: Vec)
    requires IsOddPiece(v)
    ensures var t := Tally([], []);
      && First(t, v) == v.off && Count(t, v) == v.len && Reach(t, v) && v.len > 0 && OddAddress(v)
      && InMemory([v]) && TallyAll([v]) == AddVec(t, v)
  {
    hide AddVec;
    assert [v][..0] == [] && TallyAll([]) == Tally([], []);
  }

  lemma OneSummed(vs: seq<Vec>, x: seq<byte>, y: seq<byte>)
    requires InMemory(vs) && TallyAll(vs) == Tally([] + [] + x, y)
    ensures Summed(vs) == x + y
  {
    hide TallyAll, InMemory;
    assert [] + [] + x == x;
  }

  lemma RestIs(v: Vec)
    requires IsOddPiece(v)
    ensures v.off + 2 <= v.off + v.len + v.len % 2 <= |v.mem|
    ensures v.len % 2 == 1 && Rest(v) == v.mem[v.off + 2..v.off + v.len + v.len % 2] && |Rest(v)| % 2 == 0
  {
  }

  lemma OddPieceSummed(v: Vec)
    requires IsOddPiece(v)
    ensures v.off + 2 <= |v.mem|
    ensures InMemory([v]) && Summed([v]) == SwapPairs(Rest(v)) + v.mem[v.off..v.off + 2]
  {
    RestIs(v);
    OneTally(v);
    hide *;
    AddVecOdd(Tally([], []), v);
    OneSummed([v], SwapPairs(Rest(v)), v.mem[v.off..v.off + 2]);
  }

  lemma OddPieceParts(v: Vec)
    requires IsOddPiece(v)
    ensures Readable(v)
    ensures var x := Rest(v)[..v.len - 3]; var y := v.mem[v.off + v.len - 1];
      && Rest(v) == x + [y, ByteBehind(v)]
      && Padded(PieceBytes(v)) == [v.mem[v.off], v.mem[v.off + 1]] + (x + [y, 0])
  {
    var x := Rest(v)[..v.len - 3];
    assert PieceBytes(v) == [v.mem[v.off], v.mem[v.off + 1]] + x + [v.mem[v.off + v.len - 1]];
  }

  lemma FirstWord(v: Vec)
    requires IsOddPiece(v)
    ensures v.off + v.len < |v.mem| && v.len >= 3
    ensures v.mem[v.off..v.off + 2] == [v.mem[v.off], v.mem[v.off + 1]]
    ensures |Rest(v)[..v.len - 3]| % 2 == 0
  {
  }

  lemma PrefixNothing(x: seq<byte>, y: seq<byte>)
    ensures [] + x + y == x + y
  {
  }

  // 255 times what is read behind the first word, and the byte behind the piece.
  function Excess(big: bool, v: Vec): int
    requires IsOddPiece(v)
  {
    255 * Sum(big, Rest(v)) + Weigh(big, ByteBehind(v))
  }

  // That is how far the sums differ.
  lemma OddPieceSums(big: bool, v: Vec) returns (k: nat)
    requires IsOddPiece(v)
    ensures Readable(v) && InMemory([v])
    ensures Sum(big, Padded(PieceBytes(v))) + Excess(big, v) == Sum(big, Summed([v])) + 0xffff * k
  {
    FirstWord(v);
    OddPieceSummed(v);
    OddPieceParts(v);
    RestIs(v);
    k := SwappedSum(big, Rest(v));
    var x, y, c := Rest(v)[..v.len - 3], v.mem[v.off + v.len - 1], ByteBehind(v);
    var a, b := v.mem[v.off], v.mem[v.off + 1];
    assert Excess(big, v) == 255 * Sum(big, Rest(v)) + Weigh(big, c);
    hide *;
    SumSnoc(big, SwapPairs(Rest(v)), a, b);
    SumSnoc(big, x, y, c);
    SumSnoc(big, x, y, 0);
    EvenSum(|x|, 2);
    WordSplit(big, [], a, b, x + [y, 0]);
    PrefixNothing([a, b], x + [y, 0]);
    SumOfNothing(big);
    WordOther(big, y, c, 0);
  }

  lemma SumOfNothing(big: bool)
    ensures Sum(big, []) == 0
  {
  }

  // So the checksum is that of the zero-padded piece if and only if 255 times what is
  // read behind its first word, and the byte behind the piece, come to a multiple of
  // 65535, and that byte is zero when the piece is.
  lemma OddPieceCondition(big: bool, v: Vec)
    requires IsOddPiece(v)
    ensures Readable(v) && InMemory([v])
    ensures Checksum(big, Summed([v])) == Checksum(big, Padded(PieceBytes(v))) <==>
      Excess(big, v) % 0xffff == 0 && (Blank(PieceBytes(v)) ==> ByteBehind(v) == 0)
  {
    RestIs(v);
    var k := OddPieceSums(big, v);
    OddPieceBlank(v);
    hide *;
    var x, y := Summed([v]), Padded(PieceBytes(v));
    PaddedBlank(PieceBytes(v));
    SameWhen(big, x, y);
    DriftResidue(Sum(big, y), Excess(big, v), Sum(big, x), k);
  }

  lemma OddPieceBlank(v: Vec)
    requires IsOddPiece(v)
    ensures Readable(v) && InMemory([v])
    ensures Blank(Summed([v])) <==> Blank(PieceBytes(v)) && ByteBehind(v) == 0
  {
    RestIs(v);
    FirstWord(v);
    OddPieceSummed(v);
    SwapBlank(Rest(v));
    PieceBlank(v);
    hide *;
    ConcatBlank(SwapPairs(Rest(v)), v.mem[v.off..v.off + 2]);
  }

  lemma ConcatBlank(x: seq<byte>, y: seq<byte>)
    ensures Blank(x + y) <==> Blank(x) && Blank(y)
  {
    assert forall i :: 0 <= i < |x| ==> (x + y)[i] == x[i];
    assert forall i :: 0 <= i < |y| ==> (x + y)[|x| + i] == y[i];
  }

  lemma PieceBlank(v: Vec)
    requires IsOddPiece(v)
    ensures Readable(v) && v.off + 2 <= |v.mem|
    ensures Blank(PieceBytes(v)) && ByteBehind(v) == 0 <==> Blank(Rest(v)) && Blank(v.mem[v.off..v.off + 2])
  {
    var w, p, c := v.mem[v.off..v.off + 2], PieceBytes(v), ByteBehind(v);
    assert p + [c] == w + Rest(v);
    ConcatBlank(p, [c]);
    ConcatBlank(w, Rest(v));
    hide Rest, PieceBytes;
    assert Blank([c]) <==> c == 0 by {
      assert [c][0] == c;
    }
  }

  lemma {:induction false} SwapBlank(bs: seq<byte>)
    requires |bs| % 2 == 0
    ensures Blank(SwapPairs(bs)) <==> Blank(bs)
  {
    if bs != [] {
      var n := |bs| - 2;
      var c := bs[..n];
      SwapBlank(c);
      var r := SwapPairs(c) + [bs[n + 1], bs[n]];
      assert r == SwapPairs(bs);
      hide SwapPairs;
      assert forall i :: 0 <= i < n ==> r[i] == SwapPairs(c)[i] && bs[i] == c[i];
      assert r[n] == bs[n + 1] && r[n + 1] == bs[n];
    }
  }
}
