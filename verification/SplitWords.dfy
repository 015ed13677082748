/**
 A word that is split between two pieces: in_cksum does not put it together, and
 reads the second piece shifted by one byte.
 */
module SplitWords {
  import opened Bytes
  import opened InternetChecksum
  import opened VectorConditions
  import opened VectorSum

  // What a number counts as the second byte of a word.
  function Weigh(big: bool, x: int): int { if big then x else 256 * x }

  predicate Blank(bs: seq<byte>) {
    forall i :: 0 <= i < |bs| ==> bs[i] == 0
  }

  // ------------------------------------------------------------- what is summed

  // The second piece and what is read behind it lie in memory: its last word, and
  // one word more if its length is even.
  predicate Reached(u: Vec) { u.len > 0 && u.off + u.len + 2 - u.len % 2 <= |u.mem| }

  function ReadBehind(u: Vec): (e: seq<byte>)
    requires Reached(u)
    ensures |e| == 2 - u.len % 2
  {
    u.mem[u.off + u.len..u.off + u.len + 2 - u.len % 2]
  }

  // What is summed of the piece bs: a whole word is skipped, although only one of
  // its bytes was wanted, and the end is made up from the bytes e behind it.
  function Skipped(bs: seq<byte>, e: seq<byte>): (r: seq<byte>)
    requires bs != [] && |e| == 2 - |bs| % 2
    ensures |r| % 2 == 0
  {
    if |bs| == 1 then [] else bs[2..] + e
  }

  lemma AlignedLeft(vs: seq<Vec>)
    requires Aligned(vs) && OddTail(vs)
    ensures InMemory(vs) && |TallyAll(vs).left| == 2
  {
    hide Aligned, ReadAll, TallyAll, InMemory, EvenLengths, OddAddress;
    AlignedFront(vs);
    EvenSummed(vs[..|vs| - 1]);
    OddLeft(vs);
  }

  lemma OddLeft(vs: seq<Vec>)
    requires vs != [] && InMemory(vs[..|vs| - 1]) && TallyAll(vs[..|vs| - 1]).left == []
    requires var v := vs[|vs| - 1]; v.len % 2 == 1 && !OddAddress(v) && v.off + v.len < |v.mem|
    ensures InMemory(vs) && |TallyAll(vs).left| == 2
  {
    var t, v := TallyAll(vs[..|vs| - 1]), vs[|vs| - 1];
    assert Reach(t, v);
    AddVecPlain(t, v);
    hide AddVec;
  }

  lemma SkippedAdded(t: Tally, u: Vec)
    requires Even(t) && |t.left| == 2 && Reached(u) && !OddAddress(u)
    ensures Reach(t, u)
    ensures var r := AddVec(t, u); r.sum + r.left == t.sum + t.left + Skipped(PieceBytes(u), ReadBehind(u))
  {
    BehindWord(t, u);
    hide *;
    AddVecPlain(t, u);
    var w, n := u.off + 2, u.len - 1;
    var added, left := u.mem[w..w + n - n % 2], if n % 2 == 1 then u.mem[w + n - 1..w + n + 1] else [];
    SkippedBytes(u, added, left);
    Joined(t.sum + t.left, added, left, Skipped(PieceBytes(u), ReadBehind(u)));
  }

  lemma BehindWord(t: Tally, u: Vec)
    requires |t.left| == 2 && Reached(u)
    ensures u.len > 0 && First(t, u) == u.off + 2 && Count(t, u) == u.len - 1 && Reach(t, u)
    ensures u.off + u.len + 2 - u.len % 2 <= |u.mem|
  {
  }

  lemma Joined(x: seq<byte>, a: seq<byte>, b: seq<byte>, c: seq<byte>)
    requires a + b == c
    ensures x + a + b == x + c
  {
  }

  lemma SkippedBytes(u: Vec, added: seq<byte>, left: seq<byte>)
    requires Reached(u)
    requires var w, n := u.off + 2, u.len - 1;
      added == u.mem[w..w + n - n % 2] && left == if n % 2 == 1 then u.mem[w + n - 1..w + n + 1] else []
    ensures added + left == Skipped(PieceBytes(u), ReadBehind(u))
  {
    if u.len % 2 == 1 {
      assert u.len == 1 || added == PieceBytes(u)[2..] + ReadBehind(u);
    } else {
      assert added == PieceBytes(u)[2..] && left == ReadBehind(u);
    }
  }

  lemma SplitSummed(vs: seq<Vec>, u: Vec)
    requires Aligned(vs) && OddTail(vs) && Reached(u) && !OddAddress(u)
    ensures InMemory(vs + [u]) && AllReadable(vs) && AllReadable(vs + [u])
    ensures Summed(vs + [u]) == Gather(vs) + [Behind(vs)] + Skipped(PieceBytes(u), ReadBehind(u))
    ensures Gather(vs + [u]) == Gather(vs) + PieceBytes(u)
  {
    AlignedSummed(vs);
    AlignedLeft(vs);
    hide Aligned, InMemory, TallyAll, Gather, PieceBytes, ReadBehind, Skipped, Behind;
    SkippedAdded(TallyAll(vs), u);
    TallySnoc(vs, u);
    GatherSnoc(vs, u);
  }

  // ------------------------------------------------------- sums shifted by a byte

  lemma WordShift(big: bool, a: byte, b: byte, c: byte) returns (k: int)
    ensures 256 * Word(big, a, b) + Weigh(big, c - a) == Word(big, b, c) + 0xffff * k
  {
    k := if big then a else b;
  }

  lemma ShiftedParts(t: seq<byte>, c: byte)
    requires |t| % 2 == 0 && t != []
    ensures var n := |t| - 2;
      && t == t[..n] + [t[n], t[n + 1]] && |t[..n]| % 2 == 0
      && (n == 0 ==> t[1..] + [c] == [] + [t[1], c] && t[..n] == [])
      && (n > 0 ==> t[1..] + [c] == t[..n][1..] + [t[n]] + [t[n + 1], c] && t[..n][0] == t[0])
      && (n > 0 ==> |t[..n][1..] + [t[n]]| % 2 == 0)
  {
  }

  // Taking every byte for the other one of a word is multiplying by 256, but for
  // the byte that is lost at the front and the one that is gained at the end.
  lemma {:induction false} ShiftedSum(big: bool, t: seq<byte>, c: byte) returns (k: int)
    requires |t| % 2 == 0 && t != []
    ensures 256 * Sum(big, t) + Weigh(big, c - t[0]) == Sum(big, t[1..] + [c]) + 0xffff * k
    decreases |t|
  {
    hide Sum, Word;
    ShiftedParts(t, c);
    var n := |t| - 2;
    var front, a, b := t[..n], t[n], t[n + 1];
    k := WordShift(big, a, b, c);
    SumSnoc(big, front, a, b);
    if n == 0 {
      SumSnoc(big, [], b, c);
    } else {
      var i := ShiftedSum(big, front, a);
      SumSnoc(big, front[1..] + [a], b, c);
      k := k + i;
    }
  }

  lemma SumSnoc(big: bool, x: seq<byte>, a: byte, b: byte)
    requires |x| % 2 == 0
    ensures Sum(big, x + [a, b]) == Sum(big, x) + Word(big, a, b) && Sum(big, []) == 0
  {
    SumConcat(big, x, [a, b]);
    SumOfWord(big, [a, b]);
    hide Word;
  }

  // What the sum is off, modulo 0xffff.
  function Drift(big: bool, b: byte, bs: seq<byte>, e: seq<byte>): int
    requires bs != [] && |e| == 2 - |bs| % 2
  {
    if |bs| == 1 then Weigh(big, b - bs[0])
    else 255 * Sum(big, Padded(bs[1..])) + Weigh(big, b - bs[0] - bs[1]) + Gained(big, e)
  }

  // What is read behind the piece.
  function Gained(big: bool, e: seq<byte>): nat
    requires |e| in {1, 2}
  {
    if |e| == 1 then Weigh(big, e[0]) else Word(big, e[0], e[1])
  }

  // The two sums of the piece behind its first byte.
  lemma SkippedSum(big: bool, bs: seq<byte>, e: seq<byte>) returns (k: int)
    requires |bs| >= 2 && |e| == 2 - |bs| % 2
    ensures 256 * Sum(big, Padded(bs[1..])) - Weigh(big, bs[1]) + Gained(big, e)
      == Sum(big, Skipped(bs, e)) + 0xffff * k
  {
    SkippedParts(bs, e);
    hide Sum, Word, Skipped;
    var t := Padded(bs[1..]);
    if |bs| % 2 == 1 {
      k := ShiftedSum(big, t, e[0]);
    } else {
      k := ShiftedSum(big, t, 0);
      SumSnoc(big, bs[2..], 0, 0);
      SumSnoc(big, bs[2..], e[0], e[1]);
      BlankWord(big);
    }
  }

  lemma BlankWord(big: bool)
    ensures Word(big, 0, 0) == 0
  {
  }

  lemma SkippedParts(bs: seq<byte>, e: seq<byte>)
    requires |bs| >= 2 && |e| == 2 - |bs| % 2
    ensures var t := Padded(bs[1..]);
      && t != [] && t[0] == bs[1]
      && (|bs| % 2 == 1 ==> t[1..] + [e[0]] == Skipped(bs, e))
      && (|bs| % 2 == 0 ==> |bs[2..]| % 2 == 0)
      && (|bs| % 2 == 0 ==> t[1..] + [0] == bs[2..] + [0, 0] && Skipped(bs, e) == bs[2..] + [e[0], e[1]])
  {
  }

  lemma WordOther(big: bool, a: byte, b: byte, c: byte)
    ensures Word(big, a, b) - Word(big, a, c) == Weigh(big, b - c)
  {
  }

  lemma SplitSums(big: bool, g: seq<byte>, b: byte, bs: seq<byte>, e: seq<byte>) returns (k: int)
    requires |g| % 2 == 1 && bs != [] && |e| == 2 - |bs| % 2
    ensures |g + [b] + Skipped(bs, e)| % 2 == 0
    ensures Sum(big, Padded(g + bs)) + Drift(big, b, bs, e) == Sum(big, g + [b] + Skipped(bs, e)) + 0xffff * k
  {
    hide Sum, Padded, Word, Gained, Skipped;
    var h, a := g[..|g| - 1], g[|g| - 1];
    SplitParts(g, h, a, b, bs, Skipped(bs, e));
    WordSplit(big, h, a, b, Skipped(bs, e));
    WordSplit(big, h, a, bs[0], Padded(bs[1..]));
    WordOther(big, a, b, bs[0]);
    k := 0;
    if |bs| > 1 {
      k := SkippedSum(big, bs, e);
    } else {
      assert Skipped(bs, e) == [] by { SkipsAll(bs, e); }
    }
  }

  lemma SkipsAll(bs: seq<byte>, e: seq<byte>)
    requires |bs| == 1 && |e| == 1
    ensures Skipped(bs, e) == []
  {
  }

  lemma SplitParts(g: seq<byte>, h: seq<byte>, a: byte, b: byte, bs: seq<byte>, x: seq<byte>)
    requires |g| % 2 == 1 && h == g[..|g| - 1] && a == g[|g| - 1] && bs != []
    ensures g + [b] + x == h + [a, b] + x && Padded(g + bs) == h + [a, bs[0]] + Padded(bs[1..])
    ensures |bs| == 1 ==> Padded(bs[1..]) == []
  {
    assert g + bs == h + [a, bs[0]] + bs[1..];
  }

  lemma WordSplit(big: bool, h: seq<byte>, a: byte, b: byte, x: seq<byte>)
    requires |h| % 2 == 0 && |x| % 2 == 0
    ensures |h + [a, b] + x| % 2 == 0
    ensures Sum(big, h + [a, b] + x) == Sum(big, h) + Word(big, a, b) + Sum(big, x)
    ensures x == [] ==> Sum(big, x) == 0
  {
    SumSnoc(big, h, a, b);
    hide Word;
    EvenSum(|h|, 2);
    SumConcat(big, h + [a, b], x);
  }

  // -------------------------------------------------------------- the condition

  lemma {:induction false} SumBlank(big: bool, bs: seq<byte>)
    requires |bs| % 2 == 0
    ensures Sum(big, bs) == 0 <==> Blank(bs)
  {
    if bs != [] {
      var n := |bs| - 2;
      SumBlank(big, bs[..n]);
      assert Sum(big, bs) == Sum(big, bs[..n]) + Word(big, bs[n], bs[n + 1]);
      hide Sum;
      if Blank(bs[..n]) && bs[n] == 0 && bs[n + 1] == 0 {
        assert forall i :: 0 <= i < n ==> bs[i] == bs[..n][i];
      }
    }
  }

  lemma PaddedBlank(bs: seq<byte>)
    ensures Blank(Padded(bs)) <==> Blank(bs)
  {
    assert forall i :: 0 <= i < |bs| ==> Padded(bs)[i] == bs[i];
  }

  lemma SameWhen(big: bool, x: seq<byte>, y: seq<byte>)
    requires |x| % 2 == 0 && |y| % 2 == 0
    ensures Checksum(big, x) == Checksum(big, y) <==>
      Sum(big, x) % 0xffff == Sum(big, y) % 0xffff && (Blank(x) <==> Blank(y))
  {
    hide Sum, OnesSum, Blank, Canon;
    OnesSumIsCanon(big, x);
    OnesSumIsCanon(big, y);
    SumBlank(big, x);
    SumBlank(big, y);
    CanonWhen(Sum(big, x), Sum(big, y));
  }

  lemma CanonWhen(a: nat, b: nat)
    ensures Canon(a) == Canon(b) <==> a % 0xffff == b % 0xffff && (a == 0 <==> b == 0)
  {
    if a % 0xffff == b % 0xffff && (a == 0 <==> b == 0) {
      SameCanon(a, b);
    }
  }

  // Pieces at even addresses, of an odd number of bytes in all, and one piece more,
  // of any length: what comes out is the checksum of all their bytes, padded to an
  // even number, if and only if the drift is a multiple of 0xffff, and the bytes
  // that are summed are blank exactly when those of the pieces are.
  lemma SplitWordCondition(big: bool, vs: seq<Vec>, u: Vec)
    requires Aligned(vs) && OddTail(vs) && Reached(u) && !OddAddress(u)
    ensures InMemory(vs + [u]) && AllReadable(vs) && AllReadable(vs + [u])
    ensures var g, b, bs, e := Gather(vs), Behind(vs), PieceBytes(u), ReadBehind(u);
      Checksum(big, Summed(vs + [u])) == Checksum(big, Padded(Gather(vs + [u]))) <==>
        Drift(big, b, bs, e) % 0xffff == 0 && (Blank(g + [b] + Skipped(bs, e)) <==> Blank(g + bs))
  {
    hide *;
    SplitSummed(vs, u);
    AlignedOdd(vs);
    ReachedPiece(u);
    var g, b, bs, e := Gather(vs), Behind(vs), PieceBytes(u), ReadBehind(u);
    var k := SplitSums(big, g, b, bs, e);
    SameWhen(big, g + [b] + Skipped(bs, e), Padded(g + bs));
    PaddedBlank(g + bs);
    DriftResidue(Sum(big, Padded(g + bs)), Drift(big, b, bs, e), Sum(big, g + [b] + Skipped(bs, e)), k);
  }

  lemma AlignedOdd(vs: seq<Vec>)
    requires Aligned(vs) && OddTail(vs)
    ensures AllReadable(vs) && |Gather(vs)| % 2 == 1
  {
    AlignedSummed(vs);
    hide Gather, Summed;
    OneLonger(Gather(vs), Behind(vs), Summed(vs));
  }

  lemma ReachedPiece(u: Vec)
    requires Reached(u)
    ensures Readable(u) && |PieceBytes(u)| == u.len > 0 && |ReadBehind(u)| == 2 - |PieceBytes(u)| % 2
  {
  }

  lemma DriftResidue(s: nat, d: int, t: nat, k: int)
    requires s + d == t + 0xffff * k
    ensures d % 0xffff == 0 <==> t % 0xffff == s % 0xffff
  {
    if d % 0xffff == 0 {
      SameMultipleResidue(t, s, d / 0xffff - k);
    }
    if t % 0xffff == s % 0xffff {
      assert d == 0xffff * (t / 0xffff - s / 0xffff + k);
    }
  }

  // One byte more is the case in which nothing else is misread: the byte behind
  // the first pieces has to be the one that was wanted.
  lemma OneByteMore(big: bool, vs: seq<Vec>, u: Vec)
    requires Aligned(vs) && OddTail(vs) && Reached(u) && !OddAddress(u) && u.len == 1
    ensures InMemory(vs + [u]) && AllReadable(vs + [u]) && |Gather(vs + [u])| % 2 == 0
    ensures Checksum(big, Summed(vs + [u])) == Checksum(big, Gather(vs + [u])) <==> Behind(vs) == u.mem[u.off]
  {
    SplitSummed(vs, u);
    AlignedOdd(vs);
    assert PieceBytes(u) == [u.mem[u.off]];
    assert Skipped(PieceBytes(u), ReadBehind(u)) == [];
    hide Gather, Aligned, Skipped, PieceBytes, ReadBehind, Checksum, InMemory, Summed, Behind;
    var g, b := Gather(vs), Behind(vs);
    assert g + [b] + [] == g + [b];
    LastByteMatters(big, g, b, u.mem[u.off]);
  }
}
