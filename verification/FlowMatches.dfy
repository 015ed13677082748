/**
 What match finds between the flow keys that scans produce, on hosts of either
 byte order, against what it is documented to find.
 */
module FlowMatches {
  import opened Bytes
  import opened Gf2
  import opened Words
  import opened PacketState
  import opened FlowKeys
  import opened FlowReplies
  import opened ScanKeys

  // --------------------------------------------------------------------- bytes

  lemma WordBytes(x: nat) returns (b0: nat, b1: nat, b2: nat, b3: nat)
    requires x < 0x1_0000_0000
    ensures b0 < 256 && b1 < 256 && b2 < 256 && b3 < 256
    ensures x == b0 + 0x100 * b1 + 0x1_0000 * b2 + 0x100_0000 * b3
    ensures WordByte(x, 0) == b0 && WordByte(x, 1) == b1 && WordByte(x, 2) == b2 && WordByte(x, 3) == b3
    ensures x % 0x1_0000 == b0 + 0x100 * b1 && x / 0x1_0000 == b2 + 0x100 * b3
  {
    var x1 := x / 256;
    var x2 := x1 / 256;
    b0, b1, b2, b3 := x % 256, x1 % 256, x2 % 256, x2 / 256;
    assert WordByte(x, 0) == b0;
    assert WordByte(x, 1) == WordByte(x1, 0) == b1;
    assert WordByte(x, 2) == WordByte(x1, 1) == WordByte(x2, 0) == b2;
    assert WordByte(x, 3) == WordByte(x1, 2) == WordByte(x2, 1) == WordByte(x2 / 256, 0) == b3;
    hide WordByte;
    assert x == b0 + 256 * x1 && x1 == b1 + 256 * x2 && x2 == b2 + 256 * b3;
    HalvesOf(x, b0 + 0x100 * b1, b2 + 0x100 * b3);
  }

  lemma HalvesOf(x: nat, low: nat, high: nat)
    requires x == low + 0x1_0000 * high && low < 0x1_0000
    ensures x % 0x1_0000 == low && x / 0x1_0000 == high
  {
  }

  lemma SameWord(x: nat, y: nat)
    requires x < 0x1_0000_0000 && y < 0x1_0000_0000
    ensures x == y <==>
      WordByte(x, 0) == WordByte(y, 0) && WordByte(x, 1) == WordByte(y, 1)
      && WordByte(x, 2) == WordByte(y, 2) && WordByte(x, 3) == WordByte(y, 3)
    ensures x % 0x1_0000 == y % 0x1_0000 <==> WordByte(x, 0) == WordByte(y, 0) && WordByte(x, 1) == WordByte(y, 1)
    ensures x / 0x1_0000 == y / 0x1_0000 <==> WordByte(x, 2) == WordByte(y, 2) && WordByte(x, 3) == WordByte(y, 3)
  {
    hide WordByte;
    var a0, a1, a2, a3 := WordBytes(x);
    var b0, b1, b2, b3 := WordBytes(y);
  }

  // The half of the second word that lies first in memory.
  function FirstHalf(big: bool, x: nat): nat { if big then x / 0x1_0000 else x % 0x1_0000 }

  // The first eight bytes of the pairs, as they lie in memory.
  lemma FirstBytes(big: bool, ps: seq<(nat, nat)>, j: nat)
    requires |ps| == 3 && j < 8
    ensures ByteAt(big, ps, j) == WordByte(if j < 4 then ps[0].0 else ps[0].1, if big then 3 - j % 4 else j % 4)
  {
    assert j / 8 == 0 && (j < 4 ==> j / 4 == 0) && (j >= 4 ==> j / 4 == 1);
    hide WordByte;
  }

  // What match compares: half a word for one pair, a word for two, and a word and
  // a half for three.
  predicate SameFront(big: bool, u: seq<(nat, nat)>, v: seq<(nat, nat)>)
    requires |u| == |v| <= 3
  {
    && (|u| == 1 ==> FirstHalf(big, u[0].0) == FirstHalf(big, v[0].0))
    && (|u| >= 2 ==> u[0].0 == v[0].0)
    && (|u| == 3 ==> FirstHalf(big, u[0].1) == FirstHalf(big, v[0].1))
  }

  lemma ComparedBytes(big: bool, ps: seq<(nat, nat)>, qs: seq<(nat, nat)>, n: nat)
    requires |ps| == |qs| == 3 && n <= 3
    requires ps[0].0 < WORD && ps[0].1 < WORD && qs[0].0 < WORD && qs[0].1 < WORD
    ensures SameBytes(big, ps, qs, n * 2) <==> SameFront(big, ps[..n], qs[..n])
  {
    hide WordByte;
    SameWord(ps[0].0, qs[0].0);
    SameWord(ps[0].1, qs[0].1);
    forall j | 0 <= j < 8
      ensures ByteAt(big, ps, j) == WordByte(if j < 4 then ps[0].0 else ps[0].1, if big then 3 - j % 4 else j % 4)
      ensures ByteAt(big, qs, j) == WordByte(if j < 4 then qs[0].0 else qs[0].1, if big then 3 - j % 4 else j % 4)
    {
      FirstBytes(big, ps, j);
      FirstBytes(big, qs, j);
    }
    hide ByteAt;
    if n > 0 {
      assert ps[..n][0] == ps[0] && qs[..n][0] == qs[0];
    }
    if SameBytes(big, ps, qs, n * 2) {
      assert n > 0 ==> ByteAt(big, ps, 0) == ByteAt(big, qs, 0) && ByteAt(big, ps, 1) == ByteAt(big, qs, 1);
      assert n > 1 ==> ByteAt(big, ps, 2) == ByteAt(big, qs, 2) && ByteAt(big, ps, 3) == ByteAt(big, qs, 3);
      assert n > 2 ==> ByteAt(big, ps, 4) == ByteAt(big, qs, 4) && ByteAt(big, ps, 5) == ByteAt(big, qs, 5);
    }
    if SameFront(big, ps[..n], qs[..n]) {
      forall j | 0 <= j < n * 2 ensures ByteAt(big, ps, j) == ByteAt(big, qs, j) {
        assert j == 0 || j == 1 || j == 2 || j == 3 || j == 4 || j == 5;
      }
    }
  }

  // ---------------------------------------------------------------------- hash

  // What the hash keeps of the pairs: the second one, with equal sides, cancels.
  function Mix(u: seq<(nat, nat)>): nat
    requires |u| <= 3
  {
    if |u| == 0 then 0
    else if |u| < 3 then XorWord(u[0].0, u[0].1)
    else XorWord(XorWord(u[0].0, u[0].1), XorWord(u[2].0, u[2].1))
  }

  lemma MixSize(u: seq<(nat, nat)>)
    requires |u| <= 3 && Sized(u)
    ensures Mix(u) < WORD
  {
    hide XorWord;
    if |u| > 0 {
      XorSize(u[0].0, u[0].1);
    }
    if |u| == 3 {
      XorSize(u[2].0, u[2].1);
      XorSize(XorWord(u[0].0, u[0].1), XorWord(u[2].0, u[2].1));
    }
  }

  function Spread(reversable: bool, x: nat): (b: Bits)
    ensures |b| == 32
  {
    if reversable then ToBits(x, 32) else Rotated(ToBits(x, 32))
  }

  lemma SpreadPair(reversable: bool, p: (nat, nat))
    ensures PairHash(reversable, p) == Spread(reversable, XorWord(p.0, p.1))
    ensures p.0 == p.1 ==> PairHash(reversable, p) == Zeros(32)
  {
    ToBitsXor(p.0, p.1, 32);
    RotatedXor(ToBits(p.0, 32), ToBits(p.1, 32));
    XorSelfZero(ToBits(p.0, 32));
    XorSelfZero(Rotated(ToBits(p.0, 32)));
    hide ToBits, XorWord, Rotated;
  }

  lemma RotatedXor(a: Bits, b: Bits)
    requires |a| == |b| == 32
    ensures Rotated(Xor(a, b)) == Xor(Rotated(a), Rotated(b))
  {
  }

  lemma RotatedIs(a: Bits)
    requires |a| == 32
    ensures Rotated(a) == a[16..] + a[..16]
  {
  }

  lemma RotatedInjective(a: Bits, b: Bits)
    requires |a| == |b| == 32 && Rotated(a) == Rotated(b)
    ensures a == b
  {
    RotatedIs(a);
    RotatedIs(b);
    assert a[16..] == (a[16..] + a[..16])[..16] && a[..16] == (a[16..] + a[..16])[16..];
    assert b[16..] == (b[16..] + b[..16])[..16] && b[..16] == (b[16..] + b[..16])[16..];
    assert a == a[..16] + a[16..] && b == b[..16] + b[16..];
    hide Rotated;
  }

  lemma SpreadInjective(reversable: bool, x: nat, y: nat)
    requires x < WORD && y < WORD
    ensures Spread(reversable, x) == Spread(reversable, y) <==> x == y
  {
    hide ToBits, Rotated, Pow2;
    WordSize();
    if Spread(reversable, x) == Spread(reversable, y) {
      if !reversable {
        RotatedInjective(ToBits(x, 32), ToBits(y, 32));
      }
      ToBitsInjective(x, y, 32);
    }
  }

  lemma XorSelfZero(a: Bits)
    ensures Xor(a, a) == Zeros(|a|)
  {
  }

  lemma SpreadXor(x: nat, y: nat)
    ensures Spread(true, XorWord(x, y)) == Xor(Spread(true, x), Spread(true, y))
  {
    ToBitsXor(x, y, 32);
    hide ToBits, XorWord;
  }

  lemma SpreadNothing(reversable: bool)
    ensures Spread(reversable, 0) == Zeros(32)
  {
    ToBitsZero(32);
    hide ToBits;
    assert Rotated(Zeros(32)) == Zeros(32);
  }

  lemma PairsOneByOne(reversable: bool, u: seq<(nat, nat)>)
    requires u != []
    ensures PairsHash(reversable, u) == Xor(PairsHash(reversable, u[..|u| - 1]), PairHash(reversable, u[|u| - 1]))
    ensures PairsHash(reversable, []) == Zeros(32)
  {
    hide PairHash;
  }

  lemma ZeroXor(b: Bits)
    ensures Xor(Zeros(|b|), b) == b && Xor(b, Zeros(|b|)) == b
  {
  }

  lemma PairsAreMix(reversable: bool, u: seq<(nat, nat)>)
    requires |u| <= 3 && (|u| >= 2 ==> u[1].0 == u[1].1) && (|u| == 3 ==> reversable)
    ensures PairsHash(reversable, u) == Spread(reversable, Mix(u))
  {
    hide PairHash, PairsHash, Spread, XorWord;
    SpreadNothing(reversable);
    var none: seq<(nat, nat)> := [];
    if |u| == 0 {
      PairsOneByOne(reversable, [(0, 0)]);
      assert u == none;
    } else {
      PairsOneByOne(reversable, u[..1]);
      assert u[..1][..0] == none && u[..1][0] == u[0];
      SpreadPair(reversable, u[0]);
      ZeroXor(PairHash(reversable, u[0]));
      if |u| == 1 {
        assert u[..1] == u;
      } else {
        PairsOneByOne(reversable, u[..2]);
        assert u[..2][..1] == u[..1] && u[..2][1] == u[1];
        SpreadPair(reversable, u[1]);
        ZeroXor(PairsHash(reversable, u[..1]));
        if |u| == 2 {
          assert u[..2] == u;
        } else {
          PairsOneByOne(reversable, u);
          SpreadPair(reversable, u[2]);
          SpreadXor(XorWord(u[0].0, u[0].1), XorWord(u[2].0, u[2].1));
        }
      }
    }
  }

  lemma XorCancels(a: Bits, b: Bits, c: Bits)
    requires |a| == |b| == |c|
    ensures Xor(a, b) == Xor(a, c) <==> b == c
  {
    if Xor(a, b) == Xor(a, c) {
      forall i | 0 <= i < |b| ensures b[i] == c[i] {
        assert Xor(a, b)[i] == Xor(a, c)[i];
      }
    }
  }

  predicate SameKind(j: FlowKey, k: FlowKey) { j.reversable == k.reversable && j.headerMap == k.headerMap }

  lemma ShapeHash(k: FlowKey)
    requires Shape(k)
    ensures Processed(k).hash == Xor(BaseHash(k), Spread(k.reversable, Mix(Used(k))))
  {
    hide BaseHash, PairsHash, Spread, Mix;
    PairsAreMix(k.reversable, Used(k));
  }

  // The quick check of two keys that scans produced: same kind and same mix.
  lemma BasicsAreMixes(j: FlowKey, k: FlowKey)
    requires Shape(j) && Shape(k)
    ensures BasicsMatch(Processed(j), Processed(k)) <==> SameKind(j, k) && Mix(Used(j)) == Mix(Used(k))
  {
    ShapeHash(j);
    ShapeHash(k);
    ProcessedKind(j);
    ProcessedKind(k);
    if SameKind(j, k) {
      SameBase(j, k);
      var r := j.reversable;
      hide BaseHash, Spread, Mix, Processed, Shape;
      XorCancels(BaseHash(j), Spread(r, Mix(Used(j))), Spread(r, Mix(Used(k))));
      UsedShape(j);
      UsedShape(k);
      MixSize(Used(j));
      MixSize(Used(k));
      SpreadInjective(r, Mix(Used(j)), Mix(Used(k)));
    }
  }

  lemma UsedShape(k: FlowKey)
    requires Shape(k)
    ensures |Used(k)| <= 3 && Sized(Used(k)) && Sized(SwapAll(Used(k)))
    ensures |Used(k)| >= 2 ==> Used(k)[1].0 == Used(k)[1].1
  {
  }

  lemma ProcessedKind(k: FlowKey)
    requires Valid(k)
    ensures Processed(k).reversable == k.reversable && Processed(k).headerMap == k.headerMap
    ensures Processed(k).pairCount == k.pairCount && Processed(k).forward == k.forward
    ensures k.reversable ==> Processed(k).reverse[..k.pairCount] == SwapAll(Used(k))
    ensures |Processed(k).reverse| == 3
  {
    if k.reversable {
      assert (SwapAll(Used(k)) + k.reverse[k.pairCount..])[..k.pairCount] == SwapAll(Used(k));
    }
  }

  lemma MixSwaps(u: seq<(nat, nat)>)
    requires |u| <= 3
    ensures Mix(SwapAll(u)) == Mix(u)
  {
    hide XorWord;
    forall p: (nat, nat) ensures XorWord(p.0, p.1) == XorWord(p.1, p.0) {
      XorWordSwaps(p.0, p.1);
    }
  }

  lemma {:induction false} XorWordSwaps(x: nat, y: nat)
    ensures XorWord(x, y) == XorWord(y, x)
    decreases x + y
  {
    if x != 0 || y != 0 {
      XorWordSwaps(x / 2, y / 2);
    }
  }

  // --------------------------------------------------------- what match finds

  // The bytes that match compares, and the mix by way of the hash.
  predicate Alike(big: bool, u: seq<(nat, nat)>, v: seq<(nat, nat)>)
    requires |u| == |v| <= 3
  {
    SameFront(big, u, v) && Mix(u) == Mix(v)
  }

  lemma ForwardBytes(big: bool, j: FlowKey, k: FlowKey)
    requires Shape(j) && Shape(k) && j.pairCount == k.pairCount
    ensures SameBytes(big, Processed(j).forward, Processed(k).forward, j.pairCount * 2) <==> SameFront(big, Used(j), Used(k))
  {
    ProcessedKind(j);
    ProcessedKind(k);
    ComparedBytes(big, j.forward, k.forward, j.pairCount);
    hide SameBytes, SameFront, Processed;
  }

  lemma ReverseBytes(big: bool, j: FlowKey, k: FlowKey)
    requires Shape(j) && Shape(k) && j.pairCount == k.pairCount && k.reversable
    ensures |Processed(k).reverse| == 3
    ensures SameBytes(big, Processed(j).forward, Processed(k).reverse, j.pairCount * 2)
      <==> SameFront(big, Used(j), SwapAll(Used(k)))
  {
    ProcessedKind(j);
    ProcessedKind(k);
    var n, r := j.pairCount, Processed(k).reverse;
    assert r[..n] == SwapAll(Used(k));
    hide SameBytes, SameFront, Processed;
    if n > 0 {
      assert r[0] == r[..n][0] == SwapPair(k.forward[0]);
      ComparedBytes(big, j.forward, r, n);
    } else {
      assert Used(j) == [] && SwapAll(Used(k)) == [];
      NothingCompared(big, j.forward, r, Used(j), SwapAll(Used(k)));
    }
  }

  lemma NothingCompared(big: bool, ps: seq<(nat, nat)>, qs: seq<(nat, nat)>, u: seq<(nat, nat)>, v: seq<(nat, nat)>)
    requires |ps| == |qs| && |u| == |v| == 0
    ensures SameBytes(big, ps, qs, 0) && SameFront(big, u, v)
  {
  }

  lemma MatchFinds(big: bool, j: FlowKey, k: FlowKey)
    requires Shape(j) && Shape(k) && j.pairCount == k.pairCount
    ensures Match(big, Processed(j), Processed(k)) ==
      if !SameKind(j, k) then 0
      else if Alike(big, Used(j), Used(k)) then 1
      else if j.reversable && Alike(big, Used(j), SwapAll(Used(k))) then -1
      else 0
  {
    BasicsAreMixes(j, k);
    MixSwaps(Used(k));
    ProcessedKind(j);
    ForwardBytes(big, j, k);
    if SameKind(j, k) && j.reversable {
      ReverseBytes(big, j, k);
    }
    hide SameBytes, SameFront, Processed, BasicsMatch, Mix;
  }

  lemma DocumentedFinds(j: FlowKey, k: FlowKey)
    requires Shape(j) && Shape(k) && j.pairCount == k.pairCount
    ensures DocumentedMatch(Processed(j), Processed(k)) ==
      if !SameKind(j, k) then 0
      else if Used(j) == Used(k) then 1
      else if j.reversable && Used(j) == SwapAll(Used(k)) then -1
      else 0
  {
    BasicsAreMixes(j, k);
    MixSwaps(Used(k));
    ProcessedKind(j);
    ProcessedKind(k);
    hide Processed, BasicsMatch, Mix, Shape;
  }

  // On all keys that scans produce, of the same number of pairs: what match gives,
  // what it is documented to give, and exactly when the two agree.
  lemma KeyMatch(big: bool, j: FlowKey, k: FlowKey)
    requires Shape(j) && Shape(k) && j.pairCount == k.pairCount
    ensures var p, q, u, v := Processed(j), Processed(k), Used(j), Used(k);
      && Match(big, p, q) == (
        if !SameKind(j, k) then 0
        else if Alike(big, u, v) then 1
        else if j.reversable && Alike(big, u, SwapAll(v)) then -1
        else 0)
      && (Match(big, p, q) == DocumentedMatch(p, q) <==>
        !SameKind(j, k)
        || if Alike(big, u, v) then u == v else j.reversable && Alike(big, u, SwapAll(v)) ==> u == SwapAll(v))
  {
    MatchFinds(big, j, k);
    DocumentedFinds(j, k);
    hide Match, DocumentedMatch, Processed, Shape, Mix;
  }

  // --------------------------------------------------------- alike, pair by pair

  // One pair, of a length frame: the first half of a word and the exclusive or.
  lemma AlikeOne(big: bool, u: seq<(nat, nat)>, v: seq<(nat, nat)>)
    requires |u| == |v| == 1
    ensures Alike(big, u, v) <==>
      FirstHalf(big, u[0].0) == FirstHalf(big, v[0].0) && XorWord(u[0].0, u[0].1) == XorWord(v[0].0, v[0].1)
  {
    hide XorWord;
  }

  // Two pairs, of a scan without ports: both words of the first pair, and nothing
  // of the second, which is the protocol.
  lemma AlikeTwo(big: bool, u: seq<(nat, nat)>, v: seq<(nat, nat)>)
    requires |u| == |v| == 2 && Sized(u) && Sized(v)
    ensures Alike(big, u, v) <==> u[0] == v[0]
  {
    hide XorWord;
    if u[0].0 == v[0].0 && Mix(u) == Mix(v) {
      OtherSide(u[0].0, u[0].1, v[0].1);
    }
  }

  lemma OtherSide(x: nat, y: nat, z: nat)
    requires y < WORD && z < WORD && XorWord(x, y) == XorWord(x, z)
    ensures y == z
  {
    hide ToBits, XorWord, Pow2;
    ToBitsXor(x, y, 32);
    ToBitsXor(x, z, 32);
    XorCancels(ToBits(x, 32), ToBits(y, 32), ToBits(z, 32));
    WordSize();
    ToBitsInjective(y, z, 32);
  }

  // Three pairs: addresses, protocol and ports.
  predicate Ported(u: seq<(nat, nat)>) {
    |u| == 3 && Sized(u) && u[2].0 < 0x1_0000 && u[2].1 < 0x1_0000
  }

  lemma MixBits(v: seq<(nat, nat)>)
    requires Ported(v)
    ensures Mix(v) < WORD
    ensures ToBits(Mix(v), 32)
      == Xor(Xor(ToBits(v[0].0, 32), ToBits(v[0].1, 32)), Xor(ToBits(v[2].0, 32), ToBits(v[2].1, 32)))
  {
    MixSize(v);
    hide ToBits, XorWord;
    ToBitsXor(v[0].0, v[0].1, 32);
    ToBitsXor(v[2].0, v[2].1, 32);
    ToBitsXor(XorWord(v[0].0, v[0].1), XorWord(v[2].0, v[2].1), 32);
  }

  lemma SameMix(u: seq<(nat, nat)>, v: seq<(nat, nat)>)
    requires Ported(u) && Ported(v)
    ensures Mix(u) == Mix(v) <==> ToBits(Mix(u), 32) == ToBits(Mix(v), 32)
  {
    MixSize(u);
    MixSize(v);
    WordSize();
    hide ToBits, Mix, Pow2;
    if ToBits(Mix(u), 32) == ToBits(Mix(v), 32) {
      ToBitsInjective(Mix(u), Mix(v), 32);
    }
  }

  lemma PortBits(x: nat)
    requires x < 0x1_0000
    ensures forall i :: 16 <= i < 32 ==> !ToBits(x, 32)[i]
  {
    hide ToBits, Pow2;
    WordSize();
    ToBitsWiden(x, 16, 32);
  }

  lemma HalfBits(x: nat)
    requires x < 0x1_0000_0000
    ensures ToBits(x, 32) == ToBits(x % 0x1_0000, 16) + ToBits(x / 0x1_0000, 16)
  {
    hide ToBits, Pow2, LowBits, ShiftRight;
    ToBitsSplit(x, 16, 16);
    WordSize();
    ShiftAndMask(x, 16);
    HalvesOf(x, LowBits(x, 16), ShiftRight(x, 16));
  }

  // On a little-endian host: both addresses in full, by way of the hash, and of the
  // ports only their exclusive or.
  lemma AlikeLittle(u: seq<(nat, nat)>, v: seq<(nat, nat)>)
    requires Ported(u) && Ported(v)
    ensures Alike(false, u, v) <==>
      u[0].0 == v[0].0 && u[0].1 == v[0].1 && XorWord(u[2].0, u[2].1) == XorWord(v[2].0, v[2].1)
  {
    MixBits(u);
    MixBits(v);
    SameMix(u, v);
    HalfBits(u[0].1);
    HalfBits(v[0].1);
    PortBits(u[2].0);
    PortBits(u[2].1);
    PortBits(v[2].0);
    PortBits(v[2].1);
    SamePorts(u, v);
    hide Mix, ToBits, XorWord;
    if Alike(false, u, v) {
      var x, y := ToBits(u[0].1, 32), ToBits(v[0].1, 32);
      forall i | 0 <= i < 32 ensures x[i] == y[i] {
        assert ToBits(Mix(u), 32)[i] == ToBits(Mix(v), 32)[i];
      }
      SameBits32(u[0].1, v[0].1);
      forall i | 0 <= i < 32
        ensures Xor(ToBits(u[2].0, 32), ToBits(u[2].1, 32))[i] == Xor(ToBits(v[2].0, 32), ToBits(v[2].1, 32))[i]
      {
        assert ToBits(Mix(u), 32)[i] == ToBits(Mix(v), 32)[i];
      }
    }
  }

  // On a big-endian host the low half of the destination address is mixed with
  // the ports as well.
  lemma AlikeBig(u: seq<(nat, nat)>, v: seq<(nat, nat)>)
    requires Ported(u) && Ported(v)
    ensures Alike(true, u, v) <==>
      && u[0].0 == v[0].0 && u[0].1 / 0x1_0000 == v[0].1 / 0x1_0000
      && XorWord(u[0].1, XorWord(u[2].0, u[2].1)) == XorWord(v[0].1, XorWord(v[2].0, v[2].1))
  {
    MixBits(u);
    MixBits(v);
    SameMix(u, v);
    TailBits(u);
    TailBits(v);
    hide Mix, ToBits, XorWord;
    var x, y := XorWord(u[0].1, XorWord(u[2].0, u[2].1)), XorWord(v[0].1, XorWord(v[2].0, v[2].1));
    if u[0].0 == v[0].0 {
      if x == y {
        assert ToBits(Mix(u), 32) == Xor(ToBits(u[0].0, 32), ToBits(x, 32));
        assert ToBits(Mix(v), 32) == Xor(ToBits(v[0].0, 32), ToBits(y, 32));
      }
      if Mix(u) == Mix(v) {
        assert ToBits(Mix(u), 32) == Xor(ToBits(u[0].0, 32), ToBits(x, 32));
        assert ToBits(Mix(v), 32) == Xor(ToBits(v[0].0, 32), ToBits(y, 32));
        XorCancels(ToBits(u[0].0, 32), ToBits(x, 32), ToBits(y, 32));
        SameBits32(x, y);
      }
    }
  }

  lemma TailBits(v: seq<(nat, nat)>)
    requires Ported(v)
    ensures var x := XorWord(v[0].1, XorWord(v[2].0, v[2].1));
      && x < 0x1_0000_0000
      && ToBits(x, 32) == Xor(ToBits(v[0].1, 32), Xor(ToBits(v[2].0, 32), ToBits(v[2].1, 32)))
  {
    hide ToBits, XorWord, Pow2;
    WordSize();
    XorWordBound(v[2].0, v[2].1, 32);
    XorWordBound(v[0].1, XorWord(v[2].0, v[2].1), 32);
    ToBitsXor(v[2].0, v[2].1, 32);
    ToBitsXor(v[0].1, XorWord(v[2].0, v[2].1), 32);
  }

  lemma SameBits32(x: nat, y: nat)
    requires x < 0x1_0000_0000 && y < 0x1_0000_0000
    ensures (forall i :: 0 <= i < 32 ==> ToBits(x, 32)[i] == ToBits(y, 32)[i]) <==> x == y
  {
    WordSize();
    hide ToBits, Pow2;
    if forall i :: 0 <= i < 32 ==> ToBits(x, 32)[i] == ToBits(y, 32)[i] {
      assert ToBits(x, 32) == ToBits(y, 32);
      ToBitsInjective(x, y, 32);
    }
  }

  lemma SamePorts(u: seq<(nat, nat)>, v: seq<(nat, nat)>)
    requires Ported(u) && Ported(v)
    ensures XorWord(u[2].0, u[2].1) == XorWord(v[2].0, v[2].1) <==>
      forall i :: 0 <= i < 32 ==>
        Xor(ToBits(u[2].0, 32), ToBits(u[2].1, 32))[i] == Xor(ToBits(v[2].0, 32), ToBits(v[2].1, 32))[i]
  {
    hide ToBits, XorWord, Pow2;
    WordSize();
    XorWordBound(u[2].0, u[2].1, 32);
    XorWordBound(v[2].0, v[2].1, 32);
    ToBitsXor(u[2].0, u[2].1, 32);
    ToBitsXor(v[2].0, v[2].1, 32);
    SameBits32(XorWord(u[2].0, u[2].1), XorWord(v[2].0, v[2].1));
  }

  // So equal addresses and ports with the same exclusive or suffice.
  lemma AlikePorts(big: bool, u: seq<(nat, nat)>, v: seq<(nat, nat)>)
    requires |u| == |v| == 3 && u[0] == v[0] && XorWord(u[2].0, u[2].1) == XorWord(v[2].0, v[2].1)
    ensures Alike(big, u, v)
  {
    hide XorWord;
  }

  // ---------------------------------------------------------------------- frames

  lemma FrameShape(buf: seq<byte>, kind: int)
    requires IsFrame(buf, kind)
    ensures Shape(FrameKey(buf, kind)) && Ported(Used(FrameKey(buf, kind)))
  {
    assert Source(buf) < WORD && Destination(buf) < WORD;
    assert SourcePort(buf, kind) < 0x1_0000 && DestinationPort(buf, kind) < 0x1_0000;
    hide Source, Destination, SourcePort, DestinationPort;
  }

  // Frames with ports.
  lemma FrameMatch(big: bool, a: seq<byte>, b: seq<byte>, kind: int)
    requires IsFrame(a, kind) && IsFrame(b, kind)
    ensures var p, q := Processed(FrameKey(a, kind)), Processed(FrameKey(b, kind));
      var u, v := Used(FrameKey(a, kind)), Used(FrameKey(b, kind));
      && Match(big, p, q) == (if Alike(big, u, v) then 1 else if Alike(big, u, SwapAll(v)) then -1 else 0)
      && (Match(big, p, q) == DocumentedMatch(p, q) <==>
        if Alike(big, u, v) then u == v else Alike(big, u, SwapAll(v)) ==> u == SwapAll(v))
  {
    FrameShape(a, kind);
    FrameShape(b, kind);
    FrameKind3(a, kind);
    FrameKind3(b, kind);
    hide FrameKey, Shape, Match, DocumentedMatch, Processed, Alike;
    KeyMatch(big, FrameKey(a, kind), FrameKey(b, kind));
  }

  lemma FramePairs(buf: seq<byte>, kind: int)
    requires IsFrame(buf, kind)
    ensures Used(FrameKey(buf, kind))
      == [(Source(buf), Destination(buf)), (buf[23], buf[23]), (SourcePort(buf, kind), DestinationPort(buf, kind))]
  {
    hide Source, Destination, SourcePort, DestinationPort;
  }

  lemma FrameKind3(buf: seq<byte>, kind: int)
    requires IsFrame(buf, kind)
    ensures var k := FrameKey(buf, kind); k.pairCount == 3 && k.reversable && k.headerMap == {ETHERNET, IP4, kind}
  {
    hide Source, Destination, SourcePort, DestinationPort;
  }

  // Two flows between the same hosts that match takes for one.
  lemma PortsConfused(big: bool, a: seq<byte>, b: seq<byte>, kind: int)
    requires IsFrame(a, kind) && IsFrame(b, kind)
    requires var u, v := Used(FrameKey(a, kind)), Used(FrameKey(b, kind));
      && u[0] == v[0] && XorWord(u[2].0, u[2].1) == XorWord(v[2].0, v[2].1)
      && u[2].0 != v[2].0 && u[2].0 != v[2].1
    ensures Match(big, Processed(FrameKey(a, kind)), Processed(FrameKey(b, kind))) == 1
    ensures DocumentedMatch(Processed(FrameKey(a, kind)), Processed(FrameKey(b, kind))) == 0
  {
    FrameShape(a, kind);
    FrameShape(b, kind);
    FrameKind3(a, kind);
    FrameKind3(b, kind);
    hide IsFrame, FrameKey, Processed, Match, DocumentedMatch, XorWord, Shape, Used, Alike, Ported;
    var u, v := Used(FrameKey(a, kind)), Used(FrameKey(b, kind));
    AlikePorts(big, u, v);
    KeyMatch(big, FrameKey(a, kind), FrameKey(b, kind));
    DocumentedFinds(FrameKey(a, kind), FrameKey(b, kind));
    assert SwapAll(v)[2] == (v[2].1, v[2].0);
  }

  // A TCP and a UDP frame never match, and should not.
  lemma OtherProtocol(big: bool, a: seq<byte>, b: seq<byte>)
    requires IsFrame(a, TCP) && IsFrame(b, UDP)
    ensures var p, q := Processed(FrameKey(a, TCP)), Processed(FrameKey(b, UDP));
      Match(big, p, q) == 0 == DocumentedMatch(p, q) && Match(big, q, p) == 0 == DocumentedMatch(q, p)
  {
    hide Source, Destination, SourcePort, DestinationPort;
    assert TCP in Processed(FrameKey(a, TCP)).headerMap && TCP !in Processed(FrameKey(b, UDP)).headerMap;
  }

  // Any two keys of two pairs, as all scans without ports leave them: match finds an
  // equal first pair, whatever the second ones; so it computes what is documented if
  // and only if, for keys of the same kind, an equal first pair comes with an equal
  // second one.
  lemma TwoPairMatch(big: bool, j: FlowKey, k: FlowKey)
    requires Shape(j) && Shape(k) && j.pairCount == k.pairCount == 2 && !j.reversable && !k.reversable
    ensures var p, q, u, v := Processed(j), Processed(k), Used(j), Used(k);
      && Match(big, p, q) == (if j.headerMap == k.headerMap && u[0] == v[0] then 1 else 0)
      && (Match(big, p, q) == DocumentedMatch(p, q) <==>
        (j.headerMap == k.headerMap && u[0] == v[0] ==> u[1] == v[1]))
  {
    UsedShape(j);
    UsedShape(k);
    AlikeTwo(big, Used(j), Used(k));
    hide Shape, Match, DocumentedMatch, Processed, Alike;
    KeyMatch(big, j, k);
    assert Used(j) == Used(k) <==> Used(j)[0] == Used(k)[0] && Used(j)[1] == Used(k)[1];
  }

  // IPv4 packets without ports: equal addresses are enough, so it is a matter of
  // their protocols.
  lemma PairMatch(big: bool, a: seq<byte>, b: seq<byte>)
    requires IsIp4(a) && IsIp4(b)
    ensures Valid(PairKey(a)) && Valid(PairKey(b))
    ensures var p, q := Processed(PairKey(a)), Processed(PairKey(b));
      var same := Source(a) == Source(b) && Destination(a) == Destination(b);
      && Match(big, p, q) == (if same then 1 else 0)
      && (Match(big, p, q) == DocumentedMatch(p, q) <==> (same ==> a[23] == b[23]))
  {
    PairShape(a);
    PairShape(b);
    hide Source, Destination, PairKey, Match, DocumentedMatch, Processed, Alike, IsIp4;
    TwoPairMatch(big, PairKey(a), PairKey(b));
  }

  lemma PairShape(buf: seq<byte>)
    requires IsIp4(buf)
    ensures var k := PairKey(buf);
      && Shape(k) && k.pairCount == 2 && !k.reversable && k.headerMap == {ETHERNET, IP4}
      && Used(k)[0] == (Source(buf), Destination(buf)) && Used(k)[1] == (buf[23], buf[23])
  {
    assert Source(buf) < WORD && Destination(buf) < WORD;
    hide Source, Destination;
  }
}
