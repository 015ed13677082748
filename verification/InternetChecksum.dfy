/**
 The Internet checksum: the one's-complement sum of RFC 1071, and
 in_cksum_shouldbe of util_in_cksum.cpp.
 */
module InternetChecksum {
  import opened Bytes


  // ------------------------------------------------------- the specification

  // Two bytes read as a 16-bit word by a host of the given byte order.
  function Word(big: bool, a: byte, b: byte): uint16 {
    if big then 256 * a + b else a + 256 * b
  }

  // One's-complement addition: the carry comes back in at the low end.
  function OnesAdd(a: uint16, b: uint16): uint16 {
    if a + b > 0xffff then a + b - 0xffff else a + b
  }

  function OnesSum(big: bool, bs: seq<byte>): uint16
    requires |bs| % 2 == 0
  {
    if bs == [] then 0
    else OnesAdd(OnesSum(big, bs[..|bs| - 2]), Word(big, bs[|bs| - 2], bs[|bs| - 1]))
  }

  function Checksum(big: bool, bs: seq<byte>): uint16
    requires |bs| % 2 == 0
  {
    0xffff - OnesSum(big, bs)
  }

  // The plain sum of the words.
  function Sum(big: bool, bs: seq<byte>): (s: nat)
    requires |bs| % 2 == 0
    ensures 2 * s <= 0xffff * |bs|
  {
    if bs == [] then 0 else Sum(big, bs[..|bs| - 2]) + Word(big, bs[|bs| - 2], bs[|bs| - 1])
  }

  // The representative of a sum modulo 0xffff that is zero only for zero.
  function Canon(t: nat): (r: uint16)
    ensures r == 0 <==> t == 0
    ensures r % 0xffff == t % 0xffff
  {
    if t == 0 then 0 else (t - 1) % 0xffff + 1
  }

  lemma CanonUnique(x: uint16, t: nat)
    requires x % 0xffff == t % 0xffff && (x == 0 <==> t == 0)
    ensures x == Canon(t)
  {
  }

  lemma CanonAdd(t: nat, w: uint16)
    ensures Canon(t + w) == OnesAdd(Canon(t), w)
  {
    CanonUnique(OnesAdd(Canon(t), w), t + w);
  }

  // The end-around carries may all be left to the end.
  lemma {:induction false} OnesSumIsCanon(big: bool, bs: seq<byte>)
    requires |bs| % 2 == 0
    ensures OnesSum(big, bs) == Canon(Sum(big, bs))
  {
    if bs != [] {
      OnesSumIsCanon(big, bs[..|bs| - 2]);
      CanonAdd(Sum(big, bs[..|bs| - 2]), Word(big, bs[|bs| - 2], bs[|bs| - 1]));
    }
  }

  lemma {:induction false} SumConcat(big: bool, a: seq<byte>, b: seq<byte>)
    requires |a| % 2 == 0 && |b| % 2 == 0
    ensures Sum(big, a + b) == Sum(big, a) + Sum(big, b)
  {
    if b == [] {
      assert a + b == a;
    } else {
      var c := b[..|b| - 2];
      assert (a + b)[..|a + b| - 2] == a + c;
      SumConcat(big, a, c);
    }
  }

  // -------------------------------------------------- byte-order independence

  function Swap16(x: uint16): uint16 { x / 256 + x % 256 * 256 }

  // Swapping the bytes is multiplying by 256 modulo 0xffff.
  lemma SwapMultiplies(x: uint16) returns (k: nat)
    ensures Swap16(x) == 256 * x - 0xffff * k
    ensures Swap16(x) == 0 <==> x == 0
  {
    k := x / 256;
  }

  lemma SwapAdd(a: uint16, b: uint16)
    ensures Swap16(OnesAdd(a, b)) == OnesAdd(Swap16(a), Swap16(b))
  {
    hide Swap16;
    var k := SwapMultiplies(a);
    var l := SwapMultiplies(b);
    var m := SwapMultiplies(OnesAdd(a, b));
    var c, d := if a + b > 0xffff then 1 else 0, if Swap16(a) + Swap16(b) > 0xffff then 1 else 0;
    SameMultiple(Swap16(OnesAdd(a, b)), OnesAdd(Swap16(a), Swap16(b)), k + l + d - 256 * c - m);
  }

  lemma SameMultiple(x: uint16, y: uint16, m: int)
    requires x - y == 0xffff * m && (x == 0 <==> y == 0)
    ensures x == y
  {
  }

  lemma SwapWord(a: byte, b: byte)
    ensures Swap16(Word(true, a, b)) == Word(false, a, b)
  {
  }

  lemma {:induction false} ByteOrderIndependent(bs: seq<byte>)
    requires |bs| % 2 == 0
    ensures OnesSum(false, bs) == Swap16(OnesSum(true, bs))
  {
    if bs != [] {
      hide Swap16, Word, OnesAdd;
      var a, b := bs[|bs| - 2], bs[|bs| - 1];
      ByteOrderIndependent(bs[..|bs| - 2]);
      SwapAdd(OnesSum(true, bs[..|bs| - 2]), Word(true, a, b));
      SwapWord(a, b);
    }
  }

  // ------------------------------------------------------------- small facts

  lemma SameResidue(a: nat, b: nat, x: nat)
    requires a % 0xffff == b % 0xffff
    ensures (a + x) % 0xffff == (b + x) % 0xffff
  {
  }

  lemma SameCanon(a: nat, b: nat)
    requires a % 0xffff == b % 0xffff && (a == 0 <==> b == 0)
    ensures Canon(a) == Canon(b)
  {
    CanonUnique(Canon(a), b);
  }

  lemma SumOfWord(big: bool, bs: seq<byte>)
    requires |bs| == 2
    ensures Sum(big, bs) == Word(big, bs[0], bs[1])
  {
    assert bs[..0] == [];
  }

  lemma CanonOfWord(r: uint16)
    ensures Canon(r) == r
  {
    hide Canon;
    CanonUnique(r, r);
  }

  lemma LastByteMatters(big: bool, g: seq<byte>, x: byte, y: byte)
    requires |g| % 2 == 1
    ensures Checksum(big, g + [x]) == Checksum(big, g + [y]) <==> x == y
  {
    var bs := g[..|g| - 1];
    assert (g + [x])[..|g| - 1] == bs == (g + [y])[..|g| - 1];
    WordsDiffer(big, OnesSum(big, bs), g[|g| - 1], x, y);
    hide OnesAdd, Word;
  }

  lemma WordsDiffer(big: bool, s: uint16, a: byte, x: byte, y: byte)
    ensures OnesAdd(s, Word(big, a, x)) == OnesAdd(s, Word(big, a, y)) <==> x == y
  {
  }

  lemma SameMultipleResidue(a: int, b: int, k: int)
    requires a == b + 0xffff * k
    ensures a % 0xffff == b % 0xffff
  {
  }

  // 0xffff is 255 times 257.
  lemma Factor257(a: int, b: int, m: int, k: int)
    requires a + 255 * m == b + 0xffff * k
    ensures a % 0xffff == b % 0xffff <==> m % 257 == 0
  {
    if m % 257 == 0 {
      assert a == b + 0xffff * (k - m / 257);
      SameMultipleResidue(a, b, k - m / 257);
    }
    if a % 0xffff == b % 0xffff {
      var q := a / 0xffff - b / 0xffff;
      assert a == b + 0xffff * q;
      assert m == 257 * (k - q);
    }
  }

  // ---------------------------------------------------------- in_cksum_shouldbe

  // BIG_ENDIAN16
  function BigEndian16(big: bool, x: uint16): uint16 { if big then x else Swap16(x) }

  // uint16_t in_cksum_shouldbe(uint16_t sum, uint16_t computed_sum)
  method InCksumShouldBe(big: bool, sum: uint16, computed: uint16) returns (r: uint16)
    ensures r == ShouldBe(big, sum, computed)
  {
    hide BigEndian16, OnesAdd;
    var host := BigEndian16(big, computed);
    EndAroundCarry(sum, host);
    var shouldbe: nat := sum;
    shouldbe := shouldbe + host;
    shouldbe := Fold(shouldbe);
    shouldbe := Fold(shouldbe);
    r := shouldbe;
  }

  // (x & 0xFFFF) + (x >> 16)
  function Fold(x: nat): nat { x % 0x1_0000 + x / 0x1_0000 }

  // Folding twice is one end-around carry.
  lemma EndAroundCarry(a: uint16, b: uint16)
    ensures Fold(Fold(a + b)) == OnesAdd(a, b)
  {
    var s: nat := a + b;
    if s > 0xffff {
      assert s == 0x1_0000 + (s - 0x1_0000);
      FoldOf(s, 1, s - 0x1_0000);
      FoldOf(s - 0xffff, 0, s - 0xffff);
    } else {
      FoldOf(s, 0, s);
    }
  }

  lemma FoldOf(x: nat, high: nat, low: uint16)
    requires x == 0x1_0000 * high + low
    ensures Fold(x) == high + low
  {
  }

  function ShouldBe(big: bool, sum: uint16, computed: uint16): uint16 {
    OnesAdd(sum, BigEndian16(big, computed))
  }

  function PutField(bs: seq<byte>, f: nat, v: uint16): (r: seq<byte>)
    requires f + 2 <= |bs|
    ensures |r| == |bs| && Big16(r, f) == v
  {
    bs[..f] + [v / 256, v % 256] + bs[f + 2..]
  }

  lemma SumSplit(big: bool, bs: seq<byte>, f: nat)
    requires |bs| % 2 == 0 && f % 2 == 0 && f + 2 <= |bs|
    ensures Sum(big, bs) == Sum(big, bs[..f]) + Word(big, bs[f], bs[f + 1]) + Sum(big, bs[f + 2..])
  {
    assert bs == bs[..f] + bs[f..f + 2] + bs[f + 2..];
    SumConcat(big, bs[..f] + bs[f..f + 2], bs[f + 2..]);
    SumConcat(big, bs[..f], bs[f..f + 2]);
    SumOfWord(big, bs[f..f + 2]);
  }

  lemma ComplementSwaps(y: uint16)
    ensures Swap16(0xffff - Swap16(y)) == 0xffff - y
  {
  }

  // In host order the correction is always the same: the complement of the sum.
  lemma CorrectionIsHostIndependent(big: bool, bs: seq<byte>)
    requires |bs| % 2 == 0
    ensures BigEndian16(big, Checksum(big, bs)) == 0xffff - OnesSum(true, bs)
  {
    ByteOrderIndependent(bs);
    hide Swap16;
    ComplementSwaps(OnesSum(true, bs));
  }

  lemma PatchedSum(r: nat, prev: uint16, v: uint16)
    requires v == OnesAdd(prev, 0xffff - Canon(r + prev))
    ensures Canon(r + v) == 0xffff
  {
    var c := Canon(r + prev);
    assert (r + v) % 0xffff == 0 by {
      assert c % 0xffff == (r + prev) % 0xffff;
      PatchResidue(r, prev, v, c, if prev + (0xffff - c) > 0xffff then 1 else 0);
    }
    CanonUnique(prev, prev);
    assert r + v != 0;
    CanonUnique(0xffff, r + v);
  }

  lemma PatchResidue(r: nat, prev: nat, v: nat, c: nat, k: nat)
    requires v == prev + 0xffff - c - 0xffff * k && c % 0xffff == (r + prev) % 0xffff
    ensures (r + v) % 0xffff == 0
  {
    var a, b := c / 0xffff, (r + prev) / 0xffff;
    assert c == 0xffff * a + c % 0xffff && r + prev == 0xffff * b + c % 0xffff;
    assert r + v == 0xffff * (b - a + 1 - k);
  }

  // Storing the suggested value into any aligned field makes the whole buffer
  // verify, whatever it holds and whatever the host's byte order.
  lemma PatchedVerifies(big: bool, bs: seq<byte>, f: nat)
    requires |bs| % 2 == 0 && f % 2 == 0 && f + 2 <= |bs|
    ensures Checksum(big, PutField(bs, f, ShouldBe(big, Big16(bs, f), Checksum(big, bs)))) == 0
  {
    hide Sum, OnesSum, Canon, Swap16, OnesAdd, BigEndian16;
    var prev := Big16(bs, f);
    var v := ShouldBe(big, prev, Checksum(big, bs));
    var cs := PutField(bs, f, v);
    var r := Sum(true, bs[..f]) + Sum(true, bs[f + 2..]);
    CorrectionIsHostIndependent(big, bs);
    OnesSumIsCanon(true, bs);
    SumSplit(true, bs, f);
    SumSplit(true, cs, f);
    assert cs[..f] == bs[..f] && cs[f + 2..] == bs[f + 2..];
    PatchedSum(r, prev, v);
    OnesSumIsCanon(true, cs);
    AllOnes(big, cs);
  }

  lemma AllOnes(big: bool, bs: seq<byte>)
    requires |bs| % 2 == 0
    ensures Checksum(big, bs) == 0 <==> OnesSum(true, bs) == 0xffff
  {
    ByteOrderIndependent(bs);
  }

  // A buffer verifies when its words sum to a multiple of 0xffff other than zero.
  lemma VerifiesWhen(big: bool, bs: seq<byte>)
    requires |bs| % 2 == 0
    ensures Checksum(big, bs) == 0 <==> Sum(true, bs) % 0xffff == 0 && Sum(true, bs) > 0
  {
    AllOnes(big, bs);
    OnesSumIsCanon(true, bs);
    hide Sum, OnesSum, Canon;
    CanonFull(Sum(true, bs));
  }

  lemma CanonFull(t: nat)
    ensures Canon(t) == 0xffff <==> t % 0xffff == 0 && t > 0
  {
  }

  // Of all the values for the field only this one, up to a multiple of 0xffff,
  // makes the buffer verify.
  lemma OnlyPatched(big: bool, bs: seq<byte>, f: nat, w: uint16)
    requires |bs| % 2 == 0 && f % 2 == 0 && f + 2 <= |bs| && Checksum(big, PutField(bs, f, w)) == 0
    ensures w % 0xffff == ShouldBe(big, Big16(bs, f), Checksum(big, bs)) % 0xffff
  {
    hide Sum, Checksum, ShouldBe, PutField;
    var v := ShouldBe(big, Big16(bs, f), Checksum(big, bs));
    var r := Sum(true, bs[..f]) + Sum(true, bs[f + 2..]);
    PatchedVerifies(big, bs, f);
    VerifiesWhen(big, PutField(bs, f, v));
    VerifiesWhen(big, PutField(bs, f, w));
    PutSum(bs, f, v);
    PutSum(bs, f, w);
    SameRest(r, v, w);
  }

  lemma SameRest(r: nat, v: nat, w: nat)
    requires (r + v) % 0xffff == 0 == (r + w) % 0xffff
    ensures v % 0xffff == w % 0xffff
  {
  }

  lemma PutSum(bs: seq<byte>, f: nat, v: uint16)
    requires |bs| % 2 == 0 && f % 2 == 0 && f + 2 <= |bs|
    ensures Sum(true, PutField(bs, f, v)) == Sum(true, bs[..f]) + v + Sum(true, bs[f + 2..])
  {
    var cs := PutField(bs, f, v);
    assert cs[..f] == bs[..f] && cs[f + 2..] == bs[f + 2..];
    SumSplit(true, cs, f);
    hide Sum;
  }

  // A field that counts with its bytes exchanged, because it lies at an odd
  // address: then storing the suggested value makes the buffer verify if and only
  // if the sum so far is a multiple of 257.
  lemma PatchedSwapped(big: bool, bs: seq<byte>, f: nat)
    requires |bs| % 2 == 0 && f % 2 == 0 && f + 2 <= |bs|
    requires Sum(true, bs[..f]) + Sum(true, bs[f + 2..]) > 0
    ensures var v := ShouldBe(big, Swap16(Big16(bs, f)), Checksum(big, bs));
      Checksum(big, PutField(bs, f, Swap16(v))) == 0 <==> Sum(true, bs) % 257 == 0
  {
    hide Sum, OnesSum, Canon, Swap16, OnesAdd, BigEndian16, PutField;
    var q := Big16(bs, f);
    var v := ShouldBe(big, Swap16(q), Checksum(big, bs));
    var r := Sum(true, bs[..f]) + Sum(true, bs[f + 2..]);
    CorrectionIsHostIndependent(big, bs);
    OnesSumIsCanon(true, bs);
    SumSplit(true, bs, f);
    PutSum(bs, f, Swap16(v));
    VerifiesWhen(big, PutField(bs, f, Swap16(v)));
    var k := SwappedPatch(r, q, v);
    Factor257(r + Swap16(v), 0, r + q, k);
  }

  lemma SwappedPatch(r: nat, q: uint16, v: uint16) returns (k: int)
    requires v == OnesAdd(Swap16(q), 0xffff - Canon(r + q))
    ensures r + Swap16(v) + 255 * (r + q) == 0xffff * k
  {
    hide Swap16, Canon;
    var i := SwapMultiplies(q);
    var j := SwapMultiplies(v);
    var c := Canon(r + q);
    var m := (r + q) / 0xffff - c / 0xffff;
    assert c == r + q - 0xffff * m by {
      assert c % 0xffff == (r + q) % 0xffff by { CanonUnique(c, c); }
    }
    var d := if Swap16(q) + (0xffff - c) > 0xffff then 1 else 0;
    assert v == Swap16(q) + 0xffff - c - 0xffff * d;
    k := q - 256 * i + 256 + 256 * m - 256 * d - j;
  }
}
