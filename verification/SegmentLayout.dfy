/**
 The bytes that a transport checksum is taken over: addresses, kind and length,
 and a segment padded to an even length, where addresses and segment may lie at
 odd addresses.
 */
module SegmentLayout {
  import opened Bytes
  import opened InternetChecksum
  import opened VectorSum
  import opened VectorConditions

  function EvenPart(segment: seq<byte>): (r: seq<byte>)
    ensures |r| == |segment| - |segment| % 2 && |r| % 2 == 0
  {
    segment[..|segment| - |segment| % 2]
  }

  function Pad(segment: seq<byte>): (r: seq<byte>)
    ensures |r| in {0, 2}
  {
    if |segment| % 2 == 1 then [segment[|segment| - 1], 0] else []
  }

  // The bytes as in_cksum sums them; p and q tell whether addresses and segment
  // lie at odd addresses.
  function Layout(p: bool, a: seq<byte>, b: seq<byte>, q: bool, segment: seq<byte>): (r: seq<byte>)
    requires |a| % 2 == 0 && |b| % 2 == 0
    ensures |r| % 2 == 0 && |r| == |a| + |b| + |segment| + |segment| % 2
  {
    AsRead(p, a) + b + AsRead(q, EvenPart(segment)) + Pad(segment)
  }

  // As they should be summed.
  function Plain(a: seq<byte>, b: seq<byte>, segment: seq<byte>): (r: seq<byte>)
    requires |a| % 2 == 0 && |b| % 2 == 0
    ensures |r| % 2 == 0
  {
    a + b + Padded(segment)
  }

  lemma EvenAddress(bs: seq<byte>)
    requires |bs| % 2 == 0
    ensures AsRead(false, bs) == bs
  {
  }

  lemma PlainLayout(a: seq<byte>, b: seq<byte>, segment: seq<byte>)
    requires |a| % 2 == 0 && |b| % 2 == 0
    ensures Layout(false, a, b, false, segment) == Plain(a, b, segment)
  {
    EvenAddress(a);
    EvenAddress(EvenPart(segment));
    assert EvenPart(segment) + Pad(segment) == Padded(segment);
    hide EvenPart, Pad, AsRead, Padded;
    assert a + b + EvenPart(segment) + Pad(segment) == a + b + (EvenPart(segment) + Pad(segment));
  }

  lemma FourSums(big: bool, a: seq<byte>, b: seq<byte>, c: seq<byte>, d: seq<byte>)
    requires |a| % 2 == 0 && |b| % 2 == 0 && |c| % 2 == 0 && |d| % 2 == 0
    ensures |a + b + c + d| % 2 == 0
    ensures Sum(big, a + b + c + d) == Sum(big, a) + Sum(big, b) + Sum(big, c) + Sum(big, d)
  {
    hide Sum;
    SumConcat(big, a + b + c, d);
    SumConcat(big, a + b, c);
    SumConcat(big, a, b);
  }

  lemma LayoutSum(big: bool, p: bool, a: seq<byte>, b: seq<byte>, q: bool, segment: seq<byte>)
    requires |a| % 2 == 0 && |b| % 2 == 0
    ensures Sum(big, Layout(p, a, b, q, segment))
      == Sum(big, AsRead(p, a)) + Sum(big, b) + Sum(big, AsRead(q, EvenPart(segment))) + Sum(big, Pad(segment))
  {
    hide AsRead, EvenPart, Pad, Sum;
    FourSums(big, AsRead(p, a), b, AsRead(q, EvenPart(segment)), Pad(segment));
  }

  // What lies at odd addresses, behind the first word of its piece.
  function Misplaced(big: bool, p: bool, a: seq<byte>, q: bool, segment: seq<byte>): nat
    requires |a| % 2 == 0
  {
    MovedIn(big, p, a) + MovedIn(big, q, EvenPart(segment))
  }

  lemma LayoutCounts(big: bool, p: bool, a: seq<byte>, b: seq<byte>, q: bool, segment: seq<byte>) returns (k: nat)
    requires |a| % 2 == 0 && |b| % 2 == 0
    ensures Sum(big, Plain(a, b, segment)) + 255 * Misplaced(big, p, a, q, segment)
      == Sum(big, Layout(p, a, b, q, segment)) + 0xffff * k
    ensures Sum(big, Layout(p, a, b, q, segment)) == 0 <==> Sum(big, Plain(a, b, segment)) == 0
  {
    hide AsRead, EvenPart, Pad, Sum, MovedIn, Layout, Plain;
    var i := MovedInCounts(big, p, a);
    var j := MovedInCounts(big, q, EvenPart(segment));
    PlainLayout(a, b, segment);
    LayoutSum(big, p, a, b, q, segment);
    LayoutSum(big, false, a, b, false, segment);
    EvenAddress(a);
    EvenAddress(EvenPart(segment));
    k := i + j;
  }

  // The sum is the one it should be if and only if what is misplaced adds up to a
  // multiple of 257.
  lemma LayoutCondition(big: bool, p: bool, a: seq<byte>, b: seq<byte>, q: bool, segment: seq<byte>)
    requires |a| % 2 == 0 && |b| % 2 == 0
    ensures Checksum(big, Layout(p, a, b, q, segment)) == Checksum(big, Plain(a, b, segment)) <==>
      Misplaced(big, p, a, q, segment) % 257 == 0
  {
    hide Sum, Misplaced, Layout, Plain, Checksum;
    var k := LayoutCounts(big, p, a, b, q, segment);
    SameChecksum(big, Layout(p, a, b, q, segment), Plain(a, b, segment));
    Factor257(Sum(big, Plain(a, b, segment)), Sum(big, Layout(p, a, b, q, segment)),
              Misplaced(big, p, a, q, segment), k);
  }

  // ------------------------------------------------------------ the vector's pieces

  lemma ReadSnoc(vs: seq<Vec>, v: Vec)
    requires EvenLengths(vs) && Readable(v) && v.len % 2 == 0
    ensures EvenLengths(vs + [v]) && ReadAll(vs + [v]) == ReadAll(vs) + AsRead(OddAddress(v), PieceBytes(v))
    ensures ReadAll([]) == []
  {
    hide AsRead;
    assert (vs + [v])[..|vs|] == vs;
  }

  lemma ReadThree(a: Vec, b: Vec, c: Vec)
    requires Readable(a) && Readable(b) && Readable(c)
    requires a.len % 2 == 0 && b.len % 2 == 0 && c.len % 2 == 0 && !OddAddress(b)
    ensures EvenLengths([a, b] + [c])
    ensures ReadAll([a, b] + [c])
      == AsRead(OddAddress(a), PieceBytes(a)) + PieceBytes(b) + AsRead(OddAddress(c), PieceBytes(c))
  {
    hide AsRead, ReadAll, PieceBytes, EvenLengths;
    assert EvenLengths([]) by { NoPieces(); }
    ReadSnoc([], a);
    assert [] + [a] == [a] && [a] + [b] == [a, b];
    ReadSnoc([a], b);
    ReadSnoc([a, b], c);
    EvenAddress(PieceBytes(b));
    assert [] + AsRead(OddAddress(a), PieceBytes(a)) == AsRead(OddAddress(a), PieceBytes(a));
  }

  lemma NoPieces()
    ensures EvenLengths([])
  {
  }

  // Header, even part and pad, as pieces.
  lemma LayoutPieces(a: Vec, b: Vec, segment: Vec, pad: seq<byte>)
    requires Readable(a) && Readable(b) && Readable(segment) && a.len % 2 == 0 && b.len % 2 == 0 && !OddAddress(b)
    requires segment.len % 2 == 1 ==> pad == Pad(PieceBytes(segment))
    ensures var body := segment.(len := segment.len - segment.len % 2);
      var vs := if segment.len % 2 == 1 then [a, b] + [body] + [Vec(pad, 0, 2)] else [a, b] + [body];
      && EvenLengths(vs)
      && ReadAll(vs) == Layout(OddAddress(a), PieceBytes(a), PieceBytes(b), OddAddress(segment), PieceBytes(segment))
  {
    var body := segment.(len := segment.len - segment.len % 2);
    BodyBytes(segment);
    hide AsRead, ReadAll, EvenLengths, EvenPart;
    ReadThree(a, b, body);
    if segment.len % 2 == 1 {
      var last := Vec(pad, 0, 2);
      assert PieceBytes(last) == pad;
      hide PieceBytes, Pad;
      ReadSnoc([a, b] + [body], last);
      EvenAddress(PieceBytes(last));
    } else {
      assert Pad(PieceBytes(segment)) == [];
      hide PieceBytes, Pad;
      Nothing(ReadAll([a, b] + [body]));
    }
  }

  lemma BodyBytes(segment: Vec)
    requires Readable(segment)
    ensures PieceBytes(segment.(len := segment.len - segment.len % 2)) == EvenPart(PieceBytes(segment))
  {
  }

  lemma Nothing(r: seq<byte>)
    ensures r + [] == r
  {
  }

  // --------------------------------------------------------- a field of the segment

  lemma SwapThree(x: seq<byte>, w: seq<byte>, y: seq<byte>)
    requires |x| % 2 == 0 && |w| == 2 && |y| % 2 == 0
    ensures |x + w| % 2 == 0 && |x + w + y| % 2 == 0
    ensures SwapPairs(x + w + y) == SwapPairs(x) + [w[1], w[0]] + SwapPairs(y)
  {
    hide SwapPairs;
    EvenSum(|x|, |w|);
    EvenSum(|x + w|, |y|);
    SwapPairsConcat(x + w, y);
    SwapPairsConcat(x, w);
    SwapTwo(w);
  }

  lemma SwapTwo(w: seq<byte>)
    requires |w| == 2
    ensures SwapPairs(w) == [w[1], w[0]]
  {
    assert w[..0] == [];
  }

  lemma Apart(bs: seq<byte>, f: nat)
    requires f + 2 <= |bs|
    ensures bs == bs[..f] + bs[f..f + 2] + bs[f + 2..] && Big16(bs, f) == Big16(bs[f..f + 2], 0)
  {
  }

  lemma Around(x: seq<byte>, w: seq<byte>, y: seq<byte>, v: uint16)
    requires |w| == 2
    ensures PutField(x + w + y, |x|, v) == x + [v / 256, v % 256] + y
    ensures Big16(x + w + y, |x|) == Big16(w, 0)
  {
    var bs := x + w + y;
    assert bs[..|x|] == x && bs[|x| + 2..] == y;
    assert bs[|x|] == w[0] && bs[|x| + 1] == w[1];
  }

  // A field whose bytes are exchanged.
  lemma SwapPut(bs: seq<byte>, f: nat, v: uint16)
    requires |bs| % 2 == 0 && f % 2 == 0 && f + 2 <= |bs|
    ensures SwapPairs(PutField(bs, f, v)) == PutField(SwapPairs(bs), f, Swap16(v))
    ensures Big16(SwapPairs(bs), f) == Swap16(Big16(bs, f))
  {
    hide *;
    var x, w, y := bs[..f], bs[f..f + 2], bs[f + 2..];
    Apart(bs, f);
    EvenDifference(|bs|, f + 2);
    Around(x, w, y, v);
    SwapPutParts(x, w, y, v);
  }

  lemma SwapPutParts(x: seq<byte>, w: seq<byte>, y: seq<byte>, v: uint16)
    requires |x| % 2 == 0 && |w| == 2 && |y| % 2 == 0
    ensures |x + w + y| % 2 == 0 && |x + [v / 256, v % 256] + y| % 2 == 0
    ensures SwapPairs(x + [v / 256, v % 256] + y) == PutField(SwapPairs(x + w + y), |x|, Swap16(v))
    ensures Big16(SwapPairs(x + w + y), |x|) == Swap16(Big16(w, 0))
  {
    hide *;
    SwapThree(x, w, y);
    SwapThree(x, [v / 256, v % 256], y);
    SwapWord(w);
    Around(SwapPairs(x), [w[1], w[0]], SwapPairs(y), Swap16(v));
    SwapParts(v);
  }

  lemma EvenDifference(a: nat, b: nat)
    requires a % 2 == 0 && b % 2 == 0 && b <= a
    ensures (a - b) % 2 == 0
  {
  }

  lemma SwapWord(w: seq<byte>)
    requires |w| == 2
    ensures Big16([w[1], w[0]], 0) == Swap16(Big16(w, 0))
  {
    SwapOfBytes(w[0], w[1]);
  }

  lemma SwapParts(v: uint16)
    ensures Swap16(v) / 256 == v % 256 && Swap16(v) % 256 == v / 256
  {
  }

  lemma SwapOfBytes(a: byte, b: byte)
    ensures Swap16(256 * a + b) == 256 * b + a
  {
  }

  lemma PutBefore(p: seq<byte>, t: seq<byte>, f: nat, v: uint16)
    requires f + 2 <= |p|
    ensures PutField(p, f, v) + t == PutField(p + t, f, v) && Big16(p + t, f) == Big16(p, f)
  {
  }

  lemma PutAfter(h: seq<byte>, p: seq<byte>, f: nat, v: uint16)
    requires f + 2 <= |p|
    ensures h + PutField(p, f, v) == PutField(h + p, |h| + f, v)
    ensures Big16(h + p, |h| + f) == Big16(p, f)
  {
  }

  // Where the field is summed, and how.
  function Place(q: bool, f: nat): int { if q then f - 2 else f }

  function Turned(q: bool, v: uint16): uint16 { if q then Swap16(v) else v }

  lemma FieldAsRead(q: bool, bs: seq<byte>, f: nat, v: uint16)
    requires |bs| % 2 == 0 && f % 2 == 0 && 2 <= f && f + 2 <= |bs|
    ensures AsRead(q, PutField(bs, f, v)) == PutField(AsRead(q, bs), Place(q, f), Turned(q, v))
    ensures Big16(AsRead(q, bs), Place(q, f)) == Turned(q, Big16(bs, f))
  {
    if q {
      var cs := PutField(bs, f, v);
      assert cs[2..] == PutField(bs[2..], f - 2, v) && cs[..2] == bs[..2];
      assert Big16(bs[2..], f - 2) == Big16(bs, f);
      SwapPut(bs[2..], f - 2, v);
      hide SwapPairs, PutField, Swap16;
      PutBefore(SwapPairs(bs[2..]), bs[..2], f - 2, Swap16(v));
    }
  }

  lemma EvenPartPut(segment: seq<byte>, f: nat, v: uint16)
    requires f % 2 == 0 && f + 2 <= |segment|
    ensures EvenPart(PutField(segment, f, v)) == PutField(EvenPart(segment), f, v)
    ensures Pad(PutField(segment, f, v)) == Pad(segment) && Big16(EvenPart(segment), f) == Big16(segment, f)
  {
  }

  lemma FieldInside(h: seq<byte>, c: seq<byte>, d: seq<byte>, g: nat, v: uint16)
    requires g + 2 <= |c|
    ensures h + PutField(c, g, v) + d == PutField(h + c + d, |h| + g, v)
    ensures Big16(h + c + d, |h| + g) == Big16(c, g)
  {
    hide PutField, Big16;
    PutAfter(h, c, g, v);
    PutBefore(h + c, d, |h| + g, v);
  }

  lemma LayoutIs(p: bool, a: seq<byte>, b: seq<byte>, q: bool, segment: seq<byte>)
    requires |a| % 2 == 0 && |b| % 2 == 0
    ensures Layout(p, a, b, q, segment) == AsRead(p, a) + b + AsRead(q, EvenPart(segment)) + Pad(segment)
  {
  }

  lemma PlaceFits(a: nat, b: nat, q: bool, f: nat, n: nat)
    requires a % 2 == 0 && b % 2 == 0 && f % 2 == 0 && 2 <= f && f + 2 <= n
    ensures 0 <= Place(q, f) && Place(q, f) + 2 <= n && (a + b + Place(q, f)) % 2 == 0
    ensures f + 2 <= n - n % 2
  {
  }

  // A field of the segment in what is summed: it alone changes.
  lemma LayoutField(p: bool, a: seq<byte>, b: seq<byte>, q: bool, segment: seq<byte>, f: nat, v: uint16)
    requires |a| % 2 == 0 && |b| % 2 == 0 && f % 2 == 0 && 2 <= f && f + 2 <= |segment|
    ensures var n := |a| + |b| + Place(q, f);
      && n % 2 == 0 && 0 <= n && n + 2 <= |Layout(p, a, b, q, segment)|
      && Big16(Layout(p, a, b, q, segment), n) == Turned(q, Big16(segment, f))
      && Layout(p, a, b, q, PutField(segment, f, v)) == PutField(Layout(p, a, b, q, segment), n, Turned(q, v))
  {
    hide *;
    PlaceFits(|a|, |b|, q, f, |segment|);
    EvenPartPut(segment, f, v);
    FieldAsRead(q, EvenPart(segment), f, v);
    LayoutIs(p, a, b, q, segment);
    LayoutIs(p, a, b, q, PutField(segment, f, v));
    FieldInside(AsRead(p, a) + b, AsRead(q, EvenPart(segment)), Pad(segment), Place(q, f), Turned(q, v));
  }

  // Beside the field, what is in b counts.
  lemma OthersCount(p: bool, a: seq<byte>, b: seq<byte>, q: bool, segment: seq<byte>, n: nat)
    requires |a| % 2 == 0 && |b| % 2 == 0 && Sum(true, b) > 0
    requires n % 2 == 0 && |a| + |b| <= n && n + 2 <= |Layout(p, a, b, q, segment)|
    ensures var r := Layout(p, a, b, q, segment); Sum(true, r[..n]) + Sum(true, r[n + 2..]) > 0
  {
    hide *;
    var h, d := AsRead(p, a) + b, AsRead(q, EvenPart(segment)) + Pad(segment);
    LayoutIs(p, a, b, q, segment);
    var r := Layout(p, a, b, q, segment);
    assert r == h + d;
    SumConcat(true, AsRead(p, a), b);
    EvenSum(|a|, |b|);
    FirstPart(h, d, n);
  }

  lemma FirstPart(h: seq<byte>, d: seq<byte>, n: nat)
    requires |h| % 2 == 0 && |h + d| % 2 == 0 && Sum(true, h) > 0 && n % 2 == 0 && |h| <= n && n + 2 <= |h + d|
    ensures Sum(true, (h + d)[..n]) + Sum(true, (h + d)[n + 2..]) > 0
  {
    hide Sum;
    EvenDifference(n, |h|);
    assert (h + d)[..n] == h + d[..n - |h|];
    SumConcat(true, h, d[..n - |h|]);
  }

  // Storing the suggested value, and summing again, gives zero: always when the
  // segment lies at an even address, and else exactly when the sum so far was a
  // multiple of 257.
  lemma LayoutPatched(big: bool, p: bool, a: seq<byte>, b: seq<byte>, q: bool, segment: seq<byte>, f: nat)
    requires |a| % 2 == 0 && |b| % 2 == 0 && Sum(true, b) > 0 && f % 2 == 0 && 2 <= f && f + 2 <= |segment|
    ensures var r := Layout(p, a, b, q, segment);
      var v := ShouldBe(big, Big16(segment, f), Checksum(big, r));
      Checksum(big, Layout(p, a, b, q, PutField(segment, f, v))) == 0 <==> !q || Sum(true, r) % 257 == 0
  {
    hide Layout, Checksum, ShouldBe, Big16, PutField, Sum, Swap16;
    var r, n := Layout(p, a, b, q, segment), |a| + |b| + Place(q, f);
    var v := ShouldBe(big, Big16(segment, f), Checksum(big, r));
    LayoutField(p, a, b, q, segment, f, v);
    if q {
      OthersCount(p, a, b, q, segment, n);
      SwapTwice(Big16(segment, f));
      PatchedSwapped(big, r, n);
    } else {
      PatchedVerifies(big, r, n);
    }
  }

  lemma SwapTwice(x: uint16)
    ensures Swap16(Swap16(x)) == x
  {
    SwapParts(x);
  }
}
