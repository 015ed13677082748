/**
 The 16-bit checks of util_crc16.c: an unreflected byte loop on a 32-bit
 accumulator whose upper half is never looked at.
 */
module Crc16 {
  import opened Bytes
  import opened Gf2
  import opened Words
  import TableDriven

  // x^16 + x^12 + x^5 + 1 without its leading term, highest coefficient first.
  const CCITT: Bits := Hex4(0x1, 0x0, 0x2, 0x1)

  function Reverse(b: Bits): (r: Bits)
    ensures |r| == |b| && forall i :: 0 <= i < |b| ==> r[i] == b[|b| - 1 - i]
  {
    seq(|b|, i requires 0 <= i < |b| => b[|b| - 1 - i])
  }

  // The w low bits of a number, most significant first.
  function Msb(x: nat, w: nat): (r: Bits)
    ensures |r| == w
  {
    Reverse(ToBits(x, w))
  }

  // x << k
  function ShiftLeft(x: nat, k: nat): nat
    decreases k, x
  {
    if k == 0 then x else ShiftLeft(2 * x, k - 1)
  }

  lemma {:induction false} ToBitsLeft(x: nat, k: nat, w: nat)
    requires k <= w
    ensures ToBits(ShiftLeft(x, k), w) == Zeros(k) + ToBits(x, w - k)
    decreases k
  {
    if k > 0 {
      ToBitsLeft(2 * x, k - 1, w);
      assert ToBits(2 * x, w - k + 1) == [false] + ToBits(x, w - k);
      assert Zeros(k - 1) + ([false] + ToBits(x, w - k)) == Zeros(k) + ToBits(x, w - k);
    }
  }

  lemma {:induction false} ToBitsTruncate(x: nat, m: nat, w: nat)
    requires w <= m
    ensures ToBits(LowBits(x, m), w) == ToBits(x, w)
    decreases w
  {
    if w > 0 {
      var l := LowBits(x, m);
      assert l % 2 == x % 2 && l / 2 == LowBits(x / 2, m - 1);
      ToBitsTruncate(x / 2, m - 1, w - 1);
    }
  }

  lemma ReverseInvolution(b: Bits)
    ensures Reverse(Reverse(b)) == b
  {
  }

  lemma ReverseXor(a: Bits, b: Bits)
    requires |a| == |b|
    ensures Reverse(Xor(a, b)) == Xor(Reverse(a), Reverse(b))
  {
  }

  // The entry at index i of the table an unreflected check uses.
  function Entry(p: Bits, k: nat, i: nat): (r: nat)
    requires k <= |p| && |p| > 0
    ensures r < Pow2(|p|) && Msb(r, |p|) == Steps(p, Msb(i, k) + Zeros(|p| - k), k)
  {
    var s := Steps(p, Msb(i, k) + Zeros(|p| - k), k);
    ToFromBits(Reverse(s));
    ReverseInvolution(s);
    FromBits(Reverse(s))
  }

  lemma MsbXor(x: nat, y: nat, w: nat)
    ensures Msb(XorWord(x, y), w) == Xor(Msb(x, w), Msb(y, w))
  {
    ToBitsXor(x, y, w);
    ReverseXor(ToBits(x, w), ToBits(y, w));
  }

  lemma MsbLeft(x: nat, k: nat, w: nat, m: nat)
    requires k <= w <= m
    ensures Msb(LowBits(ShiftLeft(x, k), m), w) == Msb(x, w)[k..] + Zeros(k)
  {
    ToBitsTruncate(ShiftLeft(x, k), m, w);
    ToBitsLeft(x, k, w);
    ToBitsTake(x, w - k, w);
    var b := ToBits(x, w);
    assert Reverse(Zeros(k) + b[..w - k]) == Reverse(b)[k..] + Zeros(k);
  }

  lemma ToBitsTake(x: nat, k: nat, w: nat)
    requires k <= w
    ensures ToBits(x, k) == ToBits(x, w)[..k]
  {
    ToBitsLow(x, k, w);
    ToBitsLow(x, k, k);
  }

  lemma MsbIndex(x: nat, d: nat, k: nat, w: nat)
    requires k <= w
    ensures Msb(LowBits(XorWord(ShiftRight(x, w - k), d), k), k) == Xor(Msb(x, w)[..k], Msb(d, k))
  {
    var q := ShiftRight(x, w - k);
    ToBitsTruncate(XorWord(q, d), k, k);
    MsbXor(q, d, k);
    ToBitsSplit(x, w - k, k);
    assert ToBits(x, w) == ToBits(LowBits(x, w - k), w - k) + ToBits(q, k);
    assert Reverse(ToBits(x, w))[..k] == Reverse(ToBits(q, k));
  }

  lemma TableEntryAndShift(p: Bits, s: Bits, d: Bits, e: Bits, y: Bits)
    requires |p| == |s| > 0 && |d| <= |s|
    requires e == Steps(p, Xor(s[..|d|], d) + Zeros(|s| - |d|), |d|) && y == s[|d|..] + Zeros(|d|)
    ensures Xor(e, y) == Divide(p, s, d)
  {
    DivideByTable(p, s, d);
  }

  // One pass through an unreflected loop of width w = |p|, with
  // i == ((crc >> (w - k)) ^ d) & (2^k - 1) and y == crc << k kept to m bits:
  // table[i] ^ y performs k division steps.
  lemma LookupDivides(p: Bits, k: nat, m: nat, crc: nat, d: nat, i: nat, y: nat)
    requires k <= |p| <= m && |p| > 0
    requires i == LowBits(XorWord(ShiftRight(crc, |p| - k), d), k) && y == LowBits(ShiftLeft(crc, k), m)
    ensures Msb(XorWord(Entry(p, k, i), y), |p|) == Divide(p, Msb(crc, |p|), Msb(d, k))
  {
    var w := |p|;
    MsbIndex(crc, d, k, w);
    MsbLeft(crc, k, w, m);
    TableEntryAndShift(p, Msb(crc, w), Msb(d, k), Msb(Entry(p, k, i), w), Msb(y, w));
    MsbXor(Entry(p, k, i), y, w);
  }

  lemma LowSixteen(x: nat)
    ensures LowBits(x, 16) == x % 0x1_0000
  {
    WordSize();
    ShiftAndMask(x, 16);
    assert Pow2(16) * ShiftRight(x, 16) == 0x1_0000 * ShiftRight(x, 16);
    RemainderSixteen(x, LowBits(x, 16), ShiftRight(x, 16));
  }

  lemma RemainderSixteen(x: nat, l: nat, q: nat)
    requires x == l + 0x1_0000 * q && l < 0x1_0000
    ensures l == x % 0x1_0000
  {
  }

  lemma LeftEight(x: nat)
    ensures ShiftLeft(x, 8) == 256 * x
  {
    assert ShiftLeft(x, 8) == ShiftLeft(2 * x, 7) == ShiftLeft(4 * x, 6) == ShiftLeft(8 * x, 5);
    assert ShiftLeft(8 * x, 5) == ShiftLeft(16 * x, 4) == ShiftLeft(32 * x, 3) == ShiftLeft(64 * x, 2);
    assert ShiftLeft(64 * x, 2) == ShiftLeft(128 * x, 1) == ShiftLeft(256 * x, 0);
  }

  type Table = byte -> uint16

  // table[((crc16 >> 8) ^ *buf++) & 0xff] ^ (crc16 << 8), in 32 bits.
  function Step32(table: Table, crc: uint32, b: byte): (r: uint32) {
    var t := table(XorWord(crc / 0x100, b) % 0x100);
    WordSize();
    XorWordBound(t, crc * 0x100 % 0x1_0000_0000, 32);
    XorWord(t, crc * 0x100 % 0x1_0000_0000)
  }

  // The same step on a 16-bit accumulator.
  function Step16(table: Table, crc: uint16, b: byte): (r: uint16) {
    WordSize();
    XorWordBound(crc / 0x100, b, 8);
    var t := table(XorWord(crc / 0x100, b));
    XorWordBound(t, crc * 0x100 % 0x1_0000, 16);
    XorWord(t, crc * 0x100 % 0x1_0000)
  }

  lemma XorLowByte(x: nat, b: byte)
    ensures XorWord(x, b) % 0x100 == XorWord(x % 0x100, b)
  {
    hide XorWord, LowBits, ShiftRight;
    ByteOperations(XorWord(x, b));
    ByteOperations(x);
    ByteOperations(b);
    LowBitsOfXor(x, b, 8, x % 0x100, b, XorWord(x, b) % 0x100);
  }

  lemma XorLowHalf(t: uint16, y: nat)
    ensures XorWord(t, y) % 0x1_0000 == XorWord(t, y % 0x1_0000)
  {
    hide XorWord, LowBits;
    LowSixteen(XorWord(t, y));
    LowSixteen(t);
    LowSixteen(y);
    LowBitsOfXor(t, y, 16, t, y % 0x1_0000, XorWord(t, y) % 0x1_0000);
  }

  lemma HighByteOfHalf(x: nat)
    ensures x / 0x100 % 0x100 == x % 0x1_0000 / 0x100
  {
    var q, r := x / 0x1_0000, x % 0x1_0000;
    assert x == q * 0x1_0000 + r;
    assert x / 0x100 == q * 0x100 + r / 0x100;
  }

  lemma ShiftedHalf(x: nat)
    ensures x * 0x100 % 0x1_0000_0000 % 0x1_0000 == x % 0x1_0000 * 0x100 % 0x1_0000
  {
    var y, q := x * 0x100, x / 0x1_0000;
    var h := y / 0x1_0000_0000;
    assert y == q * 0x100_0000 + x % 0x1_0000 * 0x100;
    assert y % 0x1_0000_0000 == y - h * 0x1_0000_0000;
    ModuloOfMultiple(y % 0x1_0000_0000, h * 0x1_0000);
    ModuloOfMultiple(x % 0x1_0000 * 0x100, q * 0x100);
  }

  lemma ModuloOfMultiple(x: nat, k: nat)
    ensures (x + k * 0x1_0000) % 0x1_0000 == x % 0x1_0000
  {
  }

  lemma Step32LowHalf(table: Table, crc: uint32, b: byte)
    ensures Step32(table, crc, b) % 0x1_0000 == Step16(table, crc % 0x1_0000, b)
  {
    var i, y := crc / 0x100, crc * 0x100 % 0x1_0000_0000;
    HighByteOfHalf(crc);
    ShiftedHalf(crc);
    XorLowByte(i, b);
    XorLowHalf(table(XorWord(i, b) % 0x100), y);
  }

  // The accumulator after the loop, in 32 and in 16 bits.
  function Loop32(table: Table, crc: uint32, msg: seq<byte>): uint32 {
    if msg == [] then crc
    else Step32(table, Loop32(table, crc, msg[..|msg| - 1]), msg[|msg| - 1])
  }

  function Loop16(table: Table, crc: uint16, msg: seq<byte>): uint16 {
    if msg == [] then crc
    else Step16(table, Loop16(table, crc, msg[..|msg| - 1]), msg[|msg| - 1])
  }

  // For any table, dropping the upper half at the end is the same as never
  // having it.
  lemma {:induction false} LowHalfAgrees(table: Table, crc: uint32, msg: seq<byte>)
    ensures Loop32(table, crc, msg) % 0x1_0000 == Loop16(table, crc % 0x1_0000, msg)
  {
    if msg != [] {
      var n := |msg| - 1;
      LowHalfAgrees(table, crc, msg[..n]);
      Step32LowHalf(table, Loop32(table, crc, msg[..n]), msg[n]);
    }
  }

  lemma {:induction false} Loop16Concat(table: Table, crc: uint16, a: seq<byte>, b: seq<byte>)
    ensures Loop16(table, crc, a + b) == Loop16(table, Loop16(table, crc, a), b)
    decreases |b|
  {
    if b == [] {
      assert a + b == a;
    } else {
      var c := b[..|b| - 1];
      assert (a + b)[..|a + b| - 1] == a + c;
      Loop16Concat(table, crc, a, c);
    }
  }

  lemma Loop32Step(table: Table, crc: uint32, msg: seq<byte>, i: nat)
    requires i < |msg|
    ensures Step32(table, Loop32(table, crc, msg[..i]), msg[i]) == Loop32(table, crc, msg[..i + 1])
  {
    assert msg[..i + 1][..i] == msg[..i];
  }

  // static uint16_t crc16_unreflected(const uint8_t *buf, uint32_t len,
  //                                   uint16_t crc_in, const uint32_t table[])
  method Crc16Unreflected(buf: array<byte>, len: nat, crcIn: uint16, table: Table) returns (crc: uint16)
    requires len <= buf.Length
    ensures crc == Loop16(table, crcIn, buf[..len])
  {
    hide Step32, Loop16, XorWord;
    ghost var msg := buf[..len];
    var crc16: uint32 := crcIn;
    var i := 0;
    while i != len
      invariant 0 <= i <= len
      invariant crc16 == Loop32(table, crcIn, msg[..i])
      decreases len - i
    {
      Loop32Step(table, crcIn, msg, i);
      crc16 := Step32(table, crc16, buf[i]);
      i := i + 1;
    }
    assert msg[..len] == msg;
    LowHalfAgrees(table, crcIn, msg);
    crc := crc16 % 0x1_0000;
  }

  // crc16_ccitt_table: the table for a message read highest bit first.
  function StraightTable(i: byte): uint16 {
    WordSize();
    Entry(CCITT, 8, i)
  }

  // crc16_ccitt_table_reverse: the table for a message read lowest bit first.
  function ReverseTable(i: byte): uint16 {
    WordSize();
    TableDriven.Entry(CCITT, 8, i)
  }

  // ~x in 16 bits
  function Not(x: uint16): uint16 { 0xffff - x }

  // What crc16_x25_ccitt, crc16_ccitt and crc16_ccitt_seed return.
  function X25(msg: seq<byte>): uint16 { Loop16(StraightTable, 0xffff, msg) }

  function CcittSeed(msg: seq<byte>, seed: uint16): uint16 { Not(Loop16(ReverseTable, seed, msg)) }

  function Ccitt(msg: seq<byte>): uint16 { CcittSeed(msg, 0xffff) }

  method Crc16X25Ccitt(buf: array<byte>, len: nat) returns (crc: uint16)
    requires len <= buf.Length
    ensures crc == X25(buf[..len])
  {
    crc := Crc16Unreflected(buf, len, 0xffff, StraightTable);
  }

  method Crc16CcittSeed(buf: array<byte>, len: nat, seed: uint16) returns (crc: uint16)
    requires len <= buf.Length
    ensures crc == CcittSeed(buf[..len], seed)
  {
    crc := Crc16Unreflected(buf, len, seed, ReverseTable);
    crc := Not(crc);
  }

  method Crc16Ccitt(buf: array<byte>, len: nat) returns (crc: uint16)
    requires len <= buf.Length
    ensures crc == Ccitt(buf[..len])
  {
    crc := Crc16CcittSeed(buf, len, 0xffff);
  }

  // The seeded check may be fed in pieces, complemented first as documented.
  lemma CcittChains(a: seq<byte>, b: seq<byte>, seed: uint16)
    ensures CcittSeed(b, Not(CcittSeed(a, seed))) == CcittSeed(a + b, seed)
  {
    Loop16Concat(ReverseTable, seed, a, b);
    NotTwice(Loop16(ReverseTable, seed, a));
  }

  lemma NotTwice(x: uint16)
    ensures Not(Not(x)) == x
  {
  }

  // The message bits, every byte most significant bit first.
  function MsbStream(buf: seq<byte>): (r: Bits)
    ensures |r| == 8 * |buf|
  {
    if buf == [] then [] else MsbStream(buf[..|buf| - 1]) + Msb(buf[|buf| - 1], 8)
  }

  lemma StepOperands(crc: uint16, b: byte)
    ensures XorWord(crc / 0x100, b) == LowBits(XorWord(ShiftRight(crc, 8), b), 8)
    ensures crc * 0x100 % 0x1_0000 == LowBits(ShiftLeft(crc, 8), 16)
  {
    hide XorWord, LowBits, ShiftRight, ShiftLeft;
    WordSize();
    ByteOperations(crc);
    XorWordBound(crc / 0x100, b, 8);
    ByteOperations(XorWord(crc / 0x100, b));
    LeftEight(crc);
    LowSixteen(0x100 * crc);
  }

  lemma StraightStepDivides(crc: uint16, b: byte)
    ensures Msb(Step16(StraightTable, crc, b), 16) == Divide(CCITT, Msb(crc, 16), Msb(b, 8))
  {
    StepOperands(crc, b);
    LookupDivides(CCITT, 8, 16, crc, b, XorWord(crc / 0x100, b), crc * 0x100 % 0x1_0000);
  }

  // With the straight table the loop is bit-serial division, highest bit first.
  lemma {:induction false} StraightLoopDivides(crc: uint16, msg: seq<byte>)
    ensures Msb(Loop16(StraightTable, crc, msg), 16) == Divide(CCITT, Msb(crc, 16), MsbStream(msg))
  {
    if msg != [] {
      var n := |msg| - 1;
      StraightLoopDivides(crc, msg[..n]);
      StraightStepDivides(Loop16(StraightTable, crc, msg[..n]), msg[n]);
      DivideConcat(CCITT, Msb(crc, 16), MsbStream(msg[..n]), Msb(msg[n], 8));
    }
  }

  // The X.25 check is the remainder of the message, divided highest bit first.
  lemma X25IsDivision(msg: seq<byte>)
    ensures Msb(X25(msg), 16) == Divide(CCITT, Msb(0xffff, 16), MsbStream(msg))
  {
    StraightLoopDivides(0xffff, msg);
  }

  lemma {:induction false} MsbStreamConcat(a: seq<byte>, b: seq<byte>)
    ensures MsbStream(a + b) == MsbStream(a) + MsbStream(b)
    decreases |b|
  {
    if b == [] {
      assert a + b == a;
    } else {
      var c := b[..|b| - 1];
      assert (a + b)[..|a + b| - 1] == a + c;
      MsbStreamConcat(a, c);
      assert MsbStream(a) + MsbStream(c) + Msb(b[|b| - 1], 8) == MsbStream(a) + (MsbStream(c) + Msb(b[|b| - 1], 8));
    }
  }

  lemma MsbInjective(a: nat, b: nat, w: nat)
    requires a < Pow2(w) && b < Pow2(w) && Msb(a, w) == Msb(b, w)
    ensures a == b
  {
    ReverseInvolution(ToBits(a, w));
    ReverseInvolution(ToBits(b, w));
    ToBitsInjective(a, b, w);
  }

  lemma MsbStreamSnoc(m: seq<byte>, b: byte)
    ensures MsbStream(m + [b]) == MsbStream(m) + Msb(b, 8)
  {
    hide Msb;
    assert (m + [b])[..|m|] == m;
  }

  lemma {:induction false} MsbStreamInjective(a: seq<byte>, b: seq<byte>)
    requires |a| == |b| && MsbStream(a) == MsbStream(b)
    ensures a == b
    decreases |a|
  {
    hide MsbStream, Msb, Pow2;
    if a != [] {
      var n := |a| - 1;
      var x, y := a[..n], b[..n];
      assert a == x + [a[n]] && b == y + [b[n]];
      MsbStreamSnoc(x, a[n]);
      MsbStreamSnoc(y, b[n]);
      TableDriven.TailsEqual(MsbStream(x), Msb(a[n], 8), MsbStream(y), Msb(b[n], 8));
      MsbStreamInjective(x, y);
      WordSize();
      MsbInjective(a[n], b[n], 8);
    }
  }

  lemma MsbStreamThree(pre: seq<byte>, x: seq<byte>, post: seq<byte>)
    ensures MsbStream(pre + x + post) == MsbStream(pre) + MsbStream(x) + MsbStream(post)
  {
    hide MsbStream;
    MsbStreamConcat(pre + x, post);
    MsbStreamConcat(pre, x);
  }

  lemma WindowDetected(p: Bits, s: Bits, a: seq<byte>, b: seq<byte>, i: nat, n: nat)
    requires |p| == |s| == 16 && p[15]
    requires |a| == |b| && n <= 2 && i + n <= |a| && a != b
    requires a[..i] == b[..i] && a[i + n..] == b[i + n..]
    ensures Divide(p, s, MsbStream(a)) != Divide(p, s, MsbStream(b))
  {
    hide MsbStream, Divide;
    var pre, x, y, post := a[..i], a[i..i + n], b[i..i + n], a[i + n..];
    assert a == pre + x + post && b == pre + y + post;
    if MsbStream(x) == MsbStream(y) {
      MsbStreamInjective(x, y);
    }
    MsbStreamThree(pre, x, post);
    MsbStreamThree(pre, y, post);
    BurstDetected(p, s, MsbStream(pre), MsbStream(x), MsbStream(y), MsbStream(post));
  }

  // x + 1 divides the divisor, and its constant term is 1.
  lemma CcittDivisor()
    ensures CCITT[15] && Parity(CCITT)
  {
    hide Hex, Parity;
    Hex4Parity(CCITT, 0x1, 0x0, 0x2, 0x1);
  }

  // The X.25 check detects every error confined to two consecutive bytes.
  lemma X25Detects(a: seq<byte>, b: seq<byte>, i: nat, n: nat)
    requires |a| == |b| && n <= 2 && i + n <= |a| && a != b
    requires a[..i] == b[..i] && a[i + n..] == b[i + n..]
    ensures X25(a) != X25(b)
  {
    CcittDivisor();
    WindowDetected(CCITT, Msb(0xffff, 16), a, b, i, n);
    X25IsDivision(a);
    X25IsDivision(b);
  }

  // And every error that flips an odd number of bits.
  lemma X25DetectsOdd(a: seq<byte>, b: seq<byte>)
    requires |a| == |b| && Parity(Xor(MsbStream(a), MsbStream(b)))
    ensures X25(a) != X25(b)
  {
    CcittDivisor();
    OddErrorDetected(CCITT, Msb(0xffff, 16), MsbStream(a), MsbStream(b));
    X25IsDivision(a);
    X25IsDivision(b);
  }

  // What util_crc16.h documents for crc16_ccitt and crc16_ccitt_seed: the same
  // divisor, but the message read lowest bit first, which takes the reflected
  // loop. The functions use the reflected table in the unreflected loop instead.
  function DocumentedSeed(msg: seq<byte>, seed: uint16): (r: uint16) {
    var crc := TableDriven.DigitLoop(CCITT, 8, seed, msg);
    TableDriven.BytesAreDigits(msg);
    WordSize();
    TableDriven.DigitLoopDivides(CCITT, 8, seed, msg);
    Not(crc)
  }

  function Documented(msg: seq<byte>): uint16 { DocumentedSeed(msg, 0xffff) }

  lemma DocumentedIsDivision(msg: seq<byte>, seed: uint16)
    ensures ToBits(Not(DocumentedSeed(msg, seed)), 16) == Divide(CCITT, ToBits(seed, 16), TableDriven.Stream(msg, 8))
  {
    hide TableDriven.DigitLoop, Divide, ToBits;
    WordSize();
    TableDriven.BytesAreDigits(msg);
    TableDriven.DigitLoopDivides(CCITT, 8, seed, msg);
    NotTwice(TableDriven.DigitLoop(CCITT, 8, seed, msg));
  }
}
