/**
 The two 32-bit checks of util_crc32.c.

 Their 256-entry tables are the ones their divisors generate; the byte loops
 are proved to be bit-serial division by those divisors.
 */
module Crc32 {
  import opened Bytes
  import opened Gf2
  import opened Words
  import opened TableDriven

  const MAX_WORD: nat := 0xffff_ffff

  // The divisors without their x^32, highest coefficient first: the polynomials
  // 0x04C11DB7 and 0x1EDC6F41.
  const CCITT: Bits := Hex4(0x0, 0x4, 0xC, 0x1) + Hex4(0x1, 0xD, 0xB, 0x7)
  const CASTAGNOLI: Bits := Hex4(0x1, 0xE, 0xD, 0xC) + Hex4(0x6, 0xF, 0x4, 0x1)

  lemma ConstantTerms()
    ensures CCITT[31] && CASTAGNOLI[31]
  {
    assert CCITT[31] == Hex4(0x1, 0xD, 0xB, 0x7)[15];
    assert CASTAGNOLI[31] == Hex4(0x6, 0xF, 0x4, 0x1)[15];
  }

  // ~x
  function Not(x: uint32): uint32 { MAX_WORD - x }

  lemma NotTwice(x: uint32)
    ensures Not(Not(x)) == x
  {
  }

  function Word(b0: byte, b1: byte, b2: byte, b3: byte): uint32 {
    b0 + b1 * 0x100 + b2 * 0x1_0000 + b3 * 0x100_0000
  }

  lemma WordBytes(x: uint32)
    ensures x == Word(x % 0x100, x / 0x100 % 0x100, x / 0x1_0000 % 0x100, x / 0x100_0000)
  {
    var x1 := x / 0x100;
    var x2 := x1 / 0x100;
    var x3 := x2 / 0x100;
    assert x / 0x1_0000 == x2 && x / 0x100_0000 == x3;
    assert x == x % 0x100 + 0x100 * x1 && x1 == x1 % 0x100 + 0x100 * x2 && x2 == x2 % 0x100 + 0x100 * x3;
  }

  lemma BytesOfWord(b0: byte, b1: byte, b2: byte, b3: byte)
    ensures var x := Word(b0, b1, b2, b3);
      x % 0x100 == b0 && x / 0x100 % 0x100 == b1 && x / 0x1_0000 % 0x100 == b2 && x / 0x100_0000 == b3
  {
    var x := Word(b0, b1, b2, b3);
    assert x / 0x100 == b1 + b2 * 0x100 + b3 * 0x1_0000;
    assert x / 0x1_0000 == b2 + b3 * 0x100;
  }

  // CRC32C_SWAP: the bytes of a word in opposite order.
  function Swap32(x: uint32): uint32 {
    Word(x / 0x100_0000, x / 0x1_0000 % 0x100, x / 0x100 % 0x100, x % 0x100)
  }

  lemma SwapTwice(x: uint32)
    ensures Swap32(Swap32(x)) == x
  {
    WordBytes(x);
    BytesOfWord(x / 0x100_0000, x / 0x1_0000 % 0x100, x / 0x100 % 0x100, x % 0x100);
  }

  lemma SwapInjective(x: uint32, y: uint32)
    ensures Swap32(x) == Swap32(y) <==> x == y
  {
    SwapTwice(x);
    SwapTwice(y);
  }

  // crc32_ccitt_table[(crc32 ^ buf[i]) & 0xff] ^ (crc32 >> 8), and CRC32C(crc, *p).
  function TableStep(p: Bits, crc: uint32, b: byte): (r: uint32)
    requires |p| == 32
    ensures r == Lookup(p, 8, crc, b)
  {
    ByteOperations(XorWord(crc, b));
    ByteOperations(crc);
    WordSize();
    LookupDivides(p, 8, crc, b);
    XorWord(Entry(p, 8, XorWord(crc, b) % 0x100), crc / 0x100)
  }

  // The crc variable after the byte loop has run over a message.
  function Loop(p: Bits, crc: uint32, msg: seq<byte>): (r: uint32)
    requires |p| == 32
    ensures r == DigitLoop(p, 8, crc, msg)
  {
    WordSize();
    BytesAreDigits(msg);
    DigitLoopDivides(p, 8, crc, msg);
    DigitLoop(p, 8, crc, msg)
  }

  lemma LoopStep(p: Bits, crc: uint32, msg: seq<byte>, i: nat)
    requires |p| == 32 && i < |msg|
    ensures TableStep(p, Loop(p, crc, msg[..i]), msg[i]) == Loop(p, crc, msg[..i + 1])
  {
    assert msg[..i + 1][..i] == msg[..i];
  }

  lemma LoopConcat(p: Bits, crc: uint32, a: seq<byte>, b: seq<byte>)
    requires |p| == 32
    ensures Loop(p, Loop(p, crc, a), b) == Loop(p, crc, a + b)
  {
    DigitLoopConcat(p, 8, crc, a, b);
  }

  lemma LoopIsDivision(p: Bits, crc: uint32, msg: seq<byte>)
    requires |p| == 32
    ensures ToBits(Loop(p, crc, msg), 32) == Divide(p, ToBits(crc, 32), Stream(msg, 8))
  {
    WordSize();
    BytesAreDigits(msg);
    DigitLoopDivides(p, 8, crc, msg);
  }

  // What crc32_ccitt_seed, crc32_ccitt and calculate_crc32c return.
  function CcittSeed(msg: seq<byte>, seed: uint32): uint32 { Not(Loop(CCITT, seed, msg)) }

  function Ccitt(msg: seq<byte>): uint32 { CcittSeed(msg, MAX_WORD) }

  function Castagnoli(msg: seq<byte>, seed: uint32): uint32 {
    Swapped(CASTAGNOLI, Swap32(seed), msg)
  }

  function Swapped(p: Bits, crc: uint32, msg: seq<byte>): uint32
    requires |p| == 32
  {
    Swap32(Loop(p, crc, msg))
  }

  // uint32_t crc32_ccitt_seed(const uint8_t *buf, uint32_t len, uint32_t seed)
  method Crc32CcittSeed(buf: array<byte>, len: nat, seed: uint32) returns (crc: uint32)
    requires len <= buf.Length
    ensures crc == CcittSeed(buf[..len], seed)
  {
    ghost var msg := buf[..len];
    var crc32 := seed;
    var i := 0;
    while i < len
      invariant 0 <= i <= len
      invariant crc32 == Loop(CCITT, seed, msg[..i])
    {
      LoopStep(CCITT, seed, msg, i);
      crc32 := TableStep(CCITT, crc32, buf[i]);
      i := i + 1;
    }
    assert msg[..len] == msg;
    crc := Not(crc32);
  }

  // uint32_t crc32_ccitt(const uint8_t *buf, uint32_t len)
  method Crc32Ccitt(buf: array<byte>, len: nat) returns (crc: uint32)
    requires len <= buf.Length
    ensures crc == Ccitt(buf[..len])
  {
    crc := Crc32CcittSeed(buf, len, 0xffff_ffff);
  }

  // uint32_t calculate_crc32c(const void *buf, int len, uint32_t crc); a
  // negative length reads nothing.
  method CalculateCrc32c(buf: array<byte>, len: int, seed: uint32) returns (crc: uint32)
    requires len <= buf.Length
    ensures crc == Castagnoli(buf[..if len < 0 then 0 else len], seed)
  {
    ghost var msg := buf[..if len < 0 then 0 else len];
    var start := Swap32(seed);
    crc := start;
    var p := 0;
    while p < len
      invariant 0 <= p <= |msg|
      invariant crc == Loop(CASTAGNOLI, start, msg[..p])
    {
      LoopStep(CASTAGNOLI, start, msg, p);
      crc := TableStep(CASTAGNOLI, crc, buf[p]);
      p := p + 1;
    }
    assert msg[..p] == msg;
    crc := Swap32(crc);
  }

  // The table-driven loops are bit-serial division of the message by the
  // divisor, for every message and every seed.
  lemma CcittIsDivision(msg: seq<byte>, seed: uint32)
    ensures ToBits(Not(CcittSeed(msg, seed)), 32) == Divide(CCITT, ToBits(seed, 32), Stream(msg, 8))
  {
    LoopIsDivision(CCITT, seed, msg);
    NotTwice(Loop(CCITT, seed, msg));
  }

  lemma CastagnoliIsDivision(msg: seq<byte>, seed: uint32)
    ensures ToBits(Swap32(Castagnoli(msg, seed)), 32)
         == Divide(CASTAGNOLI, ToBits(Swap32(seed), 32), Stream(msg, 8))
  {
    LoopIsDivision(CASTAGNOLI, Swap32(seed), msg);
    SwapTwice(Loop(CASTAGNOLI, Swap32(seed), msg));
  }

  // A message may be fed in pieces; the CCITT result is complemented first.
  lemma CcittChains(a: seq<byte>, b: seq<byte>, seed: uint32)
    ensures CcittSeed(b, Not(CcittSeed(a, seed))) == CcittSeed(a + b, seed)
  {
    NotTwice(Loop(CCITT, seed, a));
    LoopConcat(CCITT, seed, a, b);
  }

  lemma CastagnoliChains(a: seq<byte>, b: seq<byte>, seed: uint32)
    ensures Castagnoli(b, Castagnoli(a, seed)) == Castagnoli(a + b, seed)
  {
    SwapTwice(Loop(CASTAGNOLI, Swap32(seed), a));
    LoopConcat(CASTAGNOLI, Swap32(seed), a, b);
  }

  // Equal-length messages that differ, and only inside n bytes from i on.
  ghost predicate DifferWithin(a: seq<byte>, b: seq<byte>, i: nat, n: nat) {
    |a| == |b| && i + n <= |a| && a[..i] == b[..i] && a[i + n..] == b[i + n..] && a != b
  }

  lemma LoopDetects(p: Bits, crc: uint32, a: seq<byte>, b: seq<byte>, i: nat, n: nat)
    requires |p| == 32 && p[31]
    requires n <= 4 && DifferWithin(a, b, i, n)
    ensures Loop(p, crc, a) != Loop(p, crc, b)
  {
    WordSize();
    BytesAreDigits(a);
    BytesAreDigits(b);
    WindowDetected(p, 8, crc, a, b, i, n);
  }

  lemma CcittDetects(a: seq<byte>, b: seq<byte>, i: nat, n: nat, seed: uint32)
    requires n <= 4 && DifferWithin(a, b, i, n)
    ensures CcittSeed(a, seed) != CcittSeed(b, seed)
  {
    ConstantTerms();
    LoopDetects(CCITT, seed, a, b, i, n);
  }

  lemma SwappedLoopDetects(p: Bits, crc: uint32, a: seq<byte>, b: seq<byte>, i: nat, n: nat)
    requires |p| == 32 && p[31]
    requires n <= 4 && DifferWithin(a, b, i, n)
    ensures Swapped(p, crc, a) != Swapped(p, crc, b)
  {
    LoopDetects(p, crc, a, b, i, n);
    SwapInjective(Loop(p, crc, a), Loop(p, crc, b));
  }

  lemma CastagnoliDetects(a: seq<byte>, b: seq<byte>, i: nat, n: nat, seed: uint32)
    requires n <= 4 && DifferWithin(a, b, i, n)
    ensures Castagnoli(a, seed) != Castagnoli(b, seed)
  {
    ConstantTerms();
    SwappedLoopDetects(CASTAGNOLI, Swap32(seed), a, b, i, n);
  }

  function LittleEndian(x: uint32): (r: seq<byte>)
    ensures |r| == 4
  {
    [x % 0x100, x / 0x100 % 0x100, x / 0x1_0000 % 0x100, x / 0x100_0000]
  }

  lemma NextDigit(x: nat, n: nat)
    ensures WordDigits(x, 8, n + 1) == [x % 0x100] + WordDigits(x / 0x100, 8, n)
  {
    ByteOperations(x);
  }

  lemma LittleEndianDigits(x: uint32)
    ensures LittleEndian(x) == WordDigits(x, 8, 4)
  {
    var x1 := x / 0x100;
    var x2 := x1 / 0x100;
    var x3 := x2 / 0x100;
    assert x / 0x1_0000 == x2 && x / 0x100_0000 == x3 && x3 % 0x100 == x3;
    NextDigit(x, 3);
    NextDigit(x1, 2);
    NextDigit(x2, 1);
    NextDigit(x3, 0);
  }

  // Appending a word to a message: the check sees only the sum of the word
  // and the remainder so far.
  lemma LoopAppended(p: Bits, crc: uint32, msg: seq<byte>, v: uint32)
    requires |p| == 32
    ensures ToBits(Loop(p, crc, msg + LittleEndian(v)), 32)
         == Steps(p, Xor(ToBits(Loop(p, crc, msg), 32), ToBits(v, 32)), 32)
  {
    WordSize();
    BytesAreDigits(msg);
    LittleEndianDigits(v);
    WordAppended(p, 8, 4, crc, msg, v);
  }

  lemma LoopAppendedDiffer(p: Bits, crc: uint32, msg: seq<byte>, u: uint32, v: uint32)
    requires |p| == 32 && p[31] && u != v
    ensures Loop(p, crc, msg + LittleEndian(u)) != Loop(p, crc, msg + LittleEndian(v))
  {
    WordSize();
    BytesAreDigits(msg);
    LittleEndianDigits(u);
    LittleEndianDigits(v);
    AppendedWordsDiffer(p, 8, 4, crc, msg, u, v);
  }

  lemma SameBitsSameWord(x: uint32, y: uint32)
    requires ToBits(x, 32) == ToBits(y, 32)
    ensures x == y
  {
    WordSize();
    ToBitsInjective(x, y, 32);
  }

  lemma XorNot(x: uint32, y: uint32)
    ensures Xor(ToBits(x, 32), ToBits(Not(x), 32)) == Xor(ToBits(y, 32), ToBits(Not(y), 32))
  {
    NotBits(x);
    NotBits(y);
    XorOpposites(ToBits(x, 32), ToBits(Not(x), 32), ToBits(y, 32), ToBits(Not(y), 32));
  }

  lemma NotBits(x: uint32)
    ensures forall i :: 0 <= i < 32 ==> ToBits(Not(x), 32)[i] == !ToBits(x, 32)[i]
  {
    WordSize();
    ToBitsNot(x, 32);
  }

  lemma XorOpposites(a: Bits, b: Bits, c: Bits, d: Bits)
    requires |a| == |b| == |c| == |d|
    requires forall i :: 0 <= i < |a| ==> b[i] == !a[i]
    requires forall i :: 0 <= i < |a| ==> d[i] == !c[i]
    ensures Xor(a, b) == Xor(c, d)
  {
  }

  lemma XorSelf(x: uint32, y: uint32)
    ensures Xor(ToBits(x, 32), ToBits(x, 32)) == Xor(ToBits(y, 32), ToBits(y, 32))
  {
  }

  lemma ComplementResidue(p: Bits, crc: uint32, msg: seq<byte>, v: uint32)
    requires |p| == 32 && p[31]
    ensures Loop(p, crc, msg + LittleEndian(v)) == Loop(p, MAX_WORD, [0, 0, 0, 0])
       <==> v == Not(Loop(p, crc, msg))
  {
    var s := Loop(p, crc, msg);
    LoopAppended(p, crc, msg, Not(s));
    LoopAppended(p, MAX_WORD, [], 0);
    XorNot(s, MAX_WORD);
    assert [] + LittleEndian(0) == [0, 0, 0, 0];
    SameBitsSameWord(Loop(p, crc, msg + LittleEndian(Not(s))), Loop(p, MAX_WORD, [0, 0, 0, 0]));
    if v != Not(s) {
      LoopAppendedDiffer(p, crc, msg, v, Not(s));
    }
  }

  // The receiver's test: a message followed by its own check, low byte first,
  // has one fixed check, and followed by any other word it does not.
  const RESIDUE: uint32 := Ccitt([0, 0, 0, 0])

  lemma CcittResidue(msg: seq<byte>, v: uint32)
    ensures Ccitt(msg + LittleEndian(v)) == RESIDUE <==> v == Ccitt(msg)
  {
    ConstantTerms();
    ComplementResidue(CCITT, MAX_WORD, msg, v);
  }

  // Adding the remainder to itself empties the register, and nothing else does.
  lemma LoopEmptied(p: Bits, crc: uint32, msg: seq<byte>, v: uint32)
    requires |p| == 32 && p[31]
    ensures Loop(p, crc, msg + LittleEndian(v)) == 0 <==> v == Loop(p, crc, msg)
  {
    var s := Loop(p, crc, msg);
    LoopAppended(p, crc, msg, s);
    LoopAppended(p, 0, [], 0);
    XorSelf(s, 0);
    assert [] + LittleEndian(0) == [0, 0, 0, 0];
    ZeroesStayZero(p);
    SameBitsSameWord(Loop(p, crc, msg + LittleEndian(s)), 0);
    if v != s {
      LoopAppendedDiffer(p, crc, msg, v, s);
    }
  }

  lemma SwappedResidue(s: uint32, t: uint32, v: uint32)
    requires t == 0 <==> Swap32(v) == s
    ensures Swap32(t) == 0 <==> v == Swap32(s)
  {
    if v == Swap32(s) {
      SwapBack(v, s);
    } else if Swap32(v) == s {
      SwapBack(s, v);
    }
    if Swap32(t) == 0 {
      SwapBack(0, t);
    }
  }

  lemma SwappedLoopEmptied(p: Bits, crc: uint32, msg: seq<byte>, v: uint32)
    requires |p| == 32 && p[31]
    ensures Swapped(p, crc, msg + LittleEndian(Swap32(v))) == 0 <==> v == Swapped(p, crc, msg)
  {
    LoopEmptied(p, crc, msg, Swap32(v));
    SwappedResidue(Loop(p, crc, msg), Loop(p, crc, msg + LittleEndian(Swap32(v))), v);
  }

  // For the Castagnoli check, sent high byte first, the fixed value is zero.
  lemma CastagnoliResidue(msg: seq<byte>, seed: uint32, v: uint32)
    ensures Castagnoli(msg + LittleEndian(Swap32(v)), seed) == 0 <==> v == Castagnoli(msg, seed)
  {
    ConstantTerms();
    SwappedLoopEmptied(CASTAGNOLI, Swap32(seed), msg, v);
  }

  lemma SwapBack(x: uint32, y: uint32)
    requires x == Swap32(y)
    ensures Swap32(x) == y
  {
    SwapTwice(y);
  }

  lemma ZeroesStayZero(p: Bits)
    requires |p| == 32
    ensures Loop(p, 0, [0, 0, 0, 0]) == 0
  {
    var z := Zeros(32);
    LoopAppended(p, 0, [], 0);
    assert [] + LittleEndian(0) == [0, 0, 0, 0];
    ToBitsZero(32);
    assert Xor(z, z) == z;
    StepsShift(p, z, 32);
    assert z[32..] + Zeros(32) == z;
    SameBitsSameWord(Loop(p, 0, [0, 0, 0, 0]), 0);
  }

  // Two message streams that differ only in the 33 bits from bit j on.
  ghost predicate DifferInBurst(a: seq<byte>, b: seq<byte>, j: nat) {
    && |a| == |b| && a != b && j + 33 <= 8 * |a|
    && Stream(a, 8)[..j] == Stream(b, 8)[..j]
    && Stream(a, 8)[j + 33..] == Stream(b, 8)[j + 33..]
  }

  ghost function Flipped(a: seq<byte>, b: seq<byte>, j: nat): Bits
    requires |a| == |b| && j + 33 <= 8 * |a|
  {
    Xor(Stream(a, 8)[j..j + 33], Stream(b, 8)[j..j + 33])
  }

  lemma LoopLongestBurst(p: Bits, crc: uint32, a: seq<byte>, b: seq<byte>, j: nat)
    requires |p| == 32 && p[31] && DifferInBurst(a, b, j)
    ensures Loop(p, crc, a) == Loop(p, crc, b) <==> Flipped(a, b, j) == [true] + p
  {
    WordSize();
    BytesAreDigits(a);
    BytesAreDigits(b);
    if Stream(a, 8) == Stream(b, 8) {
      StreamInjective(a, b, 8);
    }
    BitLongestBurst(p, ToBits(crc, 32), Stream(a, 8), Stream(b, 8), j);
    SameLoopSameRemainder(p, 8, crc, a, b);
  }

  lemma BitLongestBurst(p: Bits, s: Bits, u: Bits, v: Bits, j: nat)
    requires |p| == |s| == 32 && p[31] && |u| == |v| && u != v && j + 33 <= |u|
    requires u[..j] == v[..j] && u[j + 33..] == v[j + 33..]
    ensures Divide(p, s, u) == Divide(p, s, v) <==> Xor(u[j..j + 33], v[j..j + 33]) == [true] + p
  {
    var x, y := u[j..j + 33], v[j..j + 33];
    assert u == u[..j] + x + u[j + 33..] && v == u[..j] + y + u[j + 33..];
    LongestBurst(p, s, u[..j], x, y, u[j + 33..]);
  }

  // Four bytes is the exact limit: of all the error patterns confined to 33
  // bits, only the divisor itself escapes.
  lemma CcittLongestBurst(a: seq<byte>, b: seq<byte>, j: nat, seed: uint32)
    requires DifferInBurst(a, b, j)
    ensures CcittSeed(a, seed) == CcittSeed(b, seed) <==> Flipped(a, b, j) == [true] + CCITT
  {
    ConstantTerms();
    LoopLongestBurst(CCITT, seed, a, b, j);
  }

  lemma CastagnoliLongestBurst(a: seq<byte>, b: seq<byte>, j: nat, seed: uint32)
    requires DifferInBurst(a, b, j)
    ensures Castagnoli(a, seed) == Castagnoli(b, seed) <==> Flipped(a, b, j) == [true] + CASTAGNOLI
  {
    ConstantTerms();
    SwappedLongestBurst(CASTAGNOLI, Swap32(seed), a, b, j);
  }

  lemma SwappedLongestBurst(p: Bits, crc: uint32, a: seq<byte>, b: seq<byte>, j: nat)
    requires |p| == 32 && p[31] && DifferInBurst(a, b, j)
    ensures Swapped(p, crc, a) == Swapped(p, crc, b) <==> Flipped(a, b, j) == [true] + p
  {
    LoopLongestBurst(p, crc, a, b, j);
    SwapInjective(Loop(p, crc, a), Loop(p, crc, b));
  }

  // x + 1 divides the Castagnoli divisor but not the CCITT one.
  lemma Parities()
    ensures Parity(CASTAGNOLI) && !Parity(CCITT)
  {
    var c, c', k, k' := CCITT[..16], CCITT[16..], CASTAGNOLI[..16], CASTAGNOLI[16..];
    Hex4Parity(c, 0x0, 0x4, 0xC, 0x1);
    Hex4Parity(c', 0x1, 0xD, 0xB, 0x7);
    Hex4Parity(k, 0x1, 0xE, 0xD, 0xC);
    Hex4Parity(k', 0x6, 0xF, 0x4, 0x1);
    assert CCITT == c + c' && CASTAGNOLI == k + k';
    ParityConcat(c, c');
    ParityConcat(k, k');
  }

  ghost predicate OddErrors(a: seq<byte>, b: seq<byte>)
    requires |a| == |b|
  {
    Parity(Xor(Stream(a, 8), Stream(b, 8)))
  }

  lemma LoopDetectsOdd(p: Bits, crc: uint32, a: seq<byte>, b: seq<byte>)
    requires |p| == 32 && Parity(p) && |a| == |b| && OddErrors(a, b)
    ensures Loop(p, crc, a) != Loop(p, crc, b)
  {
    OddErrorDetected(p, ToBits(crc, 32), Stream(a, 8), Stream(b, 8));
    LoopIsDivision(p, crc, a);
    LoopIsDivision(p, crc, b);
  }

  // The Castagnoli check detects every error that flips an odd number of
  // bits, however far apart.
  lemma CastagnoliDetectsOdd(a: seq<byte>, b: seq<byte>, seed: uint32)
    requires |a| == |b| && OddErrors(a, b)
    ensures Castagnoli(a, seed) != Castagnoli(b, seed)
  {
    Parities();
    SwappedDetectsOdd(CASTAGNOLI, Swap32(seed), a, b);
  }

  lemma SwappedDetectsOdd(p: Bits, crc: uint32, a: seq<byte>, b: seq<byte>)
    requires |p| == 32 && Parity(p) && |a| == |b| && OddErrors(a, b)
    ensures Swapped(p, crc, a) != Swapped(p, crc, b)
  {
    LoopDetectsOdd(p, crc, a, b);
    SwapInjective(Loop(p, crc, a), Loop(p, crc, b));
  }

  lemma BurstIsOdd(p: Bits, a: seq<byte>, b: seq<byte>, j: nat)
    requires |p| == 32 && !Parity(p) && DifferInBurst(a, b, j) && Flipped(a, b, j) == [true] + p
    ensures OddErrors(a, b)
  {
    BitBurstIsOdd(p, Stream(a, 8), Stream(b, 8), j);
  }

  lemma BitBurstIsOdd(p: Bits, u: Bits, v: Bits, j: nat)
    requires |p| == 32 && !Parity(p) && |u| == |v| && j + 33 <= |u|
    requires u[..j] == v[..j] && u[j + 33..] == v[j + 33..]
    requires Xor(u[j..j + 33], v[j..j + 33]) == [true] + p
    ensures Parity(Xor(u, v))
  {
    var x, y := u[j..j + 33], v[j..j + 33];
    assert u == u[..j] + x + u[j + 33..] && v == u[..j] + y + u[j + 33..];
    assert ([true] + p)[1..] == p;
    BurstParity(u[..j], x, y, u[j + 33..]);
    ParityXor(u, v);
  }

  // The CCITT check does not: the one 33-bit burst it misses is odd.
  lemma CcittMissesOdd(a: seq<byte>, b: seq<byte>, j: nat, seed: uint32)
    requires DifferInBurst(a, b, j) && Flipped(a, b, j) == [true] + CCITT
    ensures CcittSeed(a, seed) == CcittSeed(b, seed) && OddErrors(a, b)
  {
    CcittLongestBurst(a, b, j, seed);
    Parities();
    BurstIsOdd(CCITT, a, b, j);
  }

  lemma BurstParity(pre: Bits, x: Bits, y: Bits, post: Bits)
    requires |x| == |y|
    ensures (Parity(pre + x + post) != Parity(pre + y + post)) == Parity(Xor(x, y))
  {
    ParityConcat(pre + x, post);
    ParityConcat(pre, x);
    ParityConcat(pre + y, post);
    ParityConcat(pre, y);
    ParityXor(x, y);
  }
}
