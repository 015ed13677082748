/**
 The literals of the four tables: entry 128, or 1 where the highest bit comes first,
 is the divisor itself, and its literal in the tables of util_crc32.c and
 util_crc16.c is the one that follows from the divisor.
 */
module TableLiterals {
  import opened Gf2
  import opened Words
  import TableDriven
  import Crc32
  import Crc16

  lemma {:induction false} OneMoreStep(p: Bits, s: Bits, n: nat)
    requires |p| == |s| > 0
    ensures Steps(p, s, n + 1) == Step(p, Steps(p, s, n))
    decreases n
  {
    hide Step;
    if n > 0 {
      OneMoreStep(p, Step(p, s), n - 1);
    }
  }

  // Seven steps move a single bit to the front, the eighth one divides.
  lemma EightSteps(p: Bits, s: Bits)
    requires |p| >= 8 && |s| == |p| && forall i :: 0 <= i < |s| ==> s[i] == (i == 7)
    ensures Steps(p, s, 8) == p
  {
    StepsShift(p, s, 7);
    OneMoreStep(p, s, 7);
    var t := s[7..] + Zeros(7);
    assert forall i :: 0 <= i < |p| ==> Step(p, t)[i] == p[i];
    hide Steps;
  }

  lemma Doubled(x: nat, w: nat)
    ensures ToBits(2 * x, w + 1) == [false] + ToBits(x, w)
  {
  }

  // 128 as the byte is read lowest bit first, and 1 as it is highest bit first.
  lemma SingleBit()
    ensures forall i :: 0 <= i < 8 ==> ToBits(128, 8)[i] == (i == 7)
    ensures forall i :: 0 <= i < 8 ==> Crc16.Msb(1, 8)[i] == (i == 7)
  {
    Doubled(64, 7);
    Doubled(32, 6);
    Doubled(16, 5);
    Doubled(8, 4);
    Doubled(4, 3);
    Doubled(2, 2);
    Doubled(1, 1);
    assert ToBits(1, 1) == [true] + ToBits(0, 0);
    assert ToBits(1, 8) == [true] + ToBits(0, 7);
    ToBitsZero(7);
    hide ToBits;
  }

  lemma Widened(s: Bits, n: nat)
    requires |s| == 8 && forall i :: 0 <= i < 8 ==> s[i] == (i == 7)
    ensures |s + Zeros(n)| == 8 + n && forall i :: 0 <= i < 8 + n ==> (s + Zeros(n))[i] == (i == 7)
  {
  }

  // For every divisor, of any width, the bits of this entry are the divisor.
  lemma DivisorIsEntry(p: Bits)
    requires |p| >= 8
    ensures TableDriven.Entry(p, 8, 128) == FromBits(p)
    ensures Crc16.Msb(Crc16.Entry(p, 8, 1), |p|) == p
  {
    hide *;
    SingleBit();
    Widened(ToBits(128, 8), |p| - 8);
    EightSteps(p, ToBits(128, 8) + Zeros(|p| - 8));
    Widened(Crc16.Msb(1, 8), |p| - 8);
    EightSteps(p, Crc16.Msb(1, 8) + Zeros(|p| - 8));
    FromToBits(TableDriven.Entry(p, 8, 128), |p|);
  }

  lemma FirstBit(b: bool, rest: Bits)
    ensures FromBits([b] + rest) == BitValue(b) + 2 * FromBits(rest)
  {
    assert ([b] + rest)[1..] == rest;
  }

  // The value of a hexadecimal digit whose highest bit counts least.
  function Mirrored(d: nat): nat
    requires d < 16
  {
    BitValue(d / 8 == 1) + 2 * BitValue(d / 4 % 2 == 1) + 4 * BitValue(d / 2 % 2 == 1) + 8 * BitValue(d % 2 == 1)
  }

  lemma HexValue(d: nat, rest: Bits)
    requires d < 16
    ensures FromBits(Hex(d) + rest) == Mirrored(d) + 16 * FromBits(rest)
  {
    var b0, b1, b2, b3 := d / 8 == 1, d / 4 % 2 == 1, d / 2 % 2 == 1, d % 2 == 1;
    FirstBit(b3, rest);
    FirstBit(b2, [b3] + rest);
    FirstBit(b1, [b2] + ([b3] + rest));
    FirstBit(b0, [b1] + ([b2] + ([b3] + rest)));
    assert Hex(d) + rest == [b0] + ([b1] + ([b2] + ([b3] + rest)));
    hide FromBits;
  }

  lemma Digits(a: nat, b: nat, c: nat, d: nat, rest: Bits)
    requires a < 16 && b < 16 && c < 16 && d < 16
    ensures Hex4(a, b, c, d) + rest == Hex(a) + (Hex(b) + (Hex(c) + (Hex(d) + rest)))
  {
    hide Hex;
  }

  lemma Hex4Value(a: nat, b: nat, c: nat, d: nat, rest: Bits)
    requires a < 16 && b < 16 && c < 16 && d < 16
    ensures FromBits(Hex4(a, b, c, d) + rest)
      == Mirrored(a) + 0x10 * Mirrored(b) + 0x100 * Mirrored(c) + 0x1000 * Mirrored(d) + 0x1_0000 * FromBits(rest)
  {
    hide *;
    Digits(a, b, c, d, rest);
    HexValue(d, rest);
    HexValue(c, Hex(d) + rest);
    HexValue(b, Hex(c) + (Hex(d) + rest));
    HexValue(a, Hex(b) + (Hex(c) + (Hex(d) + rest)));
  }

  lemma Alone(b: Bits)
    ensures b + [] == b && FromBits([]) == 0
  {
  }

  lemma WordValue(a: nat, b: nat, c: nat, d: nat, e: nat, f: nat, g: nat, h: nat)
    requires a < 16 && b < 16 && c < 16 && d < 16 && e < 16 && f < 16 && g < 16 && h < 16
    ensures FromBits(Hex4(a, b, c, d) + Hex4(e, f, g, h))
      == Mirrored(a) + 0x10 * Mirrored(b) + 0x100 * Mirrored(c) + 0x1000 * Mirrored(d)
      + 0x1_0000 * (Mirrored(e) + 0x10 * Mirrored(f) + 0x100 * Mirrored(g) + 0x1000 * Mirrored(h))
  {
    hide *;
    Hex4Value(e, f, g, h, []);
    Alone(Hex4(e, f, g, h));
    Hex4Value(a, b, c, d, Hex4(e, f, g, h));
  }

  lemma Mirrors()
    ensures Mirrored(0x0) == 0x0 && Mirrored(0x1) == 0x8 && Mirrored(0x2) == 0x4 && Mirrored(0x4) == 0x2
    ensures Mirrored(0x6) == 0x6 && Mirrored(0x7) == 0xE && Mirrored(0xB) == 0xD && Mirrored(0xC) == 0x3
    ensures Mirrored(0xD) == 0xB && Mirrored(0xE) == 0x7 && Mirrored(0xF) == 0xF
  {
  }

  lemma CcittNumber()
    ensures FromBits(Hex4(0x0, 0x4, 0xC, 0x1) + Hex4(0x1, 0xD, 0xB, 0x7)) == 0xEDB8_8320
  {
    hide *;
    Mirrors();
    WordValue(0x0, 0x4, 0xC, 0x1, 0x1, 0xD, 0xB, 0x7);
  }

  lemma CastagnoliNumber()
    ensures FromBits(Hex4(0x1, 0xE, 0xD, 0xC) + Hex4(0x6, 0xF, 0x4, 0x1)) == 0x82F6_3B78
  {
    hide *;
    Mirrors();
    WordValue(0x1, 0xE, 0xD, 0xC, 0x6, 0xF, 0x4, 0x1);
  }

  lemma ReverseNumber()
    ensures FromBits(Hex4(0x1, 0x0, 0x2, 0x1)) == 0x8408
  {
    hide *;
    Mirrors();
    Hex4Value(0x1, 0x0, 0x2, 0x1, []);
    Alone(Hex4(0x1, 0x0, 0x2, 0x1));
  }

  lemma Divisors()
    ensures Crc32.CCITT == Hex4(0x0, 0x4, 0xC, 0x1) + Hex4(0x1, 0xD, 0xB, 0x7)
    ensures Crc32.CASTAGNOLI == Hex4(0x1, 0xE, 0xD, 0xC) + Hex4(0x6, 0xF, 0x4, 0x1)
    ensures Crc16.CCITT == Hex4(0x1, 0x0, 0x2, 0x1)
    ensures |Crc32.CCITT| == |Crc32.CASTAGNOLI| == 32 && |Crc16.CCITT| == 16
  {
    hide Hex4;
  }

  lemma ReverseIs()
    ensures |Crc16.CCITT| == 16 && Crc16.ReverseTable(128) == TableDriven.Entry(Crc16.CCITT, 8, 128)
  {
    hide Hex4, TableDriven.Entry;
  }

  // The literals at 128 in the tables of the two 32-bit checks, and in the reverse
  // table of the 16-bit ones.
  lemma TopEntries()
    ensures |Crc32.CCITT| == |Crc32.CASTAGNOLI| == 32
    ensures TableDriven.Entry(Crc32.CCITT, 8, 128) == 0xEDB8_8320
    ensures TableDriven.Entry(Crc32.CASTAGNOLI, 8, 128) == 0x82F6_3B78
    ensures Crc16.ReverseTable(128) == 0x8408
  {
    hide *;
    Divisors();
    DivisorIsEntry(Crc32.CCITT);
    CcittNumber();
    DivisorIsEntry(Crc32.CASTAGNOLI);
    CastagnoliNumber();
    ReverseIs();
    DivisorIsEntry(Crc16.CCITT);
    ReverseNumber();
  }
}
