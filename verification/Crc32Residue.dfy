/**
 The residue of the CCITT check as a number: the 32 steps that an all-ones
 register takes are followed on its hexadecimal digits.
 */
module Crc32Residue {
  import opened Bytes
  import opened Gf2
  import opened Words
  import opened TableDriven
  import opened Crc32

  // A hexadecimal digit, least significant bit first, and a register of them,
  // least significant digit first: the bit that leaves next is the first one.
  datatype Digit = Digit(b0: bool, b1: bool, b2: bool, b3: bool)

  datatype Register = End | Cell(digit: Digit, rest: Register)

  function DigitBits(d: Digit): (b: Bits)
    ensures |b| == 4
  {
    [d.b0, d.b1, d.b2, d.b3]
  }

  function RegisterBits(r: Register): Bits {
    if r.End? then [] else DigitBits(r.digit) + RegisterBits(r.rest)
  }

  function FirstBit(r: Register): bool { r.Cell? && r.digit.b0 }

  function Shift(r: Register): Register {
    if r.End? then End else Cell(Digit(r.digit.b1, r.digit.b2, r.digit.b3, FirstBit(r.rest)), Shift(r.rest))
  }

  predicate SameSize(r: Register, p: Register) {
    if r.End? then p.End? else p.Cell? && SameSize(r.rest, p.rest)
  }

  function XorDigit(d: Digit, e: Digit): Digit {
    Digit(d.b0 != e.b0, d.b1 != e.b1, d.b2 != e.b2, d.b3 != e.b3)
  }

  function Combine(r: Register, p: Register): Register
    requires SameSize(r, p)
  {
    if r.End? then End else Cell(XorDigit(r.digit, p.digit), Combine(r.rest, p.rest))
  }

  lemma {:induction false} SizeBits(r: Register, p: Register)
    requires SameSize(r, p)
    ensures |RegisterBits(r)| == |RegisterBits(p)| && SameSize(Shift(r), p)
  {
    if r.Cell? {
      SizeBits(r.rest, p.rest);
    }
  }

  lemma ShiftFirst(d: Digit, b: Bits, carry: bool)
    ensures (DigitBits(d) + ([carry] + b))[1..] + [false] == DigitBits(Digit(d.b1, d.b2, d.b3, carry)) + (b + [false])
    ensures DigitBits(d)[1..] + [false] == DigitBits(Digit(d.b1, d.b2, d.b3, false))
  {
  }

  lemma {:induction false} ShiftBits(r: Register)
    requires r.Cell?
    ensures RegisterBits(r)[1..] + [false] == RegisterBits(Shift(r))
  {
    var d, b := r.digit, RegisterBits(r.rest);
    if r.rest.End? {
      ShiftFirst(d, [], false);
    } else {
      ShiftBits(r.rest);
      ShiftFirst(d, b[1..], b[0]);
      assert b == [b[0]] + b[1..];
    }
  }

  lemma XorParts(a: Bits, b: Bits, c: Bits, d: Bits)
    requires |a| == |c| && |b| == |d|
    ensures Xor(a + b, c + d) == Xor(a, c) + Xor(b, d)
  {
  }

  lemma {:induction false} CombineBits(r: Register, p: Register)
    requires SameSize(r, p)
    ensures |RegisterBits(r)| == |RegisterBits(p)|
    ensures RegisterBits(Combine(r, p)) == Xor(RegisterBits(r), RegisterBits(p))
  {
    if r.Cell? {
      CombineBits(r.rest, p.rest);
      assert DigitBits(XorDigit(r.digit, p.digit)) == Xor(DigitBits(r.digit), DigitBits(p.digit));
      XorParts(DigitBits(r.digit), RegisterBits(r.rest), DigitBits(p.digit), RegisterBits(p.rest));
      hide XorDigit, DigitBits;
    }
  }

  // One division step.
  function Turn(p: Register, r: Register): Register
    requires SameSize(r, p)
  {
    SizeBits(r, p);
    if FirstBit(r) then Combine(Shift(r), p) else Shift(r)
  }

  lemma {:induction false} TurnSize(p: Register, r: Register)
    requires SameSize(r, p)
    ensures SameSize(Combine(r, p), p)
  {
    if r.Cell? {
      TurnSize(p.rest, r.rest);
    }
  }

  lemma TurnIsStep(p: Register, r: Register)
    requires SameSize(r, p) && r.Cell?
    ensures SameSize(Turn(p, r), p) && Turn(p, r).Cell?
    ensures |RegisterBits(p)| == |RegisterBits(r)| > 0
    ensures RegisterBits(Turn(p, r)) == Step(RegisterBits(p), RegisterBits(r))
  {
    SizeBits(r, p);
    ShiftBits(r);
    CombineBits(Shift(r), p);
    TurnSize(p, Shift(r));
  }

  // Eight digits, most significant first.
  function Word8(a: Digit, b: Digit, c: Digit, d: Digit, e: Digit, f: Digit, g: Digit, h: Digit): Register {
    Cell(h, Cell(g, Cell(f, Cell(e, Cell(d, Cell(c, Cell(b, Cell(a, End))))))))
  }

  // The sixteen digits.
  const X0 := Digit(false, false, false, false)
  const X1 := Digit(true, false, false, false)
  const X2 := Digit(false, true, false, false)
  const X3 := Digit(true, true, false, false)
  const X4 := Digit(false, false, true, false)
  const X5 := Digit(true, false, true, false)
  const X6 := Digit(false, true, true, false)
  const X7 := Digit(true, true, true, false)
  const X8 := Digit(false, false, false, true)
  const X9 := Digit(true, false, false, true)
  const XA := Digit(false, true, false, true)
  const XB := Digit(true, true, false, true)
  const XC := Digit(false, false, true, true)
  const XD := Digit(true, false, true, true)
  const XE := Digit(false, true, true, true)
  const XF := Digit(true, true, true, true)

  // The reflected divisor.
  const REFLECTED := Word8(XE, XD, XB, X8, X8, X3, X2, X0)

  // A shifted digit takes in the first bit of the next one.
  function Half(d: Digit, carry: bool): Digit { Digit(d.b1, d.b2, d.b3, carry) }

  function Shifted(a: Digit, b: Digit, c: Digit, d: Digit, e: Digit, f: Digit, g: Digit, h: Digit): Register {
    Word8(Half(a, false), Half(b, a.b0), Half(c, b.b0), Half(d, c.b0),
          Half(e, d.b0), Half(f, e.b0), Half(g, f.b0), Half(h, g.b0))
  }

  function Reduced(a: Digit, b: Digit, c: Digit, d: Digit, e: Digit, f: Digit, g: Digit, h: Digit): Register {
    Word8(XorDigit(Half(a, false), XE), XorDigit(Half(b, a.b0), XD), XorDigit(Half(c, b.b0), XB),
          XorDigit(Half(d, c.b0), X8), XorDigit(Half(e, d.b0), X8), XorDigit(Half(f, e.b0), X3),
          XorDigit(Half(g, f.b0), X2), XorDigit(Half(h, g.b0), X0))
  }

  lemma ShiftCell(d: Digit, e: Digit, r: Register, t: Register)
    requires Shift(Cell(e, r)) == t
    ensures Shift(Cell(d, Cell(e, r))) == Cell(Half(d, e.b0), t)
  {
  }

  lemma ShiftLast(d: Digit)
    ensures Shift(Cell(d, End)) == Cell(Half(d, false), End)
  {
  }

  lemma Shift8(a: Digit, b: Digit, c: Digit, d: Digit, e: Digit, f: Digit, g: Digit, h: Digit)
    ensures Shift(Word8(a, b, c, d, e, f, g, h)) == Shifted(a, b, c, d, e, f, g, h)
  {
    hide Shift, Half, FirstBit;
    ShiftLast(a);
    var r1, t1 := Cell(a, End), Cell(Half(a, false), End);
    ShiftCell(b, a, End, t1);
    var r2, t2 := Cell(b, r1), Cell(Half(b, a.b0), t1);
    ShiftCell(c, b, r1, t2);
    var r3, t3 := Cell(c, r2), Cell(Half(c, b.b0), t2);
    ShiftCell(d, c, r2, t3);
    var r4, t4 := Cell(d, r3), Cell(Half(d, c.b0), t3);
    ShiftCell(e, d, r3, t4);
    var r5, t5 := Cell(e, r4), Cell(Half(e, d.b0), t4);
    ShiftCell(f, e, r4, t5);
    var r6, t6 := Cell(f, r5), Cell(Half(f, e.b0), t5);
    ShiftCell(g, f, r5, t6);
    var t7 := Cell(Half(g, f.b0), t6);
    ShiftCell(h, g, r6, t7);
  }

  lemma CombineCell(d: Digit, r: Register, e: Digit, p: Register, t: Register)
    requires SameSize(r, p) && Combine(r, p) == t
    ensures SameSize(Cell(d, r), Cell(e, p)) && Combine(Cell(d, r), Cell(e, p)) == Cell(XorDigit(d, e), t)
  {
  }

  lemma Combine8(a: Digit, b: Digit, c: Digit, d: Digit, e: Digit, f: Digit, g: Digit, h: Digit)
    ensures SameSize(Word8(a, b, c, d, e, f, g, h), REFLECTED)
    ensures Combine(Word8(a, b, c, d, e, f, g, h), REFLECTED)
         == Word8(XorDigit(a, XE), XorDigit(b, XD), XorDigit(c, XB), XorDigit(d, X8),
                  XorDigit(e, X8), XorDigit(f, X3), XorDigit(g, X2), XorDigit(h, X0))
  {
    assert SameSize(End, End) && Combine(End, End) == End;
    hide SameSize, Combine, XorDigit;
    var r1, p1, t1 := Cell(a, End), Cell(XE, End), Cell(XorDigit(a, XE), End);
    CombineCell(a, End, XE, End, End);
    var r2, p2, t2 := Cell(b, r1), Cell(XD, p1), Cell(XorDigit(b, XD), t1);
    CombineCell(b, r1, XD, p1, t1);
    var r3, p3, t3 := Cell(c, r2), Cell(XB, p2), Cell(XorDigit(c, XB), t2);
    CombineCell(c, r2, XB, p2, t2);
    var r4, p4, t4 := Cell(d, r3), Cell(X8, p3), Cell(XorDigit(d, X8), t3);
    CombineCell(d, r3, X8, p3, t3);
    var r5, p5, t5 := Cell(e, r4), Cell(X8, p4), Cell(XorDigit(e, X8), t4);
    CombineCell(e, r4, X8, p4, t4);
    var r6, p6, t6 := Cell(f, r5), Cell(X3, p5), Cell(XorDigit(f, X3), t5);
    CombineCell(f, r5, X3, p5, t5);
    var r7, p7, t7 := Cell(g, r6), Cell(X2, p6), Cell(XorDigit(g, X2), t6);
    CombineCell(g, r6, X2, p6, t6);
    CombineCell(h, r7, X0, p7, t7);
  }

  // What n more steps leave.
  function Result(r: Register, n: nat): Bits {
    var p, s := RegisterBits(REFLECTED), RegisterBits(r);
    if |p| == |s| > 0 then Steps(p, s, n) else []
  }

  // One turn of eight digits.
  lemma TurnedOnce(a: Digit, b: Digit, c: Digit, d: Digit, e: Digit, f: Digit, g: Digit, h: Digit, t: Register, n: nat)
    requires t == if h.b0 then Reduced(a, b, c, d, e, f, g, h) else Shifted(a, b, c, d, e, f, g, h)
    ensures Result(Word8(a, b, c, d, e, f, g, h), n + 1) == Result(t, n)
  {
    var r := Word8(a, b, c, d, e, f, g, h);
    hide RegisterBits, Step, SameSize, Combine, Shift, XorDigit, Half;
    Combine8(a, b, c, d, e, f, g, h);
    Combine8(Half(a, false), Half(b, a.b0), Half(c, b.b0), Half(d, c.b0),
             Half(e, d.b0), Half(f, e.b0), Half(g, f.b0), Half(h, g.b0));
    Shift8(a, b, c, d, e, f, g, h);
    TurnIsStep(REFLECTED, r);
  }

  lemma Turns0(n: nat)
    ensures Result(Word8(XF, XF, XF, XF, XF, XF, XF, XF), n + 4) == Result(Word8(XB, X2, X4, X2, X0, XD, XE, X3), n)
  {
    hide Result;
    TurnedOnce(XF, XF, XF, XF, XF, XF, XF, XF, Word8(X9, X2, X4, X7, X7, XC, XD, XF), n + 3);
    TurnedOnce(X9, X2, X4, X7, X7, XC, XD, XF, Word8(XA, X4, X9, XB, X3, XD, X4, XF), n + 2);
    TurnedOnce(XA, X4, X9, XB, X3, XD, X4, XF, Word8(XB, XF, XF, X5, X1, XD, X8, X7), n + 1);
    TurnedOnce(XB, XF, XF, X5, X1, XD, X8, X7, Word8(XB, X2, X4, X2, X0, XD, XE, X3), n);
  }

  lemma Turns1(n: nat)
    ensures Result(Word8(XB, X2, X4, X2, X0, XD, XE, X3), n + 4) == Result(Word8(X2, XD, XF, XD, X1, X0, X7, X2), n)
  {
    hide Result;
    TurnedOnce(XB, X2, X4, X2, X0, XD, XE, X3, Word8(XB, X4, X9, X9, X8, X5, XD, X1), n + 3);
    TurnedOnce(XB, X4, X9, X9, X8, X5, XD, X1, Word8(XB, X7, XF, X4, X4, X1, XC, X8), n + 2);
    TurnedOnce(XB, X7, XF, X4, X4, X1, XC, X8, Word8(X5, XB, XF, XA, X2, X0, XE, X4), n + 1);
    TurnedOnce(X5, XB, XF, XA, X2, X0, XE, X4, Word8(X2, XD, XF, XD, X1, X0, X7, X2), n);
  }

  lemma Turns2(n: nat)
    ensures Result(Word8(X2, XD, XF, XD, X1, X0, X7, X2), n + 4) == Result(Word8(X3, X9, XB, X1, XF, X1, XC, XF), n)
  {
    hide Result;
    TurnedOnce(X2, XD, XF, XD, X1, X0, X7, X2, Word8(X1, X6, XF, XE, X8, X8, X3, X9), n + 3);
    TurnedOnce(X1, X6, XF, XE, X8, X8, X3, X9, Word8(XE, X6, XC, X7, XC, X7, X3, XC), n + 2);
    TurnedOnce(XE, X6, XC, X7, XC, X7, X3, XC, Word8(X7, X3, X6, X3, XE, X3, X9, XE), n + 1);
    TurnedOnce(X7, X3, X6, X3, XE, X3, X9, XE, Word8(X3, X9, XB, X1, XF, X1, XC, XF), n);
  }

  lemma Turns3(n: nat)
    ensures Result(Word8(X3, X9, XB, X1, XF, X1, XC, XF), n + 4) == Result(Word8(XB, XE, X2, X6, XE, XD, X0, X0), n)
  {
    hide Result;
    TurnedOnce(X3, X9, XB, X1, XF, X1, XC, XF, Word8(XF, X1, X6, X0, X7, XB, XC, X7), n + 3);
    TurnedOnce(XF, X1, X6, X0, X7, XB, XC, X7, Word8(X9, X5, X0, X8, XB, XE, XC, X3), n + 2);
    TurnedOnce(X9, X5, X0, X8, XB, XE, XC, X3, Word8(XA, X7, X3, XC, XD, XC, X4, X1), n + 1);
    TurnedOnce(XA, X7, X3, XC, XD, XC, X4, X1, Word8(XB, XE, X2, X6, XE, XD, X0, X0), n);
  }

  lemma Turns4(n: nat)
    ensures Result(Word8(XB, XE, X2, X6, XE, XD, X0, X0), n + 4) == Result(Word8(X0, XB, XE, X2, X6, XE, XD, X0), n)
  {
    hide Result;
    TurnedOnce(XB, XE, X2, X6, XE, XD, X0, X0, Word8(X5, XF, X1, X3, X7, X6, X8, X0), n + 3);
    TurnedOnce(X5, XF, X1, X3, X7, X6, X8, X0, Word8(X2, XF, X8, X9, XB, XB, X4, X0), n + 2);
    TurnedOnce(X2, XF, X8, X9, XB, XB, X4, X0, Word8(X1, X7, XC, X4, XD, XD, XA, X0), n + 1);
    TurnedOnce(X1, X7, XC, X4, XD, XD, XA, X0, Word8(X0, XB, XE, X2, X6, XE, XD, X0), n);
  }

  lemma Turns5(n: nat)
    ensures Result(Word8(X0, XB, XE, X2, X6, XE, XD, X0), n + 4) == Result(Word8(X0, X0, XB, XE, X2, X6, XE, XD), n)
  {
    hide Result;
    TurnedOnce(X0, XB, XE, X2, X6, XE, XD, X0, Word8(X0, X5, XF, X1, X3, X7, X6, X8), n + 3);
    TurnedOnce(X0, X5, XF, X1, X3, X7, X6, X8, Word8(X0, X2, XF, X8, X9, XB, XB, X4), n + 2);
    TurnedOnce(X0, X2, XF, X8, X9, XB, XB, X4, Word8(X0, X1, X7, XC, X4, XD, XD, XA), n + 1);
    TurnedOnce(X0, X1, X7, XC, X4, XD, XD, XA, Word8(X0, X0, XB, XE, X2, X6, XE, XD), n);
  }

  lemma Turns6(n: nat)
    ensures Result(Word8(X0, X0, XB, XE, X2, X6, XE, XD), n + 4) == Result(Word8(X8, X6, XD, X8, X3, X0, XB, XA), n)
  {
    hide Result;
    TurnedOnce(X0, X0, XB, XE, X2, X6, XE, XD, Word8(XE, XD, XE, X7, X9, X0, X5, X6), n + 3);
    TurnedOnce(XE, XD, XE, X7, X9, X0, X5, X6, Word8(X7, X6, XF, X3, XC, X8, X2, XB), n + 2);
    TurnedOnce(X7, X6, XF, X3, XC, X8, X2, XB, Word8(XD, X6, XC, X1, X6, X7, X3, X5), n + 1);
    TurnedOnce(XD, X6, XC, X1, X6, X7, X3, X5, Word8(X8, X6, XD, X8, X3, X0, XB, XA), n);
  }

  lemma Turns7(n: nat)
    ensures Result(Word8(X8, X6, XD, X8, X3, X0, XB, XA), n + 4) == Result(Word8(XD, XE, XB, XB, X2, X0, XE, X3), n)
  {
    hide Result;
    TurnedOnce(X8, X6, XD, X8, X3, X0, XB, XA, Word8(X4, X3, X6, XC, X1, X8, X5, XD), n + 3);
    TurnedOnce(X4, X3, X6, XC, X1, X8, X5, XD, Word8(XC, XC, X0, XE, X8, XF, X0, XE), n + 2);
    TurnedOnce(XC, XC, X0, XE, X8, XF, X0, XE, Word8(X6, X6, X0, X7, X4, X7, X8, X7), n + 1);
    TurnedOnce(X6, X6, X0, X7, X4, X7, X8, X7, Word8(XD, XE, XB, XB, X2, X0, XE, X3), n);
  }

  // The register before and after.
  const FULL := Word8(XF, XF, XF, XF, XF, XF, XF, XF)
  const LEFT := Word8(XD, XE, XB, XB, X2, X0, XE, X3)

  lemma AllTurns()
    ensures Result(FULL, 32) == Result(LEFT, 0)
  {
    hide Result;
    Turns0(28);
    Turns1(24);
    Turns2(20);
    Turns3(16);
    Turns4(12);
    Turns5(8);
    Turns6(4);
    Turns7(0);
  }

  lemma StepsFromFull()
    ensures |CCITT| == |RegisterBits(FULL)| == 32
    ensures Steps(CCITT, RegisterBits(FULL), 32) == RegisterBits(LEFT)
  {
    ReflectedDivisor();
    Flatten(XE, XD, XB, X8, X8, X3, X2, X0);
    Flatten(XF, XF, XF, XF, XF, XF, XF, XF);
    Flatten(XD, XE, XB, XB, X2, X0, XE, X3);
    hide RegisterBits, DigitBits;
    AllTurns();
    NoSteps(RegisterBits(REFLECTED), RegisterBits(LEFT));
    hide Steps;
  }

  lemma NoSteps(p: Bits, s: Bits)
    requires |p| == |s| > 0
    ensures Steps(p, s, 0) == s
  {
  }

  // ---------------------------------------------------------- back to numbers

  function DigitValue(d: Digit): nat { BitValue(d.b0) + 2 * BitValue(d.b1) + 4 * BitValue(d.b2) + 8 * BitValue(d.b3) }

  function Value(r: Register): nat {
    if r.End? then 0 else DigitValue(r.digit) + 16 * Value(r.rest)
  }

  lemma FromOne(b: bool, rest: Bits)
    ensures FromBits([b] + rest) == BitValue(b) + 2 * FromBits(rest)
  {
    assert ([b] + rest)[1..] == rest;
  }

  lemma FromDigit(d: Digit, rest: Bits)
    ensures FromBits(DigitBits(d) + rest) == DigitValue(d) + 16 * FromBits(rest)
  {
    hide FromBits, BitValue;
    var r3 := [d.b3] + rest;
    var r2 := [d.b2] + r3;
    var r1 := [d.b1] + r2;
    assert DigitBits(d) + rest == [d.b0] + r1;
    hide DigitBits;
    FromOne(d.b3, rest);
    FromOne(d.b2, r3);
    FromOne(d.b1, r2);
    FromOne(d.b0, r1);
  }

  lemma {:induction false} ValueBits(r: Register)
    ensures FromBits(RegisterBits(r)) == Value(r)
  {
    hide FromBits, DigitBits, DigitValue;
    if r.Cell? {
      ValueBits(r.rest);
      FromDigit(r.digit, RegisterBits(r.rest));
    } else {
      FromNothing();
    }
  }

  lemma FromNothing()
    ensures FromBits([]) == 0
  {
  }

  lemma Flatten(a: Digit, b: Digit, c: Digit, d: Digit, e: Digit, f: Digit, g: Digit, h: Digit)
    ensures RegisterBits(Word8(a, b, c, d, e, f, g, h))
         == ((DigitBits(h) + DigitBits(g)) + (DigitBits(f) + DigitBits(e)))
          + ((DigitBits(d) + DigitBits(c)) + (DigitBits(b) + DigitBits(a)))
  {
    assert RegisterBits(End) == [];
    hide DigitBits, RegisterBits;
    CellBits(a, End);
    CellBits(b, Cell(a, End));
    CellBits(c, Cell(b, Cell(a, End)));
    CellBits(d, Cell(c, Cell(b, Cell(a, End))));
    CellBits(e, Cell(d, Cell(c, Cell(b, Cell(a, End)))));
    CellBits(f, Cell(e, Cell(d, Cell(c, Cell(b, Cell(a, End))))));
    CellBits(g, Cell(f, Cell(e, Cell(d, Cell(c, Cell(b, Cell(a, End)))))));
    CellBits(h, Cell(g, Cell(f, Cell(e, Cell(d, Cell(c, Cell(b, Cell(a, End))))))));
  }

  lemma CellBits(d: Digit, r: Register)
    ensures RegisterBits(Cell(d, r)) == DigitBits(d) + RegisterBits(r)
  {
  }

  // The divisor of the check, with its digits and their bits in opposite order.
  lemma ReflectedDivisor()
    ensures CCITT == RegisterBits(REFLECTED)
  {
    assert Hex(0x0) == DigitBits(X0) && Hex(0x4) == DigitBits(X2) && Hex(0xC) == DigitBits(X3);
    assert Hex(0x1) == DigitBits(X8) && Hex(0xD) == DigitBits(XB) && Hex(0xB) == DigitBits(XD);
    assert Hex(0x7) == DigitBits(XE);
    Flatten(XE, XD, XB, X8, X8, X3, X2, X0);
    hide Hex, DigitBits, RegisterBits;
  }

  lemma Ones()
    ensures ToBits(MAX_WORD, 32) == RegisterBits(FULL)
  {
    hide ToBits;
    NotBits(0);
    ToBitsZero(32);
    assert Not(0) == MAX_WORD;
    assert forall i :: 0 <= i < 32 ==> ToBits(Not(0), 32)[i];
    Flatten(XF, XF, XF, XF, XF, XF, XF, XF);
    FullDigits();
    hide RegisterBits;
    SameBits(ToBits(MAX_WORD, 32), RegisterBits(FULL));
  }

  lemma FullDigits()
    ensures var d := DigitBits(XF); var w := ((d + d) + (d + d)) + ((d + d) + (d + d));
      |w| == 32 && forall i :: 0 <= i < 32 ==> w[i]
  {
  }

  lemma SameBits(a: Bits, b: Bits)
    requires |a| == |b| && (forall i :: 0 <= i < |a| ==> a[i]) && (forall i :: 0 <= i < |b| ==> b[i])
    ensures a == b
  {
  }

  lemma {:induction false} NoContent(n: nat)
    ensures Stream(seq(n, _ => 0), 8) == Zeros(8 * n)
  {
    hide ToBits;
    if n > 0 {
      NoContent(n - 1);
      ToBitsZero(8);
      StreamSnoc(seq(n - 1, _ => 0), 0, 8);
      hide Stream;
      assert seq(n - 1, _ => 0) + [0] == seq(n, _ => 0);
      assert Zeros(8 * (n - 1)) + Zeros(8) == Zeros(8 * n);
    }
  }

  lemma NoMessage()
    ensures Stream([0, 0, 0, 0], 8) == Zeros(32)
  {
    hide Stream;
    NoContent(4);
    assert seq(4, _ => 0) == [0, 0, 0, 0];
  }

  lemma DividingNothing(p: Bits, s: Bits)
    requires |p| == |s| == 32
    ensures Divide(p, s, Zeros(32)) == Steps(p, s, 32)
  {
    hide Divide, Steps;
    DivideIsSteps(p, s, Zeros(32));
    assert Xor(s, Zeros(32) + Zeros(0)) == s;
  }

  lemma LeftValue()
    ensures Value(LEFT) == 0xDEBB_20E3
  {
  }

  lemma LeftOver()
    ensures Not(RESIDUE) == 0xDEBB_20E3
  {
    var full: uint32 := MAX_WORD;
    hide *;
    CcittIsDivision([0, 0, 0, 0], full);
    NoMessage();
    Ones();
    StepsFromFull();
    DividingNothing(CCITT, ToBits(MAX_WORD, 32));
    ValueBits(LEFT);
    LeftValue();
    ResidueFromBits(LEFT);
  }

  // The published residue.
  lemma ResidueIs()
    ensures RESIDUE == 0x2144_DF1C
  {
    LeftOver();
    hide CcittSeed, Ccitt;
  }

  lemma ResidueFromBits(r: Register)
    requires ToBits(Not(CcittSeed([0, 0, 0, 0], MAX_WORD)), 32) == RegisterBits(r)
    ensures Not(RESIDUE) == FromBits(RegisterBits(r)) && RESIDUE == MAX_WORD - Not(RESIDUE)
  {
    hide ToBits, FromBits, RegisterBits, CcittSeed;
    WordSize();
    FromToBits(Not(RESIDUE), 32);
  }
}
