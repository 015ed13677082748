/**
 On which messages crc16_ccitt and crc16_ccitt_seed of util_crc16.c compute the
 check that util_crc16.h documents for them.
 */
module Crc16Agreement {
  import opened Bytes
  import opened Gf2
  import opened Words
  import opened Crc16
  import TableDriven

  // The table entry of eight index bits.
  function EntryBits(x: Bits): (r: Bits)
    requires |x| == 8
    ensures |r| == 16
  {
    Steps(CCITT, x + Zeros(8), 8)
  }

  lemma EntryLinear(x: Bits, y: Bits)
    requires |x| == |y| == 8
    ensures EntryBits(Xor(x, y)) == Xor(EntryBits(x), EntryBits(y))
  {
    hide Steps;
    assert Xor(x + Zeros(8), y + Zeros(8)) == Xor(x, y) + Zeros(8);
    StepsLinear(CCITT, x + Zeros(8), y + Zeros(8), 8);
  }

  // --------------------------------------------------- one step of either form

  lemma HighByteBits(x: uint16)
    ensures ToBits(x / 0x100, 8) == ToBits(x, 16)[8..]
  {
    hide ToBits, LowBits, ShiftRight;
    ByteOperations(x);
    ToBitsSplit(x, 8, 8);
  }

  lemma MovedUpBits(x: uint16)
    ensures ToBits(x * 0x100 % 0x1_0000, 16) == Zeros(8) + ToBits(x, 16)[..8]
  {
    hide ToBits, LowBits, ShiftLeft;
    LeftEight(x);
    LowSixteen(0x100 * x);
    ToBitsTruncate(ShiftLeft(x, 8), 16, 16);
    ToBitsLeft(x, 8, 16);
    ToBitsTake(x, 8, 16);
  }

  // The unreflected loop looks the high byte up and moves the low byte up.
  lemma CodeStep(f: uint16, b: byte)
    ensures ToBits(Step16(ReverseTable, f, b), 16)
      == Xor(EntryBits(Xor(ToBits(f, 16)[8..], ToBits(b, 8))), Zeros(8) + ToBits(f, 16)[..8])
  {
    hide ToBits, XorWord, Steps, Pow2;
    WordSize();
    XorWordBound(f / 0x100, b, 8);
    var i := XorWord(f / 0x100, b);
    ToBitsXor(f / 0x100, b, 8);
    HighByteBits(f);
    MovedUpBits(f);
    ToBitsXor(ReverseTable(i), f * 0x100 % 0x1_0000, 16);
    assert |CCITT| == 16;
    assert ToBits(ReverseTable(i), 16) == EntryBits(ToBits(i, 8));
  }

  // The reflected loop looks the low byte up and moves the high byte down.
  lemma DocumentedStep(g: uint16, b: byte)
    ensures ToBits(TableDriven.Lookup(CCITT, 8, g, b), 16)
      == Xor(EntryBits(Xor(ToBits(g, 16)[..8], ToBits(b, 8))), ToBits(g, 16)[8..] + Zeros(8))
  {
    hide ToBits, XorWord, Steps, LowBits, ShiftRight, Pow2;
    WordSize();
    assert |CCITT| == 16;
    var i := LowBits(XorWord(g, b), 8);
    TableDriven.IndexBits(g, b, 8, 16);
    ToBitsShift(g, 8, 16);
    ToBitsXor(TableDriven.Entry(CCITT, 8, i), ShiftRight(g, 8), 16);
  }

  // The byte that both forms add cancels out, because the table is linear.
  lemma ByteCancels(f: Bits, g: Bits, c: Bits)
    requires |f| == |g| == 16 && |c| == 8
    ensures
      Xor(EntryBits(Xor(f[8..], c)), Zeros(8) + f[..8]) == Xor(EntryBits(Xor(g[..8], c)), g[8..] + Zeros(8))
      <==> EntryBits(Xor(f[8..], g[..8])) == g[8..] + f[..8]
  {
    EntryLinear(f[8..], c);
    EntryLinear(g[..8], c);
    EntryLinear(f[8..], g[..8]);
    hide EntryBits;
    Cancels(EntryBits(f[8..]), EntryBits(g[..8]), EntryBits(c), f[..8], g[8..]);
  }

  lemma Cancels(x: Bits, y: Bits, z: Bits, low: Bits, high: Bits)
    requires |x| == |y| == |z| == 16 && |low| == |high| == 8
    ensures Xor(Xor(x, z), Zeros(8) + low) == Xor(Xor(y, z), high + Zeros(8)) <==> Xor(x, y) == high + low
  {
    var u, v := Xor(Xor(x, z), Zeros(8) + low), Xor(Xor(y, z), high + Zeros(8));
    forall i | 0 <= i < 16 ensures u[i] == v[i] <==> Xor(x, y)[i] == (high + low)[i] {
    }
    if Xor(x, y) == high + low {
      assert u == v;
    }
    if u == v {
      assert forall i :: 0 <= i < 16 ==> u[i] == v[i];
    }
  }

  // ------------------------------------------------------------ every message

  // What is in the two accumulators after the same bytes, from the same seed.
  function Code(m: seq<byte>, seed: uint16): uint16 { Loop16(ReverseTable, seed, m) }

  function Reflected(m: seq<byte>, seed: uint16): (g: uint16) {
    TableDriven.BytesAreDigits(m);
    WordSize();
    TableDriven.DigitLoopDivides(CCITT, 8, seed, m);
    TableDriven.DigitLoop(CCITT, 8, seed, m)
  }

  // One lookup tells whether the two meet again at the next byte: the entry of
  // the bytes they look up is what they move.
  predicate Meets(f: uint16, g: uint16) {
    TableDriven.Entry(CCITT, 8, XorWord(f / 0x100, g % 0x100)) == XorWord(f * 0x100 % 0x1_0000, g / 0x100)
  }

  lemma LookedUpBits(f: uint16, g: uint16)
    ensures ToBits(TableDriven.Entry(CCITT, 8, XorWord(f / 0x100, g % 0x100)), 16)
      == EntryBits(Xor(ToBits(f, 16)[8..], ToBits(g, 16)[..8]))
  {
    hide ToBits, XorWord, Steps, LowBits, ShiftRight, Pow2;
    assert |CCITT| == 16;
    ByteOperations(g);
    ToBitsXor(f / 0x100, g % 0x100, 8);
    HighByteBits(f);
    ToBitsLow(g, 8, 16);
  }

  lemma MovedBits(f: uint16, g: uint16)
    ensures ToBits(XorWord(f * 0x100 % 0x1_0000, g / 0x100), 16) == ToBits(g, 16)[8..] + ToBits(f, 16)[..8]
  {
    hide ToBits, XorWord, LowBits, ShiftRight, Pow2;
    WordSize();
    ByteOperations(g);
    ToBitsShift(g, 8, 16);
    ToBitsXor(f * 0x100 % 0x1_0000, g / 0x100, 16);
    MovedUpBits(f);
    SideBySide(ToBits(f, 16)[..8], ToBits(g, 16)[8..]);
  }

  lemma SideBySide(low: Bits, high: Bits)
    requires |low| == |high| == 8
    ensures Xor(Zeros(8) + low, high + Zeros(8)) == high + low
  {
  }

  lemma MeetsBits(f: uint16, g: uint16)
    ensures Meets(f, g) <==>
      EntryBits(Xor(ToBits(f, 16)[8..], ToBits(g, 16)[..8])) == ToBits(g, 16)[8..] + ToBits(f, 16)[..8]
  {
    LookedUpBits(f, g);
    MovedBits(f, g);
    hide ToBits, XorWord, EntryBits, Pow2, TableDriven.Entry;
    WordSize();
    assert |CCITT| == 16;
    var x: nat, y: nat := TableDriven.Entry(CCITT, 8, XorWord(f / 0x100, g % 0x100)), XorWord(f * 0x100 % 0x1_0000, g / 0x100);
    XorWordBound(f * 0x100 % 0x1_0000, g / 0x100, 16);
    if ToBits(x, 16) == ToBits(y, 16) {
      ToBitsInjective(x, y, 16);
    }
  }

  lemma NextOfEach(m: seq<byte>, b: byte, seed: uint16)
    ensures Code(m + [b], seed) == Step16(ReverseTable, Code(m, seed), b)
    ensures Reflected(m + [b], seed) == TableDriven.Lookup(CCITT, 8, Reflected(m, seed), b)
  {
    hide Step16, TableDriven.Lookup;
    assert (m + [b])[..|m|] == m;
  }

  lemma ChecksAreAccumulators(m: seq<byte>, seed: uint16)
    ensures CcittSeed(m, seed) == DocumentedSeed(m, seed) <==> Code(m, seed) == Reflected(m, seed)
  {
    hide Loop16, TableDriven.DigitLoop;
  }

  // Whatever is in them: one more byte makes the two accumulators equal exactly
  // when they meet.
  lemma StepsAgree(f: uint16, g: uint16, b: byte)
    ensures Step16(ReverseTable, f, b) == TableDriven.Lookup(CCITT, 8, g, b) <==> Meets(f, g)
  {
    CodeStep(f, b);
    DocumentedStep(g, b);
    MeetsBits(f, g);
    ByteCancels(ToBits(f, 16), ToBits(g, 16), ToBits(b, 8));
    hide ToBits, Meets, EntryBits, Step16, TableDriven.Lookup, Pow2;
    WordSize();
    assert |CCITT| == 16;
    TableDriven.LookupDivides(CCITT, 8, g, b);
    var x: nat, y: nat := Step16(ReverseTable, f, b), TableDriven.Lookup(CCITT, 8, g, b);
    if ToBits(x, 16) == ToBits(y, 16) {
      ToBitsInjective(x, y, 16);
    }
  }

  // For every message m, every byte b behind it and every seed, the code agrees
  // with its documentation exactly when the accumulators after m meet.
  lemma AgreesBehind(m: seq<byte>, b: byte, seed: uint16)
    ensures CcittSeed(m + [b], seed) == DocumentedSeed(m + [b], seed) <==> Meets(Code(m, seed), Reflected(m, seed))
  {
    hide *;
    ChecksAreAccumulators(m + [b], seed);
    NextOfEach(m, b, seed);
    StepsAgree(Code(m, seed), Reflected(m, seed), b);
  }

  // The last byte of a message never matters.
  lemma LastByteNeverMatters(m: seq<byte>, b: byte, c: byte, seed: uint16)
    ensures CcittSeed(m + [b], seed) == DocumentedSeed(m + [b], seed) <==>
      CcittSeed(m + [c], seed) == DocumentedSeed(m + [c], seed)
  {
    AgreesBehind(m, b, seed);
    AgreesBehind(m, c, seed);
  }

  // So, on every message and from every seed: the empty message agrees, any other
  // one exactly when the accumulators meet before its last byte.
  lemma CcittIsDocumented(msg: seq<byte>, seed: uint16)
    ensures CcittSeed(msg, seed) == DocumentedSeed(msg, seed) <==>
      msg == [] || Meets(Code(msg[..|msg| - 1], seed), Reflected(msg[..|msg| - 1], seed))
  {
    hide Meets, CcittSeed, DocumentedSeed;
    if msg == [] {
      ChecksAreAccumulators(msg, seed);
    } else {
      var n := |msg| - 1;
      assert msg == msg[..n] + [msg[n]];
      AgreesBehind(msg[..n], msg[n], seed);
    }
  }

  // ------------------------------------------------------------ short messages

  lemma DivisorBits()
    ensures |CCITT| == 16 && forall j :: 0 <= j < 16 ==> CCITT[j] == (j == 3 || j == 10 || j == 15)
  {
    assert Hex(0x1) == [false, false, false, true];
    assert Hex(0x0) == [false, false, false, false];
    assert Hex(0x2) == [false, false, true, false];
  }

  // One division step on sixteen bits, bit by bit, and what four of them leave.
  predicate OneStep(s: Bits, t: Bits) {
    && |s| == |t| == 16
    && t[0] == s[1] && t[1] == s[2] && t[2] == s[3] && t[3] == (s[4] != s[0])
    && t[4] == s[5] && t[5] == s[6] && t[6] == s[7] && t[7] == s[8]
    && t[8] == s[9] && t[9] == s[10] && t[10] == (s[11] != s[0]) && t[11] == s[12]
    && t[12] == s[13] && t[13] == s[14] && t[14] == s[15] && t[15] == s[0]
  }

  predicate FourSteps(s: Bits, t: Bits) {
    && |s| == |t| == 16
    && t[0] == (s[4] != s[0]) && t[1] == (s[5] != s[1]) && t[2] == (s[6] != s[2]) && t[3] == (s[7] != s[3])
    && t[4] == s[8] && t[5] == s[9] && t[6] == s[10] && t[7] == (s[11] != s[0])
    && t[8] == (s[12] != s[1]) && t[9] == (s[13] != s[2]) && t[10] == (s[14] != s[3]) && t[11] == s[15]
    && t[12] == s[0] && t[13] == s[1] && t[14] == s[2] && t[15] == s[3]
  }

  lemma StepIs(s: Bits)
    requires |s| == 16
    ensures OneStep(s, Step(CCITT, s))
  {
    DivisorBits();
    hide Step;
  }

  lemma FourStepsAre(s: Bits, n: nat) returns (t: Bits)
    requires |s| == 16
    ensures FourSteps(s, t) && Steps(CCITT, s, n + 4) == Steps(CCITT, t, n)
  {
    var a := Step(CCITT, s);
    var b := Step(CCITT, a);
    var c := Step(CCITT, b);
    t := Step(CCITT, c);
    StepIs(s);
    StepIs(a);
    StepIs(b);
    StepIs(c);
    hide Step;
    assert Steps(CCITT, s, n + 4) == Steps(CCITT, a, n + 3) == Steps(CCITT, b, n + 2) == Steps(CCITT, c, n + 1);
  }

  // x ^ (x << 4), in eight bits.
  function Mixed(x: Bits): (y: Bits)
    requires |x| == 8
    ensures |y| == 8
  {
    [x[0], x[1], x[2], x[3], x[4] != x[0], x[5] != x[1], x[6] != x[2], x[7] != x[3]]
  }

  // The table in closed form: for y == x ^ (x << 4) the entry of x is
  // (y << 8) ^ (y << 3) ^ (y >> 4).
  predicate IsEntry(y: Bits, e: Bits) {
    && |y| == 8 && |e| == 16
    && e[0] == y[4] && e[1] == y[5] && e[2] == y[6] && e[3] == (y[0] != y[7])
    && e[4] == y[1] && e[5] == y[2] && e[6] == y[3] && e[7] == y[4]
    && e[8] == (y[0] != y[5]) && e[9] == (y[1] != y[6]) && e[10] == (y[2] != y[7]) && e[11] == y[3]
    && e[12] == y[4] && e[13] == y[5] && e[14] == y[6] && e[15] == y[7]
  }

  lemma EntryIs(x: Bits)
    requires |x| == 8
    ensures IsEntry(Mixed(x), EntryBits(x))
  {
    var s := x + Zeros(8);
    var t := FourStepsAre(s, 4);
    var u := FourStepsAre(t, 0);
    assert EntryBits(x) == Steps(CCITT, s, 8) == Steps(CCITT, t, 4) == u;
    hide Steps, EntryBits, FourSteps, IsEntry;
    assert forall j :: 0 <= j < 8 ==> s[j] == x[j];
    TwiceFour(x, s, t, u);
  }

  lemma TwiceFour(x: Bits, s: Bits, t: Bits, u: Bits)
    requires |x| == 8 && FourSteps(s, t) && FourSteps(t, u)
    requires (forall j :: 0 <= j < 8 ==> s[j] == x[j]) && (forall j :: 8 <= j < 16 ==> !s[j])
    ensures IsEntry(Mixed(x), u)
  {
    assert x[0] == s[0] && x[1] == s[1] && x[2] == s[2] && x[3] == s[3];
    assert x[4] == s[4] && x[5] == s[5] && x[6] == s[6] && x[7] == s[7];
    assert !s[8] && !s[9] && !s[10] && !s[11] && !s[12] && !s[13] && !s[14] && !s[15];
  }

  // d is the sum of the two halves of e, and r is e with its halves exchanged.
  predicate Exchanged(e: Bits, d: Bits, r: Bits) {
    && |e| == |r| == 16 && |d| == 8
    && d[0] == (e[8] != e[0]) && d[1] == (e[9] != e[1]) && d[2] == (e[10] != e[2]) && d[3] == (e[11] != e[3])
    && d[4] == (e[12] != e[4]) && d[5] == (e[13] != e[5]) && d[6] == (e[14] != e[6]) && d[7] == (e[15] != e[7])
    && r[0] == e[8] && r[1] == e[9] && r[2] == e[10] && r[3] == e[11]
    && r[4] == e[12] && r[5] == e[13] && r[6] == e[14] && r[7] == e[15]
    && r[8] == e[0] && r[9] == e[1] && r[10] == e[2] && r[11] == e[3]
    && r[12] == e[4] && r[13] == e[5] && r[14] == e[6] && r[15] == e[7]
  }

  lemma KernelBits(x: Bits, e: Bits, d: Bits, r: Bits)
    requires |x| == |d| == 8 && IsEntry(Mixed(x), e) && IsEntry(Mixed(d), r) && Exchanged(e, d, r)
    ensures x == Zeros(8)
  {
    var y, z := Mixed(x), Mixed(d);
    assert z[0] == d[0] && z[1] == d[1] && z[2] == d[2] && z[3] == d[3];
    assert z[4] == (d[4] != d[0]) && z[5] == (d[5] != d[1]) && z[6] == (d[6] != d[2]) && z[7] == (d[7] != d[3]);
    assert !y[0] && !y[1] && !y[2] && !y[3] && !y[4] && !y[5] && !y[6] && !y[7] by {
      hide Mixed;
    }
    assert !x[0] && !x[1] && !x[2] && !x[3] && !x[4] && !x[5] && !x[6] && !x[7];
  }

  lemma Exchange(e: Bits)
    requires |e| == 16
    ensures Exchanged(e, Xor(e[8..], e[..8]), e[8..] + e[..8])
  {
  }

  lemma EntryOfNothing()
    ensures EntryBits(Zeros(8)) == Zeros(16)
  {
    hide Steps;
    EntryIs(Zeros(8));
    hide EntryBits;
    assert EntryBits(Zeros(8)) == Zeros(16);
  }

  lemma NothingExchanged()
    ensures Xor(Zeros(16)[8..], Zeros(16)[..8]) == Zeros(8) && Zeros(16)[8..] + Zeros(16)[..8] == Zeros(16)
  {
  }

  // The two halves of an entry, added, are the index of an entry with the halves
  // exchanged only for the index zero.
  lemma Kernel(x: Bits)
    requires |x| == 8
    ensures var e := EntryBits(x); EntryBits(Xor(e[8..], e[..8])) == e[8..] + e[..8] <==> x == Zeros(8)
  {
    hide *;
    var e := EntryBits(x);
    var d := Xor(e[8..], e[..8]);
    if EntryBits(d) == e[8..] + e[..8] {
      EntryIs(x);
      EntryIs(d);
      Exchange(e);
      KernelBits(x, e, d, EntryBits(d));
    }
    if x == Zeros(8) {
      EntryOfNothing();
      NothingExchanged();
    }
  }

  function Ones(n: nat): (b: Bits)
    ensures |b| == n && forall i :: 0 <= i < n ==> b[i]
  {
    seq(n, _ => true)
  }

  lemma {:induction false} OnesBits(w: nat)
    ensures ToBits(Pow2(w) - 1, w) == Ones(w)
  {
    if w > 0 {
      OnesBits(w - 1);
      var x := Pow2(w) - 1;
      assert x % 2 == 1 && x / 2 == Pow2(w - 1) - 1;
      assert [true] + Ones(w - 1) == Ones(w);
    }
  }

  lemma ByteOfOnes(a: byte)
    ensures Xor(Ones(8), ToBits(a, 8)) == Zeros(8) <==> a == 0xff
  {
    hide ToBits, Pow2;
    WordSize();
    OnesBits(8);
    if Xor(Ones(8), ToBits(a, 8)) == Zeros(8) {
      forall i | 0 <= i < 8 ensures ToBits(a, 8)[i] {
        assert !Xor(Ones(8), ToBits(a, 8))[i];
      }
      assert ToBits(a, 8) == Ones(8);
      ToBitsInjective(a, 0xff, 8);
    }
  }

  lemma Before(seed: uint16)
    ensures Code([], seed) == seed == Reflected([], seed)
  {
  }

  lemma InitialBits()
    ensures ToBits(0xffff, 16)[..8] == ToBits(0xffff, 16)[8..] == Ones(8)
  {
    hide ToBits, Pow2;
    WordSize();
    OnesBits(16);
  }

  // The bits of 0xf7f8.
  const FIXED: Bits := [false, false, false, true] + [true, true, true, true] + [true, true, true, false] + [true, true, true, true]

  lemma OneOf(x: nat, w: nat)
    ensures ToBits(x, w + 1) == [x % 2 == 1] + ToBits(x / 2, w)
  {
  }

  lemma FourOf(x: nat, w: nat)
    ensures ToBits(x, w + 4)
      == [x % 2 == 1, x / 2 % 2 == 1, x / 2 / 2 % 2 == 1, x / 2 / 2 / 2 % 2 == 1] + ToBits(x / 2 / 2 / 2 / 2, w)
  {
    hide ToBits;
    var a := x / 2;
    var b := a / 2;
    var c := b / 2;
    OneOf(x, w + 3);
    OneOf(a, w + 2);
    OneOf(b, w + 1);
    OneOf(c, w);
    OneAfterOne(x % 2 == 1, a % 2 == 1, b % 2 == 1, c % 2 == 1, ToBits(c / 2, w));
  }

  lemma OneAfterOne(p: bool, q: bool, r: bool, s: bool, t: Bits)
    ensures [p] + ([q] + ([r] + ([s] + t))) == [p, q, r, s] + t
  {
  }

  lemma FixedBits()
    ensures ToBits(0xf7f8, 16) == FIXED
  {
    hide ToBits;
    FourOf(0xf7f8, 12);
    FourOf(0xf7f, 8);
    FourOf(0xf7, 4);
    FourOf(0xf, 0);
    assert ToBits(0, 0) == [];
  }

  // The only two words that are the entry of the sum of their halves, with the
  // halves exchanged.
  lemma FixedWords(e: Bits, d: Bits, r: Bits)
    requires |d| == 8 && IsEntry(Mixed(d), r) && Exchanged(e, d, r)
    ensures e == Zeros(16) || e == FIXED
  {
    var z := Mixed(d);
    assert z[0] == d[0] && z[1] == d[1] && z[2] == d[2] && z[3] == d[3];
    assert z[4] == (d[4] != d[0]) && z[5] == (d[5] != d[1]) && z[6] == (d[6] != d[2]) && z[7] == (d[7] != d[3]);
    assert !d[4] && !d[5] && !d[6] && !d[7] && d[1] == d[0] && d[2] == d[0] && d[3] == d[0] by {
      hide Mixed;
    }
    assert |FIXED| == 16;
  }

  lemma FixedEntry(d: Bits, r: Bits)
    requires d == Xor(FIXED[8..], FIXED[..8]) && IsEntry(Mixed(d), r)
    ensures r == FIXED[8..] + FIXED[..8]
  {
    var z := Mixed(d);
    assert d[0] && d[1] && d[2] && d[3] && !d[4] && !d[5] && !d[6] && !d[7];
    assert z[0] && z[1] && z[2] && z[3] && z[4] && z[5] && z[6] && z[7];
    hide Mixed;
  }

  lemma MeetsItself(seed: uint16)
    ensures Meets(seed, seed) <==> seed == 0 || seed == 0xf7f8
  {
    hide *;
    var e := ToBits(seed, 16);
    var d := Xor(e[8..], e[..8]);
    MeetsBits(seed, seed);
    WordSize();
    FixedBits();
    ToBitsZero(16);
    EntryIs(d);
    if EntryBits(d) == e[8..] + e[..8] {
      Exchange(e);
      FixedWords(e, d, EntryBits(d));
      if e == Zeros(16) {
        ToBitsInjective(seed, 0, 16);
      } else {
        ToBitsInjective(seed, 0xf7f8, 16);
      }
    }
    if seed == 0 {
      NothingExchanged();
      EntryOfNothing();
    }
    if seed == 0xf7f8 {
      FixedEntry(d, EntryBits(d));
    }
  }

  // Messages of one byte: there are two seeds, 0 and 0xf7f8, for which all of
  // them agree, and for any other seed, as for 0xffff, none does.
  lemma OneByte(b: byte, seed: uint16)
    ensures CcittSeed([b], seed) == DocumentedSeed([b], seed) <==> seed == 0 || seed == 0xf7f8
  {
    hide *;
    Before(seed);
    AgreesBehind([], b, seed);
    MeetsItself(seed);
    assert [] + [b] == [b];
  }

  // The accumulators after one byte: the same entry, added to either half of
  // the initial value.
  lemma AfterOne(a: byte, x: Bits)
    requires x == Xor(Ones(8), ToBits(a, 8))
    ensures ToBits(Code([a], 0xffff), 16) == Xor(EntryBits(x), Zeros(8) + Ones(8))
    ensures ToBits(Reflected([a], 0xffff), 16) == Xor(EntryBits(x), Ones(8) + Zeros(8))
  {
    hide *;
    Before(0xffff);
    InitialBits();
    NextOfEach([], a, 0xffff);
    CodeStep(0xffff, a);
    DocumentedStep(0xffff, a);
    assert [] + [a] == [a];
  }

  lemma Halves(e: Bits, f: Bits, g: Bits)
    requires |e| == 16 && f == Xor(e, Zeros(8) + Ones(8)) && g == Xor(e, Ones(8) + Zeros(8))
    ensures Xor(f[8..], g[..8]) == Xor(e[8..], e[..8]) && g[8..] == e[8..] && f[..8] == e[..8]
  {
  }

  lemma FixedSeed(m: seq<byte>)
    ensures Ccitt(m) == CcittSeed(m, 0xffff) && Documented(m) == DocumentedSeed(m, 0xffff)
  {
  }

  // For crc16_ccitt itself, a message of two bytes agrees exactly when the first
  // one is 0xff.
  lemma TwoBytes(a: byte, b: byte)
    ensures Ccitt([a, b]) == Documented([a, b]) <==> a == 0xff
  {
    hide *;
    FixedSeed([a, b]);
    var x := Xor(Ones(8), ToBits(a, 8));
    AfterOne(a, x);
    AgreesBehind([a], b, 0xffff);
    MeetsBits(Code([a], 0xffff), Reflected([a], 0xffff));
    ByteOfOnes(a);
    assert [a] + [b] == [a, b];
    Halves(EntryBits(x), ToBits(Code([a], 0xffff), 16), ToBits(Reflected([a], 0xffff), 16));
    Kernel(x);
  }
}
