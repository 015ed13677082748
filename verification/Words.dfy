/**
 Unsigned machine words as natural numbers, and their bits.

 A word of width w is a number below 2^w. Shifting right is division, masking
 with 0xff is the remainder modulo 256, and exclusive or is defined digit by
 digit.
 */
module Words {
  import opened Gf2

  function Pow2(n: nat): (p: nat)
    ensures p >= 1
  {
    if n == 0 then 1 else 2 * Pow2(n - 1)
  }

  function BitValue(b: bool): nat { if b then 1 else 0 }

  // The w low bits of a number, least significant first.
  function ToBits(x: nat, w: nat): (r: Bits)
    ensures |r| == w
    decreases w, x
  {
    if w == 0 then [] else [x % 2 == 1] + ToBits(x / 2, w - 1)
  }

  function FromBits(b: Bits): nat {
    if b == [] then 0 else BitValue(b[0]) + 2 * FromBits(b[1..])
  }

  function XorWord(x: nat, y: nat): nat {
    if x == 0 && y == 0 then 0 else BitValue(x % 2 != y % 2) + 2 * XorWord(x / 2, y / 2)
  }

  lemma {:induction false} FromToBits(x: nat, w: nat)
    requires x < Pow2(w)
    ensures FromBits(ToBits(x, w)) == x
    decreases w
  {
    if w > 0 {
      FromToBits(x / 2, w - 1);
      assert ToBits(x, w)[1..] == ToBits(x / 2, w - 1);
    }
  }

  lemma ToBitsInjective(x: nat, y: nat, w: nat)
    requires x < Pow2(w) && y < Pow2(w) && ToBits(x, w) == ToBits(y, w)
    ensures x == y
  {
    FromToBits(x, w);
    FromToBits(y, w);
  }

  lemma {:induction false} ToFromBits(b: Bits)
    ensures FromBits(b) < Pow2(|b|) && ToBits(FromBits(b), |b|) == b
  {
    if b != [] {
      ToFromBits(b[1..]);
      assert b == [b[0]] + b[1..];
    }
  }

  lemma {:induction false} XorWordBound(x: nat, y: nat, w: nat)
    requires x < Pow2(w) && y < Pow2(w)
    ensures XorWord(x, y) < Pow2(w)
    decreases w
  {
    if w > 0 {
      XorWordBound(x / 2, y / 2, w - 1);
    }
  }

  lemma {:induction false} ToBitsXor(x: nat, y: nat, w: nat)
    ensures ToBits(XorWord(x, y), w) == Xor(ToBits(x, w), ToBits(y, w))
    decreases w
  {
    if w > 0 {
      var z := XorWord(x, y);
      assert z % 2 == BitValue(x % 2 != y % 2) && z / 2 == XorWord(x / 2, y / 2);
      ToBitsXor(x / 2, y / 2, w - 1);
    }
  }

  // x >> k and x & (2^k - 1).
  function ShiftRight(x: nat, k: nat): (r: nat)
    ensures r <= x
    decreases k, x
  {
    if k == 0 then x else ShiftRight(x / 2, k - 1)
  }

  function LowBits(x: nat, k: nat): (r: nat)
    ensures r < Pow2(k)
    decreases k, x
  {
    if k == 0 then 0 else x % 2 + 2 * LowBits(x / 2, k - 1)
  }

  lemma TwiceProduct(p: nat, q: nat)
    ensures (2 * p) * q == 2 * (p * q)
  {
  }

  lemma {:induction false} ShiftAndMask(x: nat, k: nat)
    ensures x == LowBits(x, k) + Pow2(k) * ShiftRight(x, k)
    decreases k
  {
    hide LowBits;
    LowBitsStep(x, k);
    if k > 0 {
      ShiftAndMask(x / 2, k - 1);
      assert ShiftRight(x, k) == ShiftRight(x / 2, k - 1);
      hide ShiftRight;
      TwiceProduct(Pow2(k - 1), ShiftRight(x / 2, k - 1));
    }
  }

  lemma XorDigit(a: nat, x: nat, b: nat, y: nat)
    requires a < 2 && b < 2
    ensures XorWord(a + 2 * x, b + 2 * y) == BitValue(a != b) + 2 * XorWord(x, y)
  {
    var u, v := a + 2 * x, b + 2 * y;
    assert u % 2 == a && u / 2 == x && v % 2 == b && v / 2 == y;
  }

  lemma {:induction false} LowBitsXor(x: nat, y: nat, k: nat)
    ensures LowBits(XorWord(x, y), k) == XorWord(LowBits(x, k), LowBits(y, k))
    decreases k
  {
    hide LowBits, XorWord;
    LowBitsStep(x, k);
    LowBitsStep(y, k);
    LowBitsStep(XorWord(x, y), k);
    if k == 0 {
      XorNothing();
    } else {
      XorHalves(x, y);
      LowBitsXor(x / 2, y / 2, k - 1);
      XorDigit(x % 2, LowBits(x / 2, k - 1), y % 2, LowBits(y / 2, k - 1));
    }
  }

  lemma LowBitsStep(x: nat, k: nat)
    ensures LowBits(x, k) == if k == 0 then 0 else x % 2 + 2 * LowBits(x / 2, k - 1)
  {
  }

  lemma XorNothing()
    ensures XorWord(0, 0) == 0
  {
  }

  lemma XorHalves(x: nat, y: nat)
    ensures XorWord(x, y) % 2 == BitValue(x % 2 != y % 2) && XorWord(x, y) / 2 == XorWord(x / 2, y / 2)
  {
  }

  // The same, with the low bits given as numbers.
  lemma LowBitsOfXor(x: nat, y: nat, k: nat, l: nat, m: nat, n: nat)
    requires l == LowBits(x, k) && m == LowBits(y, k) && n == LowBits(XorWord(x, y), k)
    ensures n == XorWord(l, m)
  {
    LowBitsXor(x, y, k);
  }

  lemma {:induction false} ToBitsLow(x: nat, k: nat, w: nat)
    requires k <= w
    ensures ToBits(LowBits(x, k), k) == ToBits(x, w)[..k]
    decreases k
  {
    if k > 0 {
      var l := LowBits(x, k);
      assert l % 2 == x % 2 && l / 2 == LowBits(x / 2, k - 1);
      ToBitsLow(x / 2, k - 1, w - 1);
    }
  }

  lemma {:induction false} ToBitsShift(x: nat, k: nat, w: nat)
    requires k <= w && x < Pow2(w)
    ensures ToBits(ShiftRight(x, k), w) == ToBits(x, w)[k..] + Zeros(k)
    decreases k
  {
    if k > 0 {
      ToBitsHalf(x, w);
      ToBitsShift(x / 2, k - 1, w);
    }
  }

  lemma {:induction false} ToBitsSplit(x: nat, k: nat, m: nat)
    ensures ToBits(x, k + m) == ToBits(LowBits(x, k), k) + ToBits(ShiftRight(x, k), m)
    decreases k
  {
    if k > 0 {
      var l := LowBits(x, k);
      assert l % 2 == x % 2 && l / 2 == LowBits(x / 2, k - 1);
      ToBitsSplit(x / 2, k - 1, m);
      assert ToBits(x, k + m) == [x % 2 == 1] + ToBits(x / 2, k - 1 + m);
    }
  }

  lemma {:induction false} ToBitsWiden(x: nat, k: nat, w: nat)
    requires k <= w && x < Pow2(k)
    ensures ToBits(x, w) == ToBits(x, k) + Zeros(w - k)
    decreases k
  {
    if k == 0 {
      ToBitsZero(w);
    } else {
      ToBitsWiden(x / 2, k - 1, w - 1);
    }
  }

  lemma {:induction false} ToBitsZero(w: nat)
    ensures ToBits(0, w) == Zeros(w)
    decreases w
  {
    if w > 0 {
      ToBitsZero(w - 1);
    }
  }

  lemma {:induction false} ToBitsNot(x: nat, w: nat)
    requires x < Pow2(w)
    ensures forall i :: 0 <= i < w ==> ToBits(Pow2(w) - 1 - x, w)[i] == !ToBits(x, w)[i]
    decreases w
  {
    if w > 0 {
      ToBitsNot(x / 2, w - 1);
      var y := Pow2(w) - 1 - x;
      assert y / 2 == Pow2(w - 1) - 1 - x / 2 && y % 2 == 1 - x % 2;
    }
  }

  lemma {:induction false} ToBitsHalf(x: nat, w: nat)
    requires w > 0 && x < Pow2(w)
    ensures ToBits(x / 2, w) == ToBits(x, w)[1..] + [false]
    decreases w
  {
    if w > 1 {
      ToBitsHalf(x / 2, w - 1);
    }
  }

  lemma WordSize()
    ensures Pow2(8) == 256 && Pow2(16) == 0x1_0000 && Pow2(32) == 0x1_0000_0000
  {
    assert Pow2(4) == 16;
    assert Pow2(8) == 256;
    assert Pow2(12) == 4096;
    assert Pow2(16) == 0x1_0000;
    assert Pow2(20) == 0x10_0000;
    assert Pow2(24) == 0x100_0000;
    assert Pow2(28) == 0x1000_0000;
  }

  // x & 0xff and x >> 8.
  lemma ByteOperations(x: nat)
    ensures LowBits(x, 8) == x % 256 && ShiftRight(x, 8) == x / 256
  {
    ShiftFour(x);
    ShiftFour(x / 16);
    assert ShiftRight(x, 8) == x / 256;
    LowEight(x);
  }

  lemma LowEight(x: nat)
    requires ShiftRight(x, 8) == x / 256
    ensures LowBits(x, 8) == x % 256
  {
    var l, q := LowBits(x, 8), x / 256;
    WordSize();
    ShiftAndMask(x, 8);
    assert x == l + 256 * q;
  }

  lemma ShiftFour(x: nat)
    ensures ShiftRight(x, 8) == ShiftRight(x / 16, 4) && ShiftRight(x, 4) == x / 16
  {
    var a := x / 2;
    var b := a / 2;
    var c := b / 2;
    assert c / 2 == x / 16;
    assert ShiftRight(x, 8) == ShiftRight(a, 7) == ShiftRight(b, 6) == ShiftRight(c, 5) == ShiftRight(c / 2, 4);
    assert ShiftRight(x, 4) == ShiftRight(a, 3) == ShiftRight(b, 2) == ShiftRight(c, 1) == c / 2;
  }
}
