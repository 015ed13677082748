/**
 Polynomials over GF(2) as bit sequences, and the division that a cyclic
 redundancy check performs one bit at a time.

 A remainder of width w is a sequence of w bits. Index 0 is the coefficient
 that leaves the register next: the least significant bit for a reflected
 check, the most significant one for an unreflected check. A divisor of width
 w is written without its leading coefficient, in the same order.
 */
module Gf2 {
  type Bits = seq<bool>

  function Zeros(n: nat): (z: Bits)
    ensures |z| == n && forall i :: 0 <= i < n ==> !z[i]
  {
    seq(n, _ => false)
  }

  function Xor(a: Bits, b: Bits): (c: Bits)
    requires |a| == |b|
    ensures |c| == |a| && forall i :: 0 <= i < |c| ==> c[i] == (a[i] != b[i])
  {
    seq(|a|, i requires 0 <= i < |a| => a[i] != b[i])
  }

  // One step of the long division: the leading coefficient leaves, and the
  // divisor is subtracted if it was a one.
  function Step(p: Bits, s: Bits): (r: Bits)
    requires |p| == |s| > 0
    ensures |r| == |s|
    ensures forall i :: 0 <= i < |s| ==> r[i] == ((i + 1 < |s| && s[i + 1]) != (s[0] && p[i]))
  {
    var shifted := s[1..] + [false];
    if s[0] then Xor(shifted, p) else shifted
  }

  function Steps(p: Bits, s: Bits, n: nat): (r: Bits)
    requires |p| == |s| > 0
    ensures |r| == |s|
    decreases n, s
  {
    if n == 0 then s else Steps(p, Step(p, s), n - 1)
  }

  // Adds a message bit to the leading coefficient of the remainder.
  function Inject(s: Bits, b: bool): (r: Bits)
    requires |s| > 0
    ensures |r| == |s|
  {
    s[0 := s[0] != b]
  }

  // The bit-serial check: every message bit is added and divided out in turn.
  function Divide(p: Bits, s: Bits, msg: Bits): (r: Bits)
    requires |p| == |s| > 0
    ensures |r| == |s|
    decreases |msg|
  {
    if msg == [] then s else Divide(p, Step(p, Inject(s, msg[0])), msg[1..])
  }

  lemma {:induction false} DivideConcat(p: Bits, s: Bits, a: Bits, b: Bits)
    requires |p| == |s| > 0
    ensures Divide(p, s, a + b) == Divide(p, Divide(p, s, a), b)
    decreases |a|
  {
    if a == [] {
      assert a + b == b;
    } else {
      assert (a + b)[1..] == a[1..] + b;
      DivideConcat(p, Step(p, Inject(s, a[0])), a[1..], b);
    }
  }

  lemma StepLinear(p: Bits, x: Bits, y: Bits)
    requires |p| == |x| == |y| > 0
    ensures Step(p, Xor(x, y)) == Xor(Step(p, x), Step(p, y))
  {
  }

  lemma {:induction false} StepsLinear(p: Bits, x: Bits, y: Bits, n: nat)
    requires |p| == |x| == |y| > 0
    ensures Steps(p, Xor(x, y), n) == Xor(Steps(p, x, n), Steps(p, y, n))
    decreases n
  {
    hide Step, Xor;
    if n > 0 {
      StepLinear(p, x, y);
      StepsLinear(p, Step(p, x), Step(p, y), n - 1);
    }
  }

  // A remainder with n leading zeros is only shifted by n steps.
  lemma {:induction false} StepsShift(p: Bits, s: Bits, n: nat)
    requires |p| == |s| > 0 && n <= |s|
    requires forall i :: 0 <= i < n ==> !s[i]
    ensures Steps(p, s, n) == s[n..] + Zeros(n)
    decreases n
  {
    if n > 0 {
      var t := Step(p, s);
      assert t == s[1..] + [false];
      StepsShift(p, t, n - 1);
      assert t[n - 1..] + Zeros(n - 1) == s[n..] + Zeros(n);
    }
  }

  // Adding the first bit, stepping and adding the rest is adding all and
  // stepping.
  lemma InjectThenStep(p: Bits, s: Bits, b: bool, rest: Bits)
    requires |p| == |s| > 0 && |rest| == |s| - 1
    ensures Step(p, Xor(s, [b] + rest)) == Xor(Step(p, Inject(s, b)), rest + [false])
  {
    var u, v := Xor(s, [b] + rest), Inject(s, b);
    assert u[0] == v[0];
    forall i | 0 <= i < |s| ensures Step(p, u)[i] == Xor(Step(p, v), rest + [false])[i] {
      if i + 1 < |s| {
        assert u[i + 1] == (s[i + 1] != rest[i]) && v[i + 1] == s[i + 1];
      }
    }
  }

  // Up to w message bits can be added to the remainder all at once.
  lemma {:induction false} DivideIsSteps(p: Bits, s: Bits, msg: Bits)
    requires |p| == |s| > 0 && |msg| <= |s|
    ensures Divide(p, s, msg) == Steps(p, Xor(s, msg + Zeros(|s| - |msg|)), |msg|)
    decreases |msg|
  {
    hide Step, Inject;
    if msg == [] {
      assert Xor(s, msg + Zeros(|s| - |msg|)) == s;
    } else {
      var rest := FirstOfWord(msg, |s|);
      hide Xor;
      DivideIsSteps(p, Step(p, Inject(s, msg[0])), msg[1..]);
      InjectThenStep(p, s, msg[0], rest);
    }
  }

  lemma FirstOfWord(msg: Bits, w: nat) returns (rest: Bits)
    requires 0 < |msg| <= w
    ensures |rest| == w - 1 && msg + Zeros(w - |msg|) == [msg[0]] + rest
    ensures msg[1..] + Zeros(w - |msg[1..]|) == rest + [false]
  {
    rest := (msg + Zeros(w - |msg|))[1..];
  }

  lemma XorHalves(s: Bits, d: Bits)
    requires |d| <= |s|
    ensures Xor(s, d + Zeros(|s| - |d|))
         == Xor(Xor(s[..|d|], d) + Zeros(|s| - |d|), Zeros(|d|) + s[|d|..])
  {
    var k, w := |d|, |s|;
    var a, b := d + Zeros(w - k), Zeros(k) + s[k..];
    var c := Xor(s[..k], d) + Zeros(w - k);
    forall i | 0 <= i < w ensures Xor(s, a)[i] == Xor(c, b)[i] {
      if i < k {
        assert a[i] == d[i] && c[i] == (s[i] != d[i]) && !b[i];
      } else {
        assert !a[i] && !c[i] && b[i] == s[i];
      }
    }
  }

  // The identity behind table lookup: k message bits act only through the k
  // leading bits of the remainder; the others just move up.
  lemma DivideByTable(p: Bits, s: Bits, d: Bits)
    requires |p| == |s| > 0 && |d| <= |s|
    ensures Divide(p, s, d)
         == Xor(Steps(p, Xor(s[..|d|], d) + Zeros(|s| - |d|), |d|), s[|d|..] + Zeros(|d|))
  {
    var k, w := |d|, |s|;
    var hi := Zeros(k) + s[k..];
    DivideIsSteps(p, s, d);
    XorHalves(s, d);
    StepsLinear(p, Xor(s[..k], d) + Zeros(w - k), hi, k);
    StepsShift(p, hi, k);
    assert hi[k..] == s[k..];
  }

  // The step is a bijection on remainders as soon as the divisor has a
  // constant term, which sits at the last index.
  lemma StepInjective(p: Bits, x: Bits, y: Bits)
    requires |p| == |x| == |y| > 0 && p[|p| - 1]
    requires Step(p, x) == Step(p, y)
    ensures x == y
  {
    var w := |p|;
    assert Step(p, x)[w - 1] == x[0] && Step(p, y)[w - 1] == y[0];
    forall i | 0 <= i < w ensures x[i] == y[i] {
      if i > 0 {
        assert Step(p, x)[i - 1] == Step(p, y)[i - 1];
      }
    }
  }

  lemma {:induction false} StepsInjective(p: Bits, x: Bits, y: Bits, n: nat)
    requires |p| == |x| == |y| > 0 && p[|p| - 1]
    requires Steps(p, x, n) == Steps(p, y, n)
    ensures x == y
    decreases n
  {
    if n > 0 {
      StepsInjective(p, Step(p, x), Step(p, y), n - 1);
      StepInjective(p, x, y);
    }
  }

  lemma {:induction false} DivideInjective(p: Bits, x: Bits, y: Bits, msg: Bits)
    requires |p| == |x| == |y| > 0 && p[|p| - 1]
    requires Divide(p, x, msg) == Divide(p, y, msg)
    ensures x == y
    decreases |msg|
  {
    if msg != [] {
      var x', y' := Inject(x, msg[0]), Inject(y, msg[0]);
      DivideInjective(p, Step(p, x'), Step(p, y'), msg[1..]);
      StepInjective(p, x', y');
      forall i | 0 <= i < |x| ensures x[i] == y[i] {
        assert x'[i] == y'[i];
      }
    }
  }

  // Two messages that differ only inside one window collide exactly when the
  // two windows collide; what precedes and follows does not matter.
  lemma WindowsCollide(p: Bits, s: Bits, pre: Bits, x: Bits, y: Bits, post: Bits)
    requires |p| == |s| > 0 && p[|p| - 1]
    ensures Divide(p, s, pre + x + post) == Divide(p, s, pre + y + post)
       <==> Divide(p, Divide(p, s, pre), x) == Divide(p, Divide(p, s, pre), y)
  {
    var t := Divide(p, s, pre);
    DivideConcat(p, s, pre + x, post);
    DivideConcat(p, s, pre, x);
    DivideConcat(p, s, pre + y, post);
    DivideConcat(p, s, pre, y);
    if Divide(p, Divide(p, t, x), post) == Divide(p, Divide(p, t, y), post) {
      DivideInjective(p, Divide(p, t, x), Divide(p, t, y), post);
    }
  }

  // A window no wider than the remainder is a bijection on its content.
  lemma ShortWindow(p: Bits, t: Bits, x: Bits, y: Bits)
    requires |p| == |t| > 0 && p[|p| - 1]
    requires |x| == |y| <= |p|
    requires Divide(p, t, x) == Divide(p, t, y)
    ensures x == y
  {
    var u, v := x + Zeros(|p| - |x|), y + Zeros(|p| - |x|);
    DivideIsSteps(p, t, x);
    DivideIsSteps(p, t, y);
    StepsInjective(p, Xor(t, u), Xor(t, v), |x|);
    forall i | 0 <= i < |x| ensures x[i] == y[i] {
      assert Xor(t, u)[i] == Xor(t, v)[i] && u[i] == x[i] && v[i] == y[i];
    }
  }

  // Every burst no longer than the divisor's degree is detected.
  lemma BurstDetected(p: Bits, s: Bits, pre: Bits, x: Bits, y: Bits, post: Bits)
    requires |p| == |s| > 0 && p[|p| - 1]
    requires |x| == |y| <= |p| && x != y
    ensures Divide(p, s, pre + x + post) != Divide(p, s, pre + y + post)
  {
    var t := Divide(p, s, pre);
    if Divide(p, t, x) == Divide(p, t, y) {
      ShortWindow(p, t, x, y);
    }
    WindowsCollide(p, s, pre, x, y, post);
  }

  lemma DivideLongest(p: Bits, t: Bits, x: Bits)
    requires |p| == |t| > 0 && |x| == |p| + 1
    ensures Divide(p, t, x) == Steps(p, Xor(Step(p, Inject(t, x[0])), x[1..]), |p|)
  {
    DivideIsSteps(p, Step(p, Inject(t, x[0])), x[1..]);
    assert x[1..] + Zeros(0) == x[1..];
  }

  // What is left of a window one bit wider than the remainder, before the
  // last |p| steps: the divisor if the first bit was a one, and the other bits.
  lemma LongestDifference(p: Bits, t: Bits, x: Bits, y: Bits)
    requires |p| == |t| > 0
    requires |x| == |y| == |p| + 1 && x != y
    ensures Xor(Step(p, Inject(t, x[0])), x[1..]) == Xor(Step(p, Inject(t, y[0])), y[1..])
       <==> Xor(x, y) == [true] + p
  {
    var a, b := Step(p, Inject(t, x[0])), Step(p, Inject(t, y[0]));
    var flip := x[0] != y[0];
    forall i | 0 <= i < |p| ensures (a[i] != b[i]) == (flip && p[i]) {
    }
    TailsAndDivisor(p, a, b, x, y);
  }

  lemma TailsAndDivisor(p: Bits, a: Bits, b: Bits, x: Bits, y: Bits)
    requires |p| == |a| == |b| && |x| == |y| == |p| + 1 && x != y
    requires forall i :: 0 <= i < |p| ==> (a[i] != b[i]) == (x[0] != y[0] && p[i])
    ensures Xor(a, x[1..]) == Xor(b, y[1..]) <==> Xor(x, y) == [true] + p
  {
    if Xor(a, x[1..]) == Xor(b, y[1..]) {
      TailsAgree(p, a, b, x, y);
    } else if Xor(x, y) == [true] + p {
      DivisorAgrees(p, a, b, x, y);
    }
  }

  lemma TailsAgree(p: Bits, a: Bits, b: Bits, x: Bits, y: Bits)
    requires |p| == |a| == |b| && |x| == |y| == |p| + 1 && x != y
    requires forall i :: 0 <= i < |p| ==> (a[i] != b[i]) == (x[0] != y[0] && p[i])
    requires Xor(a, x[1..]) == Xor(b, y[1..])
    ensures Xor(x, y) == [true] + p
  {
    var d := Xor(x, y);
    forall i | 1 <= i < |x| ensures d[i] == (d[0] && p[i - 1]) {
      assert Xor(a, x[1..])[i - 1] == Xor(b, y[1..])[i - 1];
      assert x[1..][i - 1] == x[i] && y[1..][i - 1] == y[i];
    }
    var k :| 0 <= k < |x| && x[k] != y[k];
    assert d[k];
    assert d == [true] + p;
  }

  lemma DivisorAgrees(p: Bits, a: Bits, b: Bits, x: Bits, y: Bits)
    requires |p| == |a| == |b| && |x| == |y| == |p| + 1
    requires forall i :: 0 <= i < |p| ==> (a[i] != b[i]) == (x[0] != y[0] && p[i])
    requires Xor(x, y) == [true] + p
    ensures Xor(a, x[1..]) == Xor(b, y[1..])
  {
    assert Xor(x, y)[0] == ([true] + p)[0];
    forall i | 0 <= i < |p| ensures Xor(a, x[1..])[i] == Xor(b, y[1..])[i] {
      assert Xor(x, y)[i + 1] == ([true] + p)[i + 1] == p[i];
      assert x[1..][i] == x[i + 1] && y[1..][i] == y[i + 1];
    }
  }

  // One bit longer and the bound is exact: the only undetected difference is
  // the divisor itself, with its leading coefficient.
  lemma LongestBurst(p: Bits, s: Bits, pre: Bits, x: Bits, y: Bits, post: Bits)
    requires |p| == |s| > 0 && p[|p| - 1]
    requires |x| == |y| == |p| + 1 && x != y
    ensures Divide(p, s, pre + x + post) == Divide(p, s, pre + y + post)
       <==> Xor(x, y) == [true] + p
  {
    var t := Divide(p, s, pre);
    WindowsCollide(p, s, pre, x, y, post);
    DivideLongest(p, t, x);
    DivideLongest(p, t, y);
    LongestDifference(p, t, x, y);
    var u, v := Xor(Step(p, Inject(t, x[0])), x[1..]), Xor(Step(p, Inject(t, y[0])), y[1..]);
    if Steps(p, u, |p|) == Steps(p, v, |p|) {
      StepsInjective(p, u, v, |p|);
    }
  }

  function Parity(s: Bits): bool {
    if s == [] then false else s[0] != Parity(s[1..])
  }

  lemma {:induction false} ParityConcat(a: Bits, b: Bits)
    ensures Parity(a + b) == (Parity(a) != Parity(b))
  {
    if a == [] {
      assert a + b == b;
    } else {
      assert (a + b)[1..] == a[1..] + b;
      ParityConcat(a[1..], b);
    }
  }

  lemma {:induction false} ParityXor(a: Bits, b: Bits)
    requires |a| == |b|
    ensures Parity(Xor(a, b)) == (Parity(a) != Parity(b))
  {
    if a != [] {
      assert Xor(a, b)[1..] == Xor(a[1..], b[1..]);
      ParityXor(a[1..], b[1..]);
    }
  }

  lemma {:induction false} ParityOfZeros(n: nat)
    ensures !Parity(Zeros(n))
  {
    if n > 0 {
      assert Zeros(n)[1..] == Zeros(n - 1);
      ParityOfZeros(n - 1);
    }
  }

  // If x + 1 divides the divisor, a step keeps the parity of the remainder.
  lemma StepParity(p: Bits, s: Bits)
    requires |p| == |s| > 0 && Parity(p)
    ensures Parity(Step(p, s)) == Parity(s)
  {
    var shifted := s[1..] + [false];
    ParityConcat(s[1..], [false]);
    ParityXor(shifted, p);
  }

  lemma {:induction false} DivideParity(p: Bits, s: Bits, msg: Bits)
    requires |p| == |s| > 0 && Parity(p)
    ensures Parity(Divide(p, s, msg)) == (Parity(s) != Parity(msg))
    decreases |msg|
  {
    if msg != [] {
      var t := Inject(s, msg[0]);
      assert t[1..] == s[1..];
      StepParity(p, t);
      DivideParity(p, Step(p, t), msg[1..]);
    }
  }

  // Such a divisor detects every error that flips an odd number of bits,
  // wherever they are.
  lemma OddErrorDetected(p: Bits, s: Bits, x: Bits, y: Bits)
    requires |p| == |s| > 0 && Parity(p)
    requires |x| == |y| && Parity(Xor(x, y))
    ensures Divide(p, s, x) != Divide(p, s, y)
  {
    DivideParity(p, s, x);
    DivideParity(p, s, y);
    ParityXor(x, y);
  }

  // The four bits of a hexadecimal digit, most significant first.
  function Hex(d: nat): (r: Bits)
    requires d < 16
    ensures |r| == 4
  {
    [d / 8 == 1, d / 4 % 2 == 1, d / 2 % 2 == 1, d % 2 == 1]
  }

  // Four hexadecimal digits, most significant first.
  function Hex4(a: nat, b: nat, c: nat, d: nat): (r: Bits)
    requires a < 16 && b < 16 && c < 16 && d < 16
    ensures |r| == 16 && r[15] == (d % 2 == 1)
  {
    (Hex(a) + Hex(b)) + (Hex(c) + Hex(d))
  }

  function Ones(d: nat): nat { d / 8 + d / 4 % 2 + d / 2 % 2 + d % 2 }

  lemma FourBits(a: bool, b: bool, c: bool, d: bool)
    ensures Parity([a, b, c, d]) == (a != (b != (c != d)))
  {
    assert [d][1..] == [] && Parity([d]) == d;
    assert [c, d][1..] == [d] && Parity([c, d]) == (c != d);
    assert [b, c, d][1..] == [c, d] && [a, b, c, d][1..] == [b, c, d];
  }

  lemma HexParity(d: nat)
    requires d < 16
    ensures Parity(Hex(d)) == (Ones(d) % 2 == 1)
  {
    var h := Hex(d);
    FourBits(h[0], h[1], h[2], h[3]);
    hide Parity;
  }

  lemma PairParity(a: Bits, b: Bits, m: nat, n: nat)
    requires Parity(a) == (m % 2 == 1) && Parity(b) == (n % 2 == 1)
    ensures Parity(a + b) == ((m + n) % 2 == 1)
  {
    ParityConcat(a, b);
  }

  lemma HexPairParity(a: nat, b: nat)
    requires a < 16 && b < 16
    ensures Parity(Hex(a) + Hex(b)) == ((Ones(a) + Ones(b)) % 2 == 1)
  {
    HexParity(a);
    HexParity(b);
    PairParity(Hex(a), Hex(b), Ones(a), Ones(b));
  }

  lemma Hex4Parity(p: Bits, a: nat, b: nat, c: nat, d: nat)
    requires a < 16 && b < 16 && c < 16 && d < 16 && p == Hex4(a, b, c, d)
    ensures Parity(p) == ((Ones(a) + Ones(b) + Ones(c) + Ones(d)) % 2 == 1)
  {
    HexPairParity(a, b);
    HexPairParity(c, d);
    PairParity(Hex(a) + Hex(b), Hex(c) + Hex(d), Ones(a) + Ones(b), Ones(c) + Ones(d));
  }
}
