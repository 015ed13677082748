/**
 The table-driven form of a reflected check, for a remainder of any width and
 message digits of any width up to it.
 */
module TableDriven {
  import opened Bytes
  import opened Gf2
  import opened Words

  // The table entry for the digit i of width k: what k division steps leave
  // of it.
  function Entry(p: Bits, k: nat, i: nat): (r: nat)
    requires k <= |p| && |p| > 0
    ensures r < Pow2(|p|)
    ensures ToBits(r, |p|) == Steps(p, ToBits(i, k) + Zeros(|p| - k), k)
  {
    var s := Steps(p, ToBits(i, k) + Zeros(|p| - k), k);
    ToFromBits(s);
    FromBits(s)
  }

  // One digit of the message: a table lookup instead of k division steps.
  function Lookup(p: Bits, k: nat, crc: nat, d: nat): nat
    requires k <= |p| && |p| > 0
  {
    XorWord(Entry(p, k, LowBits(XorWord(crc, d), k)), ShiftRight(crc, k))
  }

  lemma IndexBits(crc: nat, d: nat, k: nat, w: nat)
    requires k <= w
    ensures ToBits(LowBits(XorWord(crc, d), k), k) == Xor(ToBits(crc, w)[..k], ToBits(d, k))
  {
    ToBitsXor(crc, d, k);
    ToBitsLow(XorWord(crc, d), k, k);
    ToBitsLow(crc, k, w);
    ToBitsLow(crc, k, k);
  }

  // One table lookup is k single-bit division steps.
  lemma LookupDivides(p: Bits, k: nat, crc: nat, d: nat)
    requires k <= |p| && |p| > 0 && crc < Pow2(|p|) && d < Pow2(k)
    ensures Lookup(p, k, crc, d) < Pow2(|p|)
    ensures ToBits(Lookup(p, k, crc, d), |p|) == Divide(p, ToBits(crc, |p|), ToBits(d, k))
  {
    var w, q := |p|, ShiftRight(crc, k);
    var e := Entry(p, k, LowBits(XorWord(crc, d), k));
    DivideByTable(p, ToBits(crc, w), ToBits(d, k));
    IndexBits(crc, d, k, w);
    ToBitsShift(crc, k, w);
    ToBitsXor(e, q, w);
    XorWordBound(e, q, w);
  }

  // The message bits of a sequence of digits, every digit least significant
  // bit first.
  function Stream(buf: seq<nat>, k: nat): (r: Bits)
    ensures |r| == k * |buf|
  {
    if buf == [] then [] else Stream(buf[..|buf| - 1], k) + ToBits(buf[|buf| - 1], k)
  }

  lemma {:induction false} StreamConcat(a: seq<nat>, b: seq<nat>, k: nat)
    ensures Stream(a + b, k) == Stream(a, k) + Stream(b, k)
    decreases |b|
  {
    if b == [] {
      assert a + b == a;
    } else {
      var c := b[..|b| - 1];
      assert (a + b)[..|a + b| - 1] == a + c;
      StreamConcat(a, c, k);
      assert Stream(a, k) + Stream(c, k) + ToBits(b[|b| - 1], k) == Stream(a, k) + (Stream(c, k) + ToBits(b[|b| - 1], k));
    }
  }

  ghost predicate Digits(buf: seq<nat>, k: nat) {
    forall i :: 0 <= i < |buf| ==> buf[i] < Pow2(k)
  }

  lemma BytesAreDigits(msg: seq<byte>)
    ensures Digits(msg, 8)
  {
    WordSize();
  }

  lemma StreamSnoc(m: seq<nat>, d: nat, k: nat)
    ensures Stream(m + [d], k) == Stream(m, k) + ToBits(d, k)
  {
    hide ToBits;
    assert (m + [d])[..|m|] == m;
  }

  lemma TailsEqual(x: Bits, u: Bits, y: Bits, v: Bits)
    requires |x| == |y| && x + u == y + v
    ensures x == y && u == v
  {
    assert (x + u)[..|x|] == x && (y + v)[..|x|] == y;
    assert (x + u)[|x|..] == u && (y + v)[|x|..] == v;
  }

  lemma {:induction false} StreamInjective(a: seq<nat>, b: seq<nat>, k: nat)
    requires |a| == |b| && Digits(a, k) && Digits(b, k) && Stream(a, k) == Stream(b, k)
    ensures a == b
    decreases |a|
  {
    hide Stream, ToBits, Pow2;
    if a != [] {
      var n := |a| - 1;
      var x, y := a[..n], b[..n];
      assert a == x + [a[n]] && b == y + [b[n]];
      StreamSnoc(x, a[n], k);
      StreamSnoc(y, b[n], k);
      TailsEqual(Stream(x, k), ToBits(a[n], k), Stream(y, k), ToBits(b[n], k));
      StreamInjective(x, y, k);
      ToBitsInjective(a[n], b[n], k);
    }
  }

  // The digit loop as a function of the digits.
  function DigitLoop(p: Bits, k: nat, crc: nat, buf: seq<nat>): nat
    requires k <= |p| && |p| > 0
  {
    if buf == [] then crc
    else Lookup(p, k, DigitLoop(p, k, crc, buf[..|buf| - 1]), buf[|buf| - 1])
  }

  // For any message and any seed, the table-driven loop is bit-serial division.
  lemma {:induction false} DigitLoopDivides(p: Bits, k: nat, crc: nat, buf: seq<nat>)
    requires k <= |p| && |p| > 0 && crc < Pow2(|p|) && Digits(buf, k)
    ensures DigitLoop(p, k, crc, buf) < Pow2(|p|)
    ensures ToBits(DigitLoop(p, k, crc, buf), |p|) == Divide(p, ToBits(crc, |p|), Stream(buf, k))
    decreases |buf|
  {
    if buf != [] {
      var n := |buf| - 1;
      DigitLoopDivides(p, k, crc, buf[..n]);
      LookupDivides(p, k, DigitLoop(p, k, crc, buf[..n]), buf[n]);
      DivideConcat(p, ToBits(crc, |p|), Stream(buf[..n], k), ToBits(buf[n], k));
    }
  }

  lemma {:induction false} DigitLoopConcat(p: Bits, k: nat, crc: nat, a: seq<nat>, b: seq<nat>)
    requires k <= |p| && |p| > 0
    ensures DigitLoop(p, k, crc, a + b) == DigitLoop(p, k, DigitLoop(p, k, crc, a), b)
    decreases |b|
  {
    if b == [] {
      assert a + b == a;
    } else {
      var c := b[..|b| - 1];
      assert (a + b)[..|a + b| - 1] == a + c;
      DigitLoopConcat(p, k, crc, a, c);
    }
  }

  // Equal digit loops mean equal remainders.
  lemma SameLoopSameRemainder(p: Bits, k: nat, crc: nat, a: seq<nat>, b: seq<nat>)
    requires k <= |p| && |p| > 0 && crc < Pow2(|p|) && Digits(a, k) && Digits(b, k)
    ensures DigitLoop(p, k, crc, a) == DigitLoop(p, k, crc, b)
       <==> Divide(p, ToBits(crc, |p|), Stream(a, k)) == Divide(p, ToBits(crc, |p|), Stream(b, k))
  {
    DigitLoopDivides(p, k, crc, a);
    DigitLoopDivides(p, k, crc, b);
    if ToBits(DigitLoop(p, k, crc, a), |p|) == ToBits(DigitLoop(p, k, crc, b), |p|) {
      ToBitsInjective(DigitLoop(p, k, crc, a), DigitLoop(p, k, crc, b), |p|);
    }
  }

  lemma StreamSplit(a: seq<nat>, k: nat, i: nat, n: nat)
    requires i + n <= |a|
    ensures Stream(a, k) == Stream(a[..i], k) + Stream(a[i..i + n], k) + Stream(a[i + n..], k)
  {
    assert a == a[..i + n] + a[i + n..] && a[..i + n] == a[..i] + a[i..i + n];
    StreamConcat(a[..i + n], a[i + n..], k);
    StreamConcat(a[..i], a[i..i + n], k);
  }

  // Two messages that differ only inside a window no wider than the remainder
  // never have the same check.
  lemma WindowDetected(p: Bits, k: nat, crc: nat, a: seq<nat>, b: seq<nat>, i: nat, n: nat)
    requires 0 < k <= |p| && p[|p| - 1] && crc < Pow2(|p|)
    requires |a| == |b| && Digits(a, k) && Digits(b, k)
    requires i + n <= |a| && k * n <= |p|
    requires a[..i] == b[..i] && a[i + n..] == b[i + n..] && a != b
    ensures DigitLoop(p, k, crc, a) != DigitLoop(p, k, crc, b)
  {
    var x, y := a[i..i + n], b[i..i + n];
    assert a == a[..i] + x + a[i + n..] && b == b[..i] + y + b[i + n..];
    if Stream(x, k) == Stream(y, k) {
      StreamInjective(x, y, k);
    }
    StreamSplit(a, k, i, n);
    StreamSplit(b, k, i, n);
    BurstDetected(p, ToBits(crc, |p|), Stream(a[..i], k), Stream(x, k), Stream(y, k), Stream(a[i + n..], k));
    SameLoopSameRemainder(p, k, crc, a, b);
  }

  // The digits of a word, least significant first, stream as its bits.
  function WordDigits(x: nat, k: nat, n: nat): (r: seq<nat>)
    ensures |r| == n && Digits(r, k)
    decreases n, x
  {
    if n == 0 then [] else [LowBits(x, k)] + WordDigits(ShiftRight(x, k), k, n - 1)
  }

  lemma {:induction false} WordDigitsStream(x: nat, k: nat, n: nat)
    ensures Stream(WordDigits(x, k, n), k) == ToBits(x, k * n)
    decreases n
  {
    if n > 0 {
      var q := ShiftRight(x, k);
      WordDigitsStream(q, k, n - 1);
      StreamConcat([LowBits(x, k)], WordDigits(q, k, n - 1), k);
      SingleStream(LowBits(x, k), k);
      ToBitsSplit(x, k, k * (n - 1));
      assert WordDigits(x, k, n) == [LowBits(x, k)] + WordDigits(q, k, n - 1);
      assert k * n == k + k * (n - 1);
    } else {
      assert k * n == 0;
    }
  }

  lemma SingleStream(d: nat, k: nat)
    ensures Stream([d], k) == ToBits(d, k)
  {
    assert [d][..0] == [];
    assert Stream([d], k) == Stream([], k) + ToBits(d, k);
  }

  // Appending a whole word to the message adds it to the remainder.
  lemma WordAppended(p: Bits, k: nat, n: nat, crc: nat, msg: seq<nat>, v: nat)
    requires 0 < k <= |p| == k * n && crc < Pow2(|p|) && Digits(msg, k)
    ensures ToBits(DigitLoop(p, k, crc, msg + WordDigits(v, k, n)), |p|)
         == Steps(p, Xor(ToBits(DigitLoop(p, k, crc, msg), |p|), ToBits(v, |p|)), |p|)
  {
    var w, s, d := |p|, DigitLoop(p, k, crc, msg), WordDigits(v, k, n);
    DigitLoopConcat(p, k, crc, msg, d);
    DigitLoopDivides(p, k, crc, msg);
    DigitLoopDivides(p, k, s, d);
    WordDigitsStream(v, k, n);
    DivideIsSteps(p, ToBits(s, w), ToBits(v, w));
    assert ToBits(v, w) + Zeros(0) == ToBits(v, w);
  }

  // Appended to the same message, different words leave different checks.
  lemma AppendedWordsDiffer(p: Bits, k: nat, n: nat, crc: nat, msg: seq<nat>, u: nat, v: nat)
    requires 0 < k <= |p| == k * n && p[|p| - 1] && crc < Pow2(|p|) && Digits(msg, k)
    requires u < Pow2(|p|) && v < Pow2(|p|) && u != v
    ensures DigitLoop(p, k, crc, msg + WordDigits(u, k, n)) != DigitLoop(p, k, crc, msg + WordDigits(v, k, n))
  {
    var w := |p|;
    var s := ToBits(DigitLoop(p, k, crc, msg), w);
    var x, y := Xor(s, ToBits(u, w)), Xor(s, ToBits(v, w));
    WordAppended(p, k, n, crc, msg, u);
    WordAppended(p, k, n, crc, msg, v);
    if Steps(p, x, w) == Steps(p, y, w) {
      StepsInjective(p, x, y, w);
      assert forall i :: 0 <= i < w ==> x[i] == y[i];
      assert ToBits(u, w) == ToBits(v, w);
      ToBitsInjective(u, v, w);
    }
  }
}
