/**
 in_cksum of util_in_cksum.cpp: the unrolled, lazily folded loop that sums a
 vector of pieces of memory; which bytes it sums, in what order, and when those
 are the bytes of the pieces.
 */
module VectorSum {
  import opened Bytes
  import opened InternetChecksum

  type int32 = x: int | -0x8000_0000 <= x < 0x8000_0000

  // vec_t: a pointer into some memory, which starts at an even address, and a
  // length. The memory is only read, so it is the value it holds meanwhile.
  datatype Vec = Vec(mem: seq<byte>, off: nat, len: nat)

  predicate Readable(v: Vec) { v.off + v.len <= |v.mem| }

  predicate OddAddress(v: Vec) { v.off % 2 == 1 }

  function PieceBytes(v: Vec): (r: seq<byte>)
    requires Readable(v)
    ensures |r| == v.len
  {
    v.mem[v.off..v.off + v.len]
  }

  predicate AllReadable(vs: seq<Vec>) {
    forall v :: v in vs ==> Readable(v)
  }

  // The bytes of the pieces, one after another: what is to be summed.
  function Gather(vs: seq<Vec>): (r: seq<byte>)
    requires AllReadable(vs)
  {
    if vs == [] then [] else Gather(vs[..|vs| - 1]) + PieceBytes(vs[|vs| - 1])
  }

  // w[k], with w a byte offset.
  function Load(big: bool, mem: seq<byte>, w: nat): uint16
    requires w + 2 <= |mem|
  {
    Word(big, mem[w], mem[w + 1])
  }

  // ------------------------------------------------------------ bytes exchanged

  lemma EvenSum(a: nat, b: nat)
    requires a % 2 == 0 && b % 2 == 0
    ensures (a + b) % 2 == 0
  {
  }

  // Every two bytes exchanged.
  function SwapPairs(bs: seq<byte>): (r: seq<byte>)
    requires |bs| % 2 == 0
    ensures |r| == |bs|
  {
    if bs == [] then [] else SwapPairs(bs[..|bs| - 2]) + [bs[|bs| - 1], bs[|bs| - 2]]
  }

  lemma {:induction false} SwapPairsConcat(a: seq<byte>, b: seq<byte>)
    requires |a| % 2 == 0 && |b| % 2 == 0
    ensures SwapPairs(a + b) == SwapPairs(a) + SwapPairs(b)
  {
    if b == [] {
      assert a + b == a;
    } else {
      var c := b[..|b| - 2];
      assert (a + b)[..|a + b| - 2] == a + c;
      SwapPairsConcat(a, c);
      assert SwapPairs(a + b) == SwapPairs(a + c) + [b[|b| - 1], b[|b| - 2]];
    }
  }

  lemma {:induction false} SwapPairsTwice(bs: seq<byte>)
    requires |bs| % 2 == 0
    ensures SwapPairs(SwapPairs(bs)) == bs
  {
    if bs != [] {
      var c, pair := bs[..|bs| - 2], [bs[|bs| - 1], bs[|bs| - 2]];
      SwapPairsTwice(c);
      var r := SwapPairs(c) + pair;
      assert r == SwapPairs(bs) && r[..|r| - 2] == SwapPairs(c);
      assert SwapPairs(r) == c + [bs[|bs| - 2], bs[|bs| - 1]];
    }
  }

  // Exchanged bytes sum to what the other kind of host would get, which is 256
  // times the sum modulo 0xffff.
  lemma {:induction false} SwappedSum(big: bool, bs: seq<byte>) returns (k: nat)
    requires |bs| % 2 == 0
    ensures 256 * Sum(big, bs) == Sum(big, SwapPairs(bs)) + 0xffff * k
    ensures Sum(big, SwapPairs(bs)) == 0 <==> Sum(big, bs) == 0
  {
    k := 0;
    if bs != [] {
      var c, a, b := bs[..|bs| - 2], bs[|bs| - 2], bs[|bs| - 1];
      var i := SwappedSum(big, c);
      var r := SwapPairs(c) + [b, a];
      assert r == SwapPairs(bs) && r[..|r| - 2] == SwapPairs(c);
      hide SwapPairs;
      assert Sum(big, r) == Sum(big, SwapPairs(c)) + Word(big, b, a);
      assert Sum(big, bs) == Sum(big, c) + Word(big, a, b);
      hide Sum;
      k := i + if big then a else b;
    }
  }

  // ------------------------------------------------------- what the code adds up

  // The bytes whose words have been added, and the word that is kept back for
  // later, if there is one (s_util, while mlen is -1).
  datatype Tally = Tally(sum: seq<byte>, left: seq<byte>)

  predicate Even(t: Tally) { |t.sum| % 2 == 0 && |t.left| in {0, 2} }

  // Where the words of v start, and for how many bytes, behind a word kept back:
  // the pointer skips a whole word then, the length one byte.
  function First(t: Tally, v: Vec): nat { v.off + |t.left| }

  function Count(t: Tally, v: Vec): nat
    requires v.len > 0
  {
    if t.left == [] then v.len else v.len - 1
  }

  predicate Reach(t: Tally, v: Vec) {
    v.len == 0 || First(t, v) + Count(t, v) + Count(t, v) % 2 <= |v.mem|
  }

  // What one piece does. At an odd address the first word is kept back and the
  // others count with their bytes exchanged.
  function AddVec(t: Tally, v: Vec): (r: Tally)
    requires Even(t) && Reach(t, v)
    ensures Even(r) && |r.sum + r.left| >= |t.sum + t.left|
  {
    if v.len == 0 then t
    else
      var x, w, n := t.sum + t.left, First(t, v), Count(t, v);
      if OddAddress(v) && n > 0 then
        var rest := SwapPairs(v.mem[w + 2..w + n + n % 2]);
        if n % 2 == 0 then Tally(x + rest + v.mem[w..w + 2], []) else Tally(x + rest, v.mem[w..w + 2])
      else
        var k := n - n % 2;
        Tally(x + v.mem[w..w + k], if n % 2 == 1 then v.mem[w + k..w + k + 2] else [])
  }

  // All that is read lies in memory.
  predicate InMemory(vs: seq<Vec>)
    decreases |vs|, 0
  {
    vs == [] || (InMemory(vs[..|vs| - 1]) && Reach(TallyAll(vs[..|vs| - 1]), vs[|vs| - 1]))
  }

  function TallyAll(vs: seq<Vec>): (t: Tally)
    requires InMemory(vs)
    ensures Even(t)
    decreases |vs|, 1
  {
    if vs == [] then Tally([], []) else AddVec(TallyAll(vs[..|vs| - 1]), vs[|vs| - 1])
  }

  function Summed(vs: seq<Vec>): (r: seq<byte>)
    requires InMemory(vs)
    ensures |r| % 2 == 0
  {
    var t := TallyAll(vs);
    t.sum + t.left
  }

  lemma TallySnoc(vs: seq<Vec>, v: Vec)
    requires InMemory(vs) && Reach(TallyAll(vs), v)
    ensures InMemory(vs + [v]) && TallyAll(vs + [v]) == AddVec(TallyAll(vs), v)
    ensures TallyAll([]) == Tally([], [])
  {
    hide AddVec, Reach;
    assert (vs + [v])[..|vs|] == vs;
  }

  lemma GatherSnoc(vs: seq<Vec>, v: Vec)
    requires AllReadable(vs) && Readable(v)
    ensures AllReadable(vs + [v]) && Gather(vs + [v]) == Gather(vs) + PieceBytes(v)
    ensures Gather([]) == []
  {
    assert (vs + [v])[..|vs|] == vs;
  }

  lemma {:induction false} Prefixes(vs: seq<Vec>, i: nat)
    requires InMemory(vs) && i <= |vs|
    ensures InMemory(vs[..i]) && |Summed(vs[..i])| <= |Summed(vs)|
    ensures i < |vs| ==>
      Reach(TallyAll(vs[..i]), vs[i]) && InMemory(vs[..i + 1]) && TallyAll(vs[..i + 1]) == AddVec(TallyAll(vs[..i]), vs[i])
  {
    if i == |vs| {
      assert vs[..i] == vs;
    } else {
      var us := vs[..|vs| - 1];
      hide AddVec, Reach;
      Prefixes(us, i);
      if i < |us| {
        assert us[..i] == vs[..i] && us[..i + 1] == vs[..i + 1];
      } else {
        assert us == vs[..i] && vs[..i + 1] == vs;
      }
    }
  }

  // ------------------------------------------------------------------- the loop

  // sum = l_util.s[0] + l_util.s[1], then ADDCARRY.
  function Reduce(sum: int32): (r: int32)
    requires sum >= 0
    ensures 0 <= r <= 0xffff && r <= sum && Canon(r) == Canon(sum)
  {
    var s := sum % 0x1_0000 + sum / 0x1_0000;
    var r := if s > 0xffff then s - 0xffff else s;
    assert r == sum - 0xffff * (sum / 0x1_0000 + if s > 0xffff then 1 else 0);
    CanonUnique(Canon(sum), r);
    r
  }

  // The running sum is that of x in what matters, and not too large; slack is
  // what a shift by eight bits may have added.
  predicate Holds(big: bool, x: seq<byte>, sum: int, slack: nat) {
    && |x| % 2 == 0 && 0 <= sum && 2 * sum <= 2 * slack + 0xffff * |x|
    && Canon(sum) == Canon(Sum(big, x))
  }

  // n bytes fit the int.
  predicate Spacious(slack: nat, n: nat) { 2 * slack + 0xffff * n < 0x1_0000_0000 }

  const SHIFTED := 0xffff00

  lemma HoldsInt(big: bool, x: seq<byte>, sum: int, slack: nat)
    requires Holds(big, x, sum, slack) && Spacious(slack, |x|)
    ensures 0 <= sum < 0x8000_0000
  {
    hide Canon, Sum;
  }

  lemma HoldsMore(big: bool, x: seq<byte>, sum: int, slack: nat, bs: seq<byte>)
    requires |bs| == 2 && Holds(big, x, sum, slack)
    ensures Holds(big, x + bs, sum + Word(big, bs[0], bs[1]), slack)
  {
    hide Canon, Sum, Word;
    EvenSum(|x|, 2);
    SumOfWord(big, bs);
    SumConcat(big, x, bs);
    var w := Word(big, bs[0], bs[1]);
    SameSum(sum, Sum(big, x), w);
    assert |x + bs| == |x| + 2;
    assert 2 * (sum + w) <= 2 * slack + 0xffff * |x| + 0xffff * 2;
  }

  lemma SameSum(a: nat, b: nat, x: nat)
    requires Canon(a) == Canon(b)
    ensures Canon(a + x) == Canon(b + x)
  {
    SameResidue(a, b, x);
    SameCanon(a + x, b + x);
  }

  // sum += *w++
  method AddOne(big: bool, m: seq<byte>, w: nat, sum0: int32, ghost x: seq<byte>, ghost slack: nat) returns (sum: int32)
    requires w + 2 <= |m| && Holds(big, x, sum0, slack) && Spacious(slack, |x| + 2)
    ensures Holds(big, x + m[w..w + 2], sum, slack)
  {
    hide Holds, Word;
    HoldsMore(big, x, sum0, slack, m[w..w + 2]);
    HoldsInt(big, x + m[w..w + 2], sum0 + Load(big, m, w), slack);
    sum := sum0 + Load(big, m, w);
  }

  lemma Longer(x: seq<byte>, m: seq<byte>, i: nat, j: nat, k: nat)
    requires i <= j <= k <= |m|
    ensures x + m[i..k] == x + m[i..j] + m[j..k]
  {
  }

  lemma StillSpacious(slack: nat, n: nat, k: nat)
    requires Spacious(slack, n) && k <= n
    ensures Spacious(slack, k)
  {
  }

  // The words between w0 and w have been added to the sum of x.
  predicate Upto(big: bool, m: seq<byte>, w0: nat, w: nat, sum: int, x: seq<byte>, slack: nat) {
    w0 <= w <= |m| && (w - w0) % 2 == 0 && Holds(big, x + m[w0..w], sum, slack)
  }

  method AddNext(big: bool, m: seq<byte>, w0: nat, w: nat, sum0: int32, ghost x: seq<byte>, ghost slack: nat, ghost n: nat)
    returns (sum: int32)
    requires w0 + n - n % 2 <= |m| && w + 2 <= w0 + n && Spacious(slack, |x| + n)
    requires Upto(big, m, w0, w, sum0, x, slack)
    ensures Upto(big, m, w0, w + 2, sum, x, slack)
  {
    hide Holds, Spacious;
    StillSpacious(slack, |x| + n, |x + m[w0..w]| + 2);
    sum := AddOne(big, m, w, sum0, x + m[w0..w], slack);
    Longer(x, m, w0, w, w + 2);
  }

  // sum += w[0]; sum += w[1]; sum += w[2]; sum += w[3];
  method AddFour(big: bool, m: seq<byte>, w0: nat, w: nat, sum0: int32, ghost x: seq<byte>, ghost slack: nat, ghost n: nat)
    returns (sum: int32)
    requires w0 + n - n % 2 <= |m| && w + 8 <= w0 + n && Spacious(slack, |x| + n)
    requires Upto(big, m, w0, w, sum0, x, slack)
    ensures Upto(big, m, w0, w + 8, sum, x, slack)
  {
    hide *;
    sum := AddNext(big, m, w0, w, sum0, x, slack, n);
    sum := AddNext(big, m, w0, w + 2, sum, x, slack, n);
    sum := AddNext(big, m, w0, w + 4, sum, x, slack, n);
    sum := AddNext(big, m, w0, w + 6, sum, x, slack, n);
  }

  lemma ReducedHolds(big: bool, x: seq<byte>, sum: int32, slack: nat)
    requires Holds(big, x, sum, slack)
    ensures sum >= 0 && Holds(big, x, Reduce(sum), slack)
  {
    hide Sum, Canon;
  }

  // The words from w0 on, for n bytes: the three loops.
  method AddWords(big: bool, m: seq<byte>, w0: nat, n: nat, byteSwapped: bool, sum0: int32,
                  ghost x: seq<byte>, ghost slack: nat)
    returns (sum: int32, mlen: int, w: nat)
    requires w0 + n - n % 2 <= |m| && Holds(big, x, sum0, slack) && Spacious(slack, |x| + n)
    ensures w == w0 + n - n % 2 && (mlen == -1 <==> n % 2 == 1)
    ensures Holds(big, x + m[w0..w], sum, slack)
  {
    hide *;
    sum, mlen, w := sum0, n, w0;
    UptoStart(big, m, w0, sum, x, slack);
    mlen := mlen - 32;
    while mlen >= 0
      invariant w + mlen + 32 == w0 + n && mlen >= -32 && Upto(big, m, w0, w, sum, x, slack)
      decreases mlen
    {
      sum := AddFour(big, m, w0, w, sum, x, slack, n);
      sum := AddFour(big, m, w0, w + 8, sum, x, slack, n);
      sum := AddFour(big, m, w0, w + 16, sum, x, slack, n);
      sum := AddFour(big, m, w0, w + 24, sum, x, slack, n);
      w := w + 32;
      mlen := mlen - 32;
    }
    mlen := mlen + 32;
    mlen := mlen - 8;
    while mlen >= 0
      invariant w + mlen + 8 == w0 + n && mlen >= -8 && Upto(big, m, w0, w, sum, x, slack)
      decreases mlen
    {
      sum := AddFour(big, m, w0, w, sum, x, slack, n);
      w := w + 8;
      mlen := mlen - 8;
    }
    mlen := mlen + 8;
    if mlen == 0 && !byteSwapped {
      UptoEnd(big, m, w0, w, sum, x, slack, n, -2);
      return;
    }
    UptoReduced(big, m, w0, w, sum, x, slack);
    sum := Reduce(sum);
    mlen := mlen - 2;
    while mlen >= 0
      invariant w + mlen + 2 == w0 + n && mlen >= -2 && Upto(big, m, w0, w, sum, x, slack)
      decreases mlen
    {
      sum := AddNext(big, m, w0, w, sum, x, slack, n);
      w := w + 2;
      mlen := mlen - 2;
    }
    UptoEnd(big, m, w0, w, sum, x, slack, n, mlen);
  }

  lemma UptoStart(big: bool, m: seq<byte>, w0: nat, sum: int, x: seq<byte>, slack: nat)
    requires Holds(big, x, sum, slack) && w0 <= |m|
    ensures Upto(big, m, w0, w0, sum, x, slack)
  {
    hide Holds;
    assert x + m[w0..w0] == x;
  }

  lemma UptoReduced(big: bool, m: seq<byte>, w0: nat, w: nat, sum: int32, x: seq<byte>, slack: nat)
    requires Upto(big, m, w0, w, sum, x, slack)
    ensures sum >= 0 && Upto(big, m, w0, w, Reduce(sum), x, slack)
  {
    hide Holds;
    ReducedHolds(big, x + m[w0..w], sum, slack);
  }

  lemma UptoEnd(big: bool, m: seq<byte>, w0: nat, w: nat, sum: int, x: seq<byte>, slack: nat, n: nat, mlen: int)
    requires Upto(big, m, w0, w, sum, x, slack) && w + mlen + 2 == w0 + n && mlen in {-1, -2}
    ensures w == w0 + n - n % 2 && w <= |m| && (mlen == -1 <==> n % 2 == 1) && Holds(big, x + m[w0..w], sum, slack)
  {
    hide Holds;
  }

  // REDUCE; sum <<= 8;
  method ShiftEight(big: bool, sum0: int32, ghost x: seq<byte>, ghost slack: nat) returns (sum: int32)
    requires Holds(big, x, sum0, slack)
    ensures |x| % 2 == 0 && Holds(big, SwapPairs(x), sum, SHIFTED)
  {
    ReducedHolds(big, x, sum0, slack);
    ShiftedHolds(big, x, Reduce(sum0), slack);
    hide Holds, Reduce;
    sum := Reduce(sum0);
    sum := 256 * sum;
  }

  lemma ShiftedHolds(big: bool, x: seq<byte>, r: int, slack: nat)
    requires Holds(big, x, r, slack) && r <= 0xffff
    ensures |x| % 2 == 0 && Holds(big, SwapPairs(x), 256 * r, SHIFTED)
  {
    var k := SwappedSum(big, x);
    ShiftedCanon(r, Sum(big, x), Sum(big, SwapPairs(x)), k);
    hide Canon, Sum, SwapPairs;
  }

  lemma ShiftedCanon(r: nat, s: nat, t: nat, k: nat)
    requires Canon(r) == Canon(s) && 256 * s == t + 0xffff * k && (t == 0 <==> s == 0)
    ensures Canon(256 * r) == Canon(t)
  {
    var c := Canon(r);
    assert r % 0xffff == s % 0xffff;
    hide Canon;
    var q := r / 0xffff - s / 0xffff;
    assert r == s + 0xffff * q;
    assert 256 * r == t + 0xffff * (k + 256 * q);
    SameMultipleResidue(256 * r, t, k + 256 * q);
    assert r == 0 <==> s == 0 by {
      ZeroCanon(r);
      ZeroCanon(s);
    }
    SameCanon(256 * r, t);
  }

  lemma ZeroCanon(r: nat)
    ensures Canon(r) == 0 <==> r == 0
  {
  }

  // The state between two pieces: the running sum, mlen and s_util.
  predicate Between(big: bool, t: Tally, sum: int, mlen: int, kept: uint16, slack: nat) {
    && Even(t) && Holds(big, t.sum, sum, slack)
    && (mlen == -1 <==> t.left != [])
    && (t.left != [] ==> kept == Word(big, t.left[0], t.left[1]))
  }

  // sum += s_util.s
  method AddKept(big: bool, ghost t: Tally, sum0: int32, mlen: int, kept: uint16, ghost slack: nat) returns (sum: int32)
    requires Between(big, t, sum0, mlen, kept, slack) && mlen == -1 && Spacious(slack, |t.sum + t.left|)
    ensures Holds(big, t.sum + t.left, sum, slack)
  {
    HoldsMore(big, t.sum, sum0, slack, t.left);
    hide Holds, Word;
    HoldsInt(big, t.sum + t.left, sum0 + kept, slack);
    sum := sum0 + kept;
  }

  // The body of the loop for a piece that is not empty, behind what was kept back.
  method AddPlain(big: bool, v: Vec, w0: nat, n: nat, sum0: int32, ghost x: seq<byte>, ghost slack: nat)
    returns (sum: int32, mlen: int, kept: uint16)
    requires Holds(big, x, sum0, slack) && w0 + n + n % 2 <= |v.mem| && Spacious(slack, |x| + n + n % 2)
    ensures var k := n - n % 2;
      Between(big, Tally(x + v.mem[w0..w0 + k], if n % 2 == 1 then v.mem[w0 + k..w0 + k + 2] else []), sum, mlen, kept, slack)
  {
    hide Holds, Spacious, Word;
    StillSpacious(slack, |x| + n + n % 2, |x| + n);
    EvenBytes(big, x, sum0, slack);
    var w: nat;
    kept := 0;
    sum, mlen, w := AddWords(big, v.mem, w0, n, false, sum0, x, slack);
    if mlen == -1 {
      kept := Load(big, v.mem, w);
    }
  }

  lemma EvenBytes(big: bool, x: seq<byte>, sum: int, slack: nat)
    requires Holds(big, x, sum, slack)
    ensures |x| % 2 == 0
  {
  }

  // The same at an odd address.
  method AddSwapped(big: bool, v: Vec, w0: nat, n: nat, sum0: int32, ghost x: seq<byte>, ghost slack: nat)
    returns (sum: int32, mlen: int, kept: uint16)
    requires n > 0 && Holds(big, x, sum0, slack) && w0 + n + n % 2 <= |v.mem| && Spacious(SHIFTED, |x| + n + n % 2)
    ensures var y := x + SwapPairs(v.mem[w0 + 2..w0 + n + n % 2]);
      Between(big, if n % 2 == 0 then Tally(y + v.mem[w0..w0 + 2], []) else Tally(y, v.mem[w0..w0 + 2]),
              sum, mlen, kept, SHIFTED)
  {
    hide Holds, Spacious, Word, SwapPairs;
    ghost var rest := v.mem[w0 + 2..w0 + n + n % 2];
    EvenBytes(big, x, sum0, slack);
    sum := ShiftEight(big, sum0, x, slack);
    kept := Load(big, v.mem, w0);
    var w: nat;
    StillSpacious(SHIFTED, |x| + n + n % 2, |SwapPairs(x)| + (n - 1));
    sum, mlen, w := AddWords(big, v.mem, w0 + 2, n - 1, true, sum, SwapPairs(x), SHIFTED);
    assert v.mem[w0 + 2..w] == rest;
    sum := ShiftEight(big, sum, SwapPairs(x) + rest, SHIFTED);
    SwapBack(x, rest);
    if mlen == -1 {
      HoldsMore(big, x + SwapPairs(rest), sum, SHIFTED, v.mem[w0..w0 + 2]);
      StillSpacious(SHIFTED, |x| + n + n % 2, |x + SwapPairs(rest) + v.mem[w0..w0 + 2]|);
      HoldsInt(big, x + SwapPairs(rest) + v.mem[w0..w0 + 2], sum + kept, SHIFTED);
      sum := sum + kept;
      mlen := 0;
    } else {
      mlen := -1;
    }
  }

  lemma SwapBack(x: seq<byte>, rest: seq<byte>)
    requires |x| % 2 == 0 && |rest| % 2 == 0
    ensures SwapPairs(SwapPairs(x) + rest) == x + SwapPairs(rest)
  {
    SwapPairsConcat(SwapPairs(x), rest);
    SwapPairsTwice(x);
    hide SwapPairs;
  }

  // The start of a piece: the word kept back is added, and a word skipped for it.
  method Enter(big: bool, v: Vec, ghost t: Tally, sum0: int32, mlen: int, kept: uint16, ghost slack: nat)
    returns (sum: int32, w: nat, n: nat)
    requires Between(big, t, sum0, mlen, kept, slack) && v.len > 0 && Spacious(slack, |t.sum + t.left|)
    ensures Holds(big, t.sum + t.left, sum, slack)
    ensures w == First(t, v) && n == Count(t, v) && (w % 2 == 1 <==> OddAddress(v))
  {
    sum, w, n := sum0, v.off, v.len;
    if mlen == -1 {
      sum := AddKept(big, t, sum, mlen, kept, slack);
      w := w + 2;
      n := n - 1;
    } else {
      assert t.sum + t.left == t.sum;
    }
    hide Holds, Word;
  }

  // One turn of the loop over the vector.
  method NextPiece(big: bool, v: Vec, ghost t: Tally, sum0: int32, mlen0: int, kept0: uint16, ghost slack: nat)
    returns (sum: int32, mlen: int, kept: uint16)
    requires Between(big, t, sum0, mlen0, kept0, slack) && Even(t) && Reach(t, v)
    requires Spacious(slack, |AddVec(t, v).sum + AddVec(t, v).left|)
    requires OddAddress(v) && v.len > 0 ==> slack == SHIFTED
    ensures Between(big, AddVec(t, v), sum, mlen, kept, slack)
  {
    hide *;
    sum, mlen, kept := sum0, mlen0, kept0;
    if v.len == 0 {
      AddNothing(t, v);
      return;
    }
    AddVecSize(t, v);
    StillSpacious(slack, |AddVec(t, v).sum + AddVec(t, v).left|, |t.sum + t.left|);
    var w: nat, n: nat;
    sum, w, n := Enter(big, v, t, sum, mlen, kept, slack);
    if w % 2 == 1 && n > 0 {
      AddVecOdd(t, v);
      sum, mlen, kept := AddSwapped(big, v, w, n, sum, t.sum + t.left, slack);
    } else {
      AddVecPlain(t, v);
      sum, mlen, kept := AddPlain(big, v, w, n, sum, t.sum + t.left, slack);
    }
  }

  lemma AddNothing(t: Tally, v: Vec)
    requires Even(t) && Reach(t, v) && v.len == 0
    ensures AddVec(t, v) == t
  {
  }

  lemma AddVecSize(t: Tally, v: Vec)
    requires Even(t) && Reach(t, v) && v.len > 0
    ensures First(t, v) + Count(t, v) + Count(t, v) % 2 <= |v.mem|
    ensures var n := Count(t, v); |AddVec(t, v).sum + AddVec(t, v).left| == |t.sum + t.left| + n + n % 2
  {
    hide SwapPairs;
  }

  lemma AddVecOdd(t: Tally, v: Vec)
    requires Even(t) && Reach(t, v) && v.len > 0 && OddAddress(v) && Count(t, v) > 0
    ensures var w, n := First(t, v), Count(t, v);
      var y := t.sum + t.left + SwapPairs(v.mem[w + 2..w + n + n % 2]);
      AddVec(t, v) == if n % 2 == 0 then Tally(y + v.mem[w..w + 2], []) else Tally(y, v.mem[w..w + 2])
  {
    hide SwapPairs;
  }

  lemma AddVecPlain(t: Tally, v: Vec)
    requires Even(t) && Reach(t, v) && v.len > 0 && !(OddAddress(v) && Count(t, v) > 0)
    ensures var w, n := First(t, v), Count(t, v); var k := n - n % 2;
      AddVec(t, v) == Tally(t.sum + t.left + v.mem[w..w + k], if n % 2 == 1 then v.mem[w + k..w + k + 2] else [])
  {
  }

  // The sum fits an int: up to 65536 bytes, and some less when pieces at odd
  // addresses make the code shift it.
  predicate Fits(vs: seq<Vec>)
    requires InMemory(vs)
  {
    Spacious(Slack(vs), |Summed(vs)|)
  }

  function Slack(vs: seq<Vec>): nat {
    if exists v :: v in vs && OddAddress(v) && v.len > 0 then SHIFTED else 0
  }

  // uint16_t in_cksum(const vec_t *vec, int veclen)
  method InCksum(big: bool, vec: array<Vec>, veclen: nat) returns (r: uint16)
    requires veclen <= vec.Length && InMemory(vec[..veclen]) && Fits(vec[..veclen])
    ensures r == Checksum(big, Summed(vec[..veclen]))
  {
    hide *;
    ghost var vs := vec[..veclen];
    ghost var slack := Slack(vs);
    ghost var t := Tally([], []);
    var sum: int32, mlen: int, kept: uint16 := 0, 0, 0;
    TallyStart(big, vs, slack);
    for i := 0 to veclen
      invariant InMemory(vs[..i]) && t == TallyAll(vs[..i]) && Between(big, t, sum, mlen, kept, slack)
    {
      TallyNext(vs, i);
      sum, mlen, kept := NextPiece(big, vec[i], t, sum, mlen, kept, slack);
      t := AddVec(t, vec[i]);
    }
    assert vs[..veclen] == vs;
    TallyDone(big, vs, t, sum, mlen, kept, slack);
    if mlen == -1 {
      sum := sum + kept;
    }
    sum := Reduce(sum);
    r := 0xffff - sum;
  }

  lemma TallyStart(big: bool, vs: seq<Vec>, slack: nat)
    ensures vs[..0] == [] && InMemory(vs[..0]) && TallyAll(vs[..0]) == Tally([], [])
    ensures Between(big, Tally([], []), 0, 0, 0, slack)
  {
  }

  lemma TallyNext(vs: seq<Vec>, i: nat)
    requires InMemory(vs) && Fits(vs) && i < |vs|
    ensures InMemory(vs[..i]) && Reach(TallyAll(vs[..i]), vs[i]) && InMemory(vs[..i + 1])
    ensures var r := AddVec(TallyAll(vs[..i]), vs[i]);
      TallyAll(vs[..i + 1]) == r && Spacious(Slack(vs), |r.sum + r.left|)
    ensures OddAddress(vs[i]) && vs[i].len > 0 ==> Slack(vs) == SHIFTED
  {
    Prefixes(vs, i);
    Prefixes(vs, i + 1);
    hide AddVec, Reach, TallyAll, InMemory;
    assert vs[i] in vs;
    StillSpacious(Slack(vs), |Summed(vs)|, |Summed(vs[..i + 1])|);
  }

  // The end, with or without a word kept back.
  lemma TallyDone(big: bool, vs: seq<Vec>, t: Tally, sum: int, mlen: int, kept: uint16, slack: nat)
    requires InMemory(vs) && Fits(vs) && slack == Slack(vs) && t == TallyAll(vs)
    requires Between(big, t, sum, mlen, kept, slack)
    ensures var x := if mlen == -1 then sum + kept else sum;
      0 <= x < 0x8000_0000 && 0xffff - Reduce(x) == Checksum(big, Summed(vs))
  {
    hide Holds, Word, Reduce, OnesSum, Slack, TallyAll, InMemory;
    var x := if mlen == -1 then sum + kept else sum;
    if mlen == -1 {
      HoldsMore(big, t.sum, sum, slack, t.left);
    } else {
      assert t.sum + t.left == t.sum;
    }
    HoldsInt(big, Summed(vs), x, slack);
    ReducedIsOnesSum(big, Summed(vs), x, slack);
  }

  lemma ReducedIsOnesSum(big: bool, x: seq<byte>, sum: int32, slack: nat)
    requires Holds(big, x, sum, slack)
    ensures |x| % 2 == 0 && sum >= 0 && Reduce(sum) == OnesSum(big, x)
  {
    hide OnesSum, Sum, Reduce, Canon;
    OnesSumIsCanon(big, x);
    CanonOfWord(Reduce(sum));
  }
}
