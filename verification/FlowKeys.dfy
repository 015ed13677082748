/**
 Flow keys: process_flow_key, match and equal of packet_flow.cpp, against the
 comparison that packet_flow.h documents.
 */
module FlowKeys {
  import opened Gf2
  import opened Words
  import opened PacketState

  const PAIRS := 3

  predicate Valid(k: FlowKey) {
    && |k.forward| == PAIRS && |k.reverse| == PAIRS && k.pairCount <= PAIRS && |k.hash| == 32
  }

  // ------------------------------------------------------------------- hashing

  // ((uint32_t) header_map) ^ (header_map >> 32) ^ flags
  function BaseHash(k: FlowKey): (r: Bits)
    ensures |r| == 32
  {
    seq(32, i => ((i in k.headerMap) != (i + 32 in k.headerMap)) != (i == 0 && k.reversable))
  }

  // One pair, of which the order does not matter to the hash.
  function PairHash(reversable: bool, pair: (nat, nat)): (r: Bits)
    ensures |r| == 32
  {
    var a, b := ToBits(pair.0, 32), ToBits(pair.1, 32);
    if reversable then Xor(a, b) else Xor(Rotated(a), Rotated(b))
  }

  // (x << 16) ^ (x >> 16)
  function Rotated(a: Bits): (r: Bits)
    requires |a| == 32
    ensures |r| == 32
  {
    Xor(Zeros(16) + a[..16], a[16..] + Zeros(16))
  }

  function PairsHash(reversable: bool, pairs: seq<(nat, nat)>): (r: Bits)
    ensures |r| == 32
  {
    if pairs == [] then Zeros(32)
    else Xor(PairsHash(reversable, pairs[..|pairs| - 1]), PairHash(reversable, pairs[|pairs| - 1]))
  }

  function SwapPair(p: (nat, nat)): (nat, nat) { (p.1, p.0) }

  function SwapAll(ps: seq<(nat, nat)>): (r: seq<(nat, nat)>)
    ensures |r| == |ps| && forall i :: 0 <= i < |ps| ==> r[i] == SwapPair(ps[i])
  {
    seq(|ps|, i requires 0 <= i < |ps| => SwapPair(ps[i]))
  }

  function Used(k: FlowKey): (r: seq<(nat, nat)>)
    requires Valid(k)
    ensures |r| == k.pairCount
  {
    k.forward[..k.pairCount]
  }

  // What process_flow_key leaves behind.
  function Processed(k: FlowKey): (r: FlowKey)
    requires Valid(k)
    ensures Valid(r)
  {
    var t := if k.reversable then k.(reverse := SwapAll(Used(k)) + k.reverse[k.pairCount..]) else k;
    if k.hash == Zeros(32) then t.(hash := Xor(BaseHash(k), PairsHash(k.reversable, Used(k)))) else t
  }

  // Only what has not been hashed is, and only the pairs of a reversable key are
  // reversed.
  lemma ProcessedOnce(k: FlowKey)
    requires Valid(k)
    ensures k.hash != Zeros(32) ==> Processed(k).hash == k.hash
    ensures !k.reversable ==> Processed(k).reverse == k.reverse
    ensures var r := Processed(k); r == k.(hash := r.hash, reverse := r.reverse)
  {
    hide BaseHash, PairsHash;
  }

  // The hash folds the map of 64 ids to 32 bits, so that ids 32 apart are the same to
  // it, and both together are nothing.
  lemma MapFolds(k: FlowKey, id: int)
    requires 0 <= id < 32 && {id, id + 32} !! k.headerMap
    ensures BaseHash(k.(headerMap := k.headerMap + {id})) == BaseHash(k.(headerMap := k.headerMap + {id + 32}))
    ensures BaseHash(k.(headerMap := k.headerMap + {id, id + 32})) == BaseHash(k)
    ensures BaseHash(k.(headerMap := k.headerMap + {id})) != BaseHash(k)
  {
    var x, y := k.(headerMap := k.headerMap + {id}), k.(headerMap := k.headerMap + {id + 32});
    assert id !in k.headerMap && id + 32 !in k.headerMap;
    assert BaseHash(x)[id] != BaseHash(k)[id];
  }

  // The reversable flag is the lowest bit.
  lemma FlagHashed(k: FlowKey, i: nat)
    requires i < 32 && !k.reversable
    ensures BaseHash(k.(reversable := true))[i] != BaseHash(k)[i] <==> i == 0
  {
  }

  lemma XorSwaps(a: Bits, b: Bits)
    requires |a| == |b|
    ensures Xor(a, b) == Xor(b, a)
  {
  }

  lemma XorAssoc(a: Bits, b: Bits, c: Bits)
    requires |a| == |b| == |c|
    ensures Xor(Xor(a, b), c) == Xor(a, Xor(b, c))
  {
  }

  lemma {:induction false} SwappedHash(reversable: bool, ps: seq<(nat, nat)>)
    ensures PairsHash(reversable, SwapAll(ps)) == PairsHash(reversable, ps)
  {
    if ps != [] {
      var qs := SwapAll(ps);
      assert qs[..|qs| - 1] == SwapAll(ps[..|ps| - 1]);
      SwappedHash(reversable, ps[..|ps| - 1]);
      PairHashSwaps(reversable, ps[|ps| - 1]);
    }
  }

  lemma PairHashSwaps(reversable: bool, p: (nat, nat))
    ensures PairHash(reversable, SwapPair(p)) == PairHash(reversable, p)
  {
    hide ToBits, Rotated;
    var a, b := ToBits(p.0, 32), ToBits(p.1, 32);
    XorSwaps(a, b);
    XorSwaps(Rotated(a), Rotated(b));
  }

  // ------------------------------------------------------------------ the code

  // The first half of process_flow_key.
  method ReversePairs(k: FlowKey) returns (r: FlowKey)
    requires Valid(k) && k.reversable
    ensures r == k.(reverse := SwapAll(Used(k)) + k.reverse[k.pairCount..])
  {
    r := k;
    for i := 0 to r.pairCount
      invariant r == k.(reverse := r.reverse) && |r.reverse| == PAIRS
      invariant forall j :: 0 <= j < i ==> r.reverse[j] == SwapPair(k.forward[j])
      invariant forall j :: i <= j < PAIRS ==> r.reverse[j] == k.reverse[j]
    {
      r := r.(reverse := r.reverse[i := (r.forward[i].1, r.forward[i].0)]);
    }
    assert r.reverse == SwapAll(Used(k)) + k.reverse[k.pairCount..];
  }

  // The second half: the reverse pairs are hashed when there are any.
  method HashPairs(k: FlowKey) returns (h: Bits)
    requires Valid(k) && (k.reversable ==> k.reverse[..k.pairCount] == SwapAll(Used(k)))
    ensures h == Xor(BaseHash(k), PairsHash(k.reversable, Used(k)))
  {
    hide Rotated, ToBits, BaseHash, PairsHash, PairHash;
    h := BaseHash(k);
    ghost var used := Used(k);
    HashStart(k, used);
    for i := 0 to k.pairCount
      invariant |h| == 32 && h == Xor(BaseHash(k), PairsHash(k.reversable, used[..i]))
    {
      HashStep(k, used, i);
      ghost var h0 := h;
      if k.reversable {
        assert k.reverse[i] == SwapAll(Used(k))[i] == SwapPair(used[i]);
        h := Xor(h, ToBits(k.reverse[i].0, 32));
        h := Xor(h, ToBits(k.reverse[i].1, 32));
        PairHashXors(h0, used[i]);
      } else {
        var a, b := ToBits(k.forward[i].0, 32), ToBits(k.forward[i].1, 32);
        h := Xor(h, Zeros(16) + a[..16]);
        h := Xor(h, a[16..] + Zeros(16));
        h := Xor(h, b[16..] + Zeros(16));
        h := Xor(h, Zeros(16) + b[..16]);
        FourXors(h0, used[i]);
      }
    }
    assert used[..k.pairCount] == used;
  }

  // void process_flow_key(scan_t *scan), on the key of the packet
  method ProcessFlowKey(k: FlowKey) returns (r: FlowKey)
    requires Valid(k)
    ensures r == Processed(k)
  {
    hide PairsHash, BaseHash;
    r := k;
    if r.reversable {
      r := ReversePairs(r);
      SameBase(k, r);
    }
    if r.hash == Zeros(32) {
      var h := HashPairs(r);
      r := r.(hash := h);
    }
  }

  lemma SameBase(k: FlowKey, r: FlowKey)
    requires r.headerMap == k.headerMap && r.reversable == k.reversable
    ensures BaseHash(r) == BaseHash(k)
  {
  }

  lemma HashStart(k: FlowKey, used: seq<(nat, nat)>)
    ensures BaseHash(k) == Xor(BaseHash(k), PairsHash(k.reversable, used[..0]))
  {
    XorZero(BaseHash(k));
  }

  lemma PairHashXors(h: Bits, p: (nat, nat))
    requires |h| == 32
    ensures Xor(Xor(h, ToBits(p.1, 32)), ToBits(p.0, 32)) == Xor(h, PairHash(true, p))
  {
    hide ToBits;
    TwoXors(h, ToBits(p.1, 32), ToBits(p.0, 32));
  }

  lemma XorZero(h: Bits)
    ensures Xor(h, Zeros(|h|)) == h
  {
  }

  lemma TwoXors(h: Bits, a: Bits, b: Bits)
    requires |h| == |a| == |b|
    ensures Xor(Xor(h, a), b) == Xor(h, Xor(b, a))
  {
  }

  lemma FourXors(h: Bits, p: (nat, nat))
    requires |h| == 32
    ensures var a, b := ToBits(p.0, 32), ToBits(p.1, 32);
      Xor(Xor(Xor(Xor(h, Zeros(16) + a[..16]), a[16..] + Zeros(16)), b[16..] + Zeros(16)), Zeros(16) + b[..16])
      == Xor(h, PairHash(false, p))
  {
    hide ToBits;
  }

  lemma HashStep(k: FlowKey, used: seq<(nat, nat)>, i: nat)
    requires i < |used|
    ensures Xor(BaseHash(k), PairsHash(k.reversable, used[..i + 1]))
      == Xor(Xor(BaseHash(k), PairsHash(k.reversable, used[..i])), PairHash(k.reversable, used[i]))
  {
    assert used[..i + 1][..i] == used[..i];
    hide BaseHash, PairHash;
    XorAssoc(BaseHash(k), PairsHash(k.reversable, used[..i]), PairHash(k.reversable, used[i]));
  }

  // ------------------------------------------------------------- the comparisons

  // Byte j of an array of pairs of 32-bit words, as it lies in memory.
  function ByteAt(big: bool, ps: seq<(nat, nat)>, j: nat): nat
    requires j / 8 < |ps|
  {
    var word := if j / 4 % 2 == 0 then ps[j / 8].0 else ps[j / 8].1;
    WordByte(word, if big then 3 - j % 4 else j % 4)
  }

  // Byte i of a word, from the least significant one.
  function WordByte(word: nat, i: nat): nat {
    if i == 0 then word % 256 else WordByte(word / 256, i - 1)
  }

  // memcmp(..., n) == 0
  predicate SameBytes(big: bool, ps: seq<(nat, nat)>, qs: seq<(nat, nat)>, n: nat)
    requires |ps| == |qs| && n <= 8 * |ps|
  {
    forall j :: 0 <= j < n ==> ByteAt(big, ps, j) == ByteAt(big, qs, j)
  }

  predicate BasicsMatch(k1: FlowKey, k2: FlowKey) {
    k1.hash == k2.hash && k1.reversable == k2.reversable && k1.headerMap == k2.headerMap
  }

  // jint match(JFlowKey): 1 forward, -1 reverse, 0 not at all. The memory
  // comparison covers pair_count * 2 bytes.
  function Match(big: bool, k1: FlowKey, k2: FlowKey): int
    requires Valid(k1) && Valid(k2)
  {
    if !BasicsMatch(k1, k2) then 0
    else if SameBytes(big, k1.forward, k2.forward, k1.pairCount * 2) then 1
    else if k1.reversable && SameBytes(big, k1.forward, k2.reverse, k1.pairCount * 2) then -1
    else 0
  }

  // jboolean equal(JFlowKey)
  predicate Equal(big: bool, k1: FlowKey, k2: FlowKey)
    requires Valid(k1) && Valid(k2)
  {
    && BasicsMatch(k1, k2)
    && if k1.reversable then
        || SameBytes(big, k1.forward, k2.forward, k1.pairCount * 2)
        || SameBytes(big, k1.forward, k2.reverse, k1.pairCount * 2)
      else
        SameBytes(big, k1.forward, k2.forward, k1.pairCount * 2)
  }

  // The comparison as it is documented: all the pair values.
  function DocumentedMatch(k1: FlowKey, k2: FlowKey): int
    requires Valid(k1) && Valid(k2)
  {
    if !BasicsMatch(k1, k2) then 0
    else if k1.forward[..k1.pairCount] == k2.forward[..k1.pairCount] then 1
    else if k1.reversable && k1.forward[..k1.pairCount] == k2.reverse[..k1.pairCount] then -1
    else 0
  }

  // A key as a scan leaves it: nothing hashed yet, then processed.
  predicate IsProcessed(k: FlowKey) {
    Valid(k) && (k.reversable ==> k.reverse[..k.pairCount] == SwapAll(Used(k)))
  }

  lemma ProcessedIs(k: FlowKey)
    requires Valid(k)
    ensures IsProcessed(Processed(k)) && Used(Processed(k)) == Used(k)
  {
    var r := Processed(k);
    if k.reversable {
      assert r.reverse[..k.pairCount] == SwapAll(Used(k));
    }
  }

  lemma SamePrefix(big: bool, ps: seq<(nat, nat)>, qs: seq<(nat, nat)>, n: nat)
    requires |ps| == |qs| && n <= |ps| && ps[..n] == qs[..n]
    ensures SameBytes(big, ps, qs, n * 2)
  {
    forall j | 0 <= j < n * 2 ensures ByteAt(big, ps, j) == ByteAt(big, qs, j) {
      assert ps[j / 8] == ps[..n][j / 8] == qs[..n][j / 8] == qs[j / 8];
    }
  }

  // The code never misses a documented match, and equal is match in one bit.
  lemma NeverMisses(big: bool, k1: FlowKey, k2: FlowKey)
    requires Valid(k1) && Valid(k2)
    ensures DocumentedMatch(k1, k2) != 0 ==> Match(big, k1, k2) != 0
    ensures Equal(big, k1, k2) <==> Match(big, k1, k2) != 0
  {
    var n := k1.pairCount;
    if k1.forward[..n] == k2.forward[..n] {
      SamePrefix(big, k1.forward, k2.forward, n);
    }
    if k1.forward[..n] == k2.reverse[..n] {
      SamePrefix(big, k1.forward, k2.reverse, n);
    }
  }

  lemma SwapAllTwice(ps: seq<(nat, nat)>)
    ensures SwapAll(SwapAll(ps)) == ps
  {
  }

  // On processed keys: same pairs, or the same pairs with every side swapped.
  lemma DocumentedMeans(k1: FlowKey, k2: FlowKey)
    requires IsProcessed(k1) && IsProcessed(k2) && k1.pairCount == k2.pairCount
    ensures DocumentedMatch(k1, k2) != 0 <==>
      BasicsMatch(k1, k2) && (Used(k1) == Used(k2) || (k1.reversable && Used(k1) == SwapAll(Used(k2))))
  {
  }

  // The documented comparison is an equivalence relation.
  lemma Reflexive(k: FlowKey)
    requires IsProcessed(k)
    ensures DocumentedMatch(k, k) == 1
  {
  }

  lemma Symmetric(k1: FlowKey, k2: FlowKey)
    requires IsProcessed(k1) && IsProcessed(k2) && k1.pairCount == k2.pairCount
    ensures DocumentedMatch(k1, k2) == DocumentedMatch(k2, k1)
  {
    DocumentedMeans(k1, k2);
    DocumentedMeans(k2, k1);
    SwapAllTwice(Used(k1));
    SwapAllTwice(Used(k2));
  }

  lemma Transitive(k1: FlowKey, k2: FlowKey, k3: FlowKey)
    requires IsProcessed(k1) && IsProcessed(k2) && IsProcessed(k3) && k1.pairCount == k2.pairCount == k3.pairCount
    requires DocumentedMatch(k1, k2) != 0 && DocumentedMatch(k2, k3) != 0
    ensures DocumentedMatch(k1, k3) != 0
  {
    DocumentedMeans(k1, k2);
    DocumentedMeans(k2, k3);
    DocumentedMeans(k1, k3);
    SwapAllTwice(Used(k3));
  }

  // A key before process_flow_key.
  predicate Raw(k: FlowKey) { Valid(k) && k.hash == Zeros(32) }

  // Two keys with all pairs swapped: hash, flags and map agree, and both
  // comparisons find the match, whichever side asks.
  lemma SwappedKeysMatch(big: bool, k1: FlowKey, k2: FlowKey)
    requires Raw(k1) && Raw(k2) && k1.reversable && k2.reversable && k1.headerMap == k2.headerMap
    requires Used(k2) == SwapAll(Used(k1))
    ensures var p1, p2 := Processed(k1), Processed(k2);
      && p1.hash == p2.hash && BasicsMatch(p1, p2)
      && DocumentedMatch(p1, p2) != 0 && Match(big, p1, p2) != 0 && Match(big, p2, p1) != 0
      && (Used(k1) != Used(k2) ==> DocumentedMatch(p1, p2) == -1)
  {
    var p1, p2 := Processed(k1), Processed(k2);
    SwappedHash(true, Used(k1));
    SameBase(k1, k2);
    ProcessedIs(k1);
    ProcessedIs(k2);
    SwapAllTwice(Used(k1));
    DocumentedMeans(p1, p2);
    Symmetric(p1, p2);
    NeverMisses(big, p1, p2);
    NeverMisses(big, p2, p1);
  }
}
