/**
 The flow keys of frames that no IP header is found in: the two hardware addresses
 and the type.
 */
module EthernetKeys {
  import opened Bytes
  import opened Gf2
  import opened Words
  import opened PacketState
  import opened ScanLoop
  import opened Protocols
  import opened NativeRuns
  import opened Dissection
  import opened FlowMatches
  import opened FlowReplies
  import opened FlowReplies6
  import opened ScanKeys

  // Two bytes, as a number of the host.
  function HostHalf(big: bool, buf: seq<byte>, i: nat): nat
    requires i + 2 <= |buf|
  {
    if big then Big16(buf, i) else buf[i] as nat + 0x100 * buf[i + 1] as nat
  }

  // Bytes 0 to 3 and 8 to 11, each with two of the bytes between them: on a
  // big-endian host the destination with its own last ones and the source with its
  // own first ones, on a little-endian one the other way round.
  function MacPair(big: bool, buf: seq<byte>): (nat, nat)
    requires |buf| >= 14
  {
    if big then (XorWord(HostWord(big, buf, 0), HostHalf(big, buf, 4)),
                 XorWord(HostWord(big, buf, 8), HostHalf(big, buf, 6)))
    else (XorWord(HostWord(big, buf, 0), HostHalf(big, buf, 6)),
          XorWord(HostWord(big, buf, 8), HostHalf(big, buf, 4)))
  }

  function MacKey(big: bool, buf: seq<byte>): FlowKey
    requires |buf| >= 14
  {
    var kind := Big16(buf, 12);
    if kind < 0x600 then
      FlowKey({ETHERNET, IEEE_802DOT3}, Zeros(32), false, 1, [MacPair(big, buf), (kind, kind), (0, 0)],
              [(0, 0), (0, 0), (0, 0)], [IEEE_802DOT3, ETHERNET, 0])
    else
      FlowKey({ETHERNET}, Zeros(32), false, 2, [MacPair(big, buf), (kind, kind), (0, 0)],
              [(0, 0), (0, 0), (0, 0)], [ETHERNET, ETHERNET, 0])
  }

  lemma HalfHere(h: Host, s: Scan, i: nat)
    requires i + 2 <= |s.buf|
    ensures Host16(h, s, i) == HostHalf(h.big, s.buf, i)
  {
    Reads(s, i);
  }

  lemma MacPairHere(h: Host, s: Scan)
    requires s.offset == 0 && |s.buf| >= 14
    ensures EthernetAddresses(h, s) == MacPair(h.big, s.buf)
  {
    WordHere(h, s, 0);
    WordHere(h, s, 8);
    HalfHere(h, s, 4);
    HalfHere(h, s, 6);
    hide XorWord, Host32, Host16, HostWord, HostHalf;
  }

  lemma MacKeyFound(h: Host, buf: seq<byte>, wireLen: int)
    requires |buf| >= 14
    ensures ScanEthernet(h, Start(buf, wireLen, ETHERNET)).key == MacKey(h.big, buf)
  {
    var s := Start(buf, wireLen, ETHERNET);
    Reads(s, 12);
    MacPairHere(h, s);
    SameEthernet(h, s, s.(length := 14, key := AddressKey(s.key, ETHERNET, EthernetAddresses(h, s), Net16(s, 12))));
    hide EthernetAddresses, Net16, MacPair, ValidateNext, Big16;
  }

  // The key of a scan in which no address or port pair follows.
  lemma MacKeyOfScan(env: Scanner, h: Host, buf: seq<byte>, wireLen: int, n: nat)
    requires NativeEnv(env, h) && |buf| >= 14 && n >= 1 && NoPairFrom(env, Start(buf, wireLen, ETHERNET), 1, n)
    ensures After(env, Start(buf, wireLen, ETHERNET), n).key == MacKey(h.big, buf)
  {
    var s := Start(buf, wireLen, ETHERNET);
    hide NativeEnv, Dispatch, Body, ScanEthernet, MacKey;
    MacKeyFound(h, buf, wireLen);
    FoundNative(env, h, s);
    BodyKey(env, s);
    assert s.(recorded := false) == s;
    assert After(env, s, 0) == s;
    assert After(env, s, 1) == Body(env, s);
    hide After, Native;
    KeyKept(env, h, s, 1, n);
  }

  // One word for each address, of its own six bytes, as it is documented.
  function OwnPair(big: bool, buf: seq<byte>): (nat, nat)
    requires |buf| >= 14
  {
    (XorWord(HostWord(big, buf, 0), HostHalf(big, buf, 4)), XorWord(HostWord(big, buf, 8), HostHalf(big, buf, 6)))
  }

  // So it is on a big-endian host; on a little-endian one only if the last two bytes of
  // the destination are the first two of the source.
  lemma MacSides(big: bool, buf: seq<byte>)
    requires |buf| >= 14
    ensures MacPair(big, buf) == OwnPair(big, buf) <==> big || buf[4..6] == buf[6..8]
  {
    hide XorWord, HostWord;
    HalfBytes(big, buf);
    if !big && MacPair(big, buf) == OwnPair(big, buf) {
      OtherSide(HostWord(big, buf, 0), HostHalf(big, buf, 6), HostHalf(big, buf, 4));
    }
  }

  lemma HalfBytes(big: bool, buf: seq<byte>)
    requires |buf| >= 14
    ensures HostHalf(big, buf, 4) < WORD && HostHalf(big, buf, 6) < WORD
    ensures HostHalf(big, buf, 4) == HostHalf(big, buf, 6) <==> buf[4..6] == buf[6..8]
  {
    var u, v := buf[4..6], buf[6..8];
    assert u[0] == buf[4] && u[1] == buf[5] && v[0] == buf[6] && v[1] == buf[7];
  }
}
