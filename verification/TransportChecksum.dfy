/**
 TCP and UDP checksums, from util_checksum.cpp: a vector of pieces (addresses,
 pseudo-header, segment, pad) is handed to in_cksum. The specification is the
 checksum of one flat buffer, section 3.1 of RFC 793 and section 8.1 of
 RFC 2460.
 */
module TransportChecksum {
  import opened Bytes
  import opened InternetChecksum
  import opened SegmentLayout
  import opened VectorConditions
  import opened VectorSum

  datatype Thrown = Nothing | NullPointer | Underflow

  // ------------------------------------------------------- the specification

  function Version(bs: seq<byte>, ip: nat): nat
    requires ip < |bs|
  {
    bs[ip] / 16
  }

  // The octets of a 32-bit number, most significant first.
  function Big32(x: nat): (r: seq<byte>)
    requires x < 0x1_0000_0000
    ensures |r| == 4
  {
    [x / 0x100_0000, x / 0x1_0000 % 256, x / 256 % 256, x % 256]
  }

  // The IP header at ip has been captured as far as it is read.
  predicate Captured(bs: seq<byte>, ip: nat) {
    && ip < |bs|
    && (Version(bs, ip) == 4 ==> ip + 20 <= |bs|)
    && (Version(bs, ip) == 6 ==> ip + 40 <= |bs|)
  }

  // The addresses of the IP header.
  function Addresses(bs: seq<byte>, ip: nat): (r: seq<byte>)
    requires Captured(bs, ip) && Version(bs, ip) in {4, 6}
    ensures |r| in {8, 32} && |r| % 2 == 0
  {
    if Version(bs, ip) == 4 then bs[ip + 12..ip + 20] else bs[ip + 8..ip + 40]
  }

  // The rest of the pseudo-header. IPv4: zero, protocol, length. IPv6: 32-bit
  // length, three zeros, next header.
  function KindAndLength(version: nat, kind: byte, len: uint16): (r: seq<byte>)
    ensures |r| in {4, 8} && |r| % 2 == 0
  {
    if version == 4 then [0, kind, len / 256, len % 256]
    else [0, 0, len / 256, len % 256] + [0, 0, 0, kind]
  }

  // The buffer that the RFCs ask to sum: pseudo-header and padded segment.
  function Flat(bs: seq<byte>, ip: nat, kind: byte, at: nat, len: uint16): (r: seq<byte>)
    requires Captured(bs, ip) && Version(bs, ip) in {4, 6} && at + len <= |bs|
    ensures |r| % 2 == 0
  {
    Plain(Addresses(bs, ip), KindAndLength(Version(bs, ip), kind, len), bs[at..at + len])
  }

  // What the code sums, at any offsets.
  function AsSummed(bs: seq<byte>, ip: nat, kind: byte, at: nat, len: uint16): (r: seq<byte>)
    requires Captured(bs, ip) && Version(bs, ip) in {4, 6} && at + len <= |bs|
    ensures |r| % 2 == 0
  {
    Layout(ip % 2 == 1, Addresses(bs, ip), KindAndLength(Version(bs, ip), kind, len), at % 2 == 1, bs[at..at + len])
  }

  // The length of the TCP segment, from the IP header alone.
  function TcpLength(bs: seq<byte>, ip: nat, tcp: nat): int
    requires Captured(bs, ip) && Version(bs, ip) in {4, 6}
  {
    if Version(bs, ip) == 4 then
      Big16(bs, ip + 2) - 4 * (bs[ip] % 16)
    else
      Big16(bs, ip + 4) - (tcp - (ip + 40))
  }

  // What the checks of pseudoTcp leave to the caller: where no check rejects
  // the call, the segment is in the buffer, and the sum fits an int.
  predicate TcpCallable(bs: seq<byte>, ip: int, tcp: int) {
    0 <= ip < tcp < |bs| ==>
      && Captured(bs, ip) && tcp + 13 <= |bs|
      && (Version(bs, ip) in {4, 6} && 0 <= ip + TcpLength(bs, ip, tcp) <= |bs| ==>
        Segment(bs, ip, tcp, TcpLength(bs, ip, tcp)))
  }

  predicate Segment(bs: seq<byte>, ip: nat, at: nat, len: int) {
    0 <= len && at + len <= |bs| && len + 41 <= if ip % 2 == 1 || at % 2 == 1 then 0xfe00 else 0x1_0000
  }

  function PseudoTcpResult(big: bool, bs: seq<byte>, ip: int, tcp: int): (int, Thrown)
    requires TcpCallable(bs, ip, tcp)
  {
    if ip < 0 || tcp < 0 || ip >= tcp || tcp >= |bs| then (-1, Underflow)
    else if Version(bs, ip) !in {4, 6} then (-1, Nothing)
    else
      var len := TcpLength(bs, ip, tcp);
      if ip + len < 0 || ip + len > |bs| then (0, Nothing)
      else if tcp + bs[tcp + 12] / 16 * 4 > |bs| then (0, Underflow)
      else (Checksum(big, AsSummed(bs, ip, 6, tcp, len)) as int, Nothing)
  }

  // Every check that pseudoTcp makes.
  predicate TcpPasses(bs: seq<byte>, ip: nat, tcp: nat) {
    && ip < tcp < |bs| && Captured(bs, ip) && tcp + 13 <= |bs| && Version(bs, ip) in {4, 6}
    && 0 <= ip + TcpLength(bs, ip, tcp) <= |bs| && tcp + bs[tcp + 12] / 16 * 4 <= |bs|
  }

  // Where the IP packet ends, by its own length field.
  function PacketEnd(bs: seq<byte>, ip: nat): nat
    requires Captured(bs, ip) && Version(bs, ip) in {4, 6}
  {
    if Version(bs, ip) == 4 then ip + Big16(bs, ip + 2) else ip + 40 + Big16(bs, ip + 4)
  }

  // The length is checked from the IP header on, not from the TCP header: of a
  // packet that lies outside the buffer in part, the checks pass exactly when no
  // more is missing than lies between the two headers.
  lemma TcpLeavesBuffer(bs: seq<byte>, ip: nat, tcp: nat)
    requires ip < tcp < |bs| && Captured(bs, ip) && Version(bs, ip) in {4, 6}
    requires Version(bs, ip) == 4 ==> tcp == ip + 4 * (bs[ip] % 16)
    requires tcp + 13 <= |bs| && tcp + bs[tcp + 12] / 16 * 4 <= |bs| < PacketEnd(bs, ip)
    ensures TcpPasses(bs, ip, tcp) <==> PacketEnd(bs, ip) - |bs| <= tcp - ip
    ensures !Segment(bs, ip, tcp, TcpLength(bs, ip, tcp))
  {
    assert tcp + TcpLength(bs, ip, tcp) == PacketEnd(bs, ip);
  }

  // The error returns: offsets out of order or range, another IP version, a length
  // that the buffer cannot hold from the IP header on, and a TCP header that is cut.
  // A sum is returned exactly when all checks pass.
  lemma TcpOutcomes(big: bool, bs: seq<byte>, ip: int, tcp: int)
    requires TcpCallable(bs, ip, tcp)
    ensures var (r, thrown) := PseudoTcpResult(big, bs, ip, tcp);
      && thrown != NullPointer
      && (thrown == Underflow && r == -1 <==> !(0 <= ip < tcp < |bs|))
      && (thrown == Nothing && r == -1 <==> 0 <= ip < tcp < |bs| && bs[ip] / 16 != 4 && bs[ip] / 16 != 6)
      && (thrown == Underflow && r == 0 <==>
        && 0 <= ip < tcp < |bs| && Version(bs, ip) in {4, 6} && 0 <= ip + TcpLength(bs, ip, tcp) <= |bs|
        && tcp + bs[tcp + 12] / 16 * 4 > |bs|)
      && (0 <= ip < tcp < |bs| && Version(bs, ip) in {4, 6} && !(0 <= ip + TcpLength(bs, ip, tcp) <= |bs|) ==>
        r == 0 && thrown == Nothing)
      && (0 <= ip <= tcp && TcpPasses(bs, ip, tcp) ==>
        && thrown == Nothing && Segment(bs, ip, tcp, TcpLength(bs, ip, tcp))
        && r == Checksum(big, AsSummed(bs, ip, 6, tcp, TcpLength(bs, ip, tcp))))
  {
    hide TcpLength, AsSummed, Checksum, Captured;
  }

  // And of UDP: a datagram that reaches the last byte gives 0 without a sum, whether
  // its header is there or not.
  lemma UdpOutcomes(big: bool, bs: seq<byte>, ip: int, udp: int)
    requires UdpCallable(bs, ip, udp)
    ensures var (r, thrown) := PseudoUdpResult(big, bs, ip, udp);
      && thrown != NullPointer
      && (thrown == Underflow && r == -1 <==> !(0 <= ip < udp < |bs|))
      && (thrown == Underflow && r == 0 <==> 0 <= ip < udp < |bs| < udp + 8 && udp + Big16(bs, udp + 4) < |bs|)
      && (0 <= ip < udp < |bs| <= udp + Big16(bs, udp + 4) ==> r == 0 && thrown == Nothing)
      && (0 <= ip < udp && udp + 8 <= |bs| && udp + Big16(bs, udp + 4) < |bs| ==>
        && thrown == Nothing && Segment(bs, ip, udp, Big16(bs, udp + 4))
        && r == Checksum(big, AsSummed(bs, ip, 17, udp, Big16(bs, udp + 4))))
  {
    hide AsSummed, Checksum, Captured;
  }

  // 40 bytes of a packet of 60.
  function ShortCapture(): seq<byte> {
    [0x45, 0, 0, 60] + seq(28, _ => 0) + [0x50] + seq(7, _ => 0)
  }

  lemma ShortCapturePasses()
    ensures var bs := ShortCapture();
      TcpPasses(bs, 0, 20) && 20 + TcpLength(bs, 0, 20) == 60 > |bs| && !TcpCallable(bs, 0, 20)
  {
    var bs := ShortCapture();
    assert bs[0] == 0x45 && bs[3] == 60 && bs[2] == 0 && bs[32] == 0x50;
    TcpLeavesBuffer(bs, 0, 20);
  }

  predicate UdpCallable(bs: seq<byte>, ip: int, udp: int) {
    0 <= ip < udp < |bs| ==>
      && Captured(bs, ip) && Version(bs, ip) in {4, 6} && udp + 6 <= |bs|
      && (udp + Big16(bs, udp + 4) < |bs| ==> Segment(bs, ip, udp, Big16(bs, udp + 4)))
  }

  function PseudoUdpResult(big: bool, bs: seq<byte>, ip: int, udp: int): (int, Thrown)
    requires UdpCallable(bs, ip, udp)
  {
    if ip < 0 || udp < 0 || ip >= udp || udp >= |bs| then (-1, Underflow)
    else
      var len := Big16(bs, udp + 4);
      if udp + len >= |bs| then (0, Nothing)
      else if udp + 8 > |bs| then (0, Underflow)
      else (Checksum(big, AsSummed(bs, ip, 17, udp, len)) as int, Nothing)
  }

  // ------------------------------------------------------------ the C routines

  // int in_checksum_pad_to_even(vec_t *vec, int veclen, pad_t *pad)
  method PadToEven(vec: array<Vec>, veclen: nat, pad: array<byte>) returns (extra: nat)
    requires 0 < veclen < vec.Length && pad.Length == 2
    requires Readable(vec[veclen - 1])
    modifies vec, pad
    ensures vec[..veclen - 1] == old(vec[..veclen - 1])
    ensures var last := old(vec[veclen - 1]);
      if last.len % 2 == 1 then
        && extra == 1 && pad[..] == [last.mem[last.off + last.len - 1], 0]
        && vec[veclen - 1..veclen + 1] == [last.(len := last.len - 1), Vec(pad[..], 0, 2)]
      else
        extra == 0 && vec[..] == old(vec[..]) && pad[..] == old(pad[..])
  {
    var last := vec[veclen - 1];
    if last.len % 2 == 1 {
      pad[1] := 0;
      vec[veclen - 1] := last.(len := last.len - 1);
      pad[0] := last.mem[last.off + last.len - 1];
      vec[veclen] := Vec(pad[..], 0, 2);
      extra := 1;
    } else {
      extra := 0;
    }
  }

  method StoreBig32(a: array<byte>, k: nat, x: nat)
    requires k + 4 <= a.Length && x < 0x1_0000_0000
    modifies a
    ensures a[..k] == old(a[..k]) && a[k..k + 4] == Big32(x)
  {
    a[k], a[k + 1], a[k + 2], a[k + 3] := x / 0x100_0000, x / 0x1_0000 % 256, x / 256 % 256, x % 256;
  }

  // (type << 16) | len, as it lies in memory.
  lemma TypeAndLength(kind: byte, len: uint16)
    ensures Big32(kind * 0x1_0000 + len) == [0, kind, len / 256, len % 256]
  {
    var x := kind * 0x1_0000 + len;
    Quotient(x, 0x1_0000, kind, len);
    Quotient(x, 256, 256 * kind + len / 256, len % 256);
    Quotient(256 * kind + len / 256, 256, kind, len / 256);
    Quotient(x, 0x100_0000, 0, x);
  }

  lemma Quotient(x: nat, d: nat, q: nat, r: nat)
    requires d in {256, 0x1_0000, 0x100_0000} && x == d * q + r && r < d
    ensures x / d == q && x % d == r
  {
    if d == 256 {
    } else if d == 0x1_0000 {
    }
  }

  // int in_checksum_add_ip_pseudo_header(...): vec[0] becomes the addresses and
  // vec[1] the rest of the pseudo-header, in phdr.
  method AddIpPseudoHeader(buf: array<byte>, ip: nat, vec: array<Vec>, kind: byte, len: uint16, phdr: array<byte>)
    returns (n: nat)
    requires Captured(buf[..], ip) && vec.Length >= 2 && phdr.Length == 8 && buf != phdr
    modifies vec, phdr
    ensures n == 2 && vec[2..] == old(vec[2..])
    ensures Version(buf[..], ip) in {4, 6} ==>
      HeaderPieces(buf[..], ip, kind, len, vec[0], vec[1])
    ensures Version(buf[..], ip) !in {4, 6} ==> vec[0] == old(vec[0]) && vec[1].len == old(vec[1]).len
  {
    hide Big32, KindAndLength;
    ghost var bs := buf[..];
    TypeAndLength(kind, len);
    TypeAndLength(0, len);
    TypeAndLength(0, kind);
    var version := buf[ip] / 16;
    if version == 4 {
      vec[0] := Vec(buf[..], ip + 12, 8);
      vec[1] := vec[1].(len := 4);
      StoreBig32(phdr, 0, kind * 0x1_0000 + len);
      HeaderBytes4(bs, ip, kind, len, phdr[..]);
    } else if version == 6 {
      vec[0] := Vec(buf[..], ip + 8, 32);
      vec[1] := vec[1].(len := 8);
      StoreBig32(phdr, 0, len);
      StoreBig32(phdr, 4, kind);
      HeaderBytes6(bs, ip, kind, len, phdr[..]);
    }
    vec[1] := vec[1].(mem := phdr[..], off := 0);
    n := 2;
  }

  // The two pieces that make up the pseudo-header.
  predicate HeaderPieces(bs: seq<byte>, ip: nat, kind: byte, len: uint16, a: Vec, b: Vec)
    requires Captured(bs, ip) && Version(bs, ip) in {4, 6}
  {
    && Readable(a) && Readable(b) && !OddAddress(b) && (OddAddress(a) <==> ip % 2 == 1)
    && PieceBytes(a) == Addresses(bs, ip) && PieceBytes(b) == KindAndLength(Version(bs, ip), kind, len)
  }

  lemma HeaderBytes4(bs: seq<byte>, ip: nat, kind: byte, len: uint16, p: seq<byte>)
    requires Captured(bs, ip) && Version(bs, ip) == 4
    requires |p| == 8 && p[0..4] == [0, kind, len / 256, len % 256]
    ensures HeaderPieces(bs, ip, kind, len, Vec(bs, ip + 12, 8), Vec(p, 0, 4))
  {
  }

  lemma HeaderBytes6(bs: seq<byte>, ip: nat, kind: byte, len: uint16, p: seq<byte>)
    requires Captured(bs, ip) && Version(bs, ip) == 6
    requires |p| == 8 && p[..4] == [0, 0, len / 256, len % 256] && p[4..8] == [0, 0, 0, kind]
    ensures HeaderPieces(bs, ip, kind, len, Vec(bs, ip + 8, 32), Vec(p, 0, 8))
  {
    assert p[0..8] == p[..4] + p[4..8];
  }

  // The vector that pseudoTcp and pseudoUdp hand to in_cksum: it may be summed,
  // and these are the bytes.
  lemma SegmentPieces(bs: seq<byte>, ip: nat, kind: byte, at: nat, len: uint16, a: Vec, b: Vec, pad: seq<byte>,
                      vs: seq<Vec>)
    requires Captured(bs, ip) && Version(bs, ip) in {4, 6} && Segment(bs, ip, at, len)
    requires HeaderPieces(bs, ip, kind, len, a, b)
    requires vs == [a, b] + [Vec(bs, at, len - len % 2)] + if len % 2 == 1 then [Vec(pad, 0, 2)] else []
    requires len % 2 == 1 ==> pad == [bs[at + len - 1], 0]
    ensures InMemory(vs) && Fits(vs) && Summed(vs) == AsSummed(bs, ip, kind, at, len)
  {
    hide *;
    var segment := Vec(bs, at, len);
    HeaderPiecesAre(bs, ip, kind, len, a, b);
    SegmentInside(bs, ip, at, len);
    SegmentPiece(bs, at, len, pad);
    AsSummedIs(bs, ip, kind, at, len);
    LayoutPieces(a, b, segment, pad);
    assert vs == if len % 2 == 1
      then [a, b] + [Vec(bs, at, len - len % 2)] + [Vec(pad, 0, 2)] else [a, b] + [Vec(bs, at, len - len % 2)];
    EvenSummed(vs);
    WhereOdd(vs, a, b, Vec(bs, at, len - len % 2), Vec(pad, 0, 2), len % 2 == 1);
    SlackIs(vs, ip % 2 == 1 || at % 2 == 1);
  }

  lemma HeaderPiecesAre(bs: seq<byte>, ip: nat, kind: byte, len: uint16, a: Vec, b: Vec)
    requires Captured(bs, ip) && Version(bs, ip) in {4, 6} && HeaderPieces(bs, ip, kind, len, a, b)
    ensures Readable(a) && Readable(b) && a.len % 2 == 0 && b.len % 2 == 0 && !OddAddress(b)
    ensures OddAddress(a) <==> ip % 2 == 1
    ensures PieceBytes(a) == Addresses(bs, ip) && PieceBytes(b) == KindAndLength(Version(bs, ip), kind, len)
    ensures a.len + b.len <= 40
  {
    hide Addresses, KindAndLength;
    assert |PieceBytes(a)| == a.len && |PieceBytes(b)| == b.len;
  }

  lemma SegmentPiece(bs: seq<byte>, at: nat, len: nat, pad: seq<byte>)
    requires at + len <= |bs| && (len % 2 == 1 ==> pad == [bs[at + len - 1], 0])
    ensures var segment := Vec(bs, at, len);
      && Readable(segment) && PieceBytes(segment) == bs[at..at + len] && (OddAddress(segment) <==> at % 2 == 1)
      && (OddAddress(Vec(bs, at, len - len % 2)) <==> at % 2 == 1)
      && (len % 2 == 1 ==> pad == Pad(bs[at..at + len]))
  {
  }

  lemma AsSummedIs(bs: seq<byte>, ip: nat, kind: byte, at: nat, len: uint16)
    requires Captured(bs, ip) && Version(bs, ip) in {4, 6} && Segment(bs, ip, at, len)
    ensures var r := AsSummed(bs, ip, kind, at, len);
      && r == Layout(ip % 2 == 1, Addresses(bs, ip), KindAndLength(Version(bs, ip), kind, len), at % 2 == 1, bs[at..at + len])
      && |r| <= if ip % 2 == 1 || at % 2 == 1 then 0xfe00 else 0x1_0000
  {
    hide Layout, Addresses, KindAndLength;
  }

  lemma WhereOdd(vs: seq<Vec>, a: Vec, b: Vec, body: Vec, last: Vec, odd: bool)
    requires vs == [a, b] + [body] + if odd then [last] else []
    requires !OddAddress(b) && last.off == 0
    ensures forall v :: v in vs && OddAddress(v) ==> OddAddress(a) || OddAddress(body)
  {
  }

  lemma SlackIs(vs: seq<Vec>, odd: bool)
    requires InMemory(vs) && (forall v :: v in vs && OddAddress(v) ==> odd)
    requires |Summed(vs)| <= if odd then 0xfe00 else 0x1_0000
    ensures Fits(vs)
  {
    hide InMemory, Summed;
  }

  lemma SegmentInside(bs: seq<byte>, ip: nat, at: nat, len: int)
    requires Segment(bs, ip, at, len)
    ensures 0 <= len && at + len <= |bs|
  {
  }

  // The tail shared by pseudoTcp and pseudoUdp.
  method SumSegment(big: bool, buf: array<byte>, ip: nat, kind: byte, at: nat, len: uint16) returns (r: uint16)
    requires Captured(buf[..], ip) && Version(buf[..], ip) in {4, 6} && Segment(buf[..], ip, at, len)
    ensures r == Checksum(big, AsSummed(buf[..], ip, kind, at, len))
  {
    hide Checksum, AsSummed, Segment, Captured, Version, InMemory, Fits, Summed, HeaderPieces;
    var phdr, pad := new byte[8], new byte[2];
    var vec := new Vec[5](_ => Vec([], 0, 0));
    ghost var bs := buf[..];
    var n := AddIpPseudoHeader(buf, ip, vec, kind, len, phdr);
    SegmentInside(bs, ip, at, len);
    vec[2] := Vec(buf[..], at, len);
    assert buf[..] == bs;
    ghost var a, b := vec[0], vec[1];
    assert vec[..2] == [a, b];
    var extra := PadToEven(vec, 3, pad);
    assert vec[..2] == [a, b];
    ghost var vs := vec[..3 + extra];
    assert vs == vec[..2] + vec[2..3 + extra];
    ThreeOrFour(vs, a, b, vec[2..3 + extra], Vec(bs, at, len - len % 2), Vec(pad[..], 0, 2), len % 2 == 1);
    SegmentPieces(bs, ip, kind, at, len, a, b, pad[..], vs);
    r := InCksum(big, vec, 3 + extra);
    assert buf[..] == bs;
  }

  lemma ThreeOrFour(vs: seq<Vec>, a: Vec, b: Vec, tail: seq<Vec>, body: Vec, last: Vec, odd: bool)
    requires vs == [a, b] + tail && tail == if odd then [body, last] else [body]
    ensures vs == [a, b] + [body] + if odd then [last] else []
  {
  }

  // The switch on the version in pseudoTcp.
  method SegmentLength(buf: array<byte>, ip: nat, tcp: nat) returns (known: bool, len: int)
    requires Captured(buf[..], ip)
    ensures known <==> Version(buf[..], ip) in {4, 6}
    ensures known ==> len == TcpLength(buf[..], ip, tcp)
  {
    known, len := true, 0;
    if buf[ip] / 16 == 4 {
      len := Word(true, buf[ip + 2], buf[ip + 3]) - 4 * (buf[ip] % 16);
    } else if buf[ip] / 16 == 6 {
      len := Word(true, buf[ip + 4], buf[ip + 5]) - (tcp - (ip + 40));
    } else {
      known := false;
    }
  }

  // Java_org_jnetpcap_util_checksum_Checksum_pseudoTcp
  method PseudoTcp(big: bool, buf: array?<byte>, ip: int, tcp: int) returns (r: int, thrown: Thrown)
    requires buf != null ==> TcpCallable(buf[..], ip, tcp)
    ensures buf == null ==> (r, thrown) == (-1, NullPointer)
    ensures buf != null ==> (r, thrown) == PseudoTcpResult(big, buf[..], ip, tcp)
  {
    if buf == null {
      return -1, NullPointer;
    }
    hide Checksum, AsSummed, TcpLength, Version, Captured, Segment;
    var size := buf.Length;
    if ip < 0 || tcp < 0 || ip >= tcp || tcp >= size {
      return -1, Underflow;
    }
    var known, len := SegmentLength(buf, ip, tcp);
    if !known {
      return -1, Nothing;
    }
    // an int compared with a size_t: a negative one is large
    if ip + len < 0 || ip + len > size {
      return 0, Nothing;
    }
    var hlen := buf[tcp + 12] / 16 * 4;
    if tcp + hlen > size {
      return 0, Underflow;
    }
    r := SumSegment(big, buf, ip, 6, tcp, len);
    thrown := Nothing;
  }

  // Java_org_jnetpcap_util_checksum_Checksum_pseudoUdp
  method PseudoUdp(big: bool, buf: array?<byte>, ip: int, udp: int) returns (r: int, thrown: Thrown)
    requires buf != null ==> UdpCallable(buf[..], ip, udp)
    ensures buf == null ==> (r, thrown) == (-1, NullPointer)
    ensures buf != null ==> (r, thrown) == PseudoUdpResult(big, buf[..], ip, udp)
  {
    if buf == null {
      return -1, NullPointer;
    }
    hide Checksum, AsSummed;
    var size := buf.Length;
    if ip < 0 || udp < 0 || ip >= udp || udp >= size {
      return -1, Underflow;
    }
    var len := Big16(buf[..], udp + 4);
    if udp + len >= size {
      return 0, Nothing;
    }
    if udp + 8 > size {
      return 0, Underflow;
    }
    r := SumSegment(big, buf, ip, 17, udp, len);
    thrown := Nothing;
  }

  // --------------------------------------------------- the law and its condition

  // The checksum of the flat buffer comes out if and only if the words that are
  // summed with exchanged bytes, because they lie at odd addresses, add up to a
  // multiple of 257; so at even offsets it always does.
  lemma SummedAsDocumented(big: bool, bs: seq<byte>, ip: nat, kind: byte, at: nat, len: uint16)
    requires Captured(bs, ip) && Version(bs, ip) in {4, 6} && at + len <= |bs|
    ensures Checksum(big, AsSummed(bs, ip, kind, at, len)) == Checksum(big, Flat(bs, ip, kind, at, len)) <==>
      Misplaced(big, ip % 2 == 1, Addresses(bs, ip), at % 2 == 1, bs[at..at + len]) % 257 == 0
    ensures ip % 2 == 0 && at % 2 == 0 ==> AsSummed(bs, ip, kind, at, len) == Flat(bs, ip, kind, at, len)
  {
    hide Layout, Plain, Checksum, Misplaced, Addresses, KindAndLength;
    var a, b, segment := Addresses(bs, ip), KindAndLength(Version(bs, ip), kind, len), bs[at..at + len];
    LayoutCondition(big, ip % 2 == 1, a, b, at % 2 == 1, segment);
    PlainLayout(a, b, segment);
  }

  // ------------------------------------------------------------- the round trip

  function IpHeader(bs: seq<byte>, ip: nat): nat
    requires ip < |bs|
  {
    if Version(bs, ip) == 4 then 20 else 40
  }

  // A write past the fixed IP header leaves the pseudo-header alone.
  lemma HeaderUnchanged(bs: seq<byte>, f: nat, v: uint16, ip: nat)
    requires Captured(bs, ip) && Version(bs, ip) in {4, 6} && ip + IpHeader(bs, ip) <= f && f + 2 <= |bs|
    ensures var cs := PutField(bs, f, v);
      Captured(cs, ip) && Version(cs, ip) == Version(bs, ip) && Addresses(cs, ip) == Addresses(bs, ip)
  {
    assert PutField(bs, f, v)[..f] == bs[..f];
    SliceOfPrefix(PutField(bs, f, v), bs, f);
    hide PutField;
  }

  lemma PutInSlice(bs: seq<byte>, at: nat, len: nat, f: nat, v: uint16)
    requires at + len <= |bs| && f + 2 <= len
    ensures PutField(bs, at + f, v)[at..at + len] == PutField(bs[at..at + len], f, v)
    ensures Big16(bs[at..at + len], f) == Big16(bs, at + f)
  {
    var x, y := PutField(bs, at + f, v)[at..at + len], PutField(bs[at..at + len], f, v);
    forall i | 0 <= i < len ensures x[i] == y[i] {
      assert x[i] == PutField(bs, at + f, v)[at + i];
    }
    assert x == y;
  }

  lemma SliceOfPrefix(cs: seq<byte>, bs: seq<byte>, n: nat)
    requires n <= |cs| && n <= |bs| && cs[..n] == bs[..n]
    ensures forall i, j :: 0 <= i <= j <= n ==> cs[i..j] == bs[i..j]
    ensures forall i :: 0 <= i < n ==> cs[i] == bs[i]
  {
    forall i, j | 0 <= i <= j <= n ensures cs[i..j] == bs[i..j] {
      assert cs[i..j] == cs[..n][i..j] && bs[i..j] == bs[..n][i..j];
    }
    forall i | 0 <= i < n ensures cs[i] == bs[i] {
      assert cs[i] == cs[..n][i] && bs[i] == bs[..n][i];
    }
  }

  lemma KindCounts(version: nat, kind: byte, len: uint16)
    requires kind > 0
    ensures Sum(true, KindAndLength(version, kind, len)) > 0
  {
    var b := KindAndLength(version, kind, len);
    if version == 4 {
      SumOfWord(true, b[..2]);
      SumConcat(true, b[..2], b[2..]);
      assert b == b[..2] + b[2..];
    } else {
      assert Sum(true, b) == Sum(true, b[..6]) + Word(true, b[6], b[7]);
    }
    hide Sum;
  }

  // Storing the suggested value into a field and summing again.
  lemma SegmentPatched(big: bool, bs: seq<byte>, ip: nat, kind: byte, at: nat, len: uint16, f: nat)
    requires Captured(bs, ip) && Version(bs, ip) in {4, 6} && at + len <= |bs| && kind > 0
    requires f % 2 == 0 && 2 <= f && f + 2 <= len && at >= ip + IpHeader(bs, ip)
    ensures var v := ShouldBe(big, Big16(bs, at + f), Checksum(big, AsSummed(bs, ip, kind, at, len)));
      var cs := PutField(bs, at + f, v);
      && Captured(cs, ip) && Version(cs, ip) == Version(bs, ip)
      && (Checksum(big, AsSummed(cs, ip, kind, at, len)) == 0 <==>
        at % 2 == 0 || Sum(true, AsSummed(bs, ip, kind, at, len)) % 257 == 0)
  {
    hide Layout, Checksum, ShouldBe, PutField, Big16, Sum, Addresses, KindAndLength, IpHeader;
    var a, b, segment := Addresses(bs, ip), KindAndLength(Version(bs, ip), kind, len), bs[at..at + len];
    var v := ShouldBe(big, Big16(bs, at + f), Checksum(big, AsSummed(bs, ip, kind, at, len)));
    HeaderUnchanged(bs, at + f, v, ip);
    PutInSlice(bs, at, len, f, v);
    KindCounts(Version(bs, ip), kind, len);
    LayoutPatched(big, ip % 2 == 1, a, b, at % 2 == 1, segment, f);
  }

  // Storing the value inChecksumShouldBe suggests into a TCP header makes
  // pseudoTcp accept the segment, with a checksum of zero: always at an even
  // offset, and at an odd one if and only if the sum was a multiple of 257.
  lemma TcpPatchedVerifies(big: bool, bs: seq<byte>, ip: int, tcp: int)
    requires TcpCallable(bs, ip, tcp) && 0 <= ip < |bs| && Version(bs, ip) in {4, 6}
    requires ip + IpHeader(bs, ip) <= tcp < |bs|
    requires 20 <= TcpLength(bs, ip, tcp) <= |bs| - tcp
    requires tcp + bs[tcp + 12] / 16 * 4 <= |bs|
    ensures var v := ShouldBe(big, Big16(bs, tcp + 16), PseudoTcpResult(big, bs, ip, tcp).0);
      var cs := PutField(bs, tcp + 16, v);
      && TcpCallable(cs, ip, tcp)
      && (PseudoTcpResult(big, cs, ip, tcp) == (0, Nothing) <==>
        tcp % 2 == 0 || Sum(true, AsSummed(bs, ip, 6, tcp, TcpLength(bs, ip, tcp))) % 257 == 0)
  {
    hide Checksum, ShouldBe, AsSummed, Sum;
    var len := TcpLength(bs, ip, tcp);
    SegmentPatched(big, bs, ip, 6, tcp, len, 16);
    var v := ShouldBe(big, Big16(bs, tcp + 16), Checksum(big, AsSummed(bs, ip, 6, tcp, len)));
    var cs := PutField(bs, tcp + 16, v);
    assert cs[..tcp + 16] == bs[..tcp + 16];
    SliceOfPrefix(cs, bs, tcp + 16);
  }

  // The same for UDP, unless the datagram reaches the last byte of the buffer.
  lemma UdpPatchedVerifies(big: bool, bs: seq<byte>, ip: int, udp: int)
    requires UdpCallable(bs, ip, udp) && 0 <= ip < |bs| && ip + IpHeader(bs, ip) <= udp < |bs|
    requires 8 <= Big16(bs, udp + 4) < |bs| - udp
    ensures var v := ShouldBe(big, Big16(bs, udp + 6), PseudoUdpResult(big, bs, ip, udp).0);
      var cs := PutField(bs, udp + 6, v);
      && UdpCallable(cs, ip, udp)
      && (PseudoUdpResult(big, cs, ip, udp) == (0, Nothing) <==>
        udp % 2 == 0 || Sum(true, AsSummed(bs, ip, 17, udp, Big16(bs, udp + 4))) % 257 == 0)
  {
    hide Checksum, ShouldBe, AsSummed, Sum;
    var len := Big16(bs, udp + 4);
    SegmentPatched(big, bs, ip, 17, udp, len, 6);
    var v := ShouldBe(big, Big16(bs, udp + 6), Checksum(big, AsSummed(bs, ip, 17, udp, len)));
    var cs := PutField(bs, udp + 6, v);
    assert cs[..udp + 6] == bs[..udp + 6];
    SliceOfPrefix(cs, bs, udp + 6);
  }

  // A field of the segment in the flat buffer.
  lemma FlatField(bs: seq<byte>, ip: nat, kind: byte, at: nat, len: uint16, f: nat, v: uint16)
    requires Captured(bs, ip) && Version(bs, ip) in {4, 6} && at + len <= |bs|
    requires f % 2 == 0 && 2 <= f && f + 2 <= len && at >= ip + IpHeader(bs, ip)
    ensures var cs := PutField(bs, at + f, v); var flat := Flat(bs, ip, kind, at, len);
      var n := |Addresses(bs, ip)| + |KindAndLength(Version(bs, ip), kind, len)| + f;
      && Captured(cs, ip) && Version(cs, ip) == Version(bs, ip)
      && n % 2 == 0 && n + 2 <= |flat| && Big16(flat, n) == Big16(bs, at + f)
      && Flat(cs, ip, kind, at, len) == PutField(flat, n, v)
  {
    hide Layout, Plain, PutField, Big16, Addresses, KindAndLength, IpHeader;
    var a, b, segment := Addresses(bs, ip), KindAndLength(Version(bs, ip), kind, len), bs[at..at + len];
    HeaderUnchanged(bs, at + f, v, ip);
    PutInSlice(bs, at, len, f, v);
    LayoutField(false, a, b, false, segment, f, v);
    PlainLayout(a, b, segment);
    PlainLayout(a, b, PutField(segment, f, v));
  }

  // A datagram that does reach it is never looked at: whatever is put into its
  // checksum field the result is 0, although at most one value modulo 0xffff
  // makes the documented checksum zero.
  lemma UdpAtTheEnd(big: bool, bs: seq<byte>, ip: int, udp: int, w: uint16)
    requires UdpCallable(bs, ip, udp) && 0 <= ip < |bs| && ip + IpHeader(bs, ip) <= udp < |bs|
    requires 8 <= Big16(bs, udp + 4) == |bs| - udp
    ensures var cs, len := PutField(bs, udp + 6, w), Big16(bs, udp + 4);
      var v := ShouldBe(big, Big16(bs, udp + 6), Checksum(big, Flat(bs, ip, 17, udp, len)));
      && UdpCallable(cs, ip, udp) && PseudoUdpResult(big, cs, ip, udp) == (0, Nothing)
      && Captured(cs, ip) && Version(cs, ip) in {4, 6}
      && (Checksum(big, Flat(cs, ip, 17, udp, len)) == 0 ==> w % 0xffff == v % 0xffff)
  {
    hide Checksum, ShouldBe, Flat;
    var cs, len := PutField(bs, udp + 6, w), Big16(bs, udp + 4);
    FlatField(bs, ip, 17, udp, len, 6, w);
    assert cs[..udp + 6] == bs[..udp + 6];
    SliceOfPrefix(cs, bs, udp + 6);
    var flat, n := Flat(bs, ip, 17, udp, len), |Addresses(bs, ip)| + |KindAndLength(Version(bs, ip), 17, len)|;
    if Checksum(big, Flat(cs, ip, 17, udp, len)) == 0 {
      OnlyPatched(big, flat, n + 6, w);
    }
  }
}
