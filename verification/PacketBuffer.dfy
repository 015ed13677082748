/**
 The batching buffer of jpacket_buffer.cpp: packets are copied one behind the
 other into a block of memory, which is handed to the user when it is full.
 */
module PacketBuffer {
  import opened Bytes

  // JPACKET_BUFFER_HEADER_LENGTH and PCAP_HEADER_LENGTH
  const BUFFER_HEADER := 64
  const PCAP_HEADER := 16

  // pcap_pkthdr, of 16 bytes with the captured length in bytes 8 to 11, and the
  // captured bytes.
  datatype Packet = Packet(header: seq<byte>, data: seq<byte>)

  // What the user's handler is called with.
  datatype Batch = Batch(bytes: seq<byte>, count: nat)

  function Caplen(big: bool, m: seq<byte>, at: nat): nat
    requires at + PCAP_HEADER <= |m|
  {
    var a: nat, b: nat, c: nat, d: nat := m[at + 8], m[at + 9], m[at + 10], m[at + 11];
    if big then 0x100_0000 * a + 0x1_0000 * b + 0x100 * c + d else a + 0x100 * b + 0x1_0000 * c + 0x100_0000 * d
  }

  predicate WellFormed(big: bool, p: Packet) {
    |p.header| == PCAP_HEADER && Caplen(big, p.header, 0) == |p.data| && |p.data| < 0x4000_0000
  }

  function RecordLength(caplen: nat): (r: nat)
    ensures r % 2 == 0 && 16 + caplen <= r <= 17 + caplen
  {
    PCAP_HEADER + caplen + caplen % 2
  }

  // A 32-bit number in the byte order of the host, as the header holds it.
  lemma CaplenIs(big: bool, header: seq<byte>, n: nat)
    requires |header| == 16 && n < 0x1_0000_0000
    requires var bytes := [n / 0x100_0000, n / 0x1_0000 % 0x100, n / 0x100 % 0x100, n % 0x100];
      header[8..12] == if big then bytes else [bytes[3], bytes[2], bytes[1], bytes[0]]
    ensures Caplen(big, header, 0) == n
  {
    var word := header[8..12];
    assert word[0] == header[8] && word[1] == header[9] && word[2] == header[10] && word[3] == header[11];
    Digits(n);
  }

  lemma Digits(n: nat)
    requires n < 0x1_0000_0000
    ensures n == n / 0x100_0000 * 0x100_0000 + n / 0x1_0000 % 0x100 * 0x1_0000 + n / 0x100 % 0x100 * 0x100 + n % 0x100
  {
    var n1 := n / 0x100;
    var n2 := n1 / 0x100;
    assert n / 0x1_0000 == n2 && n / 0x100_0000 == n2 / 0x100;
    assert n == n1 * 0x100 + n % 0x100 && n1 == n2 * 0x100 + n1 % 0x100 && n2 == n2 / 0x100 * 0x100 + n2 % 0x100;
  }

  // ------------------------------------------------- reading the records back

  // n whole records lie in m from at on.
  predicate Holds(big: bool, m: seq<byte>, at: nat, n: nat)
    decreases n
  {
    n == 0 || (
      && at + PCAP_HEADER <= |m| && at + PCAP_HEADER + Caplen(big, m, at) <= |m|
      && Holds(big, m, at + RecordLength(Caplen(big, m, at)), n - 1))
  }

  function Walk(big: bool, m: seq<byte>, at: nat, n: nat): (r: seq<Packet>)
    requires Holds(big, m, at, n)
    ensures |r| == n
    decreases n
  {
    if n == 0 then []
    else
      var data := at + PCAP_HEADER;
      var len := Caplen(big, m, at);
      [Packet(m[at..data], m[data..data + len])] + Walk(big, m, at + RecordLength(len), n - 1)
  }

  // Where the walk ends; at most one byte, of padding, behind the memory.
  function WalkEnd(big: bool, m: seq<byte>, at: nat, n: nat): (r: nat)
    requires Holds(big, m, at, n) && at <= |m| + 1
    ensures at <= r <= |m| + 1 && r % 2 == at % 2
    decreases n
  {
    if n == 0 then at
    else
      var len := Caplen(big, m, at);
      assert at + RecordLength(len) <= |m| + 1 && (at + RecordLength(len)) % 2 == at % 2;
      WalkEnd(big, m, at + RecordLength(len), n - 1)
  }

  // The two memories agree before byte e.
  predicate Agree(m: seq<byte>, k: seq<byte>, e: nat) {
    |m| == |k| && forall i :: 0 <= i < e && i < |m| ==> k[i] == m[i]
  }

  lemma AgreeSlice(m: seq<byte>, k: seq<byte>, e: nat, i: nat, j: nat)
    requires Agree(m, k, e) && i <= j <= e && j <= |m|
    ensures m[i..j] == k[i..j]
  {
  }

  function Next(big: bool, m: seq<byte>, at: nat): nat
    requires at + PCAP_HEADER <= |m|
  {
    at + RecordLength(Caplen(big, m, at))
  }

  // The first record and the rest, in both directions.
  lemma Unfold(big: bool, m: seq<byte>, at: nat, n: nat)
    requires n > 0 && Holds(big, m, at, n) && at <= |m| + 1
    ensures at + PCAP_HEADER <= |m| && at + PCAP_HEADER + Caplen(big, m, at) <= |m|
    ensures at < Next(big, m, at) <= |m| + 1 && Holds(big, m, Next(big, m, at), n - 1)
    ensures Walk(big, m, at, n) == First(big, m, at) + Walk(big, m, Next(big, m, at), n - 1)
    ensures Next(big, m, at) <= WalkEnd(big, m, at, n) == WalkEnd(big, m, Next(big, m, at), n - 1)
  {
    hide Caplen;
  }

  lemma Fold(big: bool, m: seq<byte>, at: nat, n: nat)
    requires n > 0 && at + PCAP_HEADER <= |m| && at + PCAP_HEADER + Caplen(big, m, at) <= |m|
    requires Holds(big, m, Next(big, m, at), n - 1)
    ensures Holds(big, m, at, n)
    ensures Walk(big, m, at, n) == First(big, m, at) + Walk(big, m, Next(big, m, at), n - 1)
    ensures WalkEnd(big, m, at, n) == WalkEnd(big, m, Next(big, m, at), n - 1)
  {
    hide Caplen;
    assert Next(big, m, at) <= |m| + 1;
  }

  function First(big: bool, m: seq<byte>, at: nat): seq<Packet>
    requires at + PCAP_HEADER <= |m| && at + PCAP_HEADER + Caplen(big, m, at) <= |m|
  {
    var data := at + PCAP_HEADER;
    [Packet(m[at..data], m[data..data + Caplen(big, m, at)])]
  }

  lemma FirstFrame(big: bool, m: seq<byte>, k: seq<byte>, at: nat, e: nat)
    requires at + PCAP_HEADER <= |m| && at + PCAP_HEADER + Caplen(big, m, at) <= |m|
    requires Agree(m, k, e) && Next(big, m, at) <= e
    ensures |k| == |m| && Caplen(big, k, at) == Caplen(big, m, at) && First(big, k, at) == First(big, m, at)
  {
    assert Caplen(big, k, at) == Caplen(big, m, at);
    var data := at + PCAP_HEADER;
    AgreeSlice(m, k, e, at, data);
    AgreeSlice(m, k, e, data, data + Caplen(big, m, at));
  }

  lemma Nothing(big: bool, m: seq<byte>, at: nat)
    requires at <= |m| + 1
    ensures Holds(big, m, at, 0) && Walk(big, m, at, 0) == [] && WalkEnd(big, m, at, 0) == at
  {
  }

  // What lies before the end of the walk is all that it reads.
  lemma {:induction false} WalkFrame(big: bool, m: seq<byte>, k: seq<byte>, at: nat, n: nat)
    requires Holds(big, m, at, n) && at <= |m| + 1 && Agree(m, k, WalkEnd(big, m, at, n)) && |k| == |m|
    ensures Holds(big, k, at, n)
    ensures Walk(big, k, at, n) == Walk(big, m, at, n) && WalkEnd(big, k, at, n) == WalkEnd(big, m, at, n)
    decreases n
  {
    hide Holds, Walk, WalkEnd, Agree, First, Caplen;
    if n == 0 {
      Nothing(big, m, at);
      Nothing(big, k, at);
    } else {
      Unfold(big, m, at, n);
      FirstFrame(big, m, k, at, WalkEnd(big, m, at, n));
      WalkFrame(big, m, k, Next(big, m, at), n - 1);
      Fold(big, k, at, n);
    }
  }

  // One more record behind the others.
  lemma {:induction false} WalkMore(big: bool, m: seq<byte>, at: nat, n: nat)
    requires Holds(big, m, at, n) && at <= |m| + 1 && Holds(big, m, WalkEnd(big, m, at, n), 1)
    ensures Holds(big, m, at, n + 1)
    ensures Walk(big, m, at, n + 1) == Walk(big, m, at, n) + Walk(big, m, WalkEnd(big, m, at, n), 1)
    ensures WalkEnd(big, m, at, n + 1) == WalkEnd(big, m, WalkEnd(big, m, at, n), 1)
    decreases n
  {
    hide Holds, Walk, WalkEnd, First, Caplen, Next;
    if n == 0 {
      Nothing(big, m, at);
    } else {
      Unfold(big, m, at, n);
      WalkMore(big, m, Next(big, m, at), n - 1);
      Fold(big, m, at, n + 1);
    }
  }

  // A record just written is read back.
  lemma WalkOne(big: bool, k: seq<byte>, at: nat, p: Packet)
    requires WellFormed(big, p) && at + PCAP_HEADER + |p.data| <= |k|
    requires k[at..at + PCAP_HEADER] == p.header && k[at + PCAP_HEADER..at + PCAP_HEADER + |p.data|] == p.data
    ensures Holds(big, k, at, 1) && Walk(big, k, at, 1) == [p]
    ensures WalkEnd(big, k, at, 1) == at + RecordLength(|p.data|)
  {
    SameCaplen(big, k, p.header, at);
    assert Holds(big, k, at + RecordLength(|p.data|), 0);
    assert Walk(big, k, at + RecordLength(|p.data|), 0) == [];
  }

  lemma SameCaplen(big: bool, k: seq<byte>, header: seq<byte>, at: nat)
    requires |header| == PCAP_HEADER && at + PCAP_HEADER <= |k| && k[at..at + PCAP_HEADER] == header
    ensures Caplen(big, k, at) == Caplen(big, header, 0)
  {
    var r := k[at..at + PCAP_HEADER];
    assert r[8] == k[at + 8] && r[9] == k[at + 9] && r[10] == k[at + 10] && r[11] == k[at + 11];
  }

  // A record that is written where the walk ended is the next one it finds, and
  // the ones before are still there.
  lemma WalkAppend(big: bool, m: seq<byte>, k: seq<byte>, at: nat, n: nat, p: Packet)
    requires Holds(big, m, at, n) && at <= |m| + 1 && WellFormed(big, p)
    requires var e := WalkEnd(big, m, at, n);
      && Agree(m, k, e) && e + PCAP_HEADER + |p.data| <= |k|
      && k[e..e + PCAP_HEADER] == p.header && k[e + PCAP_HEADER..e + PCAP_HEADER + |p.data|] == p.data
    ensures Holds(big, k, at, n + 1)
    ensures Walk(big, k, at, n + 1) == Walk(big, m, at, n) + [p]
    ensures WalkEnd(big, k, at, n + 1) == WalkEnd(big, m, at, n) + RecordLength(|p.data|)
  {
    hide Holds, Walk, WalkEnd, Agree, WellFormed;
    SameLength(m, k, WalkEnd(big, m, at, n));
    WalkFrame(big, m, k, at, n);
    WalkOne(big, k, WalkEnd(big, m, at, n), p);
    WalkMore(big, k, at, n);
  }

  lemma SameLength(m: seq<byte>, k: seq<byte>, e: nat)
    requires Agree(m, k, e)
    ensures |k| == |m|
  {
  }

  predicate GoodBatch(big: bool, b: Batch) { Holds(big, b.bytes, BUFFER_HEADER, b.count) }

  function BatchPackets(big: bool, b: Batch): seq<Packet>
    requires GoodBatch(big, b)
  {
    Walk(big, b.bytes, BUFFER_HEADER, b.count)
  }

  // The user finds the first packet behind 64 bytes, and the next ones at even places.
  lemma BatchStarts(big: bool, b: Batch)
    requires GoodBatch(big, b) && b.count > 0
    ensures |b.bytes| >= 80
    ensures var p := BatchPackets(big, b)[0]; var next := 80 + |p.data| + |p.data| % 2;
      && p.header == b.bytes[64..80] && 80 + |p.data| <= |b.bytes| && p.data == b.bytes[80..80 + |p.data|]
      && (b.count > 1 ==> next + 16 <= |b.bytes| && BatchPackets(big, b)[1].header == b.bytes[next..next + 16])
  {
    hide Caplen;
    var len := Caplen(big, b.bytes, 64);
    var at := 64 + RecordLength(len);
    assert Holds(big, b.bytes, at, b.count - 1);
    if b.count > 1 {
      assert BatchPackets(big, b)[1] == Walk(big, b.bytes, at, b.count - 1)[0];
    }
  }

  // The packets in a sequence of batches.
  function Delivered(big: bool, bs: seq<Batch>): seq<Packet>
    requires forall b :: b in bs ==> GoodBatch(big, b)
  {
    if bs == [] then [] else Delivered(big, bs[..|bs| - 1]) + BatchPackets(big, bs[|bs| - 1])
  }

  lemma DeliveredSnoc(big: bool, bs: seq<Batch>, b: Batch)
    requires (forall c :: c in bs ==> GoodBatch(big, c)) && GoodBatch(big, b)
    ensures Delivered(big, bs + [b]) == Delivered(big, bs) + BatchPackets(big, b)
  {
    assert (bs + [b])[..|bs|] == bs;
  }

  // ------------------------------------------------------------- the handler

  // cb_jpacket_buffer_t with its current jpacket_buffer_t. The first 64 bytes
  // of mem are the buffer's own header. Once exception is set the capture loop
  // is broken and there is no buffer.
  class Handler {
    const big: bool
    const bufSize: nat
    var mem: array<byte>
    var capacity: nat
    var offset: nat
    var count: nat
    var exception: bool
    var dispatched: seq<Batch>

    ghost predicate Valid()
      reads this, mem
    {
      && bufSize < 0x4000_0000
      && (forall b :: b in dispatched ==> GoodBatch(big, b))
      && (!exception ==>
        && capacity == mem.Length < 0x8000_0000 && BUFFER_HEADER <= capacity
        && Holds(big, mem[..], BUFFER_HEADER, count)
        && offset == WalkEnd(big, mem[..], BUFFER_HEADER, count))
    }

    // Everything received: what was dispatched, then what is in the buffer.
    ghost function Packets(): seq<Packet>
      reads this, mem
      requires Valid()
    {
      if exception then Delivered(big, dispatched)
      else Delivered(big, dispatched) + Walk(big, mem[..], BUFFER_HEADER, count)
    }

    // The buffer that loop() starts with.
    constructor (big: bool, bufSize: nat)
      requires bufSize < 0x4000_0000
      ensures Valid() && fresh(mem) && !exception && Packets() == [] && this.big == big && this.bufSize == bufSize
      ensures capacity == (if bufSize < 80 then 80 else bufSize) && dispatched == []
    {
      this.big, this.bufSize := big, bufSize;
      var size := if bufSize < BUFFER_HEADER + PCAP_HEADER then BUFFER_HEADER + PCAP_HEADER else bufSize;
      mem := new byte[size];
      capacity, offset, count, exception, dispatched := size, BUFFER_HEADER, 0, false, [];
    }

    // int jpacket_buffer_create(...); fails says that the JVM gave no memory.
    method Create(minSize: nat, fails: bool) returns (rc: int)
      requires minSize < 0x4000_0000 && bufSize < 0x4000_0000
      modifies this
      ensures unchanged(`dispatched) && unchanged(`exception)
      ensures if fails then rc == -1 && unchanged(this) else
        && rc == 0 && fresh(mem) && count == 0 && offset == BUFFER_HEADER
        && mem.Length == capacity < 0x8000_0000
        && capacity == if bufSize < minSize + 80 then minSize + 80 else bufSize
    {
      var size, min := bufSize, minSize + BUFFER_HEADER + PCAP_HEADER;
      if size < min {
        size := min;
      }
      if fails {
        return -1;
      }
      mem := new byte[size];
      capacity := size;
      count := 0;
      offset := BUFFER_HEADER;
      return 0;
    }

    // int jpacket_buffer_dispatch(...); throws says that the user's handler did.
    method Dispatch(throws: bool) returns (rc: int)
      requires Valid() && !exception
      modifies this`dispatched
      ensures rc == if throws then -2 else 0
      ensures dispatched == if old(count) > 0 then old(dispatched) + [Batch(mem[..], count)] else old(dispatched)
      ensures Valid() && Delivered(big, dispatched) == old(Packets())
    {
      if count > 0 {
        DeliveredSnoc(big, dispatched, Batch(mem[..], count));
        dispatched := dispatched + [Batch(mem[..], count)];
      }
      rc := if throws then -2 else 0;
    }

    // void cb_jpacket_buffer_handler(...). The packet is appended, or an
    // exception ends the capture after everything before it was delivered.
    method Handle(p: Packet, throws: bool, fails: bool)
      requires Valid() && !exception && WellFormed(big, p)
      modifies this, mem
      ensures Valid() && (mem == old(mem) || fresh(mem))
      ensures exception ==> (throws || fails) && Packets() == old(Packets())
      ensures !exception ==> Packets() == old(Packets()) + [p]
      ensures !exception ==> offset % 2 == 0 && BUFFER_HEADER <= offset <= capacity + 1 && capacity == mem.Length
      ensures exception <==> old(capacity - |p.data| - PCAP_HEADER < offset) && (throws || fails)
      ensures dispatched == if old(capacity - |p.data| - PCAP_HEADER < offset && count > 0)
        then old(dispatched) + [Batch(old(mem[..]), old(count))] else old(dispatched)
    {
      hide Holds, Walk, WalkEnd, Caplen, Delivered, RecordLength;
      var end: int := capacity - |p.data| - PCAP_HEADER;
      if end < 0 {
        end := 0;
      }
      if offset > end {
        var rc := Dispatch(throws);
        if rc != 0 {
          exception := true;
          return;
        }
        rc := Create(|p.data|, fails);
        if rc != 0 {
          exception := true;
          return;
        }
        Nothing(big, mem[..], BUFFER_HEADER);
      }
      Append(p);
    }

    // The copies: header, then data, both inside the buffer.
    method Append(p: Packet)
      requires Valid() && !exception && WellFormed(big, p) && offset + PCAP_HEADER + |p.data| <= capacity
      modifies this`count, this`offset, mem
      ensures Valid() && Packets() == old(Packets()) + [p]
      ensures count == old(count) + 1 && offset == old(offset) + RecordLength(|p.data|)
    {
      hide Holds, Walk, WalkEnd, Caplen, Delivered;
      ghost var before := mem[..];
      var at := offset;
      count := count + 1;
      CopyRecord(mem, at, p);
      offset := offset + PCAP_HEADER;
      offset := offset + |p.data|;
      offset := offset + |p.data| % 2;
      WalkAppend(big, before, mem[..], BUFFER_HEADER, count - 1, p);
    }

    // pcap_loop over some packets, until it is broken.
    method Capture(ps: seq<Packet>, throws: nat -> bool, fails: nat -> bool) returns (handled: nat)
      requires Valid() && !exception && forall p :: p in ps ==> WellFormed(big, p)
      modifies this, mem
      ensures Valid() && handled <= |ps|
      ensures Packets() == old(Packets()) + ps[..handled]
      ensures !exception <==> handled == |ps|
    {
      hide *;
      handled := 0;
      ghost var before := Packets();
      assert before + ps[..0] == before;
      while handled < |ps|
        invariant handled <= |ps| && Valid() && !exception && (mem == old(mem) || fresh(mem))
        invariant Packets() == before + ps[..handled]
      {
        OneMore(before, ps, handled);
        Handle(ps[handled], throws(handled), fails(handled));
        if exception {
          return;
        }
        handled := handled + 1;
      }
    }
  }

  lemma OneMore(before: seq<Packet>, ps: seq<Packet>, i: nat)
    requires i < |ps|
    ensures before + ps[..i + 1] == before + ps[..i] + [ps[i]]
  {
  }

  // The two memcpy of a record.
  method CopyRecord(mem: array<byte>, at: nat, p: Packet)
    requires |p.header| == PCAP_HEADER && at + PCAP_HEADER + |p.data| <= mem.Length
    modifies mem
    ensures Agree(old(mem[..]), mem[..], at)
    ensures mem[..][at..at + PCAP_HEADER] == p.header
    ensures mem[..][at + PCAP_HEADER..at + PCAP_HEADER + |p.data|] == p.data
  {
    ghost var m := mem[..];
    Copy(mem, at, p.header);
    ghost var k := mem[..];
    assert k[..at] == m[..at] && k[at..at + PCAP_HEADER] == p.header;
    Copy(mem, at + PCAP_HEADER, p.data);
    ghost var r := mem[..];
    assert r[..at + PCAP_HEADER] == k[..at + PCAP_HEADER];
    assert r[at..at + PCAP_HEADER] == r[..at + PCAP_HEADER][at..];
    assert k[at..at + PCAP_HEADER] == k[..at + PCAP_HEADER][at..];
    forall i | 0 <= i < at
      ensures r[i] == m[i]
    {
      assert r[i] == r[..at + PCAP_HEADER][i] == k[i] == k[..at][i] == m[i];
    }
  }

  // memcpy
  method Copy(mem: array<byte>, at: nat, bs: seq<byte>)
    requires at + |bs| <= mem.Length
    modifies mem
    ensures mem[..at] == old(mem[..at]) && mem[at..at + |bs|] == bs && mem[at + |bs|..] == old(mem[at + |bs|..])
  {
    for i := 0 to |bs|
      invariant mem[..at] == old(mem[..at]) && mem[at..at + i] == bs[..i]
      invariant mem[at + |bs|..] == old(mem[at + |bs|..])
    {
      mem[at + i] := bs[i];
    }
  }
}
