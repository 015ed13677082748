/**
 The state of one packet scan: scan_t, header_t, packet_state_t and flow_key_t,
 from packet_jscanner.h and packet_flow.h.
 */
module PacketState {
  import opened Bytes
  import opened Gf2


  // hdr_flags and scan.flags, as the set of the bits that are on.
  datatype Flag =
    | PrefixTruncated | HeaderTruncated | PayloadTruncated | GapTruncated
    | Fragmented | IgnoreBounds

  // header_t: prefix | header | gap | payload | postfix. Field offset points at
  // the header itself.
  datatype Header = Header(
    id: int, offset: int, length: int, prefix: int, gap: int, payload: int, postfix: int, flags: set<Flag>)

  // flow_key_t. The 64-bit header_map is the set of its one bits.
  datatype FlowKey = FlowKey(
    headerMap: set<int>, hash: Bits, reversable: bool, pairCount: nat,
    forward: seq<(nat, nat)>, reverse: seq<(nat, nat)>, ids: seq<int>)

  // scan_stack_t: where to go on after a nested payload.
  datatype Pending = Pending(nextId: int, offset: int)

  // scan_t with the parts of packet_state_t that a scan writes. The number of
  // headers is both scan.hdr_count and packet.pkt_header_count.
  datatype Scan = Scan(
    buf: seq<byte>, bufLen: int, wireLen: int, memLen: int,
    offset: int, length: int, id: int, nextId: int, flags: set<Flag>,
    prefix: int, gap: int, payload: int, postfix: int, hdrFlags: set<Flag>, recorded: bool,
    headers: seq<Header>, maps: seq<Bits>, key: FlowKey, sport: int, dport: int, stack: seq<Pending>)

  const END := -1
  const PAYLOAD := 0
  const ETHERNET := 1
  const IP4 := 2
  const IP6 := 3
  const TCP := 4
  const UDP := 5
  const IEEE_802DOT3 := 6
  const IEEE_802DOT2 := 7
  const IEEE_802DOT1Q := 9
  const L2TP := 10
  const PPP := 11
  const ICMP := 12
  const HTTP := 13
  const ARP := 16
  const SIP := 17
  const SCTP := 32
  const RTP := 48
  const RTCP := 49
  const MAX_ID_COUNT := 256

  predicate ValidId(id: int) { 0 <= id < MAX_ID_COUNT }

  function Max(a: int, b: int): int { if a > b then a else b }

  function Min(a: int, b: int): int { if a < b then a else b }

  // The end of a header record, past its postfix.
  function RecordEnd(h: Header): int {
    h.offset + h.length + h.gap + h.payload + h.postfix
  }

  function Last(s: Scan): Header
    requires s.headers != []
  {
    s.headers[|s.headers| - 1]
  }

  function ZeroKey(): FlowKey {
    FlowKey({}, Zeros(32), false, 0, [(0, 0), (0, 0), (0, 0)], [(0, 0), (0, 0), (0, 0)], [0, 0, 0])
  }

  // Where scan() starts.
  function Start(buf: seq<byte>, wireLen: int, firstId: int): Scan {
    Scan(buf, |buf|, wireLen, |buf|, 0, 0, firstId, PAYLOAD, {}, 0, 0, 0, 0, {}, false, [],
         seq(8, _ => Zeros(64)), ZeroKey(), 0, 0, [])
  }
}
