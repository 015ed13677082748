/**
 Recording a header: record_header and adjustForTruncatedPacket of
 packet_jsmall_scanner.cpp.
 */
module RecordHeader {
  import opened Gf2
  import opened PacketState

  // adjustForTruncatedPacket, from the tail of the record inward.
  function Adjust(s: Scan): Scan {
    var start := s.offset + s.prefix + s.length + s.gap + s.payload;
    if start + s.postfix > s.bufLen then
      var t := if s.postfix > 0 then
        s.(hdrFlags := s.hdrFlags + {PrefixTruncated}, postfix := Max(0, s.memLen - start))
      else s;
      if start > s.bufLen then AdjustPayload(t, start - s.payload) else t
    else s
  }

  function AdjustPayload(s: Scan, start: int): Scan {
    var t := s.(hdrFlags := s.hdrFlags + {PayloadTruncated}, payload := Max(0, s.bufLen - start));
    AdjustHeader(AdjustGap(t, start - s.gap), start - s.gap - s.length)
  }

  function AdjustGap(s: Scan, start: int): Scan {
    if s.gap > 0 && start + s.gap > s.bufLen then
      s.(hdrFlags := s.hdrFlags + {GapTruncated}, gap := Max(0, s.bufLen - start))
    else s
  }

  function AdjustHeader(s: Scan, start: int): Scan {
    if start + s.length > s.bufLen then
      s.(hdrFlags := s.hdrFlags + {HeaderTruncated}, length := Max(0, s.bufLen - start))
    else s
  }

  lemma AdjustFrame(s: Scan)
    ensures var t := Adjust(s);
      t == s.(length := t.length, gap := t.gap, payload := t.payload, postfix := t.postfix, hdrFlags := t.hdrFlags)
  {
  }

  // Truncation is a greedy allocation of the bytes that are left: first the
  // header takes what it can, then the gap, then the payload. Each flag is set
  // exactly when the record does not fit up to the end of its part; for gap and
  // postfix, when there is one. The flag of a postfix that does not fit is that
  // of the prefix, which itself is never cut.
  lemma AdjustIsGreedy(s: Scan)
    requires s.length >= 0 && s.gap >= 0 && s.payload >= 0 && s.postfix >= 0
    requires s.offset + s.prefix <= s.bufLen
    ensures var t := Adjust(s); var room := s.bufLen - s.offset - s.prefix;
      && t.length == Min(s.length, room)
      && t.gap == Min(s.gap, room - t.length)
      && t.payload == Min(s.payload, room - t.length - t.gap)
      && t == s.(length := t.length, gap := t.gap, payload := t.payload, postfix := t.postfix, hdrFlags := t.hdrFlags)
    ensures var t := Adjust(s); var need := s.length + s.gap + s.payload; var room := s.bufLen - s.offset - s.prefix;
      && (need + s.postfix <= room ==> t == s)
      && (HeaderTruncated in t.hdrFlags <==> HeaderTruncated in s.hdrFlags || s.length > room)
      && (GapTruncated in t.hdrFlags <==> GapTruncated in s.hdrFlags || (s.gap > 0 && s.length + s.gap > room))
      && (PayloadTruncated in t.hdrFlags <==> PayloadTruncated in s.hdrFlags || need > room)
      && (PrefixTruncated in t.hdrFlags <==> PrefixTruncated in s.hdrFlags || (s.postfix > 0 && need + s.postfix > room))
      && (forall f :: f in {Fragmented, IgnoreBounds} ==> (f in t.hdrFlags <==> f in s.hdrFlags))
  {
  }

  // The same facts in the words of the design: nothing inside the payload's end
  // grows, a shorter header leaves no gap or payload, and the whole record,
  // postfix included, ends inside the buffer.
  lemma AdjustFits(s: Scan)
    requires s.length >= 0 && s.gap >= 0 && s.payload >= 0 && s.postfix >= 0
    requires s.offset + s.prefix <= s.bufLen <= s.memLen
    ensures var t := Adjust(s);
      && 0 <= t.length <= s.length && 0 <= t.gap <= s.gap && 0 <= t.payload <= s.payload && 0 <= t.postfix
      && t.offset + t.prefix + t.length + t.gap + t.payload <= t.bufLen
      && t.offset + t.prefix + t.length + t.gap + t.payload + t.postfix <= t.memLen
      && (t.length < s.length ==> t.gap == 0 && t.payload == 0)
      && (t.gap < s.gap ==> t.payload == 0)
  {
    AdjustIsGreedy(s);
  }

  // The postfix is not cut to what it was: when the record does not fit, it is
  // given all the memory behind the payload. It grows exactly when there is
  // more of that than the record asked for.
  lemma PostfixMayGrow(s: Scan)
    requires s.length >= 0 && s.gap >= 0 && s.payload >= 0 && s.postfix >= 0
    ensures var start := s.offset + s.prefix + s.length + s.gap + s.payload;
      Adjust(s).postfix > s.postfix <==> s.postfix > 0 && s.bufLen < start + s.postfix < s.memLen
  {
  }

  // ID2MASK, as 64 bits: one of the low 32 for the id inside its group, and the
  // group number in the high half.
  function Mask(id: nat): Bits {
    seq(64, i requires 0 <= i < 64 => if i < 32 then i == id % 32 else Bit(id / 32, i - 32))
  }

  predicate Bit(x: nat, k: nat) {
    if k == 0 then x % 2 == 1 else Bit(x / 2, k - 1)
  }

  function Or(a: Bits, b: Bits): Bits
    requires |a| == |b|
  {
    seq(|a|, i requires 0 <= i < |a| => a[i] || b[i])
  }

  // PACKET_STATE_ADD_HEADER
  function AddHeader(maps: seq<Bits>, id: int): seq<Bits> {
    var g := id / 32;
    if ValidId(id) && g < |maps| && |maps[g]| == 64 then maps[g := Or(maps[g], Mask(id))] else maps
  }

  // wire_len is reduced by the postfix, buf_len follows it, and a payload that
  // was left at zero becomes the rest of the packet.
  function Lengths(s: Scan): Scan {
    var wireLen := s.wireLen - s.postfix;
    var bufLen := Min(s.bufLen, wireLen);
    s.(wireLen := wireLen, bufLen := bufLen,
       payload := if s.payload == 0 && s.id != PAYLOAD
         then Max(0, bufLen - (s.offset + s.prefix + s.length + s.gap)) else s.payload)
  }

  // The macro CUMULATIVE_FLAG_MASK has no parentheses, so that & binds tighter
  // than the | inside it: IgnoreBounds is added whatever scan.flags says.
  function RecordFlags(s: Scan): set<Flag> {
    s.hdrFlags + s.flags * {Fragmented} + {IgnoreBounds}
  }

  function Record(s: Scan): Scan {
    if s.recorded then s else Store(Adjust(Lengths(s)))
  }

  function Store(s: Scan): Scan {
    s.(headers := s.headers + [Header(s.id, s.offset + s.prefix, s.length, s.prefix, s.gap, s.payload, s.postfix,
                                      RecordFlags(s))],
       maps := AddHeader(s.maps, s.id),
       hdrFlags := {}, prefix := 0, gap := 0, payload := 0, postfix := 0, recorded := true)
  }

  lemma RecordKeepsNext(s: Scan)
    ensures Record(s).nextId == s.nextId && Record(s).id == s.id
  {
  }

  // One behind the other: prefix, header, gap and, when it has not been told, all the
  // rest as payload. The record names the place of the header itself.
  lemma RecordLaysOut(s: Scan)
    requires !s.recorded && s.prefix >= 0 && s.length >= 0 && s.gap >= 0 && s.postfix == 0
    requires s.payload == 0 && s.id != PAYLOAD
    requires s.offset + s.prefix + s.length + s.gap <= Min(s.bufLen, s.wireLen)
    ensures var u := Record(s);
      && |u.headers| == |s.headers| + 1 && u.headers[..|s.headers|] == s.headers
      && var h := Last(u);
        && h.id == s.id && h.offset == s.offset + s.prefix
        && h.prefix == s.prefix && h.length == s.length && h.gap == s.gap && h.postfix == 0
        && h.offset + h.length + h.gap + h.payload == u.bufLen == Min(s.bufLen, s.wireLen)
        && h.flags == s.hdrFlags + s.flags * {Fragmented} + {IgnoreBounds}
  {
    hide AddHeader;
  }
}
