/**
 scan_rtp: the count of padding bytes at the end of an RTP payload should become
 the postfix of the record. When it does.
 */
module RtpPadding {
  import opened Bytes
  import opened PacketState
  import opened Protocols

  // A char of the host.
  function Char(signedChar: bool, b: byte): int { if signedChar && b >= 128 then b as int - 256 else b }

  function RtpHeader(s: Scan): nat { 12 + At(s, s.offset) % 16 * 4 }

  // An extension adds its own header and the words that it counts.
  function RtpExtension(s: Scan, at: int): nat {
    if At(s, s.offset) / 16 % 2 == 1 then 4 * Net16(s, s.offset + at + 2) + 4 else 0
  }

  predicate RtpPads(s: Scan) { At(s, s.offset) / 32 % 2 == 1 }

  function ScanRtp(signedChar: bool, s: Scan): Scan {
    if !IsAccessible(s, 12) then s
    else
      var t := s.(length := s.length + RtpHeader(s));
      if !IsAccessible(t, t.length + 4) then t
      else
        var u := t.(length := t.length + RtpExtension(s, t.length));
        if RtpPads(s) && IsAccessible(s, s.wireLen - 1)
        then u.(postfix := Char(signedChar, At(s, s.wireLen - 1))) else u
  }

  // The whole packet has been captured, with all of the fixed header.
  predicate RtpIsThere(s: Scan) {
    && s.length == 0 && s.postfix == 0 && 0 <= s.offset && s.offset + RtpHeader(s) <= s.bufLen
    && s.bufLen == s.wireLen == |s.buf|
  }

  // What the last byte of a padded payload says, and no padding otherwise.
  function Padding(s: Scan): nat
    requires s.buf != []
  {
    if s.offset >= 0 && s.offset < |s.buf| && s.buf[s.offset] / 32 % 2 == 1 then s.buf[|s.buf| - 1] else 0
  }

  // The length of the header, from its bytes: twelve, four for each contributing
  // source, and the words of an extension behind its own four bytes.
  lemma RtpLength(signedChar: bool, s: Scan)
    requires s.length == 0 && 0 <= s.offset && s.bufLen <= |s.buf|
    ensures var t := ScanRtp(signedChar, s);
      if s.offset + 12 > s.bufLen then t == s
      else
        var first := s.buf[s.offset]; var at := s.offset + 12 + first % 16 * 4;
        if at + 4 > s.bufLen || first / 16 % 2 == 0 then t.length == 12 + first % 16 * 4
        else t.length == 16 + first % 16 * 4 + 4 * Big16(s.buf, at + 2)
  {
  }

  // The check in front of that byte counts from the header, not from the start of
  // the packet, and the one for an extension is made without one, too: the padding
  // is found when there is none, or when the header is at byte 0 or 1 of the packet
  // with four bytes behind it, and where char has a sign the count is below 128.
  lemma PaddingCondition(signedChar: bool, s: Scan)
    requires RtpIsThere(s)
    ensures ScanRtp(signedChar, s).postfix == Padding(s) <==>
      || Padding(s) == 0
      || (s.offset <= 1 && s.offset + RtpHeader(s) + 4 <= s.bufLen && (signedChar ==> Padding(s) < 128))
  {
    hide RtpExtension;
  }

  // Further on no byte is read for it, whatever has been captured.
  lemma PaddingIsIgnored(signedChar: bool, s: Scan)
    requires s.offset >= 2 && s.bufLen <= s.wireLen
    ensures var t := ScanRtp(signedChar, s);
      t == s.(length := t.length) && (t.length == s.length || t.length >= s.length + 12)
  {
    hide RtpExtension;
  }
}
