# Verification of the native jNetPcap and libpcap core

A Dafny 4.11 model of the packet-processing core of NetProbe's native code, with
proofs of what it keeps, computes and promises. `dafny verify dfyconfig.toml`
checks the whole project.

- **Packet scanner.** `PacketState` is the state of a scan, `RecordHeader` the
  recording and truncation of one header, `ScanLoop` the main loop over any table
  of header scanners together with the contract such a scanner has to keep and
  the invariant of the loop. `ScanRuns`, `ScanBounds` and `BufferEnds` hold the
  theorems about whole runs, `Bindings` which protocol comes next. `Protocols` has
  the native header scanners as functions, `NativeScanners` the exact condition under
  which each keeps the contract, `Dissection` a reference reading of the wire formats
  that they agree with, `NativeRuns`, `NativePostfixes` and `RtpPadding` what follows
  for whole packets and for the bytes behind a payload. `ScanObject` is `scan_t` as an
  object whose members the C functions update in place; each method is proved to
  compute the corresponding function.
- **Header index and flow keys.** `HeaderIndex`, `FlowKeys`, and `ScanKeys` for
  the keys that scans can produce; `FlowReplies` and `FlowReplies6` for the way from
  the bytes of two frames to their common flow; `FlowMatches` is what match makes of
  the keys of scans, and `FlowExamples` has concrete ones. `EthernetKeys` is about
  frames without IP. `FrameRecords` and `FrameRecords6` follow the bytes of one frame
  to its records.
- **Checksums.** `InternetChecksum` (the sum and its properties), `VectorSum`
  (the loop over pieces of memory), `VectorConditions`, `SplitWords` and
  `OddPieces` (when it sums what it should), `SegmentLayout` and `TransportChecksum`;
  `Gf2` (division of bit sequences), `Bytes`, `Words`, `TableDriven`, `Crc32`,
  `Crc32Residue`, `Crc16`, `Crc16Agreement` and `TableLiterals`.
- **Stores.** `PacketBuffer`, `DirectMemory`, and the libpcap device list as an
  order on values (`DeviceOrder`) and as linked nodes (`DeviceList`).

Machine words are natural numbers with their wrap-around or truncation written
out. Flag words are sets of the bits that are on. The byte order of the host is a
parameter. Function tables are maps of functions from state to state; validation
functions and heuristics, which only read, are functions from state to id. The
outcome of a callback into Java, of `malloc` and of opening a device is a
parameter of the call.

Packets are taken to be shorter than 65536 bytes, as the stored 16-bit fields
assume. The contract of a header scanner is: no negative length, payload or
postfix; prefix and gap zero; offset, id and wire length untouched; no bytes
gained; of the records only the last one touched, whose last payload bytes may
pass to its postfix; and an Ethernet header that leads to IP leaves payload and
postfix to the loop.

Where the code and its own comments disagree, the model follows the code:

- The mask of cumulative header flags has no parentheses, so every record gets
  the ignore-bounds flag (`ScanRuns.MaskAsMeant`).
- A postfix that does not fit is marked with the flag for a truncated prefix, and
  the payload flag is set whenever the record does not fit up to the payload's
  end, payload or not (`RecordHeader.AdjustIsGreedy`). The cut could make a
  postfix larger (`RecordHeader.PostfixMayGrow`), which the modelled native
  scanners never lead to (`NativePostfixes.PostfixNeverGrows`).
- The trailer of a length frame is taken off the wire length, so that it is scanned as
  data when the capture is not whole (`BufferEnds.TrailerInPayload`).
- `scan_rtp` looks for the padding count at a place counted from the header, so that
  behind another header it never finds one (`RtpPadding.PaddingCondition`,
  `NativePostfixes.PaddingNeverRead`).
- `scan_ip6` trims an Ethernet trailer only behind a second record
  (`NativeScanners.Ip6Conserves`).
- `match` and `equal` compare two bytes for each pair instead of all eight, and the
  hash (`FlowMatches.KeyMatch`). So they take some different flows for one: with
  ports those where only the exclusive or of the ports is the same
  (`FlowExamples.PortsCollide`), without ports all protocols between the same two
  hosts (`FlowMatches.TwoPairMatch`, `FlowExamples.ProtocolsCollide`), and with IPv6
  whatever the first next headers are (`FlowReplies6.ReplyInSameFlow6`).
- On little-endian hosts the sides of the hardware address pair are mixed
  (`EthernetKeys.MacSides`).
- `crc16_ccitt` and `crc16_ccitt_seed` use the reverse table in the straight loop
  (`Crc16Agreement.CcittIsDocumented`).
- The halves of the union in `in_cksum` are words, not bytes. So an odd last
  piece is summed with the byte behind it (`VectorConditions.OddTailCondition`),
  a word across two pieces is not put together and the second piece is read shifted
  by one byte (`SplitWords.SplitWordCondition`), and a piece at an odd address is
  summed with the bytes of all its words but the first exchanged
  (`VectorConditions.EvenPiecesCondition`).
- `pseudoTcp` checks the length of the segment from the IP header on
  (`TransportChecksum.TcpLeavesBuffer`).
- `pseudoUdp` returns 0 for a datagram that fills the buffer to its last byte
  (`TransportChecksum.UdpAtTheEnd`).
- A loopback head does not rule out other devices
  (`DeviceOrder.LoopbackHeadWithOthers`), and a unit number may be followed by one
  more character (`DeviceOrder.UnitAsDocumented`), or run into the flags
  (`DeviceOrder.UnitRunsOver`).
- The limit is not checked again after the callback at the soft memory limit
  (`DirectMemory.SoftCallback`).

## Model

| member | source | states |
|---|---|---|
| ScanLoop.RunInv | trunk/NetProbe/jni/jnetpcap/packet_jsmall_scanner.cpp:153-361 | after any number of turns over any packet and any contract-keeping table, the records tile the scanned prefix and each one, also after a later scanner has rewritten it, lies inside the captured bytes |
| ScanLoop.BodyInv | trunk/NetProbe/jni/jnetpcap/packet_jsmall_scanner.cpp:153-361 | one turn keeps the whole invariant: offsets, tiling, bounds, nothing pending, and an Ethernet record in front of IP reaching to the end of the buffer |
| ScanLoop.RecordInside | trunk/NetProbe/jni/jnetpcap/packet_jsmall_scanner.cpp:382-475 | recording makes one record that starts at the offset and ends inside memory, never lengthens the header, and leaves nothing to scan when it had to shorten it |
| ScanLoop.TurnCases | trunk/NetProbe/jni/jnetpcap/packet_jsmall_scanner.cpp:194-346 | a legal turn is one of two things: nothing found and only the next id changes, or a header ready to be recorded behind the others |
| ScanRuns.OffsetIsTotal | trunk/NetProbe/jni/jnetpcap/packet_jsmall_scanner.cpp:352-376 | what scan returns is the sum of the recorded header lengths |
| ScanRuns.RecordsRemain | trunk/NetProbe/jni/jnetpcap/packet_jsmall_scanner.cpp:153-376 | between any two points of a run no record is lost, moved or resized; only the last one may pass bytes from payload to postfix, never beyond its old end |
| ScanRuns.FlagsOverRuns | trunk/NetProbe/jni/jnetpcap/packet_jsmall_scanner.cpp:441-447 | behind a fragment every record is marked fragmented; and every record of every packet carries the ignore-bounds flag |
| ScanRuns.MaskAsMeant | trunk/NetProbe/jni/jnetpcap/packet_jscanner.h:54-59 | the flags recorded are those the cumulative mask was meant to pass on if and only if ignore-bounds was already set, because the mask macro lacks parentheses |
| ScanRuns.RunEnds | trunk/NetProbe/jni/jnetpcap/packet_jsmall_scanner.cpp:153-361 | with any contract-keeping table the loop has ended after two turns for each captured byte |
| ScanRuns.RunEndsSoon | trunk/NetProbe/jni/jnetpcap/packet_jsmall_scanner.cpp:202-216 | with a payload scanner that takes all that is left, it has ended after one turn for each captured byte and one more, although buf_len may shrink on the way |
| ScanBounds.EagerBoundIsReached | trunk/NetProbe/jni/jnetpcap/packet_jsmall_scanner.cpp:202-216 | that bound is exact: for every packet some legal table needs every one of those turns |
| ScanBounds.LazyBoundIsReached | trunk/NetProbe/jni/jnetpcap/packet_jsmall_scanner.cpp:153-361 | and so is the general one |
| Bindings.DirectDiscovery | trunk/NetProbe/jni/jnetpcap/packet_jsmall_scanner.cpp:231-334 | without heuristics the next turn is at the id that the scanner found, or, if that is overridden, at the payload |
| Bindings.PostHeuristics | trunk/NetProbe/jni/jnetpcap/packet_jsmall_scanner.cpp:300-323 | heuristics that come afterwards are not asked when the scanner found something: the next turn is at that id, or the scan ends, whatever they say |
| Bindings.FirstHeuristic | trunk/NetProbe/jni/jnetpcap/packet_jsmall_scanner.cpp:278-323 | where they are asked - they come first, nothing was found, or it is overridden - the first one that recognises something decides |
| Bindings.NoHeuristic | trunk/NetProbe/jni/jnetpcap/packet_jsmall_scanner.cpp:278-323 | and if none does, it is as without heuristics |
| Bindings.StackTurn | trunk/NetProbe/jni/jnetpcap/packet_jsmall_scanner.cpp:202-216 | when nothing is left of a payload, the scan goes on at the id and offset pushed last, which are taken off |
| Bindings.AlreadyRecorded | trunk/NetProbe/jni/jnetpcap/packet_jsmall_scanner.cpp:382-390 | a header that its scanner recorded itself is not recorded again, and its length and gap are passed over |
| BufferEnds.RecordCuts | trunk/NetProbe/jni/jnetpcap/packet_jsmall_scanner.cpp:404-425 | behind a recorded header nothing is left to scan behind its payload if and only if the payload was not told, or reaches the end of the buffer, or its postfix the end of the wire |
| BufferEnds.EndBounds | trunk/NetProbe/jni/jnetpcap/packet_jsmall_scanner.cpp:404-425 | in any run of any legal table all that is recorded from some turn on ends where the buffer ended then |
| BufferEnds.PostfixUntouched | trunk/NetProbe/jni/jnetpcap/packet_jsmall_scanner.cpp:404-425 | so no later header or payload reaches into a postfix that ran to the end of the wire |
| BufferEnds.LengthFrameEnds | trunk/NetProbe/jni/jnetpcap/packet_jsmall_scanner.cpp:404-425 | every record behind an 802.3 frame of length L ends at L if the frame was captured whole, in every reachable state; else as many bytes later as are missing |
| BufferEnds.TrailerInPayload | trunk/NetProbe/jni/jnetpcap/packet_jsmall_scanner.cpp:404-425 | and that is exact: with nothing known behind the header one payload record takes all up to there, so that the trailer is taken for data if and only if there is one and bytes are missing |
| Dissection.TurnDissects | trunk/NetProbe/jni/jnetpcap/packet_protocol.cpp:860-1705 | in every state of every legal run, at every native header: the turn records the layer that a reference reading of the wire formats finds in the bytes - its size, cut where the buffer ends, and whether it is a fragment - or nothing, and goes on to the protocol that the bytes name, confirmed by its validation function |
| Dissection.PrivilegedPortEnds | trunk/NetProbe/jni/jnetpcap/packet_protocol.cpp:1166-1186 | a UDP header with a privileged port and none that is known ends the scan, whatever heuristics afterwards would say |
| RecordHeader.AdjustIsGreedy | trunk/NetProbe/jni/jnetpcap/packet_jsmall_scanner.cpp:482-588 | truncation gives the bytes that are left to header, then gap, then payload, and changes nothing when all fits; the exact condition for each flag: header and gap when their own bytes are cut, payload whenever the record does not fit up to its end, and the prefix flag for a postfix that does not fit |
| RecordHeader.AdjustFits | trunk/NetProbe/jni/jnetpcap/packet_jsmall_scanner.cpp:482-588 | afterwards the record ends inside the buffer, with postfix inside memory; no part grows; a shorter header leaves no gap or payload, a shorter gap no payload |
| RecordHeader.PostfixMayGrow | trunk/NetProbe/jni/jnetpcap/packet_jsmall_scanner.cpp:517-531 | the postfix grows exactly when the record does not fit and more memory lies behind its payload than the postfix asked for |
| RecordHeader.RecordLaysOut | trunk/NetProbe/jni/jnetpcap/packet_jsmall_scanner.cpp:382-475 | prefix, header, gap and, when it was not told, all the rest as payload lie one behind the other, and the record names the place of the header itself |
| NativePostfixes.PostfixNeverGrows | trunk/NetProbe/jni/jnetpcap/packet_jsmall_scanner.cpp:482-588 | in a run of any length over any packet no record of a modelled native header, nor of RTP behind another header, has a postfix larger than its scanner reported, if neither validation, heuristics nor other scanners name Ethernet and the latter report no postfix |
| NativePostfixes.PaddingNeverRead | trunk/NetProbe/jni/jnetpcap/packet_protocol.cpp:503-529 | in a scan of any packet that meets these headers only and does not start with RTP, with validation and heuristics as above, no record has a postfix larger than reported, and scan_rtp never reads the padding count |
| RtpPadding.PaddingCondition | trunk/NetProbe/jni/jnetpcap/packet_protocol.cpp:523-529 | in a packet captured whole the padding count at the end of an RTP payload, promised as the postfix, is found if and only if it is zero, or the header lies at byte 0 or 1 with four bytes behind it and the count is positive as a char |
| RtpPadding.RtpLength | trunk/NetProbe/jni/jnetpcap/packet_protocol.cpp:503-521 | the length of an RTP header from its bytes: twelve, four for each contributing source, and the words of an extension |
| ScanObject.ScanT.AdjustForTruncatedPacket | trunk/NetProbe/jni/jnetpcap/packet_jsmall_scanner.cpp:482-594 | the in-place code computes the function the truncation lemmas are about |
| ScanObject.ScanT.RecordHeader | trunk/NetProbe/jni/jnetpcap/packet_jsmall_scanner.cpp:382-475 | the in-place code computes the recording function the run theorems are about |
| ScanObject.ScanT.BindNext | trunk/NetProbe/jni/jnetpcap/packet_jsmall_scanner.cpp:231-334 | override and heuristics change the next id and restore everything else |
| ScanObject.ScanT.Turn | trunk/NetProbe/jni/jnetpcap/packet_jsmall_scanner.cpp:153-361 | one pass through the loop body, with its stack, is one turn |
| ScanObject.ScanT.Run | trunk/NetProbe/jni/jnetpcap/packet_jsmall_scanner.cpp:153-376 | the loop ends within two turns for each byte, the key of the last turn is processed, and the result is the sum of the header lengths |
| NativeScanners.EthernetLegal | trunk/NetProbe/jni/jnetpcap/packet_protocol.cpp:1562-1695 | scan_ethernet keeps the contract if and only if the type is not a length, or is a length between the header and the end of the buffer |
| NativeScanners.VlanLegal | trunk/NetProbe/jni/jnetpcap/packet_protocol.cpp:947-974 | scan_vlan does if and only if a length field reaches past the header, counted from the start of the packet |
| NativeScanners.Ip4Legal | trunk/NetProbe/jni/jnetpcap/packet_protocol.cpp:1439-1557 | scan_ip4 does if and only if the header fits the total length; in a fragment, what has been captured of the packet |
| NativeScanners.Ip6Legal | trunk/NetProbe/jni/jnetpcap/packet_protocol.cpp:1205-1352 | scan_ip6 does if and only if the extension headers fit the payload length |
| NativeScanners.TcpLegal | trunk/NetProbe/jni/jnetpcap/packet_protocol.cpp:1041-1110 | scan_tcp always does |
| NativeScanners.UdpLegal | trunk/NetProbe/jni/jnetpcap/packet_protocol.cpp:1129-1187 | scan_udp always does |
| NativeScanners.IcmpLegal | trunk/NetProbe/jni/jnetpcap/packet_protocol.cpp:860-891 | scan_icmp always does |
| NativeScanners.ArpLegal | trunk/NetProbe/jni/jnetpcap/packet_protocol.cpp:1192-1200 | scan_arp always does |
| NativeScanners.PppLegal | trunk/NetProbe/jni/jnetpcap/packet_protocol.cpp:896-909 | scan_ppp always does |
| NativeScanners.PayloadLegal | trunk/NetProbe/jni/jnetpcap/packet_protocol.cpp:1701-1705 | scan_payload always does |
| NativeScanners.Ip4TrimConserves | trunk/NetProbe/jni/jnetpcap/packet_protocol.cpp:1460-1475 | with trailing bytes behind IPv4 in Ethernet, the Ethernet record keeps its extent, its payload ends with the IP packet, and that is the new buffer end; otherwise no record and no limit changes |
| NativeScanners.Ip6Conserves | trunk/NetProbe/jni/jnetpcap/packet_protocol.cpp:1213-1352 | header and payload always add up to 40 plus the payload length; the trailer is moved as for IPv4, but only when the Ethernet record is not the first one |
| Protocols.WalkConserves | trunk/NetProbe/jni/jnetpcap/packet_protocol.cpp:1286-1341 | the extension walk takes exactly the bytes of the readable option chain from the payload to the header and changes nothing else but flags and next id |
| NativeRuns.NativeRunLegal | trunk/NetProbe/jni/jnetpcap/packet_protocol.cpp:1776-1809 | with the native table a whole run keeps the contract if and only if the guards hold at every header on the way |
| NativeRuns.NativeScan | trunk/NetProbe/jni/jnetpcap/packet_jsmall_scanner.cpp:106-376 | so a scan of any packet that meets the guards ends, with tiled records inside the packet, their lengths adding up to the result, and the flags inherited |
| FrameRecords.FrameIsRecorded | trunk/NetProbe/jni/jnetpcap/packet_jsmall_scanner.cpp:106-376 | from bytes to records: an Ethernet frame with any IPv4 packet, fragments included, is after two turns two records whose payload and postfix are exactly the packet, what is captured of it, and the trailer; the second is marked as a fragment if and only if the bytes say so |
| FrameRecords.TransportIsRecorded | trunk/NetProbe/jni/jnetpcap/packet_jsmall_scanner.cpp:106-376 | after three turns a TCP or UDP frame has its third record: the transport header with the length its own data offset tells, cut to what is there, and the rest of the packet as payload |
| FrameRecords.FrameStaysRecorded | trunk/NetProbe/jni/jnetpcap/packet_jsmall_scanner.cpp:106-376 | and after any number of further legal turns the two are still the first: Ethernet unchanged, IPv4 in its place with its header and mark, inside the packet |
| FrameRecords.TransportStaysRecorded | trunk/NetProbe/jni/jnetpcap/packet_jsmall_scanner.cpp:106-376 | and so is the third, with its header and a payload that has not grown |
| FrameRecords.FragmentIsMarked | trunk/NetProbe/jni/jnetpcap/packet_protocol.cpp:1478-1483 | of a fragment the IPv4 record and every record behind it are marked, however the scan goes on |
| FrameRecords6.FrameIsRecorded6 | trunk/NetProbe/jni/jnetpcap/packet_protocol.cpp:1205-1352 | an Ethernet frame with an IPv6 packet, any chain of the seven kinds of extension headers, and TCP or UDP is three records: the chain belongs to the IPv6 record, which is marked as a fragment if and only if one of its headers is kind 44 |
| NativeRuns.Ip4ShortTotal | trunk/NetProbe/jni/jnetpcap/packet_protocol.cpp:1450-1453 | without the IPv4 guard, an unfragmented total length shorter than the header is recorded as a negative payload exactly when the capture reaches it |
| ScanObject.ScanT.Ethernet | trunk/NetProbe/jni/jnetpcap/packet_protocol.cpp:1630-1695 | the in-place code is the function the legality, run and reply theorems are about |
| ScanObject.ScanT.Ieee802dot3 | trunk/NetProbe/jni/jnetpcap/packet_protocol.cpp:1577-1623 | the same for the length frames that scan_ethernet hands over |
| ScanObject.ScanT.Vlan | trunk/NetProbe/jni/jnetpcap/packet_protocol.cpp:947-974 | the same for scan_vlan |
| ScanObject.ScanT.Ppp | trunk/NetProbe/jni/jnetpcap/packet_protocol.cpp:896-909 | the same for scan_ppp |
| ScanObject.ScanT.Arp | trunk/NetProbe/jni/jnetpcap/packet_protocol.cpp:1192-1200 | the same for scan_arp |
| ScanObject.ScanT.Icmp | trunk/NetProbe/jni/jnetpcap/packet_protocol.cpp:860-891 | the same for scan_icmp |
| ScanObject.ScanT.Rtp | trunk/NetProbe/jni/jnetpcap/packet_protocol.cpp:503-529 | the same for scan_rtp, which behind another header reads nothing outside the buffer |
| ScanObject.ScanT.Tcp | trunk/NetProbe/jni/jnetpcap/packet_protocol.cpp:1041-1110 | the same for scan_tcp, key pairs included |
| ScanObject.ScanT.Udp | trunk/NetProbe/jni/jnetpcap/packet_protocol.cpp:1129-1187 | the same for scan_udp, key pairs included |
| ScanObject.ScanT.Ip4 | trunk/NetProbe/jni/jnetpcap/packet_protocol.cpp:1439-1557 | the same for scan_ip4, with the record before it rewritten |
| ScanObject.ScanT.Ip6 | trunk/NetProbe/jni/jnetpcap/packet_protocol.cpp:1205-1352 | the same for scan_ip6 |
| ScanObject.ScanT.WalkOptions | trunk/NetProbe/jni/jnetpcap/packet_protocol.cpp:1275-1351 | the loop by goto ends, its cursor is always where the header length ends, and both bytes it reads are in the buffer |
| ScanObject.ScanT.ValidateNextId | trunk/NetProbe/jni/jnetpcap/packet_protocol.cpp:1712-1734 | the look ahead restores offset and length |
| ScanObject.ScanT.NativeDispatch | trunk/NetProbe/jni/jnetpcap/packet_protocol.cpp:1788-1808 | dispatch through the native table |
| HeaderIndex.MapsOverRuns | trunk/NetProbe/jni/jnetpcap/packet_jscanner.h:271-275 | after any run bit b of map word g is set if and only if id 32g+b has been recorded, and the high half of a used word is its number |
| HeaderIndex.FindHeaderById | trunk/NetProbe/jni/jnetpcap/packet_jpacket.cpp:44-66 | instance k of an id is the k-th place of that id, and there is none if k is not below the count |
| HeaderIndex.GetInstanceCount | trunk/NetProbe/jni/jnetpcap/packet_jpacket.cpp:216-223 | the number of places of the id |
| HeaderIndex.PlacesMeaning | trunk/NetProbe/jni/jnetpcap/packet_jpacket.cpp:44-66 | the places are all the indices with the id, strictly increasing |
| HeaderIndex.SearchIsComplete | trunk/NetProbe/jni/jnetpcap/packet_jpacket.cpp:44-66 | the searches list every record of an id exactly when the eight-bit header count lets them see all of those records, as it does up to 127 |
| HeaderIndex.MapFindsFirst | trunk/NetProbe/jni/jnetpcap/packet_jpacket.cpp:44-66 | map and searches agree: the bit is set if and only if the first instance can be found |
| FlowReplies.ReplyInSameFlow | trunk/NetProbe/jni/jnetpcap/packet_flow.cpp:46-356 | for any two Ethernet, unfragmented IPv4, TCP or UDP frames with addresses and ports swapped, whatever their options and data, the keys their scans produce have equal hash, flags and map, and match finds them from both sides |
| FlowExamples.SegmentsFlow | trunk/NetProbe/jni/jnetpcap/packet_flow.cpp:46-356 | there are such frames and such scans, of any length |
| FlowReplies.KeyOfScan | trunk/NetProbe/jni/jnetpcap/packet_protocol.cpp:1059-1081 | such a frame, scanned, gets the key of its addresses, protocol and ports, and keeps it behind headers that have no pair of their own |
| FlowReplies.NoPairKeepsKey | trunk/NetProbe/jni/jnetpcap/packet_protocol.cpp:1776-1809 | the native scanners leave the key alone at headers without a pair of their own, and at those whose id the key already has |
| FlowReplies.PairKeyOfScan | trunk/NetProbe/jni/jnetpcap/packet_protocol.cpp:1498-1515 | an Ethernet frame with an IPv4 packet of any protocol, fragments included, gets the key of its two addresses and its protocol, if no ports follow |
| FlowReplies6.KeyOfScan6 | trunk/NetProbe/jni/jnetpcap/packet_protocol.cpp:1205-1352 | an Ethernet frame with an IPv6 packet, any chain of extension headers, and its whole TCP or UDP header gets the key of the two addresses, each the exclusive or of its four words, and the ports |
| FlowReplies6.ReplyInSameFlow6 | trunk/NetProbe/jni/jnetpcap/packet_flow.cpp:46-356 | match takes such a frame and any frame with addresses and ports swapped for one flow from both sides, and should, if and only if both have the same next header behind the fixed one |
| EthernetKeys.MacKeyOfScan | trunk/NetProbe/jni/jnetpcap/packet_protocol.cpp:1640-1680 | a scan without addresses of IP gets the key of the two hardware addresses and the type, on hosts of either byte order, length frames included |
| EthernetKeys.MacSides | trunk/NetProbe/jni/jnetpcap/packet_protocol.cpp:1655-1672 | each side of that pair is made of one address as on a big-endian host if and only if the host is one, or the last two bytes of the destination are the first two of the source |
| ScanKeys.KeyShapes | trunk/NetProbe/jni/jnetpcap/packet_protocol.cpp:1776-1809 | the key of any scan of any packet has at most three pairs of 32-bit words, the second with equal sides, the third of ports and only in a reversable key, as long as every transport header finds no pairs or two (behind three the code writes outside its arrays) |
| FlowKeys.ProcessFlowKey | trunk/NetProbe/jni/jnetpcap/packet_flow.cpp:46-87 | every used pair is reversed and the hash is that of the map, the flags and all pairs |
| FlowKeys.SwappedHash | trunk/NetProbe/jni/jnetpcap/packet_flow.cpp:57-74 | the hash does not depend on the direction of the pairs, with and without the reversable flag |
| FlowKeys.SwappedKeysMatch | trunk/NetProbe/jni/jnetpcap/packet_flow.cpp:46-87 | keys with all pairs swapped match from both sides, in reverse if they differ at all |
| FlowKeys.ProcessedOnce | trunk/NetProbe/jni/jnetpcap/packet_flow.cpp:46-87 | a hash that is set stays, and the pairs of a key that is not reversable are not reversed |
| FlowKeys.MapFolds | trunk/NetProbe/jni/jnetpcap/packet_flow.cpp:57-60 | ids 32 apart are the same to the hash, and both together are nothing |
| FlowKeys.FlagHashed | trunk/NetProbe/jni/jnetpcap/packet_flow.cpp:57-60 | the reversable flag is its lowest bit |
| FlowKeys.Symmetric | trunk/NetProbe/jni/jnetpcap/packet_flow.h:21-27 | the documented comparison is symmetric on processed keys of equal pair count |
| FlowKeys.Transitive | trunk/NetProbe/jni/jnetpcap/packet_flow.h:21-27 | and transitive |
| FlowKeys.NeverMisses | trunk/NetProbe/jni/jnetpcap/packet_flow.cpp:222-356 | match as written never misses a documented match, and equal is match in one bit |
| FlowMatches.KeyMatch | trunk/NetProbe/jni/jnetpcap/packet_flow.cpp:222-356 | for any two keys that scans produce, with equally many pairs: what match returns, what it is documented to return, and that the two are the same if and only if pairs alike in the bytes compared and in the hash are equal, in either direction |
| FlowMatches.AlikeOne | trunk/NetProbe/jni/jnetpcap/packet_flow.cpp:261-286 | one pair, of a length frame: alike are equal halves of the first word and equal exclusive or |
| FlowMatches.AlikeTwo | trunk/NetProbe/jni/jnetpcap/packet_flow.cpp:261-286 | two pairs, of a scan without ports: alike are equal addresses, whatever the protocols |
| FlowMatches.TwoPairMatch | trunk/NetProbe/jni/jnetpcap/packet_flow.cpp:222-356 | so for any two keys of two pairs, as all scans without ports leave them, match gives 1 exactly when the maps and the first pairs are equal, and does what is documented if and only if equal maps and first pairs come with equal second pairs |
| FlowMatches.PairMatch | trunk/NetProbe/jni/jnetpcap/packet_flow.cpp:261-286 | for IPv4 packets without ports: one flow if and only if both addresses are equal, as documented if and only if equal addresses mean equal protocols |
| FlowMatches.FrameMatch | trunk/NetProbe/jni/jnetpcap/packet_flow.cpp:261-286 | on TCP and UDP frames match compares the source address, half of the destination address and the hash; so it computes what is documented if and only if frames that are alike in these have equal addresses and ports, turned around for the reverse |
| FlowMatches.AlikeLittle | trunk/NetProbe/jni/jnetpcap/packet_flow.cpp:261-286 | three pairs: on a little-endian host alike are equal addresses and an equal exclusive or of the ports |
| FlowMatches.AlikeBig | trunk/NetProbe/jni/jnetpcap/packet_flow.cpp:261-286 | on a big-endian host an equal source address, an equal upper half of the destination address, and an equal exclusive or of destination address and ports |
| FlowMatches.OtherProtocol | trunk/NetProbe/jni/jnetpcap/packet_flow.cpp:253-257 | a TCP and a UDP frame never match, and should not |
| FlowExamples.PortsCollide | trunk/NetProbe/jni/jnetpcap/packet_flow.cpp:261-286 | two such frames, for either byte order: the same hosts, ports (2x, 2y) and (2x+1, 2y+1); match takes the two flows for one |
| FlowExamples.ProtocolsCollide | trunk/NetProbe/jni/jnetpcap/packet_flow.cpp:261-286 | two packets of different protocols between the same hosts, ICMP and IGMP for example: whole scans give them keys that match, and should not |
| VectorSum.InCksum | trunk/NetProbe/jni/jnetpcap/util_in_cksum.cpp:56-156 | over pieces of any length at any addresses, the unrolled sum is the complement of the one's-complement sum of the bytes that Summed tells, and the running int never overflows |
| VectorConditions.EvenPiecesCondition | trunk/NetProbe/jni/jnetpcap/util_in_cksum.cpp:92-140 | pieces of even length are summed as their concatenation if and only if what lies behind the first words of those at odd addresses adds up to a multiple of 257 |
| InternetChecksum.OnesSumIsCanon | trunk/NetProbe/jni/jnetpcap/util_in_cksum.cpp:53-54 | adding with end-around carry gives the representative modulo 65535 that is zero only for zero |
| InternetChecksum.ByteOrderIndependent | trunk/NetProbe/jni/jnetpcap/util_in_cksum.cpp:189-196 | a host of the other byte order gets the same sum with its bytes swapped (section 2 of RFC 1071) |
| VectorConditions.OddTailCondition | trunk/NetProbe/jni/jnetpcap/util_in_cksum.cpp:144-150 | at even addresses, with an odd number of bytes in all, the result is that of a zero-padded buffer if and only if a zero byte follows in memory |
| SplitWords.SplitWordCondition | trunk/NetProbe/jni/jnetpcap/util_in_cksum.cpp:77-88 | behind an odd number of bytes at even addresses, one more piece of any length is summed as it should be if and only if its bytes, weighted with the distance to the bytes read in their place, drift by a multiple of 65535, and all that is read is zero exactly when all that should be is |
| SplitWords.OneByteMore | trunk/NetProbe/jni/jnetpcap/util_in_cksum.cpp:77-88 | for a piece of one byte that is: if and only if the byte behind the first pieces happens to be the one in it |
| OddPieces.OddPieceCondition | trunk/NetProbe/jni/jnetpcap/util_in_cksum.cpp:92-150 | a piece of odd length at an odd address is summed as the zero-padded one if and only if 255 times what is read behind its first word, and the byte behind the piece, come to a multiple of 65535, and that byte is zero when the piece is |
| InternetChecksum.PatchedSwapped | trunk/NetProbe/jni/jnetpcap/util_in_cksum.cpp:164-208 | in a field at an odd address it does so if and only if the sum was a multiple of 257 |
| InternetChecksum.OnlyPatched | trunk/NetProbe/jni/jnetpcap/util_in_cksum.cpp:164-208 | no other value does, up to a multiple of 65535 |
| InternetChecksum.InCksumShouldBe | trunk/NetProbe/jni/jnetpcap/util_in_cksum.cpp:164-208 | two folds are one end-around carry |
| InternetChecksum.PatchedVerifies | trunk/NetProbe/jni/jnetpcap/util_in_cksum.cpp:164-208 | storing the suggested value into any even field makes the checksum of the buffer exactly zero, for every content and either byte order |
| TransportChecksum.PadToEven | trunk/NetProbe/jni/jnetpcap/util_checksum.cpp:46-65 | the last odd byte moves into a pad piece, and nothing else changes |
| TransportChecksum.AddIpPseudoHeader | trunk/NetProbe/jni/jnetpcap/util_checksum.cpp:81-110 | the two pieces read together are the pseudo-header (section 3.1 of RFC 793, section 8.1 of RFC 2460) |
| TransportChecksum.PseudoTcp | trunk/NetProbe/jni/jnetpcap/util_checksum.cpp:337-392 | the result is the checksum of pseudo-header and zero-padded segment, summed as they lie in memory, with every error return |
| TransportChecksum.SummedAsDocumented | trunk/NetProbe/jni/jnetpcap/util_checksum.cpp:337-392 | which is the checksum of the flat buffer if and only if the words at odd addresses that are summed with exchanged bytes add up to a multiple of 257; always at even offsets |
| TransportChecksum.TcpLeavesBuffer | trunk/NetProbe/jni/jnetpcap/util_checksum.cpp:375-384 | the length is checked from the IP header on: of a packet that ends outside the buffer all checks pass if and only if no more is missing than lies between the two headers, and the segment is not in the buffer then |
| TransportChecksum.ShortCapturePasses | trunk/NetProbe/jni/jnetpcap/util_checksum.cpp:375-384 | 40 bytes of a packet of 60 pass |
| TransportChecksum.TcpOutcomes | trunk/NetProbe/jni/jnetpcap/util_checksum.cpp:337-392 | exactly which inputs give which error return, and that all others give a sum |
| TransportChecksum.UdpOutcomes | trunk/NetProbe/jni/jnetpcap/util_checksum.cpp:399-437 | the same for UDP |
| TransportChecksum.PseudoUdp | trunk/NetProbe/jni/jnetpcap/util_checksum.cpp:399-437 | the same for UDP, and 0 without a look at the data for a datagram that reaches the last byte of the buffer |
| TransportChecksum.UdpAtTheEnd | trunk/NetProbe/jni/jnetpcap/util_checksum.cpp:422-425 | so that any value in the checksum field of such a datagram is accepted, although at most one modulo 65535 is right |
| TransportChecksum.TcpPatchedVerifies | trunk/NetProbe/jni/jnetpcap/util_checksum.cpp:337-392 | a TCP segment whose checksum field is set as suggested is accepted with 0, at an even offset always, at an odd one if and only if the sum was a multiple of 257 |
| TransportChecksum.UdpPatchedVerifies | trunk/NetProbe/jni/jnetpcap/util_checksum.cpp:399-437 | the same for a UDP datagram that ends before the buffer does |
| Crc32.Crc32CcittSeed | trunk/NetProbe/jni/jnetpcap/util_crc32.c:187-197 | the byte loop computes the table-driven check |
| Crc32.Crc32Ccitt | trunk/NetProbe/jni/jnetpcap/util_crc32.c:181-185 | the same from the fixed seed |
| Crc32.CalculateCrc32c | trunk/NetProbe/jni/jnetpcap/util_crc32.c:171-179 | the same for the Castagnoli table, between two byte swaps; a negative length reads nothing |
| TableDriven.LookupDivides | trunk/NetProbe/jni/jnetpcap/util_crc32.c:193-194 | one table step is eight single-bit division steps |
| TableLiterals.DivisorIsEntry | trunk/NetProbe/jni/jnetpcap/util_crc32.c:187-197 | for any divisor the bits of entry 128, or of entry 1 where the highest bit comes first, are the divisor |
| TableLiterals.TopEntries | trunk/NetProbe/jni/jnetpcap/util_crc32.c:49-170 | the literals there follow from the divisors: 0xEDB88320, 0x82F63B78, and 0x8408 in the reverse table |
| Crc32.CcittIsDivision | trunk/NetProbe/jni/jnetpcap/util_crc32.c:187-197 | the loop is bit-serial division by 0x04C11DB7, for every message and seed |
| Crc32.CastagnoliIsDivision | trunk/NetProbe/jni/jnetpcap/util_crc32.c:171-179 | the same for 0x1EDC6F41 (Appendix B of RFC 4960) |
| Crc32.CcittChains | trunk/NetProbe/jni/jnetpcap/util_crc32.c:187-197 | feeding the complemented result forward equals one pass over both parts |
| Crc32.CastagnoliChains | trunk/NetProbe/jni/jnetpcap/util_crc32.c:171-179 | feeding the result forward equals one pass over both parts |
| Crc32.CcittDetects | trunk/NetProbe/jni/jnetpcap/util_crc32.c:187-197 | messages that differ only within four consecutive bytes never have equal checks |
| Crc32.CastagnoliDetects | trunk/NetProbe/jni/jnetpcap/util_crc32.c:171-179 | the same for the Castagnoli check |
| Crc32.CcittLongestBurst | trunk/NetProbe/jni/jnetpcap/util_crc32.c:187-197 | of all differences confined to 33 bits exactly one, the divisor itself, goes unnoticed |
| Crc32.CastagnoliLongestBurst | trunk/NetProbe/jni/jnetpcap/util_crc32.c:171-179 | the same for the Castagnoli check |
| Crc32.CcittResidue | trunk/NetProbe/jni/jnetpcap/util_crc32.c:181-197 | a message with a word behind it has the fixed residue if and only if the word is its check |
| Crc32Residue.ResidueIs | trunk/NetProbe/jni/jnetpcap/util_crc32.c:181-197 | that residue is 0x2144DF1C |
| Crc32.CastagnoliResidue | trunk/NetProbe/jni/jnetpcap/util_crc32.c:171-179 | the same with residue zero, the check sent high byte first |
| Crc32.CastagnoliDetectsOdd | trunk/NetProbe/jni/jnetpcap/util_crc32.c:171-179 | every error in an odd number of bits is noticed |
| Crc32.CcittMissesOdd | trunk/NetProbe/jni/jnetpcap/util_crc32.c:187-197 | which is not so for the CCITT check: the one burst it misses has an odd number of bits |
| Crc16.Crc16Unreflected | trunk/NetProbe/jni/jnetpcap/util_crc16.c:147-159 | for any table the 32-bit accumulator gives the result of a 16-bit one |
| Crc16.LowHalfAgrees | trunk/NetProbe/jni/jnetpcap/util_crc16.c:150-158 | dropping the upper half at the end is the same as never having it |
| Crc16.Crc16X25Ccitt | trunk/NetProbe/jni/jnetpcap/util_crc16.c:183-186 | the loop from the fixed start with the straight table |
| Crc16.Crc16CcittSeed | trunk/NetProbe/jni/jnetpcap/util_crc16.c:188-192 | the loop from the seed with the reverse table, complemented |
| Crc16.Crc16Ccitt | trunk/NetProbe/jni/jnetpcap/util_crc16.c:177-181 | the same from the fixed start |
| Crc16.CcittChains | trunk/NetProbe/jni/jnetpcap/util_crc16.c:188-192 | feeding the complemented result forward equals one pass |
| Crc16.X25IsDivision | trunk/NetProbe/jni/jnetpcap/util_crc16.c:183-186 | the X.25 check is division by x^16 + x^12 + x^5 + 1, highest bit first |
| Crc16.X25Detects | trunk/NetProbe/jni/jnetpcap/util_crc16.c:183-186 | it notices every error confined to two consecutive bytes |
| Crc16.X25DetectsOdd | trunk/NetProbe/jni/jnetpcap/util_crc16.c:183-186 | and every error in an odd number of bits |
| Crc16.DocumentedIsDivision | trunk/NetProbe/jni/jnetpcap/util_crc16.h:38-61 | the documented check, from any seed: the same divisor, the message read lowest bit first |
| Crc16Agreement.CcittIsDocumented | trunk/NetProbe/jni/jnetpcap/util_crc16.c:177-192 | crc16_ccitt and crc16_ccitt_seed pair the reverse table with the straight loop: for every message and seed, they give the documented check if and only if the message is empty or one table lookup on the two accumulators before the last byte says that they meet |
| Crc16Agreement.StepsAgree | trunk/NetProbe/jni/jnetpcap/util_crc16.c:147-159 | for any two accumulators one more byte of any value makes them equal if and only if they meet |
| Crc16Agreement.LastByteNeverMatters | trunk/NetProbe/jni/jnetpcap/util_crc16.c:177-192 | whether they agree does not depend on the last byte of the message, from any seed |
| Crc16Agreement.OneByte | trunk/NetProbe/jni/jnetpcap/util_crc16.c:177-192 | on a message of one byte they agree if and only if the seed is 0 or 0xf7f8 |
| Crc16Agreement.TwoBytes | trunk/NetProbe/jni/jnetpcap/util_crc16.c:177-181 | from the fixed start, on a message of two bytes exactly when the first one is 0xff |
| PacketBuffer.Handler.Capture | trunk/NetProbe/jni/jnetpcap/jpacket_buffer.cpp:17-94 | over any run without an exception the packets in dispatched batches followed by those in the buffer are the packets received, in order; an exception comes after all earlier packets were delivered |
| PacketBuffer.Handler.Handle | trunk/NetProbe/jni/jnetpcap/jpacket_buffer.cpp:17-94 | one packet is appended inside the capacity, the offset stays even and at most one past it, and an exception can only come from a dispatch |
| PacketBuffer.Handler.Append | trunk/NetProbe/jni/jnetpcap/jpacket_buffer.cpp:80-93 | the copies stay inside the buffer and are read back behind the records before |
| PacketBuffer.Handler.Create | trunk/NetProbe/jni/jnetpcap/jpacket_buffer.cpp:101-152 | a new buffer is empty and has room for the packet that asked for it |
| PacketBuffer.Handler.Dispatch | trunk/NetProbe/jni/jnetpcap/jpacket_buffer.cpp:154-194 | a buffer without packets is not handed over, any other one is, whole |
| PacketBuffer.WalkAppend | trunk/NetProbe/jni/jnetpcap/jpacket_buffer.cpp:80-93 | a record written where the walk by record lengths ends is the next one the walk finds, and the earlier ones are unchanged |
| PacketBuffer.BatchStarts | trunk/NetProbe/jni/jnetpcap/jpacket_buffer.cpp:80-93 | in a batch the first packet lies behind 64 bytes, the next one at the next even place |
| PacketBuffer.CaplenIs | trunk/NetProbe/jni/jnetpcap/jpacket_buffer.cpp:80-93 | the captured length is the number in bytes 8 to 11 of a packet header in the byte order of the host |
| DirectMemory.Conserved | trunk/NetProbe/jni/jnetpcap/nio_jmemory.cpp:180-234 | over any tree of callbacks: available plus reserved follows the limit, reserved minus the allocations not yet returned is what failed mallocs were charged, every counted call has its size class |
| DirectMemory.FromTheStart | trunk/NetProbe/jni/jnetpcap/nio_jmemory.cpp:103-372 | the same as equations between the counters, from program start, modulo 2^64 |
| DirectMemory.LimitHoldsAll | trunk/NetProbe/jni/jnetpcap/nio_jmemory.cpp:180-234 | whatever honest callers and their callbacks do, the sums are exact in every state on the way if and only if every callback at the soft limit leaves room for the allocation it interrupted; and then the reserved bytes never pass the limit |
| DirectMemory.SoftCallback | trunk/NetProbe/jni/jnetpcap/nio_jmemory.cpp:197-206 | one allocation at the soft limit: exact sums, and reserved bytes within the limit, if and only if the bytes are still available after the callback, which is the check the code does not repeat |
| DirectMemory.FreesLeaveRoom | trunk/NetProbe/jni/jnetpcap/nio_jmemory.cpp:197-206 | callbacks that only free always leave room |
| DirectMemory.SoftCallbackCanOvercommit | trunk/NetProbe/jni/jnetpcap/nio_jmemory.cpp:197-206 | one that allocates need not |
| DirectMemory.SoftLimitDecides | trunk/NetProbe/jni/jnetpcap/nio_jmemory.cpp:197-206 | after a new soft limit the callback of the next allocation that fits runs if and only if more than that is reserved |
| DirectMemory.LimitDecides | trunk/NetProbe/jni/jnetpcap/nio_jmemory.cpp:262-269 | after a new limit an allocation is refused if and only if it would pass the limit |
| DirectMemory.BreachDecides | trunk/NetProbe/jni/jnetpcap/nio_jmemory.cpp:186-196 | at the limit the callback comes first, and what it has made available decides |
| DirectMemory.AllocateAndFree | trunk/NetProbe/jni/jnetpcap/nio_jmemory.cpp:180-372 | what is allocated and freed again leaves the sums as they were, with both counted, sizes up to 255 as small; freeing a null address changes nothing |
| DirectMemory.Memory.Allocate0 | trunk/NetProbe/jni/jnetpcap/nio_jmemory.cpp:180-234 | the counters after the call, and success exactly when the request was not refused and malloc worked |
| DirectMemory.Memory.DisposeNative0 | trunk/NetProbe/jni/jnetpcap/nio_jmemory.cpp:359-372 | the counters after a free |
| DirectMemory.Memory.SetMaxDirectMemorySize | trunk/NetProbe/jni/jnetpcap/nio_jmemory.cpp:262-269 | the counters after a new limit |
| DirectMemory.Memory.SetSoftDirectMemorySize | trunk/NetProbe/jni/jnetpcap/nio_jmemory.cpp:276-280 | the counters after a new soft limit |
| DeviceOrder.GetFigureOfMerit | trunk/NetProbe/jni/pcap/inet.c:128-161 | the loop finds the run of digits that the merit is packed from |
| DeviceOrder.UnitAsDocumented | trunk/NetProbe/jni/pcap/inet.c:142-153 | the unit number is the one documented if and only if the name is "any", ends in a digit, or has no positive number before its last character |
| DeviceOrder.NumberBeforeLetter | trunk/NetProbe/jni/pcap/inet.c:142-153 | for "eth1a" it is not |
| DeviceOrder.PackedOrder | trunk/NetProbe/jni/pcap/inet.c:122-127 | for units below 2^29 the packed integers are ordered by running, up, loopback and unit, and equal only when all four are |
| DeviceOrder.AnyIsLast | trunk/NetProbe/jni/pcap/inet.c:128-161 | the device "any" comes behind all others with its flags |
| DeviceOrder.UnitRunsOver | trunk/NetProbe/jni/pcap/inet.c:122-161 | a unit from 2^29 on cannot be told from the loopback flag |
| DeviceOrder.ListOverRuns | trunk/NetProbe/jni/pcap/inet.c:180-440 | after any sequence of additions the list is sorted, has unique names, holds exactly the offered devices, and keeps those of equal merit in order of discovery |
| DeviceOrder.LookupFindsExactly | trunk/NetProbe/jni/pcap/inet.c:834-855 | pcap_lookupdev finds a device if and only if some device is not loopback and no loopback device is in a better state |
| DeviceOrder.LoopbackHead | trunk/NetProbe/jni/pcap/inet.c:834-842 | a loopback device at the head means that no other device is up and running |
| DeviceOrder.LoopbackHeadWithOthers | trunk/NetProbe/jni/pcap/inet.c:834-842 | it does not mean, as the comment says, that there are no others |
| DeviceList.List.AddOrFindIf | trunk/NetProbe/jni/pcap/inet.c:180-440 | the linked list after the call is the list with the device added in order, or as it was: a new one is added unless it cannot be created, is no device or is down, so also one that cannot be opened for another reason; the return value and pointer in every case |
| DeviceList.List.FindPlace | trunk/NetProbe/jni/pcap/inet.c:376-416 | the two pointers enclose the place of the new entry |
| DeviceList.List.Link | trunk/NetProbe/jni/pcap/inet.c:421-435 | the pointer updates put the node there and keep all others linked in order |
| DeviceList.List.Lookup | trunk/NetProbe/jni/pcap/inet.c:834-854 | the head, unless the list is empty or the head is loopback |

## Left out

- TransportChecksum.PseudoTcp: requires, where no check of the code rejects the call, that the segment lies in the buffer and that its sum fits an int; TransportChecksum.TcpLeavesBuffer says which packets outside the buffer the checks let through, where the code goes on reading behind it.
- TransportChecksum.PseudoUdp: requires IP version 4 or 6 as well; for another version the code sums a piece it has not set.
- VectorSum.InCksum: requires that what is read lies in memory and that the sum fits an int, which it does up to 65536 bytes, and up to 65024 when a piece lies at an odd address; pieces are read-only values, so aliasing between them is not modelled, and two loads whose value is never used are left out.
- VectorConditions.EvenPiecesCondition: covers pieces of even length, as the library makes them; with odd lengths there are conditions at even addresses, for an odd last piece (OddTailCondition) and for one more piece behind it (SplitWords.SplitWordCondition), and at an odd address for a single piece (OddPieces.OddPieceCondition); for other mixtures VectorSum.Summed tells what is summed, without a condition.
- NativeRuns.NativeScan: other protocols enter through arbitrary scanners that keep the contract.
- FlowReplies.ReplyInSameFlow: one transport header, as FlowReplies6.ReplyInSameFlow6.
- ScanObject.ScanT.Run: requires flow keys of at most three pairs at every header that adds one; behind a fourth pair the code writes outside its arrays. ScanKeys.KeyShapes shows what all keys are like until then.
- FlowMatches.KeyMatch: compares keys with equally many pairs.
- NativePostfixes.PostfixNeverGrows: scanners other than the native ones modelled and that of RTP are assumed to report no postfix; for scans without such scanners PaddingNeverRead assumes nothing.
- ScanObject.ScanT.Rtp: requires another header in front; at the very start of a packet the code can read the one byte behind the capture.
- ScanObject.ScanT.ValidateNextId: validation functions cannot change the state here, so that restoring offset and length is all there is to undo.
- PacketBuffer.WellFormed: the 16 bytes copied from a packet header hold the captured length in bytes 8 to 11, as on hosts with 32-bit time values.
- DeviceOrder.GetFigureOfMerit: the digits are read as an unbounded number, without the overflow of atoi or of the 32-bit result.
- TableLiterals.TopEntries: the tables are defined by their divisors, and of their 256 literals only the one that is the divisor is compared.
- The SCTP scanner, which alone uses the stack, and the RTCP, SIP, SDP, HTTP, HTML, SLL, the null header, L2TP, LLC and SNAP scanners, and the 802.3 scanner called directly.
- Java header scanners, and prefixes or gaps other than zero in the run theorems.
- The wrap-around of the ring of packet states, and sub-header dissection, which the loop never calls.
- The IPv6 authentication header is measured in units of 8 bytes, as the code does it, and not in units of 4.
- ICMP and SCTP checksums over a buffer, which are one call each.
- Addresses appended to a device, device enumeration, sockets, files, and everything that only passes values between Java and C.
