# pcapstat, modelled and verified

pcapstat reads packet captures, decodes Ethernet, VLAN, IPv4, IPv6, TCP, UDP, ICMP and GTP-U,
attributes later IP fragments to their datagram, counts every packet, and keeps one table of flows and
one of GTP-U tunnels. This project models that pipeline, the writer its tests build captures with, its
address formatter and the arithmetic of its traffic generator, and proves what they promise.

Every function of the model that computes a verdict, a key, a counter or a text is also described by its meaning
alone: on bytes (`DecodeVerdicts`, the verdicts of `CaptureFormat`), on packets (`TableMeaning`, `FragCaches`,
`Pipeline.SeenAt`) and on whole written frames (`FrameMeaning`).

The code that changes state is modelled in place: the decoder is a cursor over a byte array that fills a
packet record, the table an array of slots with probing and rehashing, the top-N selection a heap in an
array, the statistics a class of counters, the reader a position in a buffer with a sticky error, the
builder a growing buffer. Each of these is proved equal to a function of its input, and the theorems are
about those functions.

The main results, over every input or every run:

- **The hash table is a finite map.** Under insertion, lookup, update and doubling, with any hash function
  at all; every probe ends; a failed growth changes nothing (`FlowTables`, `Probing`).
- **The top-N selection is the start of the only descending ranking**, whatever the slot layout and
  whatever N (`TopFlows`, over the total order of `FlowKeys`).
- **A smaller snapshot length never changes a verdict.** Cutting a frame anywhere reports a truncation or
  yields the same packet, field for field; a frame captured in full is never called truncated
  (`SnapshotProofs`, `DecodeProofs`).
- **Tunnels survive the cut.** Cutting records behind their GTP-U headers leaves the tunnel table equal;
  any other cut only removes packets (`Pipeline`).
- **Nothing is lost or counted twice.** Packets and bytes of all flows, with the excluded packets, are all
  packets and bytes; the tunnels hold the G-PDUs whose headers were read; the counters partition; the
  table does not depend on the order of the packets, exactly when the earliest ones agree on their direction.
  One theorem leads from the bytes of a file to these equations over the fields (`Analyzer.AnalyzeCapture`;
  `Pipeline`, `Counting`, `Accounting`).
- **The fragment cache never gives a wrong answer**, and is silent exactly when a collision has evicted the
  entry (`FragCaches`).
- **Writers and readers undo each other.** Frames decode to what they were built from: GTP-U messages with
  any chain of extension headers, and TCP, UDP and ICMP over IPv4, fragmented or not, and over any chain of
  IPv6 extension headers, inside a tunnel and outside. Capture files read back and, cut anywhere, give exactly
  the whole records. Frames and files are written call by call into a buffer that ends up holding those bytes
  (`FrameRoundTrip`, `PacketRoundTrip`, `CaptureFormat`, `FrameWriter`).
- **Address texts are faithful**, generated checksums verify, generated fragments are reassembled and
  attributed, generated traffic is the one merge of its conversations (`AddressFormat`, `InternetChecksum`,
  `GeneratedFragments`, `TrafficMerge`).

Verify with `dafny verify dfyconfig.toml`.

## Modules

| module | what it is about |
|---|---|
| `Bytes`, `Bits`, `Collections`, `Sorting` | loads and stores, bit masks as arithmetic, sequences, the contract of a sort |
| `Packet`, `DecodeSpec` | the decoded packet; the decoder as a function of captured bytes and wire length |
| `Decoder` | the decoder in place: a shrinking cursor that fills a record |
| `DecodeVerdicts` | which bytes get which verdict, and which fields are read from where |
| `SnapshotProofs`, `DecodeProofs` | what cutting a frame does; what holds of every decoded packet |
| `FlowKeys`, `Accounting`, `Probing`, `FlowTables`, `TopFlows` | keys and their orders, accounting as a function, the probe-chain invariant, the table, the heap |
| `FragCaches`, `Counting`, `Stats` | the fragment cache, what the counters count, the counters |
| `CaptureFormat`, `CaptureReader` | the file format as a function of bytes, the reader |
| `Pipeline`, `Analyzer` | laws of whole runs; the run in place |
| `TableMeaning`, `FrameMeaning` | flows and tunnels in terms of packets; counters and entries in terms of written frames |
| `FrameFormat`, `FrameBuilder`, `FrameWriter` | header bytes, the growing buffer, whole frames and files written into it |
| `HeaderRoundTrip`, `PacketRoundTrip`, `FrameRoundTrip` | decoding what was built: headers, IP packets and plain frames, GTP-U frames |
| `AddressText`, `AddressFormat` | numbers and separators, the text of an address |
| `InternetChecksum`, `GeneratedFragments`, `TrafficMerge` | the generator |

## Model

| member | source | states |
|---|---|---|
| Bits.MaskIsRemainder | src/flow.c:135-142 | masking with a power of two less one is the remainder, so a masked hash is always a slot |
| Bytes.LoadsUndoStores16 | src/bytes.h:21-29 | a 16-bit load returns what was stored in the same byte order, wherever it lies |
| Bytes.LoadsUndoStores32 | src/bytes.h:33-43 | the same for 32 bits |
| FlowKeys.SameFlow | src/flow.c:72-104 | two IP packets have equal keys exactly when version, protocol and endpoints agree, up to exchanging the two endpoints |
| FlowKeys.DirectionRecovered | src/flow.c:72-104 | key and `reversed` give back sender and receiver; the opposite direction gets the opposite flag unless both endpoints are equal |
| FlowKeys.SameTunnel | src/flow.c:264-276 | tunnel keys agree exactly when version, protocol, source, destination and TEID do, direction kept |
| FlowKeys.KeyCmpIsLex | src/flow.c:51-70 | the field-by-field comparison is the lexicographic order of the key's fields and address bytes |
| FlowKeys.KeyCmpZero | src/flow.c:51-70 | only equal keys compare equal |
| FlowKeys.RankCmpIsLex | src/flow.c:330-339 | the ranking is one lexicographic order over counters and key |
| FlowKeys.LexMeans | src/flow.c:51-104 | the sign of the byte comparison is decided by the first position that differs |
| FlowKeys.BeforeMeans | src/flow.c:330-339 | more bytes come first, then more packets, then the earlier start, then the smaller key |
| FlowKeys.BeforeTransitive | src/flow.c:330-339 | the ranking is transitive |
| FlowKeys.BeforeTotal | src/flow.c:330-339 | the comparison is antisymmetric, and of two flows with different keys one ranks before the other |
| Probing.EmptySlotEndsProbe | src/flow.c:165-181 | a probe that meets an empty slot without having met the key has shown that the key is absent |
| Probing.InsertKeepsIndex | src/flow.c:183-216 | filling the first empty slot of a probe path keeps the probe-chain invariant and adds exactly that entry to the map |
| Probing.UpdateKeepsIndex | src/flow.c:219-248 | overwriting the counters of an entry keeps the invariant and changes that entry only |
| Probing.SomeSlotEmpty | src/flow.c:183-216 | with fewer keys than slots some slot is empty, so every probe ends |
| Probing.UsedIsContents | src/flow.c:319-327 | the occupied slots, in order, hold every entry of the map exactly once |
| FlowTables.FlowTable.constructor | src/flow.c:106-123 | an empty map; the capacity is the least power of two, not below 16, that reaches the hint or can no longer double; no slots if the allocation failed |
| FlowTables.FlowTable.Grow | src/flow.c:144-163 | twice the slots and the same map, or, when doubling overflows or the allocation fails, the same table untouched |
| FlowTables.Rehash | src/flow.c:144-163 | placing every entry by its cached hash, without comparing keys, gives a valid table with the same contents |
| FlowTables.FreeSlot | src/flow.c:135-142 | the probe finds an empty slot with no gap before it on the path |
| FlowTables.Place | src/flow.c:135-142 | the entry goes into that slot and the index stays valid |
| FlowTables.FlowTable.Find | src/flow.c:165-181 | a slot exactly when the key is in the map, and then the slot with its entry |
| FlowTables.FlowTable.Probe | src/flow.c:197-215 | the slot of the key, or the free slot where it belongs; comparing cached hashes first changes nothing |
| FlowTables.FlowTable.FindOrInsert | src/flow.c:183-216 | fails exactly when there are no slots or a needed growth fails, and then changes nothing; otherwise the map gains at most a fresh entry for the key and its slot is returned |
| FlowTables.FlowTable.Account | src/flow.c:219-248 | the map afterwards is the map before with the packet credited to its key, or the same map if growing failed |
| FlowTables.FlowTable.AddPacket | src/flow.c:250-262 | packets without an IP layer are ignored, the others accounted under their flow key |
| FlowTables.FlowTable.AddTunnel | src/flow.c:264-286 | packets without a GTPv1-U header are ignored, the others accounted under their tunnel key |
| FlowTables.FlowTable.Next | src/flow.c:319-327 | iteration returns the next occupied slot and skips only empty ones |
| Accounting.TableSummarizes | src/flow.c:219-248 | after any packets, a key is in the table exactly when a packet had it, and its entry holds their number, bytes, union of flags, least and greatest timestamp, and the direction of the first packet seen among the earliest |
| Accounting.OrderIndependent | src/flow.c:219-262 | any permutation of the packets gives the same table, but for the first direction where packets of the least timestamp disagree |
| Accounting.EarliestSeenFirstDecides | src/flow.c:231-238 | where they do disagree, moving any one of them to the front makes its direction the recorded one |
| Accounting.OrderIrrelevantIff | src/flow.c:219-262 | every rearrangement of the packets gives a key the same entry if and only if its earliest packets agree on their direction |
| Accounting.TableConserves | src/flow.c:219-262 | the packets and bytes of all entries sum to the packets and bytes added |
| Sorting.SortSorts | src/flow.c:405-406 | the sort used in place of `qsort` orders and rearranges |
| Sorting.SortedUnique | src/flow.c:341-346 | without ties there is only one sorted arrangement |
| TopFlows.SiftUp | src/flow.c:372-385 | restores the heap above one misplaced entry and rearranges nothing else |
| TopFlows.SiftDown | src/flow.c:353-370 | restores the heap below one misplaced entry, wherever it is, and rearranges nothing else |
| TopFlows.LowestOfThree | src/flow.c:356-364 | the entry that ranks last among a node and its children |
| TopFlows.Offer | src/flow.c:393-404 | keeps the n best of the flows seen, by adding a leaf or replacing the root |
| TopFlows.SelectionIsPrefix | src/flow.c:387-407 | what was kept, sorted, is a prefix of everything seen, sorted |
| TopFlows.RankingUnique | src/flow.c:330-407 | a table has one descending ranking, so the answer does not depend on the slot layout |
| TopFlows.SmallerAnswerIsPrefix | src/flow.c:387-407 | the answer for fewer flows is a prefix of the answer for more |
| TopFlows.TopN | src/flow.c:387-407 | the first min(n, count) flows of that ranking, in order |
| TopFlows.RunStartsCountValues | src/flow.c:309-314 | in a sorted sequence the positions that differ from the one before are as many as the distinct values |
| TopFlows.DistinctTeids | src/flow.c:295-317 | the number of different TEIDs in the table; 0 without an allocation for an empty one |
| DecodeVerdicts.TcpVerdict | src/decode.c:94-117 | Ok exactly for a header of five to fifteen words that is captured; BadTcpDoff exactly for a data offset below five or beyond the segment; TruncTcp exactly for a valid header longer than the capture; ports and flags by byte, also of refused headers |
| DecodeVerdicts.UdpVerdict | src/decode.c:118-141 | Ok exactly for a length of at least eight that, unless this is a fragment, the segment holds; what is left is cut to it |
| DecodeVerdicts.IcmpVerdict | src/decode.c:142-155 | type and code by byte, exact verdicts |
| DecodeVerdicts.OtherTransport | src/decode.c:94-155 | every other protocol is accepted without transport fields |
| DecodeVerdicts.TransportOf | src/decode.c:205-213 | later fragments have no transport header, all other packets that of their protocol |
| DecodeVerdicts.FragmentBits | src/decode.c:190-200 | an offset makes a later fragment, else the more-fragments bit a first one; don't-fragment and the reserved bit make none |
| DecodeVerdicts.Ipv4HeaderVerdict | src/decode.c:157-185 | for each of the six verdicts, exactly which headers get it, with a zero total length as the rest of the frame |
| DecodeVerdicts.Ipv4Refused | src/decode.c:157-185 | a refused header leaves no fields |
| DecodeVerdicts.Ipv4Accepted | src/decode.c:186-213 | an accepted one gives protocol, addresses, fragment word and identification by byte, and the transport header is read behind it, up to the total length |
| DecodeVerdicts.Ipv6HeaderVerdict | src/decode.c:221-240 | for each of the five verdicts, exactly which headers get it |
| DecodeVerdicts.Ipv6Refused | src/decode.c:221-240 | a refused header leaves no fields |
| DecodeVerdicts.Ipv6Accepted | src/decode.c:242-299 | an accepted one gives the addresses, and the chain and the transport header are read behind it, up to the payload length |
| DecodeVerdicts.ChainStep | src/decode.c:251-298 | one step for every type, number of headers and amount of bytes left: which types are walked, how long a header is, when it is truncated, malformed or one too many, and what a fragment header says |
| DecodeVerdicts.GtpuVerdict | src/decode.c:377-417 | version and type bits, length check, which option bits bring the optional fields, and where TEID, sequence number and next type are read |
| DecodeVerdicts.FlagNibble | src/decode.h:41-45 | version and type are the upper four bits, extension, sequence and N-PDU flag bits 2, 1 and 0 |
| DecodeVerdicts.GtpuBodyVerdict | src/decode.c:418-453 | the message is complete exactly when its chain is, and only type 255 has a user packet |
| DecodeVerdicts.ExtStep | src/decode.c:420-440 | one step along the chain: length in units of four, zero length, truncation, the seventeenth |
| DecodeVerdicts.InnerVerdict | src/decode.c:313-360 | the version nibble chooses the decoder, and a short packet is named as one in a tunnel |
| DecodeVerdicts.InnerFields | src/decode.c:340-360 | the fields kept of the user packet, and that it is nested exactly on UDP port 2152 |
| DecodeVerdicts.VlanTagStep | src/decode.c:473-487 | one step along the tags: the three types, twelve bits of number, at most two |
| DecodeVerdicts.FrameVerdict | src/decode.c:455-514 | which ethertype goes to which decoder, and exactly which datagrams are taken for GTP-U |
| DecodeVerdicts.TruncationOrder | src/decode.c:516-519 | exactly eleven reasons are truncations |
| Decoder.Cursor.Need | src/decode.c:67-74 | enough captured bytes, else truncated if the wire length allows them, else malformed |
| Decoder.Cursor.Advance | src/decode.c:76-83 | moves past bytes that are there; the captured length stays within the wire length |
| Decoder.Cursor.Clip | src/decode.c:85-92 | a declared length only ever shrinks the span |
| Decoder.DecodeL4 | src/decode.c:94-155 | verdict, transport fields and remaining span of TCP, UDP and ICMP headers are those of the specification, partial fields of rejected headers included |
| Decoder.DecodeIpv4 | src/decode.c:157-213 | the same for IPv4, section 3.1 of RFC 791, with a zero total length taken as the rest of the frame |
| Decoder.WalkIpv6 | src/decode.c:251-298 | the loop over IPv6 extension headers, section 4 of RFC 8200, bounded at eight |
| Decoder.DecodeIpv6 | src/decode.c:221-299 | the IPv6 header, its chain and its transport header |
| Decoder.DecodeGtpuInner | src/decode.c:313-360 | the user packet is decoded by the same IP code into fields of its own |
| Decoder.WalkGtpuExt | src/decode.c:420-440 | the loop over GTP-U extension headers, section 5.2 of 3GPP TS 29.281, bounded at sixteen |
| Decoder.DecodeGtpu | src/decode.c:377-453 | flags, type, length, TEID, optional fields, chain and user packet of section 5.1 of 3GPP TS 29.281 |
| Decoder.WalkVlans | src/decode.c:473-487 | at most two VLAN tags, outermost first |
| Decoder.DecodeFrame | src/decode.c:455-514 | the record and the returned status are a function of the captured bytes and the wire length alone: bytes beyond the captured length have no influence |
| DecodeProofs.CompleteFrameNeverTruncated | src/decode.c:25-29 | a frame captured in full is never reported as truncated, in its outer packet or its GTP-U message |
| DecodeProofs.EveryFrameWellFormed | fuzz/fuzz_decode.c:228-297 | every frame whatsoever decodes to a packet with the invariants that the fuzzer looks for: which layers imply which, message complete exactly without one of the five header problems, nesting, limits |
| SnapshotProofs.SnapshotSimulation | src/decode.c:67-92 | of two captures of one frame the shorter reports a truncation (then, if only in the GTP-U message, with an equal outer packet) or decodes to the same packet field for field |
| SnapshotProofs.SnapshotTunnel | src/decode.c:377-453 | the cut capture knows the tunnel exactly when it reaches the user packet, and then it is the right one |
| SnapshotProofs.ChainSimulates | src/decode.c:251-298 | the same for the walk over IPv6 extension headers |
| SnapshotProofs.ExtSimulates | src/decode.c:420-440 | the same for the walk over GTP-U extension headers |
| FragCaches.SlotFor | src/frag.c:26-41 | a slot number below the number of slots, for any hash |
| FragCaches.AnswerIsNeverWrong | src/frag.c:52-80 | an answer is the ports of the most recent first fragment of that very datagram; none is given where there is one exactly when another datagram has since taken the slot |
| FragCaches.AnswerMeans | src/frag.c:52-80 | over packets: ports are given exactly when the last first fragment recorded in the same place agrees in version, protocol, identification and both addresses; they are its ports, and no first fragment of the datagram came in between |
| FragCaches.SlotIsRemainder | src/frag.c:26-41 | the place is the hash modulo 4096 |
| FragCaches.FragCache.Apply | src/frag.c:52-80 | records first fragments, lends their ports to later ones as `AnswerMeans` says and reports whether it did; everything else passes unchanged |
| Counting.StatusesPartition | src/stats.c:82-101 | the per-status counters sum to the packets; the truncated and malformed counters are the sums over their ranges; likewise for GTP-U |
| Counting.TransportsPartition | src/stats.c:110-140 | the five transport counters with the two kinds of broken extension chain make up all IP packets |
| Counting.InnerTransportsPartition | src/stats.c:56-80 | the same equation for user packets |
| Counting.MessageTypesPartition | src/stats.c:13-55 | every GTP-U message is of exactly one type, is not GTPv1-U, or was cut before its type was read, and the last are among those with a cut GTP-U header |
| Counting.GpdusPartition | src/stats.c:27-37 | user-packet problems are some of the GTP-U problems, so subtracting them cannot wrap; G-PDUs split into those whose headers were read and those that failed, and the latter are among the reported header problems |
| Stats.GtpuStats.FieldsAre | src/stats.c:13-80 | each field is the tally of the condition it is named after |
| Stats.Stats.FieldsAre | src/stats.c:82-140 | the same for the other fields; the first and last timestamp are the least and the greatest |
| FrameMeaning.PlainFrameCounts | src/stats.c:82-120 | which of the tag, network and fragment counters a written frame raises |
| FrameMeaning.PlainTransportCounts | src/stats.c:13-20 | which of the transport counters it raises, and when it counts as fragmented GTP-U |
| FrameMeaning.GtpuFrameCounts | src/stats.c:13-55 | which message, option and problem counters a written GTP-U frame raises |
| FrameMeaning.MessageCounts | src/stats.c:13-55 | the sequence and extension counters of a GTPv1-U message, by flag bit and chain length |
| FrameMeaning.ProblemCounts | src/stats.c:23-37 | problems by kind, and those of user packets exactly if the message itself was read in full |
| FrameMeaning.NoMessageCounts | src/stats.c:39-43 | a header of another version is counted as that exactly when it was not cut, and raises no type counter |
| FrameMeaning.UserPacketCounts | src/stats.c:56-80 | which counters of user packets it raises |
| Stats.GtpuStats.DescribedIsBalanced | src/stats.c:13-80 | over the fields: status counters sum to messages, to truncated and to malformed ones; message types and inner transports add up |
| Stats.Stats.DescribedIsBalanced | src/stats.c:82-140 | over the fields: status counters sum to packets, to truncated and to malformed ones; transports add up to IP packets; and the GTP-U equations |
| Stats.GtpuStats.Add | src/stats.c:13-80 | after each packet every GTP-U counter is the number of packets of the history that it is meant to count |
| Stats.Stats.Add | src/stats.c:82-140 | the same for all other counters, byte sums and the first and last timestamp |
| CaptureFormat.MagicVerdict | src/pcap_reader.c:44-63 | which four bytes mean which byte order and resolution, pcapng or neither |
| CaptureFormat.GlobalVerdict | src/pcap_reader.c:44-80 | exactly which headers are accepted, and for the others the first check that fails |
| CaptureFormat.RecordVerdict | src/pcap_reader.c:82-117 | exactly the records above 262144 bytes are refused; nanoseconds are seconds times 10^9 plus the fraction, times 1000 in microsecond files |
| CaptureFormat.NextVerdict | src/pcap_reader.c:248-278 | what is said of the rest of the file, by its length |
| CaptureFormat.GlobalReadsBack | src/pcap_reader.c:44-80 | a written global header is understood, in either byte order and resolution |
| CaptureFormat.RecordReadsBack | src/pcap_reader.c:82-117 | a written record is read back with exact nanoseconds and a wire length raised to the captured length |
| CaptureFormat.FileRoundTrip | tests/builder.c:238-261 | reading a written file returns its records and then end of file; each with its bytes, exact nanoseconds for either resolution, and a wire length raised to the captured one |
| CaptureFormat.CutFileRead | src/pcap_reader.c:248-278 | a file cut behind its global header gives the records wholly contained in it, then end of file if the cut is on a boundary, else the matching truncation; cut before, it is too short |
| CaptureFormat.OversizedRecordRefused | src/pcap_reader.c:98-102 | a record longer than the limit, which the writer does write, is refused for its captured length |
| CaptureFormat.CutReadsPrefix | src/pcap_reader.c:248-278 | cutting the record area, well-formed or not, gives the same result or a prefix of the records and a reason that only a short file has |
| CaptureFormat.AnyCutReadsPrefix | src/pcap_reader.c:167-278 | the same for any file, cut anywhere, its header included |
| CaptureReader.Reader.constructor | src/pcap_reader.c:167-246 | the global header is parsed and the rest of the file is what `ReadFile` makes of it |
| CaptureReader.Reader.Take | src/pcap_reader.c:132-154 | the bytes asked for, or all that are left |
| CaptureReader.Reader.Next | src/pcap_reader.c:248-278 | the next record of the bytes that are left, in place in the buffer, or the reason there is none, which then stays |
| CaptureReader.Reader.ReadAll | src/pcap_reader.c:248-278 | calling it until it fails returns all records once, in order, and the final status |
| Pipeline.RunIsWellFormed | src/analyze.c:28-44 | every packet of a run is well-formed after attribution too |
| Pipeline.SeenAt | src/analyze.c:28-72 | each record is counted with its own lengths and time and the packet its bytes decode to; only later fragments may have ports added, those that `AnswerMeans` says |
| Pipeline.MatchCountMore | src/analyze.c:33-35 | the count of attributed fragments grows exactly with those |
| TableMeaning.FlowIsItsPackets | src/flow.c:219-262 | over any packets, without naming keys or entries: a flow is in the table exactly when it has a packet; packets, bytes, least and greatest timestamp; its direction is that of the first of the earliest packets; its flags are bit by bit those of its TCP packets |
| TableMeaning.FlowEntryMeans | src/flow.c:72-104 | which packets belong to a flow, which end is A and when a packet counts as sent by B |
| TableMeaning.TunnelIsItsPackets | src/flow.c:264-286 | the same for tunnels: a G-PDU from the first address to the second with that TEID |
| FrameMeaning.PacketJoinsFlow | src/flow.c:72-104 | from the bytes: the flow entry of a written frame |
| FrameMeaning.GpduJoinsTunnel | src/flow.c:264-286 | from the bytes: a frame written around a G-PDU joins the tunnel from its sender to its receiver, with its wire length and time |
| FrameMeaning.OthersJoinNoTunnel | src/analyze.c:53-57 | a frame written around any other message, or too long a chain, joins none |
| Pipeline.FlowConservation | src/analyze.c:28-58 | packets of all flows plus non-IP, truncated and malformed ones are all packets, and bytes split the same way |
| Pipeline.TunnelConservation | src/analyze.c:45-57 | packets of all tunnels plus the G-PDUs whose own headers failed are the G-PDUs counted |
| Pipeline.ReaderDelivers | src/pcap_reader.c:104-117 | every record read has no more captured than wire bytes |
| Pipeline.BytesBounded | src/stats.c:82-101 | captured bytes never exceed wire bytes, and wire bytes stay below 64 bits for fewer than 2^32 records |
| Pipeline.FlowsButLast | src/analyze.c:47-48 | without the last packet, which has a flow, the flows hold exactly one packet and its bytes less |
| Pipeline.TunnelsButLast | src/analyze.c:53-57 | without the last packet the tunnels hold it less, if it is in a tunnel |
| Pipeline.CutKeepsOrLoses | src/analyze.c:45-57 | cutting a record keeps its tunnel entry unchanged exactly when its GTP-U headers are still captured, and otherwise loses it |
| Pipeline.CutBehindHeadersKeepsTunnels | src/analyze.c:45-57 | cutting the records of tunnels behind their headers, and the others anywhere, leaves the tunnel entries, hence the tunnel table, equal |
| Pipeline.AnyCutOnlyShrinksTunnels | src/analyze.c:45-57 | any cut adds no tunnel and changes no key, and every tunnel left has no more packets and bytes and a span within the old one |
| Analyzer.Analysis.constructor | src/analyze.c:11-26 | nothing counted, empty tables of 1024 and 64 slots, an empty cache |
| Analyzer.Analysis.Account | src/analyze.c:28-58 | one packet is counted and joins its flow and its tunnel; if a growth fails exactly that packet is missing, and only from where it should have gone |
| Analyzer.Analysis.Run | src/analyze.c:60-72 | the counters and tables after a run are those of the records of the file up to its final status, or up to the record at which memory ran out |
| Analyzer.Analysis.Conserved | src/analyze.c:28-72 | after every run without a failed growth, over the fields themselves: all partitions of the counters, packets and bytes of the flows, packets of the tunnels, captured against wire bytes, and the tables as functions of the records |
| Analyzer.Analysis.ConservedButOne | src/analyze.c:47-57 | after a failed growth the counters still balance, and the equations for flows, bytes and tunnels are off by exactly the last packet |
| Analyzer.AnalyzeCapture | src/analyze.c:60-72 | from the bytes of a file: its records, and no others, are accounted, with all equations over the fields; if memory runs out, a prefix of them but for the last packet |
| FrameBuilder.ByteBuf.Reserve | tests/builder.c:30-48 | room by doubling, contents unchanged |
| FrameBuilder.ByteBuf.PutU16 | tests/builder.c:68-76 | appends the two bytes in the order asked for |
| FrameBuilder.ByteBuf.PutU32 | tests/builder.c:78-86 | appends the four bytes in the order asked for |
| FrameFormat.LinkLayouts | tests/builder.c:106-120 | Ethernet header and tag, byte by byte |
| FrameFormat.Ipv4Layout | tests/builder.c:122-139 | the fixed IPv4 header, byte by byte |
| FrameFormat.Ipv6Layout | tests/builder.c:141-150 | the start of the IPv6 header, byte by byte |
| FrameFormat.TcpLayout | tests/builder.c:152-164 | the TCP header, byte by byte |
| FrameFormat.UdpLayout | tests/builder.c:166-173 | the UDP header, byte by byte |
| FrameFormat.IcmpLayout | tests/builder.c:175-182 | the ICMP header, byte by byte |
| FrameFormat.GtpuLayouts | tests/builder.c:184-199 | the GTP-U header and its options, byte by byte |
| FrameBuilder.ByteBuf.PutEth | tests/builder.c:106-114 | appends an Ethernet header |
| FrameBuilder.ByteBuf.PutVlan | tests/builder.c:116-120 | appends what follows a VLAN protocol identifier |
| FrameBuilder.ByteBuf.PutIpv4 | tests/builder.c:122-139 | appends an IPv4 header with its options |
| FrameBuilder.ByteBuf.PutIpv6 | tests/builder.c:141-150 | appends an IPv6 header |
| FrameBuilder.ByteBuf.PutTcp | tests/builder.c:152-164 | appends a TCP header |
| FrameBuilder.ByteBuf.PutUdp | tests/builder.c:166-173 | appends a UDP header |
| FrameBuilder.ByteBuf.PutIcmp | tests/builder.c:175-182 | appends an ICMP echo header |
| FrameBuilder.ByteBuf.PutGtpu | tests/builder.c:184-191 | appends the fixed GTP-U header |
| FrameBuilder.ByteBuf.PutGtpuOpt | tests/builder.c:193-199 | appends the optional fields |
| FrameBuilder.ByteBuf.PutGtpuExt | tests/builder.c:201-206 | appends an extension header of the given number of units |
| FrameBuilder.ByteBuf.PutGlobal | tests/builder.c:238-250 | appends the global header in either byte order |
| FrameBuilder.ByteBuf.PutRecord | tests/builder.c:252-261 | appends a record |
| FrameRoundTrip.UserDecodes | src/decode.c:313-360 | any built IP packet, fragmented or behind extension headers, decodes in a tunnel to its addresses, protocol and ports |
| FrameRoundTrip.ExtsWalk | src/decode.c:420-440 | a written chain of up to sixteen headers, of any lengths and non-zero types, is walked to its end; the seventeenth is refused |
| FrameRoundTrip.MessageDecodes | tests/builder.c:184-206 | a written GTP-U message decodes to TEID, sequence number, chain length and user packet |
| FrameRoundTrip.FrameDecodes | tests/builder.c:106-206 | a whole written GTP-U frame decodes to what it was built from, with up to two VLAN tags, IPv4 options or an IPv6 chain, and padding |
| FrameWriter.PutFrame | tests/builder.c:106-206 | header by header the buffer receives exactly the frame that `FrameDecodes` reads |
| FrameWriter.PutPlainFrame | tests/builder.c:106-182 | the same for the frames that `PlainFrameDecodes` reads |
| FrameWriter.PutFile | tests/builder.c:238-261 | global header and records become exactly the file that `FileRoundTrip` reads |
| FrameWriter.FrameV4Tcp | tests/builder.c:208-216 | appends the four parts of the ready-made frame |
| FrameWriter.FrameV4Udp | tests/builder.c:218-226 | appends the four parts of the ready-made frame |
| FrameWriter.FrameV6Tcp | tests/builder.c:228-236 | appends the four parts of the ready-made frame |
| FrameWriter.FrameV4TcpDecodes | tests/builder.c:208-216 | that frame decodes to its addresses, ports and flags for every payload that fits |
| FrameWriter.FrameV4UdpDecodes | tests/builder.c:218-226 | that frame decodes to its addresses and ports for every payload that fits |
| FrameWriter.FrameV6TcpDecodes | tests/builder.c:228-236 | that frame decodes to its addresses, ports and flags for every payload that fits |
| HeaderRoundTrip.Ipv4Decodes | src/decode.c:157-213 | behind a built IPv4 header with options the decoder sees exactly the payload |
| HeaderRoundTrip.TagsWalk | src/decode.c:473-487 | written VLAN tags are walked to the type they announce |
| PacketRoundTrip.SegmentDecodes | src/decode.c:94-155 | a written TCP header with up to ten words of options, UDP or ICMP header decodes to its ports and flags, or type and code; other protocols to none |
| PacketRoundTrip.Ipv6ChainWalks | src/decode.c:251-298 | a written chain of options and fragment headers is walked to its end, with the identification and kind of fragment it says; a later fragment ends it; the ninth header is refused and the protocol stays unknown |
| PacketRoundTrip.PacketDecodes | src/decode.c:157-299 | a whole written IP packet decodes to its addresses, protocol, fragment kind and transport fields, later fragments to none |
| PacketRoundTrip.PlainFrameDecodes | src/decode.c:455-514 | a frame with up to two VLAN tags and such a packet, or with no IP at all, decodes to exactly the fields it was built from and nothing of GTP-U |
| AddressText.JoinSplits | src/addr.c:58-73 | numbers written with separators are read back |
| AddressText.CompressedExpands | src/addr.c:58-73 | whatever run was shortened, the text has at most one "::" and expands to the groups |
| AddressText.DigitsAre | src/addr.c:70 | digits are lower case |
| AddressFormat.FindRun | src/addr.c:39-54 | a run of zero groups, no other longer, none as long earlier |
| AddressFormat.FormatIpv6 | src/addr.c:22-74 | the loop with its separator logic writes the mapped form or the groups with that run shortened, if it has two groups or more |
| AddressFormat.TextIsFaithful | src/addr.c:11-74 | reading the text, dotted or not, gives the groups of the address |
| AddressFormat.TextMeans | src/addr.c:11-74 | from the bytes: "::ffff:" and four numbers exactly behind the mapped prefix; else all groups if no two neighbours are zero, else the groups around the first longest run |
| AddressFormat.Ipv4TextReads | src/addr.c:76-86 | the dotted quad is read back as the four bytes, in order |
| AddressFormat.TextIsInjective | src/addr.c:11-74 | two addresses have the same text exactly when they are equal, mapped or not |
| AddressFormat.TextLength | src/addr.c:58-60 | at most 39 characters, 22 for a mapped address |
| AddressFormat.Ipv4TextIsInjective | src/addr.c:76-86 | dotted quads are equal exactly for equal addresses |
| AddressFormat.AddrFormat | src/addr.c:76-86 | the whole text in a buffer of the documented size, a prefix of it in a smaller one, "?" for another version, nothing in a buffer of size zero |
| InternetChecksum.Checksum | tools/gen_pcap.py:59-74 | the complement of the 16-bit number equal to the word sum modulo 65535, zero only for zero |
| InternetChecksum.VerifiesExactlyWithChecksum | tools/gen_pcap.py:59-74 | the words that make a block verify are its checksum and, where that is zero, 0xFFFF |
| InternetChecksum.FragmentWordIs | tools/gen_pcap.py:88-91 | don't-fragment bit, more-fragments bit and offset, apart from each other below 65536 |
| InternetChecksum.Ipv4Packet | tools/gen_pcap.py:88-93 | a header with the given fields that verifies, then the payload; an error exactly when the length or the fragment word does not fit |
| InternetChecksum.Ipv4WordsLayout | tools/gen_pcap.py:88-93 | the generated IPv4 header, byte by byte |
| InternetChecksum.UdpFixedLayout | tools/gen_pcap.py:111-114 | the generated UDP header, byte by byte |
| InternetChecksum.UdpDatagram | tools/gen_pcap.py:111-114 | a datagram that verifies with its pseudo-header and whose checksum is never the "none" value zero |
| GeneratedFragments.SendFragments | tools/gen_pcap.py:279-289 | consecutive pieces of 1480 bytes and a last one that may be shorter, each in an intact packet that says where it belongs |
| GeneratedFragments.EveryByteOnce | tools/gen_pcap.py:279-289 | the pieces partition the datagram, offsets are multiples of eight, and exactly the last has `more` clear |
| GeneratedFragments.PartSizes | tools/gen_pcap.py:279-289 | all pieces but the last have 1480 bytes |
| GeneratedFragments.PartDecodes | src/decode.c:157-213 | the decoder sees each generated fragment with its identification, place and contents, whatever padding follows |
| GeneratedFragments.EveryPartAttributed | src/frag.c:52-80 | decoded and passed through the cache in order, every fragment has the ports of its datagram, whatever the cache held |
| TrafficMerge.Start | tools/gen_pcap.py:630-636 | a conversation with any frame is pending with its first one and gets the next number |
| TrafficMerge.PoppedMerges | tools/gen_pcap.py:672-681 | taking the earliest frame and pushing its successor keeps the order and loses nothing |
| TrafficMerge.NothingLeftIsEarlier | tools/gen_pcap.py:624-625 | what is left of any conversation is due no earlier than what was written |
| TrafficMerge.ScheduleMeans | tools/gen_pcap.py:670-681 | the frames of a conversation, each its gap after the one before |
| TrafficMerge.MergeMeans | tools/gen_pcap.py:624-625 | what a merge is: order by time and number, each conversation from its start, nothing left that is due before what was written |
| TrafficMerge.MergeIsDetermined | tools/gen_pcap.py:624-625 | schedules have only one merge of a given length: ordered by time and conversation, each conversation in its own order, nothing left that is due before what was written |
| TrafficMerge.LastIsLatest | tools/gen_pcap.py:659-671 | when nothing is pending, the time of the last frame written is that of the last frame of all |
| TrafficMerge.BatchesMean | tools/gen_pcap.py:661-671 | each top-up batch starts at the last frame of those before and is counted in full |
| TrafficMerge.Generate | tools/gen_pcap.py:618-682 | exactly the number of frames asked for, and they are the merge of the planned conversations and of as few top-up batches as it takes, each started from the last frame before; the number of conversations started |
| TrafficMerge.GeneratedFileReads | tools/gen_pcap.py:654-678 | the analyzer reads the written file to its end, frame by frame, with timestamps that never decrease |

## Left out

- The FNV-1a hash of `src/hash.h`: every theorem holds for an arbitrary hash function, which is a parameter.
- Real allocation: whether it succeeds is a parameter of each operation that allocates; `analysis_init` is
  modelled for the case that its allocations succeed, and the builder does not run out of memory.
- 64-bit wrap-around of packet and byte counters, which are unbounded here: `Pipeline.BytesBounded` gives the
  bound under which they agree. Timestamps, hashes, lengths and allocation sizes carry their real widths.
- Reading from a stream (`fopen`, `fread`, `ferror`): the reader works on a buffer that holds the file.
- `qsort`: a verified insertion sort stands for it; the ranking has no ties, so any sort gives the same result.
- Pointers into the table in the top-N answer: flows are copied. Slots, keys and records are values, so
  struct layout, padding and aliasing between them are not modelled.
- `TopFlows.SortPrefix` and `Sorting.Sort` say nothing about the running time of the library's sort.
- Bit operations on bytes and words are written as arithmetic with powers of two.
- Arguments of the builder are already as wide as the field they go to; the truncation of wider C integers
  is modelled for lengths, VLAN numbers and option counts only.
- `src/report.c`, `src/main.c`, the name tables (`decode_status_str`, `pcap_status_str`, `proto_name`) and
  `format_tcp_flags`: text output without state.
- The generator's random choices, its TCP, DNS and ping conversations and its budget plan: conversations are
  arbitrary sequences of gaps and frames, and top-up batches hold at least one conversation with a frame,
  as a TCP conversation always opens with one.
- `heapq`: a map from conversation number to pending frame with extraction of the least (time, number)
  stands for it; numbers are unique, so the comparison never goes further than that pair.
