# RTCP header codec and compound feedback builder, in Dafny

This project models the core of str0m's RTCP module (`rtp/src/rtcp/mod.rs`)
and proves properties of that model:

- **The RTCP common header** (section 6.4.1 of RFC 3550). It covers:
  - `RtcpType` with its wire codes 200..207 and its header lengths (4 or 8);
  - `RtcpHeader::parse`, with its error paths: too short, wrong version, unknown packet type, unknown feedback format, and the SRTCP gate;
  - the length field, parsed in 16-bit arithmetic;
  - `RtcpHeader::write_to`.
- **The compound builder `RtcpFb::build_feedback`.** A queue of feedback items is sorted by `ord_no`. The first loop turns the SenderInfo and ReceiverReport items at its head into SR/RR packets, each with at most 31 added receiver reports. The second loop then turns goodbyes into BYE packets. Both loops stop at the first item that does not fit in the buffer.
- **The item writers.** These are `RtcpFb::{write_to, ssrc, as_header, ord_no}` and `Ssrc::write_to`.

Modules, one per file:

| file | module | what it holds |
|---|---|---|
| `wire.dfy` | `Wire` | bytes and 16- and 32-bit integers; big-endian encodings; `Option`; `Overwrite`, the specification of writing bytes into a buffer at an offset; `WriteBytes` |
| `format.dfy` | `Format` | `FeedbackMessageType`, `TransportType` and `PayloadType`, with their 5-bit codes |
| `header.dfy` | `Header` | `RtcpType`, `RtcpHeader`, `Parse`, `HeaderBytes` / `WriteHeader`, and the round trips |
| `feedback.dfy` | `Feedback` | `RtcpFb`; `OrdNo`, `Ssrc`, `AsHeader`, `Encode` / `WriteItem`; the stable sort by key and its characterisation |
| `compound.dfy` | `Compound` | one packet (`Group`), the two passes as functions (`ReportPass`, `GoodbyePass`, `Build`, `BuildBytes`), and the imperative `BuildFeedback` proved against them |
| `properties.dfy` | `Properties` | properties of `Build`: what it conserves, permutes and keeps, where and why it stops, packet order, and each packet reading back through `Parse` |
| `findings.dfy` | `Findings` | the two count-field findings, as written and as intended |
| `compound_tests.dfy` | `CompoundTests` | the module's four unit tests, stated as lemmas over every choice of item contents |
| `seqs.dfy` | `Seqs` | generic sequence identities used by the proofs |

`BuildFeedback` is a method over an `array<Byte>`. Its loops are the source's
two `while` loops, and their inner `for` loops are the methods `WriteReports`
and `WriteGoodbyes`. The method is proved against the pure specification
`Build` / `BuildBytes`:

- it writes exactly `BuildBytes(feedback, buf.Length)` at the front of the buffer;
- it leaves the rest of the buffer unchanged;
- it returns that length and the items left in the queue.

The properties in `Properties` are proved about `Build`.

## Model

| member | source | states |
|---|---|---|
| Wire.U16RoundTrip | rtp/src/rtcp/mod.rs:154-160 | the big-endian 16-bit decoding of the length field inverts its encoding |
| Wire.U32RoundTrip | rtp/src/rtcp/mod.rs:164 | decoding the four SSRC bytes inverts their big-endian encoding |
| Wire.BeToU32RoundTrip | rtp/src/rtcp/mod.rs:164 | re-encoding a decoded SSRC gives back the same four bytes |
| Wire.WriteBytes | rtp/src/rtcp/mod.rs:183 | `copy_from_slice` into `buf[off..]`: the buffer becomes `Overwrite(old, off, bytes)` and is otherwise unchanged |
| Wire.OverwriteAdjacent | rtp/src/rtcp/mod.rs:255-259 | writing `a` and then `b` right after it equals writing `a + b` |
| Wire.OverwriteContents | rtp/src/rtcp/mod.rs:183 | after a write, bytes in the range come from the data and every other byte is unchanged |
| Format.TransportFromU8 | rtp/src/rtcp/mod.rs:139 | `TransportType::from_u8` accepts exactly the NACK code and returns the type with that code |
| Format.PayloadFromU8 | rtp/src/rtcp/mod.rs:140 | `PayloadType::from_u8` accepts exactly the PLI and FIR codes and returns the type with that code |
| Format.FmtToU8 | rtp/src/rtcp/mod.rs:179 | `as_u8` puts a reception-report or source count, or an APP subtype, in the fmt bits unchanged; the other kinds give a 5-bit code |
| Format.FeedbackKindRoundTrip | rtp/src/rtcp/mod.rs:139-140 | the feedback formats decode from their own codes |
| Header.Code | rtp/src/rtcp/mod.rs:180 | `packet_type as u8` lies in 200..207 |
| Header.CodeInjective | rtp/src/rtcp/mod.rs:89-105 | no two packet types share a wire code |
| Header.HeaderLen | rtp/src/rtcp/mod.rs:69-87 | header length is 4 exactly for SR, SDES, BYE and APP, and 8 for RR, RTPFB, PSFB and XR |
| Header.FromU8 | rtp/src/rtcp/mod.rs:89-105 | `from_u8` returns a type exactly for 200..207, and the type it returns has that code |
| Header.FromU8Code | rtp/src/rtcp/mod.rs:89-105 | every packet type decodes from its own code |
| Header.Len | rtp/src/rtcp/mod.rs:191-193 | the header is 8 bytes exactly for RR, RTPFB, PSFB and XR, the types whose header carries the sender SSRC, and 4 bytes for the others |
| Header.DecodeFmt | rtp/src/rtcp/mod.rs:132-142 | the fmt bits decode to the format kind the packet type calls for; decoding fails only for an unknown RTPFB or PSFB code; the decoded format re-encodes to the same bits (except XR, which ignores them) |
| Header.DecodeFmtRoundTrip | rtp/src/rtcp/mod.rs:132-142 | a format of the kind a packet type calls for decodes from its own code |
| Header.FirstByteRoundTrip | rtp/src/rtcp/mod.rs:125-132 | the first byte written as `0b10_0_00000` OR `v` reads back as version 2, no padding and fmt bits `v` |
| Header.DecodeLength | rtp/src/rtcp/mod.rs:154-160 | the parsed length is a multiple of 4; below a length field of 16383 it is `(field + 1) * 4`, between 4 and 65532 |
| Header.DecodeLengthWraps | rtp/src/rtcp/mod.rs:160 | the `u16` product wraps: length fields 0x3FFF and 0xFFFF both parse as length 0 |
| Header.WrapTimesFour | rtp/src/rtcp/mod.rs:160 | the wrapped `u16` product `(field + 1) * 4` is still a multiple of 4, and below 16384 it does not wrap |
| Header.Parse | rtp/src/rtcp/mod.rs:117-174 | fewer than 8 bytes, a version other than 2, an unknown type, or an RTPFB/PSFB format that names no known feedback kind give `None`; an SRTCP parse admits only SR and RR; a success reads the padding bit, the type code, the format decoded from the fmt bits, the length field and the SSRC from the bytes |
| Header.ParseSucceeds | rtp/src/rtcp/mod.rs:117-174 | `Parse` succeeds whenever none of its error conditions holds |
| Header.ParseFields | rtp/src/rtcp/mod.rs:117-174 | unfolding of `Parse` (a proof helper): once the fields are accepted, the parse is the header assembled from them |
| Header.HeaderBytes | rtp/src/rtcp/mod.rs:176-189 | the bytes `write_to` writes, one header length long; `HeaderBytesFields` gives each byte, and `HeaderRoundTrip` / `ParseThenWrite` make it the inverse of `Parse` |
| Header.WriteHeader | rtp/src/rtcp/mod.rs:176-189 | `write_to` writes the first byte, the type code and the length field, and the SSRC only for an 8-byte header; nothing else changes |
| Header.HeaderBytesFields | rtp/src/rtcp/mod.rs:176-189 | the written bytes hold the high bit with the fmt code, the type code, `length / 4 - 1` big-endian, and the SSRC when the header length is 8 |
| Header.LengthFieldRoundTrip | rtp/src/rtcp/mod.rs:154-183 | a written length between 4 and 65532 parses back to itself |
| Header.HeaderRoundTrip | rtp/src/rtcp/mod.rs:117-189 | writing a header and parsing it gives back its version, fmt, type and length, with padding off; the SSRC is the header's for an 8-byte header, otherwise the body's first four bytes |
| Header.ParseThenWrite | rtp/src/rtcp/mod.rs:117-189 | a parsed header without padding and with a length field below 16383 writes back the bytes it was parsed from |
| Header.FirstByteBack | rtp/src/rtcp/mod.rs:125-179 | a first byte with version 2 and no padding is rebuilt from its fmt bits by `0b10_0_00000` OR the fmt bits |
| Header.LengthFieldBack | rtp/src/rtcp/mod.rs:154-183 | a length field below 16383, parsed and written again, gives back the same two bytes |
| Feedback.OrdNo | rtp/src/rtcp/mod.rs:331-342 | the sort key is at most 6; it is at most 1 exactly for SenderInfo and ReceiverReport, and at most 2 exactly for the kinds the builder can write |
| Feedback.Ssrc | rtp/src/rtcp/mod.rs:357-368 | `ssrc` is the SSRC that `write_to` puts in an item's first four bytes |
| Feedback.AsHeader | rtp/src/rtcp/mod.rs:370-418 | version 2, no padding, the given length; a reception-report count for SR/RR and a source count for SDES/BYE; the fmt kind matches the packet type; an 8-byte header carries SSRC 0; SR/RR exactly for the reports |
| Feedback.WriteSsrc | rtp/src/rtcp/mod.rs:421-425 | `Ssrc::write_to` writes the SSRC big-endian into four bytes at the offset; nothing else changes |
| Feedback.Encode | rtp/src/rtcp/mod.rs:344-355 | what `RtcpFb::write_to` writes for an SR, RR or BYE item: 24, 24 or 4 bytes that begin with the item's big-endian SSRC (the `Ssrc` contract); `WriteItem` writes exactly these bytes |
| Feedback.WriteItem | rtp/src/rtcp/mod.rs:344-355 | `RtcpFb::write_to` writes the item's encoding at the offset; nothing else changes |
| Feedback.Insert | rtp/src/rtcp/mod.rs:210 | one insertion step of the sort adds exactly one copy of the item |
| Feedback.InsertSorted | rtp/src/rtcp/mod.rs:210 | inserting into a queue sorted by `ord_no` keeps it sorted |
| Feedback.InsertFilter | rtp/src/rtcp/mod.rs:210 | among the items of its key, the inserted item comes first, ahead of those already in the sorted queue; the items of every other key keep their order |
| Feedback.SortByKey | rtp/src/rtcp/mod.rs:210 | `sort_by_key(ord_no)`: keeps the length; `SortByKeyIsStableSort` proves it is a stable sort, and `SortedUnique` that it is the only one |
| Feedback.SortByKeyIsStableSort | rtp/src/rtcp/mod.rs:210 | `sort_by_key(ord_no)` gives a queue sorted by key that is a permutation of the input and keeps the order within each key |
| Feedback.SortByKeySorted | rtp/src/rtcp/mod.rs:210 | the sorted queue is ordered by `ord_no` |
| Feedback.SortByKeyPermutes | rtp/src/rtcp/mod.rs:210 | sorting neither loses nor duplicates an item |
| Feedback.SortByKeyStable | rtp/src/rtcp/mod.rs:210 | sorting keeps the items of each key in their input order |
| Feedback.SortedUnique | rtp/src/rtcp/mod.rs:210 | two sorted queues with the same items per key in the same order are equal, so the stable sort is determined |
| Feedback.FilterConcat | rtp/src/rtcp/mod.rs:235-238 | the items of one kind in a concatenation are those of each part, in order |
| Feedback.FirstPos | rtp/src/rtcp/mod.rs:263-267 | `position` of the first receiver report finds an item of that kind, with none before it |
| Feedback.RemoveFirst | rtp/src/rtcp/mod.rs:263-269 | removing the first receiver report removes the first of that kind and moves no other item |
| Feedback.LeadingBucket | rtp/src/rtcp/mod.rs:292-316 | in a sorted queue the first `count` items are the items with the lowest key |
| Compound.NeededLen | rtp/src/rtcp/mod.rs:219-282 | the room the first item needs: 28 for a sender info, 32 for a receiver report, 8 for a goodbye |
| Compound.CountField | rtp/src/rtcp/mod.rs:252-308 | `count = max_rr + xrr` for SR/RR and `max_gb` for BYE; no contract of its own: `Findings.WrittenCount` bounds it by 32, reached only by an RR packet with 31 added reports, and relates it to the SSRCs carried |
| Compound.GroupHeader | rtp/src/rtcp/mod.rs:255-308 | `fb.as_header(count as u8, length)` for a packet: its length is the packet's; `AsHeader` gives its other fields, and `GroupParses` / `SpilledHeader` what `parse` reads back from it |
| Compound.GroupBytes | rtp/src/rtcp/mod.rs:249-322 | a packet's bytes are its header, its first item and its added items, `length` bytes in all |
| Compound.PullReport | rtp/src/rtcp/mod.rs:263-269 | one `position` plus `remove`: takes one receiver report, shortens the queue by one and lowers its RR count by one; `PullReportSelects` shows it is the first RR and that everything else keeps its order |
| Compound.PullReports | rtp/src/rtcp/mod.rs:262-269 | `max_rr` removals of the first receiver report take `max_rr` receiver reports and leave the rest, with that many fewer receiver reports |
| Compound.PullReportSelects | rtp/src/rtcp/mod.rs:263-269 | one removal takes the first receiver report and leaves every other item in order |
| Compound.PullReportsTaken | rtp/src/rtcp/mod.rs:262-275 | the reports taken are the first `max_rr` receiver reports of the queue, in queue order |
| Compound.PullReportsSelects | rtp/src/rtcp/mod.rs:262-269 | after `n` removals, the remaining receiver reports are those after the first `n`, and other kinds are untouched |
| Compound.ReportStep | rtp/src/rtcp/mod.rs:219-278 | one SR/RR packet: led by the head item, at most 31 added receiver reports, and its length taken from the room |
| Compound.ReportPass | rtp/src/rtcp/mod.rs:214-279 | the first loop: every packet is an SR/RR packet, and the packets fit the room |
| Compound.ReportPassStep | rtp/src/rtcp/mod.rs:214-279 | unfolding of `ReportPass` (a proof helper): when the head report fits, the first loop emits its packet and continues on the rest |
| Compound.GoodbyeStep | rtp/src/rtcp/mod.rs:281-325 | one BYE packet: led by the head goodbye, at most 31 added goodbyes, and its length taken from the room |
| Compound.GoodbyePass | rtp/src/rtcp/mod.rs:281-326 | the second loop: the packets fit the room |
| Compound.GoodbyePassStep | rtp/src/rtcp/mod.rs:281-326 | unfolding of `GoodbyePass` (a proof helper): when the head goodbye fits, the second loop emits its packet and continues on the rest |
| Compound.GoodbyeStepSorted | rtp/src/rtcp/mod.rs:292-322 | in a sorted queue the goodbyes popped are the goodbye run, so the packet has only goodbyes, and the rest stays sorted |
| Compound.GoodbyePassGroups | rtp/src/rtcp/mod.rs:281-326 | on a sorted queue every packet of the second loop is a BYE packet |
| Compound.ReportPassSorted | rtp/src/rtcp/mod.rs:214-279 | the first loop leaves a sorted queue sorted |
| Compound.Reports | rtp/src/rtcp/mod.rs:205-279 | sorting then the first loop writes at most the buffer's length |
| Compound.PassesSorted | rtp/src/rtcp/mod.rs:210-326 | the second loop runs on a sorted queue, so it produces only BYE packets |
| Compound.BuildWellFormed | rtp/src/rtcp/mod.rs:205-329 | every packet built is a well-formed SR/RR or BYE packet, and together they fit the buffer |
| Compound.Build | rtp/src/rtcp/mod.rs:205-329 | `build_feedback` as a function: the SR/RR packets of the first loop, then the BYE packets of the second, and the queue left; no contract of its own: `BuildFeedback` is proved equal to it, and `BuildWellFormed` and the `Properties` lemmas (`BuildConserves`, `BuildPermutes`, `BuildKeepsOthers`, `BuildStops`, `BuildPacketAt`) characterise it |
| Compound.BuildBytes | rtp/src/rtcp/mod.rs:205-329 | the bytes built are at most the buffer's length: `abs` never exceeds `buf.len()` |
| Compound.WriteHead | rtp/src/rtcp/mod.rs:255-312 | a packet's header and first item are written at its start; nothing else changes |
| Compound.WriteReports | rtp/src/rtcp/mod.rs:262-275 | the inner loop writes the receiver reports it removes into consecutive 24-byte slots and returns the queue without them |
| Compound.WriteReportSlot | rtp/src/rtcp/mod.rs:263-274 | one turn of the inner loop removes the first receiver report left in the queue and writes it into slot `i`, after the `i` reports already written; the rest of the buffer does not change |
| Compound.ReportSlot | rtp/src/rtcp/mod.rs:263-269 | unfolding of `PullReports` (a proof helper): while fewer reports were removed than the queue held, `position` finds a receiver report, and removing it is the next step of the pull |
| Compound.WriteGoodbyes | rtp/src/rtcp/mod.rs:315-322 | the inner loop pops `max_gb` goodbyes from the front and writes them into consecutive 4-byte slots |
| Compound.ReportPlan | rtp/src/rtcp/mod.rs:234-255 | `max_rr = min(rr_count, 31, fitting_sr)` gives a packet of `needed_len + max_rr * RR_LEN` bytes that fits the room, is a multiple of 4, and carries count `max_rr + xrr` |
| Compound.GoodbyePlan | rtp/src/rtcp/mod.rs:292-308 | `max_gb = min(gb_count, 31, fitting_gb)` gives a packet of `NEEDED + max_gb * 4` bytes that fits the room and carries the next `max_gb` goodbyes under count `max_gb` |
| Compound.WriteReportPacket | rtp/src/rtcp/mod.rs:219-278 | one iteration of the first loop writes exactly the packet `ReportStep` names, returns its length and the queue after it |
| Compound.WriteGoodbyePacket | rtp/src/rtcp/mod.rs:289-325 | one iteration of the second loop writes exactly the packet `GoodbyeStep` names, returns its length and the queue after it |
| Compound.WriteReportPackets | rtp/src/rtcp/mod.rs:214-279 | the first loop writes the packets of `ReportPass` back to back from offset 0, and returns their total length and the queue left; `full` is set when it stopped at the early `return abs` |
| Compound.WriteGoodbyePackets | rtp/src/rtcp/mod.rs:281-326 | the second loop writes the packets of `GoodbyePass` back to back from `abs`, and returns the new `abs` and the queue left |
| Compound.BuildFeedback | rtp/src/rtcp/mod.rs:205-329 | `build_feedback` writes exactly `BuildBytes` at the front of the buffer, leaves the rest unchanged, returns its length, and leaves `Build(..).left` in the queue |
| Compound.StoppedAtReport | rtp/src/rtcp/mod.rs:225-228 | when the first loop returns early at a report that does not fit, the bytes built are the SR/RR packets alone and the queue is what that loop left |
| Compound.BuildJoins | rtp/src/rtcp/mod.rs:205-329 | the bytes built are the SR/RR packets followed by the BYE packets, and the second loop starts on a sorted queue |
| Properties.ReportPassConserves | rtp/src/rtcp/mod.rs:214-279 | of every kind, the items packed by the first loop followed by those left are the queue's items of that kind, in order |
| Properties.GoodbyePassConserves | rtp/src/rtcp/mod.rs:281-326 | of every kind, the items packed by the second loop followed by those left are the queue's items of that kind, in order |
| Properties.BuildConserves | rtp/src/rtcp/mod.rs:205-329 | of every kind, the items written followed by those left in the queue are the input's items of that kind, in input order |
| Properties.BuildPermutes | rtp/src/rtcp/mod.rs:205-329 | the items written plus those left are a permutation of the input: nothing is lost or duplicated |
| Properties.BuildKeepsOthers | rtp/src/rtcp/mod.rs:331-355 | only encodable items are written; SDES, NACK, PLI and FIR items are never written and stay in the queue, in order |
| Properties.BuildLeftSorted | rtp/src/rtcp/mod.rs:210 | the queue is left sorted by `ord_no` |
| Properties.ReportPassStops | rtp/src/rtcp/mod.rs:214-228 | the first loop ends when the queue is empty, when its head is not a report, or when the head's packet does not fit in the room left |
| Properties.GoodbyePassStops | rtp/src/rtcp/mod.rs:281-287 | the second loop ends when the queue is empty, when its head is not a goodbye, or when fewer than 8 bytes are left |
| Properties.BuildStops | rtp/src/rtcp/mod.rs:205-329 | `build_feedback` returns with the queue empty, with an item it cannot write at the head, or with no room left for the head's packet |
| Properties.BuildWritesNothing | rtp/src/rtcp/mod.rs:205-329 | no packet is written exactly when the sorted queue is empty, its head cannot be written, or its head does not fit; the queue is then left sorted and whole |
| Properties.BuildReportsFirst | rtp/src/rtcp/mod.rs:214-326 | SR/RR packets come before every BYE packet |
| Properties.BuildFirst | rtp/src/rtcp/mod.rs:210-231 | the first packet is led by the first item of the sorted queue |
| Properties.BuildStartsWithReport | rtp/src/rtcp/mod.rs:144-279 | when the queue holds a report, the compound packet starts with an SR/RR packet, as an SRTCP receiver demands |
| Properties.GroupLengthBounds | rtp/src/rtcp/mod.rs:249-305 | a packet's length is a multiple of 4 between 8 and 776 |
| Properties.PacketParses | rtp/src/rtcp/mod.rs:370-418 | a packet with a count of at most 31 reads back through `parse` with its type, fmt, count, length and SSRC |
| Properties.GroupParses | rtp/src/rtcp/mod.rs:249-259 | a packet whose count field fits in five bits reads back through `parse` with its count, length and type |
| Properties.SpilledHeader | rtp/src/rtcp/mod.rs:245-259 | the RR packet with count 32 still parses, with the padding bit set, a count of 0 and its own length |
| Properties.PacketLength | rtp/src/rtcp/mod.rs:249-259 | every packet the builder writes parses, whatever follows it, and `parse` reads the packet's own length |
| Properties.BuildPacketAt | rtp/src/rtcp/mod.rs:205-329 | the i-th packet sits at the sum of the earlier lengths, and `parse` reads its length there for every packet, the count-32 RR packet included, so a reader can walk the compound packet |
| Findings.WrittenCount | rtp/src/rtcp/mod.rs:252-308 | the count reaches 32 only in an RR packet with 31 added reports; a BYE packet's count is one less than the SSRCs it carries |
| Findings.SsrcsCarried | rtp/src/rtcp/mod.rs:249-305 | the SSRCs a packet carries, worked out from its length, are its first item and its added items |
| Findings.RrCountSpills | rtp/src/rtcp/mod.rs:245-256 | 32 receiver reports in 776 bytes make one RR packet with count 32, which reads back with the padding bit set and a count of 0 |
| Findings.ByeCountShort | rtp/src/rtcp/mod.rs:301-308 | two goodbyes in 12 bytes make one BYE packet that carries two SSRCs under a count of 1 |
| Findings.IntendedCount | rtp/src/rtcp/mod.rs:252-308 | the intended count is the number of report blocks of an SR/RR packet and the number of SSRCs of a BYE packet |
| Findings.IntendedReportStep | rtp/src/rtcp/mod.rs:234-278 | the corrected SR/RR step caps the added reports so that the count fits in five bits |
| Findings.IntendedByeStep | rtp/src/rtcp/mod.rs:292-325 | the corrected BYE step caps the added goodbyes so that the count, which includes the first goodbye, fits in five bits |
| Findings.IntendedParses | rtp/src/rtcp/mod.rs:252-308 | with the intended count a packet reads back with no padding bit and with the number of blocks or SSRCs it carries |
| CompoundTests.SenderAlone | rtp/src/rtcp/mod.rs:455-471 | `test_sr`: one sender info gives one 28-byte SR packet with count 0 and the sender's SSRC |
| CompoundTests.ReceiverAlone | rtp/src/rtcp/mod.rs:473-487 | `test_rr`: one receiver report gives one 32-byte RR packet with count 1 |
| CompoundTests.ReceiverThenSender | rtp/src/rtcp/mod.rs:489-507 | `test_sr_rr`: a receiver report queued before a sender info gives one 52-byte SR packet that carries the report |
| CompoundTests.MoreThan31 | rtp/src/rtcp/mod.rs:509-531 | `test_sr_rr_more_than_31`: 33 receiver reports and a sender info make an SR packet with 31 reports, then an RR packet with the other two; 828 bytes in all; the SR header (count 31, 772 bytes, the sender's SSRC) reads back at offset 0 and the RR header (count 2, 56 bytes) at offset 772 |
| CompoundTests.TwoPacketsParse | rtp/src/rtcp/mod.rs:509-531 | the two headers of `test_sr_rr_more_than_31` read back where each packet starts |
| CompoundTests.SenderSortedFirst | rtp/src/rtcp/mod.rs:210 | a sender info queued after receiver reports is sorted to the front, and the reports keep their order |
| CompoundTests.AllReceiverPull | rtp/src/rtcp/mod.rs:262-269 | on a queue of receiver reports, `n` removals of the first report take the first `n` items |

## Left out

- Parsing packet bodies back is not modelled. This covers `RtcpFb::feedback` / `FbIter` (the iterator module) and the body layouts of SenderInfo, ReceiverReport, SDES and NACK. A report body is four SSRC bytes followed by 20 uninterpreted bytes. The source's tests compare items read back through `FbIter`; `CompoundTests` instead reads back, through `Parse`, the header of every packet the tests build: its type, count, length and SSRC.
- The fmt module is not part of this model. `Format` stands in for it. `as_u8` is assumed to pass a count through unmasked. The NACK, PLI and FIR codes are assumed to be 1, 1 and 4, as section 6 of RFC 4585 and section 4.3.1 of RFC 5104 assign.
- `trace!` logging and `MediaTime` are left out. They do not affect the bytes written.
- Header.WriteHeader: the source's `assert!(self.length % 4 == 0)` panic becomes a precondition. So does `4 <= length` (also on `HeaderBytes`): for a length of 0 the assertion passes, but `(self.length / 4) - 1` underflows, which panics in a debug build and writes a length field of 0xFFFF in a release build; this case is not modelled. The builder never reaches it, since `GroupLengthBounds` gives every packet at least 8 bytes. The slice-length panics of `buf[..]` are preconditions too, except that `BuildFeedback` needs none, because it checks room as the source does.
- Feedback.WriteItem: the `todo!()` arms for SDES, NACK, PLI and FIR are excluded by the precondition `Encodable`. `Properties.BuildKeepsOthers` proves that the builder never reaches them.
- Header.Parse: the length is modelled with release-build wrap-around (`u16` multiplication modulo 2^16). A debug build panics instead for length fields of 16383 and above.
- Feedback.SortByKey: `sort_by_key` is modelled as a pure stable insertion sort. `SortByKeyIsStableSort` and `SortedUnique` prove that it is the only stable sort by `ord_no`, so the choice of algorithm does not matter. The sort is not modelled in place.
- Compound.BuildFeedback: the `VecDeque` is modelled as a sequence passed in and returned, not as an object mutated in place. The sub-slice `buf = &mut buf[length..]` is modelled as an absolute offset `abs` into one array. The early `return abs` of the first loop is the `full` result of `WriteReportPackets`.
- Findings.IntendedReportStep and Findings.IntendedByeStep are not used by `Build`. `Build` keeps the behaviour as written, so that the model matches the source.

## Findings

| source | as written | input that shows it | evidently intended | confidence | as-written member | corrected member |
|---|---|---|---|---|---|---|
| rtp/src/rtcp/mod.rs:245-256 | `max_rr` is capped at 31 and `count = max_rr + xrr`, so an RR packet can carry count 32, and `0b10_0_00000` OR 32 sets the padding bit and leaves a count of 0 | 32 receiver reports and a 776-byte buffer | cap the added reports at 30 when a receiver report leads, so that the count of report blocks is at most 31 (section 6.4.2 of RFC 3550) | not executed | Findings.RrCountSpills | Findings.IntendedReportStep, Findings.IntendedParses |
| rtp/src/rtcp/mod.rs:301-308 | a BYE packet carries its first goodbye and `max_gb` more, but its count field is `max_gb` | two goodbyes and a 12-byte buffer | the count should be the number of SSRCs in the packet (section 6.6 of RFC 3550), `max_gb + 1`, with `max_gb` capped at 30 | not executed | Findings.ByeCountShort | Findings.IntendedByeStep, Findings.IntendedParses |
