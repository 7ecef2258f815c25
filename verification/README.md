# A verified model of the rtp++ receive path and codecs

rtp++ is an RTP/RTCP stack in C++. This project models, in Dafny, the parts of it whose
correctness is not visible from reading one function: packet reordering, the jitter buffers
and their playout timers, loss estimation, the retransmission store, the bit-level codecs and
the time arithmetic. `dafny verify dfyconfig.toml` checks all of it.

Objects of the source that are updated in place are classes here. Each of their methods is
proved against a function on values, and the theorems about whole runs are lemmas about those
functions. Integers are unbounded; 16- and 32-bit wrap-around is written out where the source
has it. Clock readings, arrival times and presentation times are parameters, in microseconds,
and `double` is exact rational arithmetic.

| file | component |
|---|---|
| `PacketGroup.dfy` | `RtpPacketGroup`, `CodedData`: ordering packets by extended sequence number |
| `PtsPlayout.dfy` | `PtsBasedJitterBuffer` and the timers of `SvcGroupedRtpSessionManager` |
| `JitterBufferV2.dfy` | `RtpJitterBufferV2` |
| `PlayoutNode.dfy` | the entries both buffers hold |
| `LossEstimator.dfy`, `LossRestarts.dfy` | `LossEstimator`: orderly streams and restarts, any arrivals |
| `RetransmissionStore.dfy` | `TransmissionManager` in circular mode |
| `GenericAck.dfy` | `RtcpGenericAck` |
| `BitWriters.dfy` | `BitStreamWriter`, `BitStreamWriterMSB` |
| `RtcpParsing.dfy` | compound RTCP parsing in `RtpPacketiser` |
| `Remb.dfy` | `RtcpRembFb` |
| `RtspUri.dfy` | `RtspUri` |
| `RtpTime.dfy`, `ReferenceClock.dfy` | `RtpTime`, `RtpReferenceClock` |
| `TimestampUnwrap.dfy` | timestamp unwrapping in `RtpJitterBuffer` |
| `Words.dfy`, `Bits.dfy`, `Arithmetic.dfy` | machine words, bits, division by a variable |

## Where the code does not do what it promises

Lemmas named `...Exactly` say if and only if when the promise holds; the others named here show
an input on which it fails.

- `PacketGroup.OrderedExactly`: numbers from a window of fewer than 2^31 values are ordered
  for every arrival order exactly when they do not cross from 0x7FFFFFFF to 0x80000000. The
  signed comparison was meant for wrap-around and breaks there (`PacketGroup.MisplacedPair`).
- `PtsPlayout.DeliveredOnceExactly`: presentation times are delivered once, in strictly ascending
  order, exactly if no packet arrives in the very microsecond of the playout time of the group
  delivered last, with that group's presentation time and no buffered group to take it. Such a
  packet counts as on time and opens the group again; `PtsPlayout.SameTimeTwice` is a run of two
  packets that does.
- `LossEstimation.ReportExactly`, `LossEstimation.AllReportsExactly`: a report is exact exactly
  unless the highest number is 65535 and its successor is still expected; then 0 is reported as
  lost (`LossEstimation.FirstOf65535ReportsZero`).
- `LossEstimation.AssertionFailsExactly` and `LossEstimation.AssertionCanFail` answer the question
  the source puts beside its `assert(false)`: it fails when a number of the previous cycle is
  pending and that cycle has left the window, which 3000 arrivals after a lost 65535 bring about.
- `LossEstimation.WindowBoundedExactly`: the window keeps to its 3000 numbers exactly if no
  restart finds it without room for two; then the test for equality misses the limit for good
  (`LossEstimation.WindowCanOverflow`).
- `LossRestarts.ReportAfterJumpsExactly`: after a jump a report compares with the latest number
  of the whole window, strays and the old stream included. One stray packet has the next number
  reported as lost before it is due (`LossRestarts.StrayReportsNext`), and a restart to lower
  numbers has it reported instead of the pending one (`LossRestarts.RestartBackwards`). Restarts
  that leave the window within half the number space are reported right
  (`LossEstimation.ReportedExactlyOnce`).
- `ReferenceClock.RtpContinuesExactly`: the first RTP timestamp continues the RTCP timestamps before
  it exactly if the media time is, in ticks, what these have advanced; the offset counts only from
  the last of them, so a second RTCP call loses the time since the first
  (`ReferenceClock.SecondRtcpCallIsLost`).
- `ReferenceClock.ElapsedExactly`: the difference of two clock readings is cast to an unsigned
  64-bit number. A reading before the reference therefore moves the timestamp by the ticks of
  about 2^64 microseconds, which is harmless exactly for multiples of 15625 Hz
  (`ReferenceClock.SetBackBreaksStep` at 90 kHz).
- `RtpTime.WallClockExactly`: wall-clock timestamps are exact up to 999994 microseconds; from
  999995 on a whole second is lost, because the rounded fraction does not fit 32 bits. The cast
  of a fraction of 2^32 to 32 bits is taken as 0.
- `TimestampUnwrap.StreamUnwrapExactly`: elapsed ticks are exact exactly while the stream spans
  less than one timestamp cycle, the product with the wrap counter being 32 bits wide;
  `TimestampUnwrap.PlayoutExactly` adds that the milliseconds have to fit 32 bits, which can fail
  below 1000 Hz (`TimestampUnwrap.SpanFitsFrom1000`).
- `JitterBufferV2.SyncKeepsTimelineExactly`: the first RTCP synchronisation keeps the timeline
  exactly when the tick distance times 1000 fits 32 bits, 47.7 seconds at 90 kHz.
- `BitWriters.Write32Exactly`: a 32-bit write from the most significant bit is right exactly
  for the bit patterns 2^m - 1, because the mask is a signed `int` (an older copy of the class,
  under src/Libs/CodecUtils, has it unsigned in `Write` and documents 32 bits).
- `BitWriters.StaysInsideExactly`: a multi-bit write reads and writes back the byte after its
  last bit, so it stays inside the buffer exactly if it ends before the last bit of it. With a
  spare byte behind the buffer a write to the last bit does what it should
  (`BitWriters.SpareBytes`); `Poke` needs none.
- `RetransmissionStore.RetransmittableExactly`: the queue is constructed with 30 zeros, so
  sequence number 0 among the first 30 packets is dropped at once. `RetransmissionStore.StoredExactly`
  covers recurring numbers, which an older occurrence that leaves the queue takes along.
- `Remb.RateExactly`: rates above 0xFFFFC000 find no exponent and lose their upper bits.
- `RtspUri.RoundTripExactly`: a URI without a server, or with port 0, comes back with port 554.
- `GenericAck.EncodeIsOptimal` is about blocks that do not wrap. `GenericAck.WrappingSavesExactly`
  says when wrapping blocks would do with fewer (`GenericAck.WrappingCanSaveABlock`), and
  `GenericAck.EncodeWithinOneOfWrapping` that they save one and no more.

Two remarks that no lemma states: the shift by `uiDiff - 1` in `setMasks` is undefined for a
distance of 0, which the first iteration always has, and is taken to set no bit; and
`PtsBasedJitterBuffer::doAddRtpPacket` has a branch for the very first packet that is never
taken, because the playout time, computed before it, has already set the reference.

## Model

| member | source | states |
|---|---|---|
| `PacketGroup.RtpPacketGroup.constructor` | src/Lib/RtpPacketGroup.cpp:7-17 | a new group holds its packet and number and expects the successor |
| `PacketGroup.RtpPacketGroup.Insert` | src/Lib/RtpPacketGroup.cpp:19-112 | list, duplicate set, next expected number and result are those of one insertion by signed serial order, through both reverse searches |
| `PacketGroup.FindMapped` | src/Lib/RtpPacketGroup.cpp:70-78 | the search over numbers mapped into the middle range stops behind the last smaller one |
| `PacketGroup.FindSigned` | src/Lib/RtpPacketGroup.cpp:101-107 | the signed search stops behind the last smaller number |
| `PacketGroup.InsertKeepsOrder` | src/Lib/RtpPacketGroup.cpp:30-112 | one arrival keeps the group strictly ordered, in step with the duplicate set and the next expected number, and is refused exactly if its number was received |
| `PacketGroup.ReceiveIsOrdered` | src/Lib/RtpPacketGroup.cpp:7-112 | after any run of arrivals the list is exactly the received numbers, once each, in increasing serial order, and next expected is last + 1 |
| `PacketGroup.FirstArrivalKept` | include/rtp++/RtpPacketGroup.h:36-40 | of several packets with one number the group keeps the first to arrive |
| `PacketGroup.ArrivalOrderIrrelevant` | src/Lib/RtpPacketGroup.cpp:19-112 | arrivals with the same numbers, in any order and with any repetition, give the same list, duplicate set and next expected number |
| `PacketGroup.InsertKeepsBefore` | src/Lib/RtpPacketGroup.cpp:19-112 | insertion never reorders packets already in the list, whatever the numbers |
| `PacketGroup.MisplacedPair` | src/Lib/RtpPacketGroup.cpp:88-110 | a number below 2^31 that arrives after a later one from 2^31 on ends up behind it |
| `PacketGroup.OrderedExactly` | src/Lib/RtpPacketGroup.cpp:19-112 | numbers of a window of fewer than 2^31 values are ordered for every arrival order if and only if they do not cross 0x7FFFFFFF to 0x80000000 |
| `PacketGroup.RtpPacketGroup.Sort` | src/Lib/RtpPacketGroup.cpp:114-120 | the packets are those of the stable sort by source port |
| `PacketGroup.SortIsStable` | src/Lib/RtpPacketGroup.cpp:114-120 | that sort orders by port, keeps every packet, and keeps the order within each port |
| `PacketGroup.StableSortIsUnique` | src/Lib/RtpPacketGroup.cpp:114-120 | port order and the order within each port determine the list, so the algorithm does not matter |
| `PacketGroup.CodedData.Insert` | include/rtp++/PlayoutBufferNode.h:29-47 | the plain insert: new list and result of a sorted insertion that refuses equal numbers |
| `PacketGroup.GroupRefinesPlainInsert` | include/rtp++/PlayoutBufferNode.h:29-47 | on every stream of numbers below 2^31 - 1 the wrap-aware and the plain insert return the same flags and build the same list, payloads included |
| `PtsPlayout.PtsBasedJitterBuffer.CalculatePlayoutTime` | src/Lib/PtsBasedJitterBuffer.cpp:151-170 | the first packet fixes the reference, later ones are placed relative to it |
| `PtsPlayout.PtsBasedJitterBuffer.InsertAccordingToPts` | src/Lib/PtsBasedJitterBuffer.cpp:172-188 | a new group goes behind the last earlier one |
| `PtsPlayout.PtsBasedJitterBuffer.DoAddRtpPacket` | src/Lib/PtsBasedJitterBuffer.cpp:45-149 | a packet joins the group within 2 ms, or is counted late, or opens a group; list, counters and results |
| `PtsPlayout.DoAddExactly` | src/Lib/PtsBasedJitterBuffer.cpp:54-148 | in microseconds: a packet joins the first group less than 2000 away and changes no other; without one it opens a group if and only if its playout time has not passed, and is counted late with its lateness otherwise |
| `PtsPlayout.GroupsAreGathered` | src/Lib/PtsBasedJitterBuffer.cpp:35-148 | in every run a buffered group is what inserting, in the order of the run, some synchronised packets less than 2 ms from the one that opened it gives; a delivered group is such a group in port order |
| `PtsPlayout.ReferenceIsFirst` | src/Lib/PtsBasedJitterBuffer.cpp:151-170 | in every run the reference is arrival plus latency and presentation time of the first synchronised packet |
| `PtsPlayout.PlayoutTimesAre` | src/Lib/PtsBasedJitterBuffer.cpp:151-170 | every buffered or delivered group is played out at that packet's arrival plus latency plus the difference in presentation time |
| `PlayoutNode.LatenessExactly` | src/Lib/PtsBasedJitterBuffer.cpp:92-97 | the lateness is the whole milliseconds since the playout time if and only if that has passed and they fit 32 bits |
| `PtsPlayout.PtsBasedJitterBuffer.AddRtpPacket` | include/rtp++/IRtpJitterBuffer.h:45-69 | the playout time is computed first and then decides the insertion |
| `PtsPlayout.PtsBasedJitterBuffer.GetNextPlayoutBufferNode` | src/Lib/PtsBasedJitterBuffer.cpp:35-43 | the front group leaves the list, its packets sorted by source port |
| `PtsPlayout.SvcGroupedRtpSessionManager.HandleIncomingRtp` | src/Lib/SvcGroupedRtpSessionManager.cpp:122-153 | unsynchronised packets are ignored; a new group sets one timer for its playout time |
| `PtsPlayout.SvcGroupedRtpSessionManager.OnScheduledSampleTimeout` | src/Lib/SvcGroupedRtpSessionManager.cpp:180-202 | a firing pops one group, queues its media samples and removes its timer; a cancelled timer only goes |
| `PtsPlayout.StepKeeps` | src/Lib/PtsBasedJitterBuffer.cpp:35-188 | every possible event succeeds and keeps: groups at least 2 ms apart, playout times on one reference, timers among the playout times, deliveries behind the clock and in order |
| `PtsPlayout.PlayoutRunIsSafe` | src/Lib/SvcGroupedRtpSessionManager.cpp:122-202 | over every run with a monotone clock and earliest-first timers no pop meets an empty list and groups are delivered in non-decreasing presentation order, cancelled timers included |
| `PtsPlayout.TimersMatchGroups` | src/Lib/SvcGroupedRtpSessionManager.cpp:138-151 | until a timer is cancelled the pending expiries are, as a multiset, the playout times of the buffered groups, and each group was released by its own timer |
| `PtsPlayout.ReopensExactly` | src/Lib/PtsBasedJitterBuffer.cpp:72-144 | a packet opens a group not later than the last delivery if and only if it has that presentation time, arrives in the very microsecond of that playout time, and no buffered group takes it |
| `PtsPlayout.DeliveredOnceExactly` | src/Lib/SvcGroupedRtpSessionManager.cpp:122-202 | over every run presentation times ascend strictly over the deliveries and on to the buffered groups if and only if no packet reopens a group |
| `PtsPlayout.SameTimeTwice` | src/Lib/PtsBasedJitterBuffer.cpp:126-145 | a run from the start, of two packets and two timers, that delivers one presentation time twice |
| `PtsPlayout.PacketsAreAccounted` | src/Lib/PtsBasedJitterBuffer.cpp:54-148 | over every run each synchronised packet is buffered, delivered, late or a duplicate, and counted once |
| `JitterBufferV2.RtpJitterBufferV2.DoAddRtpPacket` | src/Lib/RtpJitterBufferV2.cpp:133-233 | live group, history, late and new-group branches: new list, history, counters, lateness and results |
| `JitterBufferV2.RtpJitterBufferV2.InsertAccordingToPts` | src/Lib/RtpJitterBufferV2.cpp:235-249 | a new group goes behind the last earlier one |
| `JitterBufferV2.RtpJitterBufferV2.GetNextPlayoutBufferNode` | src/Lib/RtpJitterBufferV2.cpp:36-46 | the front group moves to the history ring of 150 |
| `JitterBufferV2.RtpJitterBufferV2.CalculatePlayoutTime` | src/Lib/RtpJitterBufferV2.cpp:48-131 | references and playout time after one packet, the synchronisation included |
| `JitterBufferV2.StreamPlayoutIs` | src/Lib/RtpJitterBufferV2.cpp:48-131 | the playout time of every packet of a stream, by arrival of the first and presentation time from the first or, once synchronised, from the synchronised packet with the offset between the two |
| `JitterBufferV2.OutcomeExactly` | src/Lib/RtpJitterBufferV2.cpp:150-231 | a packet opens a group if and only if no live or remembered group has its timestamp and its playout time has not passed; it is late if and only if no live group has it and a remembered one does or the time has passed; duplicates are those the group refuses |
| `JitterBufferV2.AddChanges` | src/Lib/RtpJitterBufferV2.cpp:150-249 | the first live or else the last remembered group of the timestamp takes the packet, a new group goes behind the last earlier one, nothing else changes |
| `JitterBufferV2.LateIsCounted` | src/Lib/RtpJitterBufferV2.cpp:181-224 | in every run the late counter is the number of packets that came late in that sense |
| `JitterBufferV2.AddIsSafe` | src/Lib/RtpJitterBufferV2.cpp:150-231 | an add keeps the list sorted and RTP timestamps distinct across list and history |
| `JitterBufferV2.PopIsSafe` | src/Lib/RtpJitterBufferV2.cpp:36-46 | a pop keeps the same, and the history is the last 150 popped timestamps |
| `JitterBufferV2.RunIsSafeAndConserves` | src/Lib/RtpJitterBufferV2.cpp:36-46 | in every run: sorted list, distinct timestamps, no timestamp twice among 151 consecutive popped groups; total = live + popped + late + live duplicates, duplicate counter = live + history duplicates, history duplicates at most late |
| `JitterBufferV2.GroupsAreBuilt` | src/Lib/RtpJitterBufferV2.cpp:150-249 | in every run each group carries timestamp, presentation and playout time of a packet on time that opened it, and is what inserting packets of its own RTP timestamp in the order of the run gives |
| `JitterBufferV2.PoppedGroupIsOrdered` | src/Lib/RtpJitterBufferV2.cpp:36-46 | a popped group has its packets once each and in serial order if the numbers fed with its RTP timestamp are compact |
| `JitterBufferV2.SyncKeepsTimelineExactly` | src/Lib/RtpJitterBufferV2.cpp:53-130 | the first RTCP synchronisation keeps a packet's playout time within a millisecond if and only if the tick distance times 1000 fits 32 bits |
| `LossEstimation.LossEstimator.AddSequenceNumber` | include/rtp++/LossEstimator.h:41-115 | window, expected set, maximum and restart number after one arrival, all branches |
| `LossEstimation.LossEstimator.FillGap` | include/rtp++/LossEstimator.h:57-68 | the loop adds exactly the skipped numbers that are not in the window |
| `LossEstimation.LossEstimator.CopyLostSequenceNumbers` | include/rtp++/LossEstimator.h:138-201 | the numbers taken for lost, once each and in the order of the vector, in both branches, and whether the assertion fails |
| `LossEstimation.LossEstimator.BelowSigned` | include/rtp++/LossEstimator.h:159-172 | exactly the expected numbers below the maximum read as `int16_t`, ascending in that order |
| `LossEstimation.LossEstimator.BelowUnsigned` | include/rtp++/LossEstimator.h:176-195 | exactly the expected numbers below the maximum or far above it, ascending, and the assertion fails exactly for the latter |
| `LossEstimation.LossEstimator.GetEstimatedLostSequenceNumbers` | include/rtp++/LossEstimator.h:123-134 | the lost numbers are returned in that order and leave the expected set |
| `LossEstimation.AddTracks` | include/rtp++/LossEstimator.h:41-115 | after every orderly arrival the expected set holds the missing unreported numbers, modulo 2^16, and besides them at most the successor of the maximum, which only a report at 65535 can have removed |
| `LossEstimation.StrayJump` | include/rtp++/LossEstimator.h:88-104 | a number 3000 or more ahead, up to 100 behind, that confirms nothing changes only the window and the number that would confirm it |
| `LossEstimation.RestartExactly` | include/rtp++/LossEstimator.h:88-104 | from any estimator two such numbers in turn make the second the maximum; its successor is expected except where the first already confirmed an earlier jump and the successor is in the window |
| `LossEstimation.RestartTracks` | include/rtp++/LossEstimator.h:91-98 | a restart keeps the expected set in step: what was pending, the old successor included, and the new successor |
| `LossEstimation.RestartReported` | include/rtp++/LossEstimator.h:91-98 | 100, 20000, 20001, 20005 and a report: 101, 20002, 20003 and 20004 |
| `LossRestarts.ArrivalExactly` | include/rtp++/LossEstimator.h:41-115 | one arrival of any kind leaves exactly what was carried over the last restart, what the stream since misses and its next number expected if and only if no number skipped is in the window from before, unless carried |
| `LossRestarts.ExpectedAcrossRestarts` | include/rtp++/LossEstimator.h:41-115 | so after every sequence of arrivals, with stray jumps and restarts in any direction |
| `LossRestarts.ReportAfterJumpsExactly` | include/rtp++/LossEstimator.h:138-201 | a report then names exactly what is pending if and only if all of it lies before the latest number of the window in the order used, and that number is the maximum or its successor, short of the wrap, or the successor is pending anyway |
| `LossRestarts.StrayReportsNext` | include/rtp++/LossEstimator.h:138-201 | 100, 20000 and a report: 101 |
| `LossRestarts.RestartBackwards` | include/rtp++/LossEstimator.h:138-201 | 40000, 20000, 20001 and a report: 20002, and not 40001 |
| `LossEstimation.ReportIs` | include/rtp++/LossEstimator.h:123-201 | a report is exactly the missing numbers, with 0 added when the maximum is 65535 and 0 still expected |
| `LossEstimation.ReportTracks` | include/rtp++/LossEstimator.h:123-134 | a report keeps the expected set in step, at any maximum, and leaves nothing missing |
| `LossEstimation.ReportExactly` | include/rtp++/LossEstimator.h:175-196 | a report is exact if and only if it is not made at 65535 with the successor still expected |
| `LossEstimation.AllReportsExactly` | include/rtp++/LossEstimator.h:117-134 | all reports of a run are exact if and only if none was asked for at 65535 with the successor still expected |
| `LossEstimation.AssertionFailsExactly` | include/rtp++/LossEstimator.h:186-194 | the assertion fails exactly when a number of the previous cycle is pending and that cycle has left the window |
| `LossEstimation.AssertionCanFail` | include/rtp++/LossEstimator.h:186-194 | after a start at 65534 and the arrivals 65536 to 68535 a report runs into the assertion |
| `LossEstimation.WindowBoundedExactly` | include/rtp++/LossEstimator.h:49-52 | over every sequence of arrivals the window holds at most 3000 numbers if and only if no restart met it with 2999 or more |
| `LossEstimation.WindowCanOverflow` | include/rtp++/LossEstimator.h:91-98 | 2999 numbers in order, a jump and its successor leave 3001 numbers |
| `LossEstimation.FirstOf65535ReportsZero` | include/rtp++/LossEstimator.h:203-210 | a stream that starts at 65535 has 0 reported as lost |
| `LossEstimation.ReportedExactlyOnce` | include/rtp++/LossEstimator.h:10-18 | over unbounded runs across 16-bit wraps and restarts, reports at 65535 included: each report holds what is missing then and at most 0 besides, exactly at 65535 as above; no number is missing in two reports, none was received before, nothing missing below the maximum is left unreported except what restarts jumped over; the assertion passed on the way fails exactly as above |
| `RetransmissionStore.TransmissionManager.constructor` | src/Lib/TransmissionManager.cpp:16-32 | the queue starts with 30 zeros and the map is empty |
| `RetransmissionStore.TransmissionManager.StorePacketForRetransmission` | src/Lib/TransmissionManager.cpp:34-61 | retransmissions are not stored; others enter queue and map and push out the oldest |
| `RetransmissionStore.TransmissionManager.InsertPacketIntoTxBuffer` | src/Lib/TransmissionManager.cpp:207-211 | an entry that exists is kept |
| `RetransmissionStore.TransmissionManager.RemovePacketFromTxBuffer` | src/Lib/TransmissionManager.cpp:220-223 | the entry goes |
| `RetransmissionStore.TransmissionManager.GenerateRetransmissionPacket` | src/Lib/TransmissionManager.cpp:111-143 | a packet is found exactly if its number is stored |
| `RetransmissionStore.OffersStoreOriginals` | src/Lib/TransmissionManager.cpp:34-61 | over every run the store is that of the packets that are not retransmissions, in order |
| `RetransmissionStore.QueueInStep` | src/Lib/TransmissionManager.cpp:41-55 | after every run the queue has 30 entries and contains every stored number |
| `RetransmissionStore.QueueIs` | src/Lib/TransmissionManager.cpp:24-55 | the queue is the last 30 numbers, zeros in front |
| `RetransmissionStore.StoredExactly` | src/Lib/TransmissionManager.cpp:34-61 | for any numbers, recurring or not: a number is stored if and only if some packet carries it that no store since has cleared, earlier ones having been cleared before it, and that packet is what is stored |
| `RetransmissionStore.RetransmittableExactly` | src/Lib/TransmissionManager.cpp:34-61 | if no number recurs within 31 packets, exactly the last 30 packets can be retransmitted, except number 0 among the first 30 |
| `RetransmissionStore.LastThirty` | src/Lib/TransmissionManager.cpp:34-61 | with consecutive numbers modulo 2^16 and at least 60 stores, exactly the last 30 |
| `GenericAck.RtcpGenericAck.SetMasks` | include/rtp++/experimental/RtcpGenericAck.h:116-142 | the loop builds the blocks of the encoding |
| `GenericAck.RtcpGenericAck.AddAck` | include/rtp++/experimental/RtcpGenericAck.h:107-113 | the list stays sorted with the new number, blocks and length follow |
| `GenericAck.RtcpGenericAck.WriteFeedbackControlInformation` | include/rtp++/experimental/RtcpGenericAck.h:144-153 | bases and masks in turn, 16 bits each |
| `GenericAck.RtcpGenericAck.ReadFeedbackControlInformation` | include/rtp++/experimental/RtcpGenericAck.h:155-179 | the numbers of as many blocks as the length says follow those already held, and the whole list is encoded again |
| `GenericAck.DecodeEncode` | include/rtp++/experimental/RtcpGenericAck.h:116-142 | for every list, sorted or not, decoding the blocks gives exactly its numbers |
| `GenericAck.WrittenAt` | include/rtp++/experimental/RtcpGenericAck.h:144-153 | each block is on the wire as base and then mask |
| `GenericAck.DecodeMaskAscends` | include/rtp++/experimental/RtcpGenericAck.h:167-174 | the numbers of a block are read once each, the farthest below the base first and the base last |
| `GenericAck.AckRoundTrip` | include/rtp++/experimental/RtcpGenericAck.h:144-179 | over the wire the receiver gets exactly the numbers, and its re-encoding decodes to them again |
| `GenericAck.EncodeGapped` | include/rtp++/experimental/RtcpGenericAck.h:125-141 | for a sorted list successive bases descend by more than 16 and are acknowledged numbers |
| `GenericAck.EncodeIsOptimal` | include/rtp++/experimental/RtcpGenericAck.h:84-89 | the bases for a sorted list cover it without wrapping, and no such cover has fewer blocks |
| `GenericAck.EncodeWithinOneOfWrapping` | include/rtp++/experimental/RtcpGenericAck.h:116-142 | and in at most one block more than any cover by wrapping blocks |
| `GenericAck.WrappingSavesExactly` | include/rtp++/experimental/RtcpGenericAck.h:116-142 | a cover by wrapping blocks with fewer blocks exists if and only if, for one of the bases below 16, a block there and the encoding of what it does not reach are fewer |
| `GenericAck.WrappingCanSaveABlock` | include/rtp++/experimental/RtcpGenericAck.h:127-134 | 0 and 65535 fit one wrapping block and get two |
| `BitWriters.BitStreamWriter.WriteBit` | src/Lib/BitStreamWriter.cpp:67-84 | one bit at the cursor, cursor one further |
| `BitWriters.BitStreamWriter.Write` | src/Lib/BitStreamWriter.cpp:93-128 | with its cached byte the multi-bit write leaves the buffer and cursor of the single-bit writes of the value, lowest bit first, and reaches the bytes of `Touched` |
| `BitWriters.BitStreamWriter.Poke` | src/Lib/BitStreamWriter.cpp:139-166 | the same bits at a given position, cursor unmoved |
| `BitWriters.BitStreamWriterMSB.WriteBit` | src/Lib/BitStreamWriterMSB.cpp:73-90 | one bit at the cursor, cursor one further |
| `BitWriters.BitStreamWriterMSB.Write` | src/Lib/BitStreamWriterMSB.cpp:99-136 | the multi-bit write leaves the buffer and cursor of single-bit writes of the bits its mask picks, and reaches the bytes of `Touched` |
| `BitWriters.BitStreamWriterMSB.Poke` | src/Lib/BitStreamWriterMSB.cpp:147-175 | the same bits at a given byte and bit, cursor unmoved |
| `BitWriters.PutBitsEffect` | src/Lib/BitStreamWriter.cpp:62-66 | the bits land in order at their positions and no other bit of the buffer changes |
| `BitWriters.TouchedIs` | src/Lib/BitStreamWriter.cpp:95-128 | the bytes the cached loop reads or writes are those from the cursor to the byte after the last bit |
| `BitWriters.StaysInsideExactly` | src/Lib/BitStreamWriter.cpp:110-128 | they are inside the buffer if and only if the write ends before its last bit |
| `BitWriters.SpareBytes` | src/Lib/BitStreamWriterMSB.cpp:118-136 | a write up to the last bit leaves bytes behind the buffer as they were |
| `BitWriters.MaskedUpTo31` | src/Lib/BitStreamWriterMSB.cpp:105-130 | up to 31 bits the mask picks the value's bits, highest first |
| `BitWriters.Write32Exactly` | src/Lib/BitStreamWriterMSB.cpp:105-130 | with 32 bits it does so if and only if the pattern is 2^m - 1 |
| `RtcpParsing.FindRtcpParsers` | src/Lib/RtpPacketiser.cpp:390-400 | the indices of the capable parsers, in order |
| `RtcpParsing.CapableAscends` | src/Lib/RtpPacketiser.cpp:390-400 | these are all capable parsers, at strictly ascending indices |
| `RtcpParsing.ParseRtcpPacket` | src/Lib/RtpPacketiser.cpp:265-336 | terminates within the buffer, and a packet takes at least its header |
| `RtcpParsing.DepacketiseRtcp` | src/Lib/RtpPacketiser.cpp:338-356 | the loop collects packets up to the first failure |
| `RtcpParsing.SearchIsFirst` | src/Lib/RtpPacketiser.cpp:317-335 | the search gives the report of the parser registered first among those that handle the type and succeed |
| `RtcpParsing.BrokenStops` | src/Lib/RtpPacketiser.cpp:292-308 | a header cut short, a version other than 2 or an unknown type that runs over the end yields no packet |
| `RtcpParsing.SkipUnknown` | src/Lib/RtpPacketiser.cpp:299-315 | a packet of unknown type is skipped by its header and 4 times its length, wherever it stands |
| `RtcpParsing.ParseKnown` | src/Lib/RtpPacketiser.cpp:317-335 | a packet of known type gives what the first registered successful parser makes of it |
| `RtcpParsing.CompoundRoundTrip` | src/Lib/RtpPacketiser.cpp:265-367 | on any concatenation of well-formed packets, whatever broken bytes follow, the result is what the parsers registered first make of the packets they know, in order, up to one that all of them decline |
| `Remb.ComputeMantissaAnd6bitBase2Exponent` | include/rtp++/experimental/ExperimentalRtcp.h:273-289 | the loop finds the first fitting exponent |
| `Remb.LeastExponent` | include/rtp++/experimental/ExperimentalRtcp.h:279-288 | up to 0xFFFFC000 it is the least exponent whose 18-bit mantissa suffices |
| `Remb.MessageRoundTrip` | include/rtp++/experimental/ExperimentalRtcp.h:202-268 | the parser reads back every field of the printed message, cut to its width |
| `Remb.ParseExactly` | include/rtp++/experimental/ExperimentalRtcp.h:202-228 | a message is taken if and only if it begins with the letters REMB, and its words are then those of the fields read |
| `Remb.RateIs` | include/rtp++/experimental/ExperimentalRtcp.h:217-288 | the mantissa has 18 bits and the parsed rate is mantissa * 2^exp, the input without its low bits |
| `Remb.RateExactly` | include/rtp++/experimental/ExperimentalRtcp.h:217-288 | the parsed rate is at most the input and less than 2^exp below it if and only if the input is at most 0xFFFFC000 |
| `Remb.RateIsStable` | include/rtp++/experimental/ExperimentalRtcp.h:217-288 | encoding the parsed rate again gives the same rate, for every input |
| `RtspUri.DecimalRoundTrip` | include/rtp++/rfc2326/RtspUri.h:80-137 | printed decimal digits read back as the number |
| `RtspUri.ParsedIs` | include/rtp++/rfc2326/RtspUri.h:55-85 | what parsing a printed URI gives, field by field |
| `RtspUri.NameAlone` | include/rtp++/rfc2326/RtspUri.h:87-113 | a text without a slash is the name, other fields stay |
| `RtspUri.ServerAlone` | include/rtp++/rfc2326/RtspUri.h:93-108 | a scheme and a server give the server, and the port if one is printed |
| `RtspUri.RoundTripExactly` | include/rtp++/rfc2326/RtspUri.h:55-145 | printing and parsing are inverse if and only if the name has no slash, the server no slash or colon, and the port is positive, or the default without a server; any path |
| `RtpTime.NtpIs` | src/Lib/RtpTime.cpp:116-131 | the NTP words are the seconds and the nearest 2^-32 fraction |
| `RtpTime.NtpRoundTrip` | src/Lib/RtpTime.cpp:116-159 | every microsecond from 1900 to the end of the 32-bit seconds survives the way through NTP |
| `RtpTime.TickSurvivesCut` | src/Lib/RtpTime.cpp:128-130 | cutting a 90 kHz tick to whole microseconds and rounding again gives the tick |
| `RtpTime.WallClockExactly` | src/Lib/RtpReferenceClock.cpp:76-86 | rounding to a tick, through NTP and back, to RTP gives the nearest tick if and only if the microseconds are at most 999994 |
| `RtpTime.TicksOfWhole` | src/Lib/RtpTime.cpp:14-30 | seconds and microseconds converted apart add up to the rounded whole |
| `ReferenceClock.RtpReferenceClock.GetRtpTimestamp` | src/Lib/RtpReferenceClock.cpp:24-72 | the media-sample branch: offset, reference, last timestamp and result, for any clock reading |
| `ReferenceClock.RtpReferenceClock.GetRtpAndNtpTimestamps` | src/Lib/RtpReferenceClock.cpp:98-142 | the media-sample branch: first call and later calls, for any clock reading |
| `ReferenceClock.MediaTicksExactly` | src/Lib/RtpTime.cpp:32-36 | a media time is rounded to the nearest tick if and only if it is not negative and fits 32 bits |
| `ReferenceClock.RtcpNtpIsNow` | src/Lib/RtpReferenceClock.cpp:114-136 | the NTP words of every RTCP call read back as its time |
| `ReferenceClock.OffsetIs` | src/Lib/RtpReferenceClock.cpp:30-46 | the offset is 0 if RTP comes first, else the ticks from the last RTCP call to the first RTP call |
| `ReferenceClock.OffsetIsFinal` | src/Lib/RtpReferenceClock.cpp:30-46 | from the first RTP call on the offset never changes |
| `ReferenceClock.RtpFollowsMedia` | src/Lib/RtpReferenceClock.cpp:30-70 | however RTCP calls interleave, every RTP timestamp is base plus media ticks, plus, if RTCP came first, the ticks from the last RTCP call to the first RTP call, which are the rounded interval if and only if the cast keeps it |
| `ReferenceClock.RtpContinuesExactly` | src/Lib/RtpReferenceClock.cpp:30-64 | the first RTP timestamp is the last RTCP timestamp plus the ticks since if and only if the media ticks are those from the first RTCP call to the last |
| `ReferenceClock.SecondRtcpCallIsLost` | src/Lib/RtpReferenceClock.cpp:30-64 | two RTCP calls a second apart and a stream from media time 0: it is not |
| `ReferenceClock.ElapsedExactly` | src/Lib/RtpReferenceClock.cpp:122-131 | the ticks added are those of the interval, rounded, if and only if the number of 2^64-microsecond cycles the cast loses, times the frequency, is a multiple of 15625: always for an interval that does not go back, else for multiples of 15625 Hz |
| `ReferenceClock.RtcpStaysInStepExactly` | src/Lib/RtpReferenceClock.cpp:119-138 | an RTCP call keeps the last timestamp at start plus ticks elapsed if and only if its interval is such a one |
| `ReferenceClock.RtcpStampExactly` | src/Lib/RtpReferenceClock.cpp:119-138 | over every run: while the intervals so far were such, the next RTCP timestamp is start plus ticks elapsed if and only if its interval is |
| `ReferenceClock.RtcpDriftIsBounded` | src/Lib/RtpReferenceClock.cpp:119-138 | after k RTCP calls at such intervals since the reference was set the RTCP timestamp is within k/2 ticks of the exact elapsed time |
| `ReferenceClock.MonotoneIsSound` | src/Lib/RtpReferenceClock.cpp:119-138 | readings that never go back nor span 2^64 microseconds are all such, in every run |
| `ReferenceClock.SetBackBreaksStep` | src/Lib/RtpReferenceClock.cpp:122-131 | at 90 kHz a clock set back by a microsecond takes the RTCP timestamp off |
| `TimestampUnwrap.RtpJitterBuffer.CalculatePlayoutTime` | src/Lib/RtpJitterBuffer.cpp:139-197 | first packet, wrap counter and playout time in 32-bit arithmetic |
| `TimestampUnwrap.WrapSeen` | include/rtp++/RtpJitterBuffer.h:79-82 | a wrap is detected exactly on entering the next cycle, for steps of less than 2^31 forwards or backwards |
| `TimestampUnwrap.ElapsedIs` | src/Lib/RtpJitterBuffer.cpp:162-177 | the elapsed ticks computed: each full cycle loses a cycle and a tick |
| `TimestampUnwrap.StreamUnwrapExactly` | src/Lib/RtpJitterBuffer.cpp:162-177 | over every steady stream they equal the true difference if and only if it is below 2^32 |
| `TimestampUnwrap.PlayoutExactly` | src/Lib/RtpJitterBuffer.cpp:162-185 | over every steady stream at every clock rate playout is that of the first packet plus the true elapsed time, rounded to milliseconds, if and only if those fit 32 bits and the span is below one cycle, or is one cycle and rounding hides the lost tick |
| `TimestampUnwrap.SpanFitsFrom1000` | src/Lib/RtpJitterBuffer.cpp:179-180 | from 1000 Hz on the milliseconds of every span below one cycle fit; at 500 Hz those of 2^31 ticks do not |
| `TimestampUnwrap.MillisecondsNearest` | src/Lib/RtpJitterBuffer.cpp:179-180 | the rounding is within half a millisecond |
| `TimestampUnwrap.PlayoutNeverDecreases` | src/Lib/RtpJitterBuffer.cpp:139-197 | playout times of a steady stream never decrease while its span fits in that sense |

## Left out

- Sockets, asio, threads, mutexes and logging: a timer is an expiry and a fire step, a locked method is one step.
- RTSP and SIP servers and clients, session factories, media sources and devices.
- The 32-bit width of the statistics counters of the jitter buffers; they are unbounded here.
- What a depacketiser makes of a released group; it is any function from the group to media samples.
- JitterBufferV2.RtpJitterBufferV2.DoAddRtpPacket: takes the playout time as a parameter, so that its runs hold for every playout time.
- Delivery order of `RtpJitterBufferV2` by playout time across a synchronisation, where presentation times jump.
- `RtpJitterBuffer` beyond its playout times: its list is ordered by RTP timestamp with a wrap flag.
- LossEstimation.ReportedExactlyOnce: needs every arrival less than 3000 ahead of or less than 100 behind the maximum, or the two arrivals of a restart in turn; nothing pending or in the window half the number space behind; and the maximum in the window when a report is asked for. `LossRestarts` covers other arrivals.
- RetransmissionStore.TransmissionManager.GenerateRetransmissionPacket: yields the stored packet; building the RTX packet around it, restoring it, and the multipath mapping are not modelled, nor are the timed and acknowledged modes.
- BitWriters.BitStreamWriter.Write: asks for the byte after the last bit, because the code reads and writes it; memory outside the buffer is not modelled.
- BitWriters.BitStreamWriterMSB.Write: the same.
- `IBitStream` and `OBitStream` are not part of this model: RTCP input is a byte sequence whose header reads fail as a whole past the end, acknowledgement and REMB messages are 16- and 32-bit words.
- RTCP validation and the concrete RTCP parsers; a parser is any function that keeps to its length field or declines.
- ReferenceClock.MediaTicks: casting a `double` that is negative or from 2^32 on to 32 bits is undefined and taken modulo 2^32.
- TimestampUnwrap.Playout: likewise for milliseconds from 2^32 on.
- Remb: shift counts from 32 on are undefined in C++ and taken modulo 32, as the processor takes them.
- RtspUri.ReadPort: skips no blanks and knows no sign; a printed port has neither.
- `convertRtpToSystemTimestamp`, `presentationTimeMatch`, DLSR conversion and presentation times from sender reports.
