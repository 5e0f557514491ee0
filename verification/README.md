# Verified models of quant

quant is a QUIC implementation in C (RFC 9000, RFC 9001, RFC 9002). This project models five
of its parts in Dafny and proves what they keep over every input and every run:

- **Interval sets on splay trees** (`lib/src/tree.h`, `lib/src/diet.h`, `lib/src/diet.c`). The
  splay loop relinks nodes in place on the heap and is proved equal to a function on trees; the
  interval tree on top of it is proved to refine a finite set.
- **Streams** (`lib/src/frame.c`, `lib/src/stream.c`, `tx_stream` in `lib/src/conn.c`). A sender,
  a network that drops, duplicates and reorders, and a receiver that trims, parks and drains.
- **Loss recovery** (`lib/src/recovery.c`, `lib/src/pn.c`, `rtx_pkt` in `lib/src/conn.c`, `free_iov`
  in `lib/src/quic.c`). The books of sent packets, through every interleaving of sends,
  retransmissions, acknowledgements, loss passes, frees and abandoned spaces.
- **ACK frames** (`lib/src/frame.c`, `lib/src/recovery.c`). The encoder, its two decoders, what is
  done with the ranges, and the pruning of the receive set.
- **The packet layer** (`lib/src/pkt.c`, `lib/src/marshall.c`). Varints, packet numbers, header
  protection, coalescing and splitting; also the congestion window and the RTT estimator.

Where the source updates things in place there is a class or a method with loops, proved against a
function on values; the theorems are about those functions, and about runs built from them. The
64-bit build without `NO_*` flags and with `NDEBUG` is modelled, and allocations succeed.

| files | content |
|---|---|
| `SplayShape`, `Nodes`, `SplayTree` | trees as values, nodes on the heap, the splay loops |
| `Ivals`, `RemoveRange`, `ExactRange` | interval lists, the retry loop on them, when it removes a whole range |
| `Diet`, `DietRuns` | the interval tree, runs of operations |
| `Recovery`, `Balance`, `Sending`, `Losing`, `Runs`, `Ledger` | transitions of the books, the invariant, each step, whole runs, what the counters are in terms of a run |
| `LossDetection`, `Bookkeeping` | the loss loops, the books as an object |
| `Varint`, `AckCodec`, `AckExact`, `AckProcessing`, `AckReceipt`, `AckTracking`, `AckOfAck` | ACK frames |
| `Streams`, `Delivery`, `StreamCodec`, `Partition`, `Reassembly`, `StreamSender`, `Transmission`, `EndToEnd` | streams |
| `PacketNumber`, `NumberRuns`, `HeaderProtection`, `Coalescing`, `Splitting`, `Congestion`, `Rtt` | packet layer, window, RTT |

Where the code and its comments disagree the code is followed:

- `decv` adds its second byte twice in the 8-byte form. `Varint.RoundTrip` says exactly which
  values survive, `Varint.RepeatedByteExample` gives one that does not.
- So from packet number 2^48 on the acknowledgement of an ACK frame can remove numbers from the
  receive set that the frame did not describe. `AckExact.TrackExact` says exactly which frames are
  read back, `AckOfAck.LeavesOnlyConfirmed` holds of every run that sends such frames only, as all
  do whose numbers stay below 2^48 (`AckOfAck.SmallReadable`), and `AckOfAck.MisreadRunExample` is a
  run in which it fails.
- And from stream offset 2^48 on data is delivered at the wrong place. `StreamCodec.WireRoundTrip`
  says exactly which frames are read back, `EndToEnd.Delivered` holds of every run that sends plain
  offsets only, as all do that write less than 2^48 bytes (`EndToEnd.ShortIsPlain`), and
  `EndToEnd.MisplacedBreaks` shows what a misread offset does.
- `diet_remove_ival` can stop early when a range spans several intervals. `Diet.Diet.RemoveIval`
  says exactly when it clears the range, in terms of the list and the root that the first splay
  brings up (`ExactRange.Spans`). `ExactRange.StopsEarlyExample` gives a range whose fate depends on
  the shape of the tree, `ExactRange.NeverTrimmedExample` one that no shape clears.
- The comment on `diet_insert` says that the returned interval contains the number. It is the root
  of the tree. `Diet.Diet.Insert` says exactly when that contains the number (`Diet.RootHolds`),
  `Diet.ReturnedElsewhereExample` gives a call where it does not.
- `dec_ack_frame` skips everything at or below the end of the lowest interval of `acked_or_lost`.
  `AckProcessing.AckComplete` says exactly when that loses nothing, `AckProcessing.SkipExample`
  gives a run in which it does.
- The send time below which packets are lost is an unsigned difference that wraps while the clock
  shows less than the loss delay (`LossDetection.TimeTestExact`).
- Out-of-order data is ignored as a whole if and only if it overlaps or touches parked data
  (`Streams.IgnoredIffOverlaps`), so that the order of arrival can matter (`Partition.OverlapExample`).
- The end of a stream is forgotten when the parked frame that carries it turns stale before it is
  dequeued. `Delivery.ReceiveFin` says exactly when the end survives an arrival,
  `Delivery.FinForgottenExample` gives two frames after which all data is there and the stream stays
  open.

## Model

| member | source | states |
|---|---|---|
| SplayShape.DescendKeeps | lib/src/tree.h:268-303 | every round of the top-down splay loop keeps the in-order sequence and leaves everything linked away on the left above, and on the right below, in the comparison |
| SplayShape.SplayInorder | lib/src/tree.h:268-303 | a splay keeps the in-order sequence of the tree |
| SplayShape.SplaySeparates | lib/src/tree.h:268-303 | after a splay the root matches the key, or everything left of it compares above and everything right of it below the key |
| SplayShape.SplayAboveAll | lib/src/tree.h:247-266 | splaying the left subtree for the removed root leaves its last node on top with no right child, so the right subtree can be hung there |
| SplayShape.SplayEnds | lib/src/tree.h:308-342 | splaying for the minimum or maximum brings the first or last node of the in-order sequence to the root |
| SplayTree.Splay | lib/src/tree.h:268-303 | relinking the nodes in place yields exactly the tree of the pure splay of the old tree, with the same nodes |
| SplayTree.SplayMinMax | lib/src/tree.h:308-342 | the same for the minimum and the maximum |
| SplayTree.RemoveRoot | lib/src/tree.h:247-266 | the in-order sequence without the root; the other nodes stay linked properly |
| SplayTree.FindMax | lib/src/diet.c:46-54 | the walk along right children ends at the last node of the subtree |
| SplayTree.FindMin | lib/src/diet.c:63-71 | the walk along left children ends at the first node of the subtree |
| Ivals.CmpMonotone | lib/src/diet.h:66-73 | on sorted disjoint intervals the comparison with any key never rises, although containment compares equal and it is not an order |
| Ivals.CanonicalUnique | lib/src/diet.c:118-190 | two sorted, disjoint, non-adjacent interval lists with the same members have the same intervals |
| Ivals.NearInserts | lib/src/diet.c:129-183 | growing the root or its neighbour and merging across the gap inserts exactly the number, wherever the splay left the root |
| Ivals.InsertStamps | lib/src/diet.c:118-190 | if time does not run backwards an insertion keeps every interval's stamp at or above the insert times of its members |
| Ivals.RemoveStamps | lib/src/diet.c:219-305 | any removal keeps that too |
| Ivals.CutRemoves | lib/src/diet.c:200-241 | trimming, splitting or freeing the root removes exactly its numbers in the range |
| Diet.Diet.Find | lib/src/diet.c:82-90 | an interval is returned if and only if the number is a member, and then it contains it; the set does not change |
| Diet.Diet.Insert | lib/src/diet.c:118-190 | the number is added and nothing else; intervals stay sorted, disjoint and non-adjacent; the interval that holds it is new and has the given stamp, or has the later of that and the stamp of an interval it absorbed; untouched ones keep bounds and stamp; the count of nodes is right; the root is returned, and it contains the number if and only if neither only the neighbour across the number grew nor the root was folded into a neighbour that is not its child |
| Diet.ReturnedElsewhereExample | lib/src/diet.c:139-156 | inserting 2 into the tree with [1..1] at the root and [5..5] as its right child brings [5..5] up and returns an interval without 2 |
| Diet.Diet.SplitRoot | lib/src/diet.c:200-211 | the root interval is replaced by what is left of it on either side of the range |
| Diet.Diet.Remove | lib/src/diet.c:219-241 | the number is gone, every other member stays, and what is left of its interval keeps its stamp |
| Diet.Diet.RemoveIval | lib/src/diet.c:249-305 | terminates; no number outside the range is removed; the range ends up clear if and only if the condition `ExactRange.Spans` on the list and on the interval that the first splay brings up holds, so always if the range is wholly in the set |
| Diet.Diet.RemoveRound | lib/src/diet.c:254-304 | each retry removes at least one member, leaves a range to remove that stays within the one asked for, and keeps the outcome decided by the condition |
| RemoveRange.RoundKeeps | lib/src/diet.c:254-304 | what the retry loop keeps, for every root the splay may have brought up |
| ExactRange.RoundExact | lib/src/diet.c:259-304 | one round, for every list, root and wanted range: a return clears the range if and only if the condition held, and a retry faces a list and root for which it holds as before, or a range that nothing meets |
| ExactRange.DropKeeps | lib/src/diet.c:286-304 | freeing an interval inside the range keeps the condition: the root moves to its predecessor, and the next splay to where the condition looks |
| ExactRange.DropFirst | lib/src/diet.c:298-304 | freeing an interval that starts with the range ends the loop, with the range clear if and only if nothing above it met the range |
| ExactRange.MissOutcome | lib/src/diet.c:261-262 | returning because the root does not meet what is still wanted leaves the range clear if and only if the condition holds |
| ExactRange.CoveredSpans | lib/src/diet.c:249-305 | a range wholly in the set meets the condition for every root a splay can bring up |
| ExactRange.StopsEarlyExample | lib/src/diet.c:298-304 | of [1..1] and [3..3], the range [1..3] is cleared or not depending on the root |
| ExactRange.NeverTrimmedExample | lib/src/diet.c:259-262 | of [1..5], [7..7] and [20..20], the range [4..10] is never cleared |
| SplayShape.SplayCrossesUp | lib/src/tree.h:268-303 | splaying again, a root just below the key gives way to one just above it, if there is one |
| SplayShape.SplayCrossesDown | lib/src/tree.h:268-303 | and the other way round |
| Diet.SplayedRoot | lib/src/tree.h:268-303 | so the position of the new root follows from that of the old one: a match stays, and a neighbour of the key changes sides |
| Diet.Diet.Extreme | lib/src/diet.h:123-134 | the least or greatest member, 0 if there is none, whatever the shape of the tree |
| Diet.Diet.Step | lib/src/tree.h:181-207 | the node after or before a given node in order, although the tree is reshaped on the way |
| Diet.Diet.Walk | lib/src/tree.h:357-363 | a walk lists every interval exactly once, in ascending or descending order |
| Diet.Diet.Free | lib/src/diet.c:312-319 | freeing minimum by minimum ends with the empty tree |
| DietRuns.RunRefinesSet | lib/src/diet.c:118-241 | after any sequence of insertions and removals the list is canonical and has exactly the members of the plain set |
| DietRuns.RunStamps | lib/src/diet.c:118-241 | with timestamps that do not go back each interval's stamp bounds the last insert time of all its members |
| DietRuns.SameSetSameIntervals | lib/src/diet.c:118-241 | two runs that build the same set end with the same intervals |
| Balance.NoUnderrun | lib/src/recovery.c:263-275 | in every consistent state in_flight covers the padded length of every unresolved packet, so the underrun check cannot fire |
| Balance.SettleBalanced | lib/src/recovery.c:278-302 | taking a packet out of the books lowers in_flight and ae_in_flight by exactly its share |
| Balance.FreeKeeps | lib/src/quic.c:120-152 | freeing any record keeps conservation, the number partition and the retransmission links |
| Balance.LoseKeeps | lib/src/recovery.c:482-489 | losing a packet without earlier copies keeps them; a stream packet stays, marked lost, any other is freed |
| Balance.AckKeeps | lib/src/recovery.c:711-765 | acknowledging keeps them, through the exchange of numbers and lengths with a later copy |
| Balance.SwapKeeps | lib/src/recovery.c:743-757 | that exchange by itself keeps them: the stand-in carries the later number with its own weight |
| Balance.AckReaches | lib/src/recovery.c:731-765 | an acknowledgement of any copy reaches the latest one: it is then marked acked, and the acknowledged copy stands in for its number; without a later copy a stream packet is marked itself; every other acknowledged record is freed |
| Sending.SendNewKeeps | lib/src/recovery.c:593-618 | a first transmission keeps them |
| Sending.ResendKeeps | lib/src/conn.c:281-311 | retransmitting a packet still outstanding keeps them: the old number stays accounted for under the copy |
| Sending.ResendLostKeeps | lib/src/conn.c:290-292 | retransmitting a lost packet keeps them |
| Losing.SurvivorsSentLater | lib/src/recovery.c:441-457 | when the pass reaches a lost number, what is left below it was sent later |
| Losing.NoEarlierCopies | lib/src/recovery.c:482-489 | hence earlier copies of a lost packet are settled before it in the same pass |
| Losing.LossPassExact | lib/src/recovery.c:399-491 | one pass moves exactly the numbers of the loss rule to acked_or_lost and keeps the books; what survives keeps its record, send time and weight; other spaces are untouched |
| LossDetection.LossDelay | lib/src/recovery.c:408-411 | the delay is 9/8 of the larger of the two RTTs, rounded down, unless that is below the timer granularity, which it never is itself |
| LossDetection.TimeTestExact | lib/src/recovery.c:414 | the unsigned age test means "sent at least the delay ago" if and only if the clock shows at least the delay; before, every packet passes |
| LossDetection.LossRule | lib/src/recovery.c:408-446 | in numbers: an unresolved packet is lost if and only if nothing was acked, or it is below lg_acked and three or more behind it or sent at least a microsecond and 9/8 of both RTTs ago, where every packet counts as old while the clock shows less than that |
| LossDetection.InvReadable | lib/src/recovery.c:421-440 | in every state of a run the loops find a record for every number they visit |
| LossDetection.ScanInterval | lib/src/recovery.c:427-457 | the inner loop over one interval extends the lost numbers and the earliest loss time exactly |
| LossDetection.FindLost | lib/src/recovery.c:416-458 | the lost numbers are exactly those of the rule, in order; loss_t is the least send time plus delay over the survivors below lg_acked, 0 if none; the send time of the last lost packet and whether one was in flight |
| Runs.FreeAllKeeps | lib/src/pn.c:94-111 | freeing the records of a space in any order keeps the books and leaves none |
| Runs.AbandonKeeps | lib/src/pn.c:132-152 | abandoning a space keeps them |
| Runs.StepKeeps | lib/src/recovery.c:257-305 | every step keeps conservation and partition |
| Runs.StepForward | lib/src/recovery.c:301-302 | every step only moves numbers from sent_pkt_nrs to acked_or_lost, and lg_acked stays a resolved number |
| Runs.RunKeeps | lib/src/recovery.c:593-618 | in every state of every run in_flight and ae_in_flight are the sums over the unresolved records, and the number tables partition 0..lg_sent |
| Runs.ResolvedOnce | lib/src/pn.c:45-62 | a resolved number stays resolved and is never outstanding again while its space lives |
| Ledger.StepAfter | lib/src/recovery.c:255-302 | every step: the load of each number afterwards is that of before, or of the transmission just made, or nothing if the number is resolved |
| Ledger.InFlightIs | lib/src/recovery.c:255-275 | in every state of every run in_flight is the sum over the transmissions made so far in live spaces that count as in flight and are not in acked_or_lost, 1200 bytes each in the Initial space and the length given when sending in the others; ae_in_flight is the number of those that elicit an ACK |
| Ledger.NumbersInOrder | lib/src/recovery.c:593-604 | packet numbers of a space are the places of its transmissions, and the outstanding ones are exactly those not in acked_or_lost |
| Ledger.LgAckedIs | lib/src/recovery.c:657-664 | in every state of every run lg_acked of a live space is the greatest number acknowledged as the largest of a frame, -1 if there was none |
| Ledger.AckRangesLg | lib/src/frame.c:635-660 | for every frame: lg_acked never falls, and if the largest number was outstanding, is covered by the ranges and above the cumulative ACK, it becomes the larger of the old value and that number; otherwise it stays |
| Bookkeeping.InsertInStep | lib/src/pn.c:55-62 | inserting keeps the table and the interval set of a space in step; afterwards exactly the one number is looked up differently, and finds the record |
| Bookkeeping.DeleteInStep | lib/src/pn.c:45-52 | so does deleting; the one number then finds nothing |
| Bookkeeping.DeleteUndoes | lib/src/pn.c:45-62 | deleting undoes the insertion of a number that was not there |
| Bookkeeping.Books.RemoveFromInFlight | lib/src/recovery.c:263-275 | the update, with the underrun check as a precondition that all callers are proved to meet; Ledger.InFlightIs says what the counters then are |
| Bookkeeping.Books.OnPktLost | lib/src/recovery.c:278-302 | the new books are those of the transition |
| Bookkeeping.Books.OnPktSent | lib/src/recovery.c:593-618 | the new books are those of the transition, under the next number; Ledger.InFlightIs and Ledger.NumbersInOrder say what that makes of them |
| Bookkeeping.Books.ReleaseCopies | lib/src/quic.c:137-145 | the loop clears stream and links of exactly the earlier copies |
| Bookkeeping.Books.FreeIov | lib/src/quic.c:120-152 | the new books are those of the transition and stay consistent |
| Bookkeeping.Books.StandIn | lib/src/recovery.c:743-757 | the statements that exchange number and length amount to the swap |
| Bookkeeping.Books.OnPktAcked | lib/src/recovery.c:711-765 | the new books are those of the transition and stay consistent |
| Bookkeeping.Books.RtxPkt | lib/src/conn.c:281-311 | the new books are those of the transition |
| Bookkeeping.Books.LoseListed | lib/src/recovery.c:466-491 | the second loop over the lost numbers amounts to the loss pass |
| Bookkeeping.Books.DetectLostPkts | lib/src/recovery.c:399-491 | the whole function amounts to the exact loss pass; it returns the earliest loss time, the send time of the greatest lost number and whether a lost packet was in flight |
| Bookkeeping.Books.AbandonPn | lib/src/pn.c:132-152 | the loop frees all records of the space; the books stay consistent |
| Varint.MasksAreThresholds | lib/src/marshall.c:45-67 | on values below 2^62 the bit masks that choose the length are the thresholds 2^6, 2^14 and 2^30 |
| Varint.VarintSize | lib/src/marshall.c:56-67 | the least of the widths 1, 2, 4 and 8 that can hold the value |
| Varint.EncV | lib/src/marshall.c:149-198 | exactly varint_size bytes of the buffer change, to the encoding, and the position moves past them |
| Varint.WiderForm | lib/src/marshall.c:201-234 | every permitted wider form is the value behind zeros with the tag of its width |
| Varint.ReadEncoded | lib/src/marshall.c:317-359 | every form announces its width and reads back as the value plus bits 48 to 55 once more |
| Varint.RoundTrip | lib/src/marshall.c:317-359 | decoding in place consumes exactly the bytes written, and yields the value if and only if bits 48 to 55 are zero |
| Varint.CutOff | lib/src/marshall.c:317-359 | a form of any width that would run past the end is refused |
| Varint.RepeatedByteExample | lib/src/marshall.c:325-331 | 2^48 is read back as 2^49 |
| AckCodec.RangeStep | lib/src/frame.c:588-698 | both decoders find the length of the highest interval and the gap to the next, and the gap does not underflow |
| AckCodec.ParsedDescends | lib/src/frame.c:588-698 | the ranges of every frame that parses are as many as announced, start with the largest number and descend with gaps between them |
| AckCodec.ParseBack | lib/src/frame.c:588-698 | dec_ack_frame recovers exactly the intervals, or refuses the frame if and only if a range is longer than it accepts |
| AckCodec.TrackBack | lib/src/recovery.c:574-587 | track_acked_pkts recovers exactly the intervals |
| AckCodec.AckRoundTrip | lib/src/frame.c:1559-1647 | encoding and both decoders together, on bytes, for every non-empty receive set whose fields are given back by decv; the type byte is 0x02 without ECN counts and 0x03 with them, which follow in the order ECT(0), ECT(1), CE |
| AckCodec.SmallIsPlain | lib/src/frame.c:1559-1647 | all fields are given back when the largest number, the delay and the ECN counts are below 2^48 |
| AckExact.TrackExact | lib/src/recovery.c:561-590 | track_acked_pkts reads back the intervals that were acknowledged if and only if the largest number, the count of ranges, their lengths and the gaps have bits 48 to 55 clear, whatever the delay and the ECN counts |
| AckExact.SmallRangesPlain | lib/src/recovery.c:561-590 | so it does while numbers stay below 2^48 |
| AckExact.MisreadExample | lib/src/recovery.c:568-580 | from the frame for 2^48 it reads 2^49 |
| AckCodec.PutRanges | lib/src/frame.c:1579-1618 | the loop over the intervals, highest first, writes gaps and lengths, or finds that the frame does not fit |
| AckCodec.EncAckFrame | lib/src/frame.c:1539-1647 | succeeds if and only if there is something to acknowledge and the frame fits, and then writes exactly the frame; otherwise the position is restored and nothing outside the space is touched |
| AckProcessing.AckMoves | lib/src/recovery.c:711-765 | an acknowledged number moves from sent_pkt_nrs to acked_or_lost and no other number moves |
| AckProcessing.AckDownExact | lib/src/frame.c:635-690 | a range fails if and only if it reaches beyond what was sent above the skip; otherwise exactly its numbers above the skip are resolved |
| AckProcessing.AckRangesExact | lib/src/frame.c:588-698 | the same for a whole frame |
| AckProcessing.CumAckIs | lib/src/frame.c:579-580 | the number up to which everything is skipped is the end of the first unbroken stretch of acked_or_lost |
| AckProcessing.AckComplete | lib/src/frame.c:579-699 | after an accepted frame every number in its ranges is resolved if and only if those at or below the cumulative ACK were before |
| AckProcessing.AckCompleteFromFirst | lib/src/frame.c:579-580 | so it is when acked_or_lost is empty or its lowest interval starts at the first number |
| AckProcessing.SkipAgreesOnFrames | lib/src/frame.c:637-642 | then skipping gives the same books and the same errors as looking up every number |
| AckProcessing.SkipExample | lib/src/frame.c:637-639 | a run after which an accepted frame leaves a number it acknowledges outstanding |
| AckReceipt.AckRange | lib/src/frame.c:635-690 | the loop over the numbers of a range has the effect and the error of the recursion |
| AckReceipt.DecRange | lib/src/frame.c:588-697 | one round reads, checks and settles a range and reads the gap as the parser does |
| AckReceipt.DecAckFrame | lib/src/frame.c:531-698 | reading and settling range by range has the effect of settling all parsed ranges; if nothing was acknowledged or lost before, or everything from 0 up, an accepted frame leaves every number in its ranges settled; lg_acked becomes the larger of its old value and the largest number of the frame if that was outstanding and above the cumulative ACK, and stays otherwise; malformed frames end in an error, and the books stay consistent |
| AckTracking.TrackAckedPkts | lib/src/recovery.c:561-590 | the ranges that decv finds in the frame, right or wrong, are removed from recv one after the other by diet_remove_ival |
| AckTracking.ReversedUpright | lib/src/recovery.c:574-587 | the ranges of a frame that is read back meet its requirement |
| AckTracking.ForgottenPrunes | lib/src/recovery.c:574-587 | if they are the intervals that were acknowledged, no other number leaves recv, and if all of those are still there all of them leave |
| AckOfAck.StepSafe | lib/src/conn.c:1566-1567 | every arrival, ACK sent and ACK of an ACK keeps recv within recv_all and everything missing from it confirmed, as long as the frames sent are read back |
| AckOfAck.LeavesOnlyConfirmed | lib/src/recovery.c:728-730 | over any run whose frames are read back a received number leaves recv only if it lay in a range of an ACK frame carried by a packet the peer acknowledged |
| AckOfAck.NeverComesBack | lib/src/pkt.c:1133-1135 | in such a run a number that left never returns, since duplicates are recognised by recv_all |
| AckOfAck.SmallReadable | lib/src/recovery.c:561-590 | every run that has received numbers below 2^48 only is such a run |
| AckOfAck.MisreadRunExample | lib/src/recovery.c:561-590 | a run in which 2^49 leaves recv although no ACK frame described it |
| AckOfAck.MisreadCarried | lib/src/frame.c:1559-1618 | there are packets for that run: the encoder's frame for 2^48 by itself is one |
| Streams.EnqueueOk | lib/src/frame.c:349-356 | trimming and queueing a frame that reaches the in-order offset appends exactly the next bytes of the stream |
| Streams.DrainOk | lib/src/frame.c:359-398 | the drain loop keeps the queue a prefix of the stream and leaves only frames above the offset |
| Streams.ParkSound | lib/src/frame.c:448-468 | parking a frame that overlaps nothing keeps parked frames ordered and disjoint |
| Streams.ReceiveOk | lib/src/frame.c:333-468 | every arriving piece of the stream, overlapping or not, leaves the queue exactly the first in_data_off bytes and the parked frames disjoint above it; the final-size check cannot fail; Delivery says how far in_data_off gets |
| Streams.IgnoredIffOverlaps | lib/src/frame.c:448-468 | a frame above the in-order offset is ignored if and only if some parked frame overlaps or touches it; otherwise it is parked whole |
| Delivery.ReceiveHolds | lib/src/frame.c:333-468 | after any piece has arrived a byte is held, queued or parked, if and only if it was before or is in the piece, unless the piece lies beyond in_data_off and overlaps or touches parked data |
| Delivery.DeliversToGap | lib/src/frame.c:349-398 | a piece that reaches in_data_off, overlapping or not, is delivered: in_data_off becomes the least offset at or above its end and the old one that no parked frame covers, and in_data grows by the new bytes |
| Delivery.FirstMissing | lib/src/frame.c:359-398 | in every consistent state in_data_off is the first byte that is not held |
| Delivery.ClosedIff | lib/src/frame.c:400-412 | in every consistent state the stream is closed if and only if its end is known and all of it is queued |
| Delivery.ClosedForGood | lib/src/frame.c:333-425 | nothing that arrives changes a closed stream |
| Delivery.ReceiveFin | lib/src/frame.c:365-412 | the exact condition under which the end of the stream is known after an arrival |
| Delivery.FinForgottenExample | lib/src/frame.c:365-374 | a parked frame with the end of the stream is dropped as stale, and the stream stays open although all of its data is queued |
| Partition.DrainFills | lib/src/frame.c:359-398 | filling a hole queues all pieces up to the next missing one |
| Partition.PieceArrives | lib/src/frame.c:333-468 | a piece of a partition takes the state of a set of pieces to the state of the set with it |
| Partition.OrderIndependent | lib/src/frame.c:333-468 | after any arrival sequence the state is determined by the set of pieces: longest complete prefix queued, the rest parked, in_data the bytes of both |
| Partition.SamePiecesSameState | lib/src/frame.c:333-468 | two arrival sequences of the same pieces lead to the same state |
| Partition.AllSeenAllQueued | lib/src/frame.c:333-468 | once every piece has arrived everything is queued and nothing parked |
| Partition.OverlapExample | lib/src/frame.c:448-463 | two overlapping out-of-order frames: the second is ignored, so order matters without a partition |
| Reassembly.InStream.DrainOoo | lib/src/frame.c:359-398 | the loop has the effect of the drain function |
| Reassembly.InStream.Overlaps | lib/src/frame.c:448-453 | the search, which stops at the first parked frame that reaches the new one, finds an overlap if and only if some parked frame overlaps or touches it, given that parked frames are disjoint |
| Reassembly.InStream.DecStreamFrame | lib/src/frame.c:302-468 | the whole decision sequence has the effect of the receive function, of which Delivery.ReceiveHolds and Delivery.DeliversToGap say what it keeps and delivers |
| StreamCodec.EncStreamFrame | lib/src/frame.c:1675-1707 | writes the header right in front of the data that is in the buffer already; nothing else changes |
| StreamCodec.TypeIs | lib/src/frame.c:1683-1707 | the type byte is 0x06 for CRYPTO, else 0x08 plus 4 if an offset is present, 2 if a length is, and 1 at the end of the stream |
| StreamCodec.ParseSeen | lib/src/frame.c:257-292 | what the parser makes of every STREAM and CRYPTO frame, with or without offset and length fields |
| StreamCodec.WireRoundTrip | lib/src/frame.c:257-292 | it recovers the frame if and only if offset and stream ID have bits 48 to 55 clear |
| StreamCodec.MisplacedFrameExample | lib/src/frame.c:273-276 | a frame at offset 2^48 is read as one at 2^49 |
| StreamSender.TransmitKeeps | lib/src/frame.c:1675-1707 | a first transmission takes the next offset, a retransmission keeps its own; the chunk is then transmitted, not lost and the last one sent, and no other chunk changes; transmitted chunks stay a prefix of the queue, each at the place of its bytes |
| StreamSender.WriteKeeps | lib/src/stream.c:286-292 | appending to the queue keeps that |
| StreamSender.FrameIsPiece | lib/src/frame.c:1675-1721 | every transmitted frame carries the bytes of the written stream at its offset |
| StreamSender.FramesAreChain | lib/src/frame.c:1675-1721 | the frames of all chunks partition the stream |
| Transmission.OutStream.TxStream | lib/src/conn.c:561-667 | the frames are, in order, those of exactly the chunks between the start and the end of the walk that are not acked and are untransmitted, lost or covered by tx_limit, each at its own offset; the walk starts behind the last chunk sent, or at the first unacked one; it ends with the queue, the window, the peer's limit, the sixteenth frame, tx_limit or a closing connection; nothing goes out while the stream is held back; the sender stays consistent |
| Transmission.FirstDueGoes | lib/src/conn.c:594-664 | if the first chunk that is due has window and is within the limit, it goes out |
| Transmission.LostLiesAhead | lib/src/recovery.c:380-382 | after a loss the next walk starts at or before the lost chunk |
| EndToEnd.StepSafe | lib/src/conn.c:594-664 | while offsets are plain, every write, transmission, mark and delivery of bytes keeps sender, network and receiver consistent |
| EndToEnd.Delivered | lib/src/frame.c:333-468 | in every state of every run with plain offsets the bytes queued are exactly the first in_data_off bytes written, parked frames are disjoint and above, and a closed receiver has the whole stream; frames travel as the bytes the encoder writes |
| EndToEnd.DeliveredStays | lib/src/frame.c:333-468 | in such a run what has been delivered is never taken back |
| EndToEnd.ShortIsPlain | lib/src/frame.c:1689-1693 | every run that has written less than 2^48 bytes has plain offsets |
| EndToEnd.MisplacedBreaks | lib/src/frame.c:273-276 | in every consistent state, delivering a frame whose offset is read as one beyond the end of the stream leaves a parked frame that is no piece of the stream |
| PacketNumber.NeededPktNrLen | lib/src/pkt.c:304-316 | the least of one to four bytes whose window is wider than twice the distance from the largest acked number, or four |
| PacketNumber.ExpandExact | lib/src/pkt.c:963-976 | expansion undoes truncation if and only if the number is less than half a window behind and at most half a window ahead of the expected one, or the correction is held back at an end of the range |
| PacketNumber.RecoversNumber | lib/src/pkt.c:304-316 | the length the sender chooses is enough for every receiver that expects a number above the largest acked one and for which the packet is less than half a window late |
| PacketNumber.LateExample | lib/src/pkt.c:969-974 | a number half a window late is taken for one a window ahead |
| NumberRuns.StepHonest | lib/src/pkt.c:963 | every packet sent, received, acknowledged or pruned for keeps what is acked below what is expected, and never lowers the expected number |
| NumberRuns.ExpectedNeverFalls | lib/src/pkt.c:963 | over every run of two endpoints the expected number never falls, although recv is pruned |
| NumberRuns.ExpectedIs | lib/src/pkt.c:963 | the expected number is one above the greatest in recv, and 1 if there is none |
| NumberRuns.AlwaysRecovered | lib/src/pkt.c:304-316 | so every packet in flight that is less than half a window late gets its own number back, whatever was acknowledged and pruned since it was sent |
| HeaderProtection.ProtectRoundTrip | lib/src/pkt.c:889-924 | unmasking undoes masking, whatever function of the sample the mask is |
| HeaderProtection.ProtectHides | lib/src/pkt.c:889-924 | bit by bit: a bit of the first byte is turned if and only if it is below 4 with a long and below 5 with a short header and set in the first mask byte, a bit of the number if and only if it is set in its mask byte, and no other bit; the mask is that of the 16 bytes from 4 behind the start of the number |
| HeaderProtection.UnprotectRoundTrip | lib/src/pkt.c:889-924 | masking undoes unmasking |
| HeaderProtection.SampleUntouched | lib/src/pkt.c:898-906 | the sample lies behind everything that is masked |
| HeaderProtection.XorHp | lib/src/pkt.c:889-924 | the buffer changes in exactly those bits, in place, with the length of the number taken from the two low bits of the first byte |
| HeaderProtection.NumberRoundTrip | lib/src/pkt.c:927-976 | undo_hp gives back the packet and its full number under the conditions on expected and acked numbers |
| Coalescing.FillShape | lib/src/pkt.c:216-277 | the inner loop keeps the datagram within the limit, a short header only last and never behind an Initial |
| Coalescing.FitsMeans | lib/src/pkt.c:226-262 | a packet joins if and only if it fits, its type may follow that of the packet before, and no packet left out as too long holds it back, all in terms of first bytes |
| Coalescing.LongestRun | lib/src/pkt.c:216-277 | the packets at the head of the queue that fit and go together begin the first datagram, and the next one is left out |
| Coalescing.PairShares | lib/src/pkt.c:181-277 | two packets share a datagram if and only if they fit and go together, as an Initial and a Handshake packet do |
| Coalescing.TooLongHolds | lib/src/pkt.c:226-262 | a packet that is too long stays and holds back all later ones of its type and all with a short header |
| Coalescing.PadLength | lib/src/pkt.c:279-301 | a datagram is padded to the limit when probing the path, else to 1200 bytes behind an Initial, else not at all |
| Coalescing.AllWellFormed | lib/src/pkt.c:198-301 | all datagrams stay within max_ups, have a short header only last and never before padding, and are at least 1200 bytes if led by an Initial |
| Coalescing.CoalescePartitions | lib/src/pkt.c:198-301 | every packet of the queue is in exactly one datagram |
| Coalescing.CoalesceOrdered | lib/src/pkt.c:198-301 | queue order is kept within each datagram and between their first packets |
| Coalescing.FillDatagram | lib/src/pkt.c:216-277 | the loop has the effect of the fill function |
| Coalescing.CoalesceQueue | lib/src/pkt.c:198-301 | the outer loop has the effect of the coalesce function |
| Splitting.LengthBack | lib/src/pkt.c:759-851 | whatever follows it, a long-header packet says how long it is |
| Splitting.SplitExact | lib/src/pkt.c:780-883 | a packet with a length field is split off if and only if its connection IDs have at most 20 bytes and it carries no token, or one of at most 165 bytes to a server; otherwise the rest of the datagram is dropped |
| Splitting.LengthlessExact | lib/src/pkt.c:780-863 | version negotiation, and Retry with a token of 1 to 165 bytes, take the rest of the datagram |
| Splitting.SplitPrefix | lib/src/pkt.c:759-883 | whatever arrives, the parts are stretches of the datagram one behind the other, none empty |
| Splitting.SplitBack | lib/src/pkt.c:859-883 | splitting gives back the long-header packets in order, and a short-header packet or padding behind them if it is longer than a connection ID |
| Splitting.DatagramSplits | lib/src/pkt.c:859-883 | so do well-formed coalesced datagrams, with short padding dropped |
| Splitting.CoalescedSplits | lib/src/pkt.c:859-883 | coalescing a queue and splitting every datagram gives packets of the queue, and padding, and every packet of the queue once |
| Congestion.WindowFloor | lib/src/recovery.c:222-233 | over every run cwnd never falls below 2400 while max_ups is at least 1200 |
| Congestion.ReductionsApart | lib/src/recovery.c:222-233 | the packet that triggers the second of two reductions was sent after the first |
| Congestion.OldAcksDoNotGrow | lib/src/recovery.c:687-708 | acknowledgements of packets sent before a reduction never grow the window |
| Congestion.GrowsBetween | lib/src/recovery.c:687-708 | between reductions the window never shrinks, and in congestion avoidance an ACK adds at most one datagram |
| Congestion.ReductionHalves | lib/src/recovery.c:222-233 | over every run a reduction sets the window and ssthresh to half the window, but at least 2 max_ups, and a packet sent before the last one reduces nothing |
| Congestion.AckGrows | lib/src/recovery.c:687-708 | an ACK of a packet sent after the last reduction adds exactly its length below ssthresh, and its share of max_ups, rounded down, above |
| Congestion.SlowStart | lib/src/recovery.c:687-708 | until ssthresh is reached the window grows by exactly the bytes acknowledged |
| Congestion.Window.OnCongestion | lib/src/recovery.c:222-233 | the history stays a run, so that all of the above holds of it; cwnd stays at or above 2400; a packet sent before the last reduction changes nothing, a later one starts a new epoch now with half the window, but at least 2 max_ups |
| Congestion.Window.OnAcked | lib/src/recovery.c:687-708 | the history stays a run; the window grows exactly as above, and only for packets sent after the last reduction |
| Rtt.EstimateBounds | lib/src/recovery.c:621-647 | for every sequence of samples of at least 8 srtt stays positive, min_rtt is the least sample, srtt and rttvar are at most the greatest, and srtt is at least min_rtt - 14 |
| Rtt.SampleSmooths | lib/src/recovery.c:621-647 | what one sample does to srtt, rttvar and min_rtt, in numbers: 7/8 and 1/8, 3/4 and 1/4, with the delay taken off only if the sample stays at or above min_rtt |
| Rtt.Converges | lib/src/recovery.c:621-647 | from any running estimate enough equal samples bring srtt to within 14 below the adjusted sample and rttvar to at most 12, for good |
| Rtt.LeastIs | lib/src/recovery.c:631 | the least sample is one of them and a lower bound |
| Rtt.ReturnsToZero | lib/src/recovery.c:625-647 | a running estimate becomes 0 if and only if srtt is 1 and the adjusted sample is below 8 |
| Rtt.Estimator.Update | lib/src/recovery.c:621-647 | the estimates stay those of the samples so far, change by that much, and stay within the bounds above while all samples are at least 8 |

## Left out

- Bookkeeping.Books.RemoveFromInFlight: does not model last_ae_tx_t, which only sets timers.
- Bookkeeping.Books.OnPktSent: does not model last_ae_tx_t either.
- Bookkeeping.Books.OnPktLost: does not model the flags that schedule lost control frames again, lost_cnt and the PMTU reset.
- Bookkeeping.Books.OnPktAcked: the walk along the stream's queue that frees acked crypto packets is a sequence of later frees in the runs; PMTU validation and CID retirement are not modelled.
- Bookkeeping.Books.DetectLostPkts: a packet is marked lost together with its settlement, not in the first loop; nothing reads the mark in between.
- Bookkeeping.Books.AbandonPn: the order in which records are freed is a parameter; every order is covered.
- Transmission.OutStream.TxStream: takes packet encoding, which fails without memory or keys, to succeed; acked crypto chunks stay in the queue of the model.
- AckReceipt.DecAckFrame: the ECN counts behind the ranges are encoded but not evaluated, and the loss pass that follows is the separate step Bookkeeping.Books.DetectLostPkts.
- AckTracking.TrackAckedPkts: requires that no range read from the frame ends below its start, which takes a misread number; the wrap-around of the 64-bit difference in such a range is not modelled.
- EndToEnd.MisplacedBreaks: is about offsets that are read as lying beyond the end of the stream; what a misread offset within the stream does is not stated.
- EndToEnd.Delivered: one stream; that a misread stream ID takes a frame to another stream is only in StreamCodec.WireRoundTrip.
- TLS, AEAD and key derivation: the header-protection mask is an arbitrary function, payloads are opaque.
- Sockets, timers, the event loop and the application interface; time is an input.
- Version negotiation and Retry, which reset the books without settling them.
- Receive flow-control enforcement, connection-level blocking and stream limits.
- The padding scan of dec_frames and all frames other than ACK, STREAM and CRYPTO.
- How a packet's frames make it ack-eliciting: that is a flag of the packet.
- Key phases, connection migration, path validation and connection IDs.
- The red-black tree macros, qlog and logging.
- Overflow of byte counters and of the congestion window: both are unbounded numbers.
