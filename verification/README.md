# A verified model of the libtpa data path

libtpa is a TCP stack that runs in user space. This project models, in Dafny, the part of it that
moves data: reassembly of arriving segments, the queue of data to send with its acknowledgements and
retransmissions, closing, the receive fast path, TCP options and the round-trip estimator, and the
containers they run on (rings, timer wheel, FIFO, socket table, port blocks). It proves that each part
does what something much simpler says, and that this holds over every run.

`dafny verify dfyconfig.toml` checks the whole project.

## How it is built

Each component has two layers.

* A specification over unbounded sequence numbers and plain values: what one operation does, the
  invariant it keeps, and the theorems over whole runs.
* The operation as the C code does it: 32-bit and 16-bit numbers that wrap, arrays, objects updated in
  place, loops. Its contract says that the new state stands for what the specification gives, so the
  theorems hold of it. Ghost fields hold the unbounded numbers beside the wrapped ones.

| files | what they cover |
|---|---|
| `SeqNum`, `Seqs`, `Rings` | modular sequence numbers, ring indices, facts about sequences |
| `Packet`, `OooQueue`, `ReceiveSpec`, `ReceiveRuns`, `OooLimit` | packet chains, the out-of-order queue and its limit, the receive half and its runs |
| `SackSpec`, `SackRuns`, `SackStall`, `SackReport` | SACK blocks a receiver reports, and when they stop being accurate |
| `Receiver` | the receive half in place |
| `TxQueue`, `XmitSpec`, `SendSpec`, `SendSteps` | the send queue, building packets, writes and retransmission |
| `XmitExact`, `XmitStops`, `Resend` | exactly which bytes go out, when transmission stops, what is sent again |
| `Scoreboard`, `SendAcks`, `SendRuns`, `SendRecovery` | SACK marks, acknowledgements and timeouts, runs of the send half, loss recovery |
| `TxRing`, `TxDesc`, `Sender`, `Transmit`, `AckPath` | the send half in place |
| `FastPath`, `FastPathCode` | the receive fast path against the slow one |
| `Closing`, `Lifecycle`, `Socket` | connection states from ESTABLISHED on |
| `EndToEnd`, `SackJoint` | a sender, a network and a receiver together |
| `TimerWheel`, `FlexFifo`, `SockTable`, `PortMap`, `PortAlloc` | the containers |
| `TcpOptions`, `PeerOptions`, `OptionCode`, `Rtt` | options, round-trip estimator |

The main results are `ReceiveRuns.StreamIntegrity`, `ReceiveRuns.ReassemblyExact`,
`ReceiveRuns.OrderIndependent`, `SackRuns.SackAccurate`, `SendRuns.SendIntegrity`,
`SendRuns.WritesComplete`, `SendRecovery.RecoveryPointOutstanding`, `XmitExact.WireExact`,
`XmitStops.XmitDataStops`, `Resend.AckResends`, `Resend.ThreeDuplicates`, `Scoreboard.SackExact`,
`FastPath.FastRefinesSlow`, `Closing.CloseLosesNothing`, `Lifecycle.StateExact`,
`EndToEnd.ReadsWhatWasWritten`, `EndToEnd.EverythingArrives`, `EndToEnd.TimeoutRecovers`,
`SackJoint.MarkedIsHeld`, `TimerWheel.TimerCtrl.Process`, `PortAlloc.Worker.BindRandom`,
`TcpOptions.RoundTrip` and `PeerOptions.AnyOptions`.

What the code gets from outside is a parameter: which allocations succeed, how full the device queue is
and what the hardware takes from it, the time, the windows and retransmission budgets, the hash
function, what a timer callback does, which descriptors the kernel gives for ports. A connection starts
in ESTABLISHED with empty queues, as many bytes may be queued as the ring and the chunk size allow, and
that is less than 2^31.

## Where the code does not do what one would expect

Each of these is stated exactly, with the condition under which the expected property holds.

* SACK blocks are not regulated when the drain of the out-of-order queue stops at a full rx ring. They
  stay accurate while they span less than 2^31 bytes (`SackRuns.SackAccurate`, `SackStall.AbutsExactly`),
  and split in two beyond (`SackStall.LongStallSplits`).
* The fast path first tries the data. If the segment repeats the waiting head of the out-of-order queue
  and the rx ring has room, that head is delivered, the segment counts as refused, and the slow path
  drops it without seeing its acknowledgement (`FastPath.RetryExactly`, `FastPath.HeadWaits`).
* A packet that covers queued ones takes them out of the out-of-order queue before it is itself refused
  for the limit. That loses bytes that were held, and happens only when the queue is over its limit, which
  a packet at rcv_nxt waiting for a full rx ring can bring about (`OooLimits.LosslessExactly`,
  `OooLimits.RunLimited`, `OooLimits.LimitLoses`).
* All blocks of one SACK option share one cursor, so a descriptor covered by a later block can stay
  unmarked (`Scoreboard.SackExact`, `Scoreboard.CoveredUnmarked`). A descriptor that ends exactly where a
  block ends is not marked for that block (`Scoreboard.InsideExact`, `Scoreboard.OwnBlockUnmarked`).
* A SACK option of four blocks, which section 3 of RFC 2018 allows, ends the parsing of the options
  (`PeerOptions.AnyOptions`, `PeerOptions.TooManyBlocks`).
* A timer armed more than NR_SLOT ticks ahead fires early (`TimerWheel.TimerCtrl.Process`,
  `TimerWheel.FiresEarly`), and one armed from a callback more than NR_SLOT - 1 ticks ahead fires in the
  same tick (`TimerWheel.TimerCtrl.FireSlot`, `TimerWheel.FiresAtOnce`).
* A segment delayed by 2^32 bytes of sequence space is taken for new data (`EndToEnd.HeardExactly`,
  `EndToEnd.StaleTaken`).
* The block of the last 64 ports is never found again, because its 16-bit end is 0
  (`PortMaps.FoundExactly`).
* A stale EBUSY in errno ends the search for a port block early (`PortMaps.SearchExact`,
  `PortMaps.SearchGivesUp`).

## Model

| member | source | states |
|---|---|---|
| `SeqNum.DiffExact` | include/tcp.h:74-92 | the signed 32-bit difference of two wrapped numbers is their true difference if and only if that fits in 31 bits |
| `SeqNum.SeqLtExact` | include/tcp.h:74-77 | for numbers less than 2^32 apart, `seq_lt` is the true order if and only if they lie in the same half range |
| `Chains.DropBytesIsDrop` | include/packet.h:232-250 | cutting the head of a chain of mbufs drops exactly the first n bytes, and leaves no empty piece |
| `Chains.TakeBytesIsTake` | include/packet.h:252-270 | cutting the tail of a chain keeps exactly the first n bytes, and leaves no empty piece |
| `Packets.SkipPieces` | include/packet.h:232-270 | the scan both cuts start with finds the mbuf that holds byte number `size`, at the right offset |
| `Packets.CutHeadChain` | include/packet.h:232-250 | what is left to read of the chain is the old one without its first `size` bytes |
| `Packets.CutTailChain` | include/packet.h:252-270 | what is left to read of the chain is the first `size` bytes of the old one |
| `Packets.TakePieces` | src/tcp/tcp_input.c:74-90 | the first pieces of the packet, as many as there are iovecs, and the number of bytes behind them |
| `Packets.Packet.constructor` | include/packet.h:328-395 | a parsed packet holds one mbuf, all of it to be read |
| `Packets.Packet.CutHead` | include/packet.h:287-307 | sequence number, length and payload after a head cut agree: the first nr_read_seg pieces sum to the length |
| `Packets.Packet.CutTail` | include/packet.h:287-307 | the same for a tail cut, which leaves the sequence number alone |
| `Packets.Packet.Append` | include/packet.h:309-318 | chaining a packet appends its payload |
| `Packets.Packet.ReadPieces` | src/tcp/tcp_input.c:57-90 | a read hands out the first pieces and leaves the rest, whole, in the packet |
| `Packets.Packet.ReadDone` | src/tcp/tcp_input.c:38-55 | giving back a piece frees the packet if and only if it was the last one lent and none is left to read |
| `OooQueue.TrimKeepsBytes` | src/tcp/tcp_input.c:578-597 | dropping the packets a new one covers and cutting its tail loses no byte, invents none, and leaves the queue sorted and disjoint |
| `OooQueue.SortedInsert` | src/tcp/tcp_input.c:490-520 | inserting between two neighbours it does not overlap keeps the queue sorted, non-empty per entry and pairwise disjoint |
| `OooQueue.CoversInsert` | src/tcp/tcp_input.c:490-520 | an insertion adds exactly the bytes of the segment to those covered |
| `OooQueue.CoversRemove` | src/tcp/tcp_input.c:392-400 | a removal takes away exactly the bytes only that entry covered |
| `ReceiveSpec.EnqueueKeeps` | src/tcp/tcp_input.c:267-293 | an in-order segment moves rcv_nxt to its end or to the right edge of the window; window plus unread bytes stay the same |
| `ReceiveSpec.DrainKeeps` | src/tcp/tcp_input.c:434-488 | draining the queue changes which bytes are in order, not which are held; afterwards nothing deliverable is left or the rx ring is full |
| `ReceiveSpec.OooRcvKeeps` | src/tcp/tcp_input.c:522-601 | whichever way a segment is placed (between, instead of, cut on the left, cut on the right, duplicate), its bytes inside the window are gained and none is lost |
| `ReceiveSpec.ArriveExact` | src/tcp/tcp_input.c:624-673 | whatever arrives, the invariant holds again, the right edge stays, and unless the segment is refused for lack of room the bytes held are exactly those held before and those of the segment inside the window |
| `ReceiveSpec.ArriveConsistent` | src/tcp/tcp_input.c:624-673 | if the segment carries the peer stream, every queue still does |
| `ReceiveSpec.ReadPiecesSplits` | src/tcp/tcp_input.c:110-165 | the bytes read and then the bytes left are the bytes that were unread |
| `ReceiveRuns.ReadTakesAll` | src/tcp/tcp_input.c:57-127 | a read hands out one piece per iovec from the front, as many as there are of both, and leaves the others in order |
| `ReceiveRuns.StepInv` | src/tcp/tcp_input.c:624-673 | every event keeps the queue sorted, disjoint, non-empty per entry and inside the window, and the rx ring within its size |
| `ReceiveRuns.StreamIntegrity` | src/tcp/tcp_input.c:57-165 | over every run of segments in any order, reads of any size and drops under memory pressure, the bytes handed out and then the unread ones are the peer stream up to rcv_nxt, and the right edge moves by exactly what is read |
| `ReceiveRuns.WindowConserved` | src/tcp/tcp_input.c:57-293 | on every run, whatever the segments carry, the window plus the unread bytes never changes |
| `ReceiveRuns.WindowBelowMax` | src/tcp/tcp_output.c:205-207 | so the window stays below TCP_WINDOW_MAX, and the branch that resets it is dead |
| `ReceiveRuns.DropsQuarter` | src/tcp/tcp_input.c:402-432 | memory pressure drops the last quarter of the queue, rounded down but at least one packet |
| `ReceiveRuns.RoomSuffices` | src/tcp/tcp_input.c:434-520 | one free place per segment in the rx ring and below the out-of-order limit rules out every refusal |
| `ReceiveRuns.ReassemblyExact` | src/tcp/tcp_input.c:522-673 | after any segments, the bytes held are those held before and every byte sent inside the window, and rcv_nxt is the least byte that is missing |
| `ReceiveRuns.OrderIndependent` | src/tcp/tcp_input.c:522-673 | two arrivals of the same bytes, permuted, duplicated, overlapping or merged in any way, end with the same rcv_nxt, window, held bytes and readable data |
| `ReceiveRuns.PermutedSent` | src/tcp/tcp_input.c:522-673 | permuting the segments is an instance of the lemma above |
| `ReceiveRuns.MergedSent` | src/tcp/tcp_input.c:1692-1723 | merging a segment into the one it continues is an instance of it |
| `SackSpec.MergeIsUnion` | src/tcp/tcp_input.c:295-306 | in a window below 2^31 the modular test says exactly whether two blocks overlap or abut, and merging them gives their union |
| `SackSpec.AbsorbSeparates` | src/tcp/tcp_input.c:312-324 | one merge pass is enough: what it keeps is disjoint from, and not adjacent to, the block it grew |
| `SackSpec.UpdateExact` | src/tcp/tcp_input.c:333-367 | at most three separate blocks, the first holding the new range; no byte is reported that was not queued, and one stops being reported only when it is in the oldest of three blocks and a fourth, apart from all, pushes that out |
| `SackSpec.RegulateExact` | src/tcp/tcp_input.c:372-390 | exactly the blocks above rcv_nxt stay, in their order |
| `OooLimits.TrimTakes` | src/tcp/tcp_input.c:578-597 | what a new packet covers leaves the queue, and nothing else does |
| `OooLimits.LimitExact` | src/tcp/tcp_input.c:490-601 | a packet refused for the limit costs the bytes of exactly those queued packets it covers as a whole, so no byte is lost if and only if it covers none; and it can only cost any when the queue is over the limit |
| `OooLimits.LosslessExactly` | src/tcp/tcp_input.c:402-601 | a step loses a byte that was held if and only if a segment meets the limit and covers a queued packet, or memory pressure finds one to drop |
| `OooLimits.RunLimited` | src/tcp/tcp_input.c:490-520 | over every run the queue is at most one packet over its limit, and only while a packet at rcv_nxt waits in it for room in the rx ring |
| `OooLimits.LimitLoses` | src/tcp/tcp_input.c:490-601 | four packets after which a byte that was held no longer is |
| `SackRuns.ArriveSacked` | src/tcp/tcp_input.c:508-520 | whatever arrives without costing a byte that was held, the blocks stay at most three, separate, and report held bytes only |
| `SackRuns.FirstBlockIsNewest` | src/tcp/tcp_input.c:333-367 | block 0 holds the bytes just queued (section 4 of RFC 2018), also when the rx ring is full and the queue is not drained |
| `SackRuns.ArriveStillReports` | src/tcp/tcp_input.c:333-390 | whatever arrives without costing a held byte, what was reported and not delivered stays reported, unless a fourth block pushes it out |
| `SackRuns.SegmentAnchored` | src/tcp/tcp_input.c:434-488 | an arrival that leaves nothing deliverable leaves no block below rcv_nxt; one that stops at a full rx ring leaves none below the last rcv_nxt that did |
| `SackRuns.SackAccurate` | src/tcp/tcp_input.c:295-390 | over every run that loses no byte once it is held, however often the rx ring fills while the queue drains: at most three separate blocks, only bytes received and kept, none below the rcv_nxt of the last state that left nothing deliverable, as long as the window ends within 2^31 of it |
| `SackRuns.NearWhileShort` | src/tcp/tcp_input.c:295-390 | that condition holds at least until the window has moved by 2^31 less its size |
| `SackStall.AbutsExactly` | src/tcp/tcp_input.c:295-306 | a range right behind a block is joined to it if and only if the two span less than 2^31 bytes; otherwise two adjacent blocks are reported |
| `SackStall.LongStallSplits` | src/tcp/tcp_input.c:446-463 | a run from a fresh connection, with no limit met and nothing dropped, that ends with two adjacent blocks: the drain always stops at the full ring, before sack_regulate |
| `SackReports.SackReport.MergeCell` | src/tcp/tcp_input.c:295-306 | the 32-bit code does what the merge of blocks says, in place |
| `SackReports.SackReport.TryMergeBlocks` | src/tcp/tcp_input.c:312-324 | the compacting loop over the array is the merge pass |
| `SackReports.SackReport.Update` | src/tcp/tcp_input.c:333-367 | the array after sack_update is the specified list |
| `SackReports.SackReport.Regulate` | src/tcp/tcp_input.c:372-390 | the array after sack_regulate is the specified list |
| `RingIndex.SlotWrap` | include/tcp_queue.h:131-139 | wrapping an index to 16 bits does not change its slot, for every ring size the code accepts |
| `RxRings.RxRing.ReadableCount` | include/tcp_queue.h:141-144 | the 16-bit difference of the indices is the number of unread packets |
| `RxRings.RxRing.FreeCount` | include/tcp_queue.h:146-149 | the number of free slots |
| `RxRings.RxRing.EnqueueBurst` | include/tcp_queue.h:152-164 | as many packets as fit are appended, in order, across index wrap-around |
| `RxRings.RxRing.PeekUnread` | include/tcp_queue.h:181-187 | the unread packet at that offset, or none |
| `RxRings.RxRing.UpdateUnread` | include/tcp_queue.h:189-193 | the first packets leave the ring |
| `Receivers.Receiver.constructor` | include/sock.h:30-37 | a fresh socket has empty queues and a window of 1400 bytes per ring slot |
| `Receivers.Receiver.PutInRing` | src/tcp/tcp_input.c:267-293 | the packet goes to the ring and rcv_nxt and rcv_wnd move by its length, or nothing changes |
| `Receivers.Receiver.RcvEnqueue` | src/tcp/tcp_input.c:267-293 | the in-place code refines the specified enqueue |
| `Receivers.Receiver.RemoveOoo` | src/tcp/tcp_input.c:392-400 | the packet leaves the list, nr_ooo_pkt stays its length and last_ooo_pkt null or a member |
| `Receivers.Receiver.OooQueueInsert` | src/tcp/tcp_input.c:490-520 | the window cut, the limit, the list insertion and the report of the block, as specified |
| `Receivers.Receiver.DropCovered` | src/tcp/tcp_input.c:578-597 | the loop leaves only packets the new one does not cover, and says how much of its tail is already there |
| `Receivers.Receiver.FindPlace` | src/tcp/tcp_input.c:546-552 | the scan finds the place behind the last packet that does not start later |
| `Receivers.PredictedPlace` | src/tcp/tcp_input.c:534-544 | the last_ooo_pkt shortcut puts the packet exactly where the full scan would, uncut |
| `Receivers.Receiver.Predicted` | src/tcp/tcp_input.c:534-544 | when the shortcut hits, inserting behind the last packet is what the full scan would do |
| `Receivers.Receiver.Place` | src/tcp/tcp_input.c:554-601 | the four ways a packet can lie to the one before it, in place |
| `Receivers.Receiver.RcvDataOoo` | src/tcp/tcp_input.c:522-601 | the whole of tcp_rcv_data_ooo refines its specification |
| `Receivers.DeliverSpec` | src/tcp/tcp_input.c:434-488 | a queued segment always fits the window whole when it is drained: it is never trimmed or lost |
| `Receivers.Receiver.DeliverAll` | src/tcp/tcp_input.c:434-488 | the delivering loop |
| `Receivers.Receiver.OooQueueDrain` | src/tcp/tcp_input.c:434-488 | the whole of ooo_queue_drain refines its specification |
| `Receivers.Receiver.RcvData` | src/tcp/tcp_input.c:624-673 | the whole of tcp_rcv_data refines its specification |
| `Receivers.SeqCheckExact` | src/tcp/tcp_input.c:1189-1202 | the modular window test is exact although the distances it compares may not fit in 31 bits |
| `Receivers.Receiver.ValidateSeq` | src/tcp/tcp_input.c:1189-1202 | a segment passes if and only if it is an empty one at rcv_nxt or has a byte inside the window |
| `Receivers.Receiver.Arrive` | src/tcp/tcp_input.c:1189-1202 | check and data path together refine the arrival of a segment |
| `Receivers.Receiver.FillIov` | src/tcp/tcp_input.c:110-143 | the read loop hands out the specified pieces, each with the packet it belongs to, and counts the packets read whole |
| `Receivers.Receiver.Zreadv` | src/tcp/tcp_input.c:110-165 | a read refines its specification, opens the window by what was read, and names for each piece the packet to give back |
| `Receivers.Receiver.DropOooMbufs` | src/tcp/tcp_input.c:409-432 | a quarter of the queue, at least one packet, goes from its end |
| `Receivers.TryMerge` | src/tcp/tcp_input.c:1692-1723 | packets are merged if and only if they are consecutive and small enough, and the payload is then the concatenation |
| `TxQueue.WithinUnique` | include/tcp_queue.h:91-97 | a sequence number lies in only one queued descriptor |
| `TxQueue.SpanBound` | src/tcp/tcp_output.c:813-897 | what is queued spans at most the chunk size times the number of descriptors |
| `XmitSpec.FillMoves` | src/tcp/tcp_output.c:540-596 | one packet stays within its budget, the limit and the queue, and ends in the descriptor named |
| `XmitSpec.FillMatches` | src/tcp/tcp_output.c:540-596 | the payload of a packet is the written stream at its sequence number |
| `XmitSpec.FillAvoids` | src/tcp/tcp_output.c:540-596 | no byte of a packet belongs to a descriptor the peer reported |
| `XmitSpec.XmitManySafe` | src/tcp/tcp_output.c:624-659 | whatever allocation or the device does, every packet lies between start and limit, carries the stream and no reported byte |
| `XmitSpec.XmitManyCovers` | src/tcp/tcp_output.c:624-659 | up to the end of the last packet that went out every byte is in one packet, in order and without overlap, or was reported; no packet exceeds the MSS |
| `XmitSpec.NeverRefused` | include/dev.h:216-232 | a burst tries at most min(free slots, BATCH_SIZE) packets, so the device queue has room for each of them |
| `XmitExact.XmitManyExact` | src/tcp/tcp_output.c:540-659 | a burst puts on the wire exactly the bytes its position moves over, except those the peer reported |
| `XmitExact.XmitDataExact` | src/tcp/tcp_output.c:664-691 | exactly the bytes between the old and the new snd_nxt are put on the wire |
| `XmitExact.RexExact` | src/tcp/tcp_output.c:693-709 | a retransmission sends exactly what the retransmit pointer moves over, except what the peer reported |
| `XmitExact.TimeoutExact` | src/tcp/tcp_timeout.c:48-108 | a timeout sends again exactly the bytes from snd_una to the retransmit pointer |
| `XmitExact.RunSends` | src/tcp/tcp_output.c:540-691 | over every run each byte snd_nxt moves over is put on the wire |
| `XmitExact.WireExact` | src/tcp/tcp_output.c:540-691 | from ESTABLISHED on, the bytes put on the wire are exactly those below snd_nxt |
| `XmitStops.XmitOneFull` | src/tcp/tcp_output.c:540-622 | a packet has as many bytes as the MSS and the budget allow, unless it ends with the data, in front of a reported descriptor, or with as many pieces as it may have |
| `XmitStops.XmitDataStops` | src/tcp/tcp_output.c:664-691 | new data goes out until all of it is sent, the window is full, the device has taken all it has room for, or the next packet has no memory; snd_nxt moves by exactly the bytes sent |
| `XmitStops.XmitProgress` | src/tcp/tcp_output.c:664-691 | with room in window, device and memory, unsent data moves snd_nxt |
| `XmitStops.EverythingGoesOut` | src/tcp/tcp_output.c:664-691 | over every run of bursts with room, as many as there are unsent bytes are enough to send everything written |
| `XmitSpec.XmitManyBudget` | src/tcp/tcp_output.c:624-659 | where nothing is reported ahead, no more than the budget goes out |
| `SendSteps.ChopAllTiles` | src/tcp/tcp_output.c:813-897 | the descriptors of a write tile its bytes without gap, and the last one of each non-empty buffer signals its completion |
| `SendSteps.WriteKeeps` | src/tcp/tcp_output.c:964-1024 | a write either changes nothing, or queues all its data behind the rest, takes one descriptor per piece, and owes one completion per non-empty buffer, in order |
| `SendSteps.ChopSizes` | src/tcp/tcp_output.c:813-912 | a buffer is cut into ceil(length / largest piece) pieces, all but the last of full size |
| `SendSteps.WriteExact` | src/tcp/tcp_output.c:813-1024 | a write is accepted if and only if the ring has a slot and the pool a descriptor for each of its pieces, and there is an mbuf for each that has to be copied |
| `SendSteps.XmitKeeps` | src/tcp/tcp_output.c:664-691 | sending keeps the queue invariant and never moves snd_nxt beyond snd_una plus the window |
| `SendSteps.XmitSafe` | src/tcp/tcp_output.c:664-691 | every packet of new data carries the written bytes between the old and the new snd_nxt |
| `SendSteps.RegulateNames` | src/tcp/tcp_output.c:714-746 | after regulation the cached retransmit pointers name the descriptor that holds the sequence number |
| `SendSteps.RexNames` | src/tcp/tcp_output.c:693-712 | and they still do after retransmitting |
| `SendSteps.RexSafe` | src/tcp/tcp_output.c:693-712 | retransmitted bytes lie between snd_una and snd_nxt, carry the stream, and none is in a reported descriptor |
| `SendSteps.FinKeeps` | src/tcp/tcp_output.c:1157-1200 | the FIN takes the number behind the data, only when everything is sent |
| `SendSpec.PopKeepsCore` | src/tcp/tcp_input.c:722-778 | an acknowledged descriptor was sent whole: nxt never has to be pushed by an acknowledgement, and sacked_bytes does not underflow |
| `SendSpec.AckDataKeeps` | src/tcp/tcp_input.c:711-778 | an acknowledgement moves snd_una by exactly what it covers, frees one descriptor per completed one, and completes writes in order |
| `SendSpec.AckedOnly` | src/tcp/tcp_input.c:722-759 | a descriptor leaves the queue only when all its bytes are acknowledged |
| `SendAcks.AckRange` | src/tcp/tcp_input.c:1020-1046 | the length an acceptable acknowledgement covers, without our FIN, is outstanding data |
| `SendAcks.AckLoose` | src/tcp/tcp_input.c:711-778 | however acknowledgements and retransmission interleave, the cached pointers lie below snd_una, to be regulated, or still name their descriptor |
| `SendAcks.FastKeeps` | src/tcp/tcp_input.c:825-885 | entering, continuing and leaving fast retransmission keeps the invariant and touches only what steers retransmission |
| `SendAcks.FinishKeeps` | src/tcp/tcp_input.c:1071-1087 | the end of tcp_rcv_ack restores the whole invariant |
| `SendAcks.RcvAck` | src/tcp/tcp_input.c:971-1104 | for every acknowledgement, old, invalid or taken, the invariant holds again |
| `SendAcks.Timeout` | src/tcp/tcp_timeout.c:48-108 | a timeout keeps the invariant |
| `Resend.RexResends` | src/tcp/tcp_output.c:693-712 | a retransmission sends exactly the unreported bytes the pointer moves over, in order, within its budget, and stops short of snd_nxt only when that is spent, the device has no room, or memory runs out |
| `Resend.FirstIsSent` | src/tcp/tcp_output.c:693-712 | so with room for one packet the first unreported byte is sent |
| `Resend.RetransResends` | src/tcp/tcp_output.c:714-727 | tcp_retrans goes on from the pointer, or from snd_una when that is ahead, with what the window leaves beyond it |
| `Resend.FastRexResends` | src/tcp/tcp_output.c:729-746 | tcp_fast_retrans does the same with its own budget, and at least one MSS |
| `Resend.TimeoutResends` | src/tcp/tcp_timeout.c:80-108 | a timeout forgets every report and sends again from snd_una on, with the window as its budget, stopping only for one of those reasons |
| `Resend.TimeoutSendsFirst` | src/tcp/tcp_timeout.c:80-108 | with room for one packet the first unacknowledged byte goes out again |
| `Scoreboard.SortPermutes` | src/tcp/tcp_input.c:895-910 | sorting the reported blocks neither loses nor invents one |
| `Scoreboard.SortOrders` | src/tcp/tcp_input.c:887-910 | blocks that start within half the sequence space come out in order |
| `Scoreboard.SackSound` | src/tcp/tcp_input.c:912-968 | whatever blocks are reported, sacked_bytes is the summed length of the marked descriptors, and a descriptor is newly marked only if it lies inside a block and ends before snd_nxt |
| `Scoreboard.InsideExact` | src/tcp/tcp_input.c:946-967 | for blocks near the queue the modular tests say exactly that the descriptor lies in the block and ends before it |
| `Scoreboard.SackExact` | src/tcp/tcp_input.c:924-968 | a descriptor is marked if and only if it was, or lies inside a block whose scan begins at or before it; where each scan begins follows from the blocks before it |
| `Scoreboard.OneBlockComplete` | src/tcp/tcp_input.c:924-968 | with a single block exactly the descriptors inside it are marked |
| `Scoreboard.CoveredUnmarked` | src/tcp/tcp_input.c:946-967 | with two blocks a covered descriptor can stay unmarked, because both scans share one cursor: a concrete queue |
| `Scoreboard.OwnBlockUnmarked` | src/tcp/tcp_input.c:956-962 | a block that reports exactly one descriptor, whichever, does not mark it |
| `Scoreboard.ClearKeeps` | src/tcp/tcp_timeout.c:32-46 | after a timeout no mark is left and sacked_bytes is 0 |
| `SendRuns.TimeoutRestarts` | src/tcp/tcp_timeout.c:48-108 | a timeout retransmits from snd_una on, in order and without a hole, and sets the recovery point to snd_nxt |
| `SendRecovery.AckSteers` | src/tcp/tcp_input.c:825-885 | what an accepted acknowledgement makes of the retransmission stage, the recovery point and the count of duplicates, in unbounded numbers |
| `SendRecovery.RecoveryExactly` | src/tcp/tcp_input.c:1071-1087 | after an accepted acknowledgement recovery is on if and only if it was and the recovery point is not reached and nothing shows it was spurious, or this is at least the third duplicate, with data outstanding and the old recovery point passed; one that moves snd_una starts the count again |
| `Resend.AckResends` | src/tcp/tcp_input.c:825-1087 | what an accepted acknowledgement sends: from snd_una on, one MSS, when fast retransmission begins; from the pointer on while either recovery goes on below its recovery point; nothing otherwise |
| `Resend.ThreeDuplicates` | src/tcp/tcp_input.c:1005-1087 | over every run of duplicate acknowledgements: the first two are counted and nothing is sent, the third enters fast retransmission, and no later one sends anything |
| `Resend.FastSendsFirst` | src/tcp/tcp_input.c:825-845 | entering fast retransmission sends the first unreported byte, with room for one packet |
| `Resend.AckMarks` | src/tcp/tcp_input.c:912-1070 | the descriptors an acknowledgement leaves are the last ones, each marked if and only if it was or the blocks of this acknowledgement mark it |
| `SendRecovery.StepSteered` | src/tcp/tcp_input.c:1071-1087 | every step keeps the recovery point at or below snd_nxt, and within the outstanding data during recovery and while three duplicates are counted, except in the recovery of a SYN that timed out |
| `SendRecovery.SynRecoveryEnds` | src/tcp/tcp_input.c:1071-1087 | the first accepted acknowledgement ends that recovery |
| `SendRecovery.RecoveryPointOutstanding` | src/tcp/tcp_timeout.c:80-100 | so it is in every state reached from ESTABLISHED, where snd_recover is the number of the SYN, also when the SYN timed out; that recovery lasts only as long as no acknowledgement is accepted |
| `SendRuns.StepIsGood` | src/tcp/tcp_input.c:971-1104 | every write, transmission, acknowledgement, timeout and FIN keeps the invariant, conserves descriptors and completions, and puts out only safe packets |
| `SendRuns.SendIntegrity` | src/tcp/tcp_output.c:508-1024 | over every run: one invariant ties the ring indices to the sequence numbers, free plus queued descriptors stay constant, completions come in write order and only once acknowledged, and every packet carries written bytes |
| `SendRuns.WritesComplete` | include/tx_desc.h:42-50 | from ESTABLISHED on, a write has completed if and only if its last byte is acknowledged; when everything is, each has completed exactly once and every descriptor is free |
| `TxRings.TxRing.InflightPkts` | include/tcp_queue.h:44-47 | the 16-bit difference is the number of descriptors sent or being sent |
| `TxRings.TxRing.ToSendPkts` | include/tcp_queue.h:49-52 | the number of descriptors not yet sent |
| `TxRings.TxRing.UnfinishedPkts` | include/tcp_queue.h:54-57 | the number of queued descriptors |
| `TxRings.TxRing.FreeCount` | include/tcp_queue.h:59-62 | the number of free slots |
| `TxRings.TxRing.PeekForWrite` | include/tcp_queue.h:91-105 | the queued descriptor at base plus offset, or none, across index wrap-around |
| `TxRings.TxRing.UpdateUna` | include/tcp_queue.h:107-111 | the first descriptors leave the ring |
| `TxRings.TxRing.UpdateNxt` | include/tcp_queue.h:107-111 | more descriptors count as sent |
| `TxRings.TxRing.Commit` | src/tcp/tcp_output.c:782-796 | the descriptors a write filled in become part of the queue |
| `TxDescs.DescPool.Alloc` | include/tx_desc.h:62-68 | the top of the stack, or none when it is empty |
| `TxDescs.DescPool.Free` | include/tx_desc.h:70-75 | the descriptor is on top of the stack again |
| `TxDescs.DescPool.constructor` | include/tx_desc.h:82-107 | a pool of distinct descriptors, all free |
| `Senders.Sender.constructor` | src/tcp/tcp_input.c:1269-1300 | the send half as a connection enters ESTABLISHED |
| `Senders.Sender.AckLoop` | src/tcp/tcp_input.c:722-759 | the loop over acknowledged descriptors refines the specified acknowledgement, signals its completions in order, and conserves descriptors |
| `Senders.Sender.AckSentData` | src/tcp/tcp_input.c:711-778 | the whole of ack_sent_data, with the ring indices |
| `Senders.Sender.ReclaimTxq` | src/sock.c:429-444 | freeing a socket completes exactly the writes still pending, in order, and returns every descriptor to the pool |
| `Senders.Sender.WriteOneIov` | src/tcp/tcp_output.c:813-897 | the pieces of one buffer are staged, or the write fails exactly when the ring, the pool or the mbufs run out |
| `Senders.Sender.WriteRevoke` | src/tcp/tcp_output.c:798-811 | every staged descriptor is back in the pool |
| `Senders.Sender.WriteCommit` | src/tcp/tcp_output.c:782-796 | the staged descriptors are queued and data_seq_nxt moves over the data |
| `Senders.Sender.WriteFast` | src/tcp/tcp_output.c:980-1004 | the loop over buffers that need neither splitting nor copying |
| `Senders.Sender.WriteSlow` | src/tcp/tcp_output.c:914-935 | the loop of the slow path, from the buffer the fast one stopped at |
| `Senders.Sender.Zwritev` | src/tcp/tcp_output.c:964-1024 | all or nothing: a failed write leaves queue, indices, data_seq_nxt and the set of free descriptors as they were |
| `Transmit.PieceLen` | src/tcp/tcp_output.c:540-596 | offset, length and remaining budget of one piece, on 32-bit numbers |
| `Transmit.FillPacket` | src/tcp/tcp_output.c:540-596 | the inner loop of xmit_one_packet fills the specified payload |
| `Transmit.SkipReported` | src/tcp/tcp_output.c:521-531 | the loop over reported descriptors stops at the first other one |
| `Transmit.XmitOnePacket` | src/tcp/tcp_output.c:508-622 | one packet, as specified |
| `Transmit.DoXmitData` | src/tcp/tcp_output.c:624-659 | one burst of at most min(free slots, BATCH_SIZE) packets, as specified |
| `Transmit.XmitData` | src/tcp/tcp_output.c:664-691 | tcp_xmit_data, with snd_nxt and the ring index moved together |
| `Transmit.RegulatePointers` | src/tcp/tcp_output.c:714-735 | pointers below snd_una are reset, and name their descriptor |
| `Transmit.DoRetrans` | src/tcp/tcp_output.c:693-712 | do_tcp_retrans, as specified |
| `Transmit.Retransmit` | src/tcp/tcp_output.c:714-727 | tcp_retrans, as specified |
| `Transmit.FastRetransmit` | src/tcp/tcp_output.c:729-746 | tcp_fast_retrans, as specified, with a budget of at least one MSS |
| `AckPath.SortSack` | src/tcp/tcp_input.c:895-910 | the array is the sorted list, and intersecting blocks are refused |
| `AckPath.MarkDescSacked` | src/tcp/tcp_input.c:912-922 | one descriptor is marked and counted, once |
| `AckPath.MarkOneBlock` | src/tcp/tcp_input.c:946-967 | the scan of one block, with the cursor it leaves |
| `AckPath.RcvSackBlocks` | src/tcp/tcp_input.c:924-968 | tcp_rcv_sack, as specified |
| `AckPath.ClearMarks` | src/tcp/tcp_timeout.c:32-46 | clear_sacked, as specified |
| `AckPath.HandleFastRetransmit` | src/tcp/tcp_input.c:825-885 | handle_fast_retransmit, as specified |
| `AckPath.FinishRecovery` | src/tcp/tcp_input.c:1071-1087 | finishing or continuing a recovery, as specified |
| `AckPath.TakeAcked` | src/tcp/tcp_input.c:1008-1062 | counting duplicates and taking acknowledged data off the queue, as specified |
| `AckPath.RcvAckPacket` | src/tcp/tcp_input.c:971-1104 | tcp_rcv_ack on the ring, the pool and 32-bit numbers refines its specification and conserves descriptors |
| `AckPath.TimeoutRto` | src/tcp/tcp_timeout.c:48-108 | tcp_timeout_rto, as specified |
| `TimerWheel.StartOffset` | include/timer.h:64-86 | the slot of timer_start: within reach (NR_SLOT ticks, one less from a callback) the first tick not before the deadline, beyond it an earlier one, and from a callback the current one |
| `TimerWheel.TimerCtrl.constructor` | include/timer.h:127-138 | an empty wheel |
| `TimerWheel.TimerCtrl.Stop` | include/timer.h:49-56 | the timer is in no list; the others keep their places |
| `TimerWheel.TimerCtrl.Start` | include/timer.h:64-86 | for every timeout: the timer is armed for its deadline, in exactly the list of its slot, also when it was armed for the same slot already, and it is marked out of reach if and only if it will fire early |
| `TimerWheel.TimerCtrl.FireFirst` | include/timer.h:108-121 | a timer fires before its deadline if and only if that was out of reach; what its callback arms out of reach is due in the same tick |
| `TimerWheel.TimerCtrl.FireSlot` | include/timer.h:108-121 | the inner loop empties the slot under every callback, and ends if all but finitely many arm within reach; a timer a callback arms out of reach fires again, or is touched again, in the same tick |
| `TimerWheel.TimerCtrl.Process` | include/timer.h:98-125 | a timer fires before its deadline if and only if that was out of reach; a timer that no callback touches fires exactly at the tick it was filed for, once that has come, and otherwise keeps its state; afterwards nothing armed is due or a tick overdue |
| `TimerWheel.FiresEarly` | include/timer.h:64-125 | every timer armed more than NR_SLOT ticks ahead, if no callback touches it, is in the log NR_SLOT ticks later, before its deadline |
| `TimerWheel.FiresAtOnce` | include/timer.h:64-125 | every timer a callback arms more than NR_SLOT - 1 ticks ahead is in the log a second time in the same tick |
| `FlexFifo.SlotWrap32` | include/flex_fifo.h:95-111 | wrapping an index to 32 bits does not change its slot |
| `FlexFifo.Fifo.constructor` | include/flex_fifo.h:336-355 | an empty queue, for every ring size the code accepts, 0 included |
| `FlexFifo.Fifo.TagTells` | include/flex_fifo.h:70-87 | the tag of a node tells ring, list or absent, for every node |
| `FlexFifo.Fifo.Count` | include/flex_fifo.h:331-334 | the number of queued nodes |
| `FlexFifo.Fifo.RingPush` | include/flex_fifo.h:113-125 | the ring takes the node if and only if it has room and the list is empty |
| `FlexFifo.Fifo.RingPop` | include/flex_fifo.h:127-139 | the oldest node of the ring |
| `FlexFifo.Fifo.RingRemove` | include/flex_fifo.h:156-180 | removal by rotation keeps the order of the rest |
| `FlexFifo.Fifo.ListPush` | include/flex_fifo.h:185-193 | the node is behind the others, and its tag says so |
| `FlexFifo.Fifo.DoListRemove` | include/flex_fifo.h:195-216 | the node leaves the list; all tags stay right although an unlinked node hands its address on |
| `FlexFifo.Fifo.ListPop` | include/flex_fifo.h:218-227 | the oldest node of the list |
| `FlexFifo.Fifo.ListRemove` | include/flex_fifo.h:234-241 | the node leaves the list if it is there |
| `FlexFifo.Fifo.Push` | include/flex_fifo.h:252-260 | ring and list together are one sequence without duplicates: a push appends |
| `FlexFifo.Fifo.PushIfNotExist` | include/flex_fifo.h:262-271 | a node that is queued keeps its place |
| `FlexFifo.Fifo.Pop` | include/flex_fifo.h:273-282 | the oldest node |
| `FlexFifo.Fifo.Peek` | include/flex_fifo.h:298-307 | the oldest node, left in place |
| `FlexFifo.Fifo.Remove` | include/flex_fifo.h:323-329 | the node is gone, the others keep their order |
| `SockTables.SockTable.constructor` | include/sock_table.h:125-133 | an empty table, for every hash function |
| `SockTables.SockTable.Lookup` | include/sock_table.h:76-87 | the buckets refine a map: the socket of the key, or none |
| `SockTables.SockTable.Add` | include/sock_table.h:89-106 | a new key is added; one that is there is refused |
| `SockTables.SockTable.Del` | include/sock_table.h:108-123 | the key is removed, or reported missing |
| `PortMaps.FoundExactly` | src/port_alloc.c:185-195 | a block is found by its ports if and only if it is not the last one, whose 16-bit end wraps to 0 |
| `PortMaps.SearchVisits` | src/port_alloc.c:261-298 | the cyclic search visits every block once |
| `PortMaps.SearchExact` | src/port_alloc.c:261-298 | the search finds a free block if and only if there is one, unless errno is EBUSY on entry and the first block tried is taken |
| `PortMaps.SearchGivesUp` | src/port_alloc.c:261-298 | the case in which a stale errno hides a free block |
| `PortMaps.PortMap.constructor` | src/port_alloc.c:427-435 | all ports are free |
| `PortMaps.PortMap.PortAlloc` | src/port_alloc.c:55-85 | one port is taken, or nothing changes |
| `PortMaps.PortMap.PortFree` | src/port_alloc.c:107-119 | the port is free again |
| `PortMaps.PortMap.RangeIsFree` | src/port_alloc.c:197-206 | whether no port of the block is taken |
| `PortMaps.PortMap.BlockAlloc` | src/port_alloc.c:208-259 | all ports of the block are taken, or, when one fails midway, none |
| `PortMaps.PortMap.BlockSearch` | src/port_alloc.c:261-298 | the probing loop refines the specified search |
| `PortAlloc.UsersAdd` | src/port_alloc.c:121-127 | a new binding adds one user to its own block and none to any other |
| `PortAlloc.UsersDel` | src/port_alloc.c:129-135 | the same for a binding that ends |
| `PortAlloc.Worker.Find` | src/port_alloc.c:185-195 | the block of a port, or none |
| `PortAlloc.Worker.BindFromBlock` | src/port_alloc.c:442-466 | a port of the block that is not in use with this peer is bound; none is left if the probing fails |
| `PortAlloc.Worker.AllocGiven` | src/port_alloc.c:468-482 | the block of the port becomes the worker's, if it is free and there is room for it |
| `PortAlloc.Worker.AllocRandom` | src/port_alloc.c:468-482 | a block of the local range becomes the worker's, whenever the search finds one |
| `PortAlloc.Worker.BindGiven` | src/port_alloc.c:484-507 | exactly when the given port is bound, and what the table is then |
| `PortAlloc.Worker.BindRandom` | src/port_alloc.c:509-541 | it fails if and only if every block is exhausted for this peer and no further block can be had |
| `PortAlloc.Worker.Unbind` | src/port_alloc.c:552-566 | the binding is gone, and the count of its block is right |
| `PortAlloc.Worker.IdleBlock` | src/port_alloc.c:129-135 | a block whose timer runs has no binding |
| `PortAlloc.Worker.Timeout` | src/port_alloc.c:173-183 | only an idle block is given back, with all its ports; the others stay |
| `PortAlloc.Worker.DropBlock` | src/port_alloc.c:137-154 | swap-delete loses no other block |
| `TcpOptions.ParseBounded` | src/tcp/tcp_input.c:167-248 | the parser ends on every input and never yields more than three SACK blocks or a window scale above 14, also when it gives up and its caller goes on with what was parsed |
| `TcpOptions.OptLenExact` | src/tcp/tcp_output.c:75-180 | the options fill exactly the computed space, a multiple of 4 bytes and at most 40 |
| `TcpOptions.RoundTrip` | src/tcp/tcp_input.c:167-248 | for every option set the sender can choose, parsing what it wrote succeeds and gives the same fields back, whatever follows in the packet |
| `PeerOptions.AnyOptions` | src/tcp/tcp_input.c:167-248 | every list of options any peer may encode, with any values, in any order, is read for what it says; an unknown one is passed over and reported |
| `PeerOptions.OptionsEnd` | src/tcp/tcp_input.c:181-182 | an end-of-options byte ends them |
| `PeerOptions.TooManyBlocks` | src/tcp/tcp_input.c:224-240 | a report of more than three blocks ends the parsing with what was said before it |
| `OptionCode.FillTs` | include/tcp.h:172-185 | the twelve bytes of the timestamp option |
| `OptionCode.FillOpts` | src/tcp/tcp_output.c:171-180 | the buffer holds the specified bytes, and no other byte of it changed |
| `OptionCode.FillUncommon` | src/tcp/tcp_output.c:113-169 | the same for all options but the timestamp |
| `OptionCode.ParseOpts` | src/tcp/tcp_input.c:167-248 | the loop refines the specified parser, with what it leaves behind on an error, within those bounds |
| `Rtt.UpdateBounded` | src/tcp/tcp_input.c:678-702 | one sample keeps the averages within the reach of the samples |
| `Rtt.EstimateBounded` | src/tcp/tcp_input.c:678-702 | after every run of samples srtt lies between the smallest and the largest, and the timeout between its minimum and min(RTO_MAX, RTT_MAX + max(rto_min, 4*RTT_MAX)) |
| `Rtt.SampleMoves` | src/tcp/tcp_input.c:678-702 | a sample moves the smoothed value by an eighth of its distance and the deviation by a quarter; the timeout is the smoothed value and four deviations, at least the minimum |
| `Rtt.Settles` | src/tcp/tcp_input.c:678-702 | a constant round-trip time draws the estimate to it: after enough samples the smoothed value is the sample and the deviation has faded |
| `Rtt.Timeout` | src/tcp/tcp_input.c:698-699 | the 32-bit sum of the timeout is exact for every minimum that can be configured (at most RTO_MAX) |
| `Rtt.Estimator.RttUpdate` | src/tcp/tcp_input.c:678-702 | the mixed signed and unsigned 32-bit arithmetic is the estimator over unbounded numbers: nothing wraps |
| `FastPath.SameAck` | src/tcp/tcp_input.c:1106-1138 | where the recovery point is as every run leaves it, the two ways to take an acknowledgement give the same state and the same completions, and the slow one retransmits nothing |
| `FastPath.FastIsSlow` | src/tcp/tcp_input.c:1149-1186 | the same for whole segments: the paths take data and acknowledgement in opposite order and end in the same state, outcome and completions |
| `FastPath.FastRefinesSlow` | src/tcp/tcp_input.c:1149-1186 | in every state reached from ESTABLISHED before the FIN, whenever the guard holds, the fast path and the slow path end in the same state, outcome and completions, and nothing is retransmitted |
| `FastPath.RetryExactly` | src/tcp/tcp_input.c:1546-1550 | when the data is refused and the slow path follows, it ends as it would have alone, unless the segment repeats the waiting head of the queue and the rx ring has room; the acknowledgement is then not seen |
| `FastPath.HeadWaits` | src/tcp/tcp_input.c:434-488 | a run that leads to that exception |
| `FastPathCode.RcvAckFast` | src/tcp/tcp_input.c:1106-1138 | tcp_rcv_ack_fastpath, as specified |
| `FastPathCode.FastGuard` | src/tcp/tcp_input.c:1149-1170 | the modular tests decide the specified guard |
| `FastPathCode.RcvFastpath` | src/tcp/tcp_input.c:1149-1186 | tcp_rcv_fastpath, as specified, with the state it leaves when the guard fails and when the data is refused |
| `Closing.FinAckedDelivers` | src/tcp/tcp_input.c:1027-1046 | when our FIN is acknowledged, everything written is, and the queue is empty |
| `Closing.StepIsGood` | src/tcp/tcp_input.c:1536-1634 | every event keeps the invariant, and every change of state is an edge of the diagram in section 3.2 of RFC 793 or an abort to CLOSED |
| `Closing.CloseLosesNothing` | src/tcp/tcp_input.c:1027-1046 | over every run, the FIN goes out only behind every byte ever accepted for sending (snd_nxt is then data_seq_nxt + 1 and nothing is left unsent), and FIN_WAIT_2 and TIME_WAIT are entered only when all of that and the FIN are acknowledged |
| `Closing.CloseOnce` | src/tcp/tcp_output.c:1114-1155 | a request to close takes the one edge of the diagram that sends a FIN, and a FIN is owed exactly then, or aborts when data was not read; it leaves the queue alone, and a second request changes nothing |
| `Closing.FinsMeet` | src/tcp/tcp_input.c:1492-1531 | the acknowledgement of our FIN and the FIN of the peer lead from FIN_WAIT_1 to TIME_WAIT in either order, by way of FIN_WAIT_2 or CLOSING, and a repeated FIN changes no state |
| `Closing.LastAckEnds` | src/tcp/tcp_input.c:1041-1044 | an acknowledgement takes LAST_ACK to CLOSED only when everything is delivered |
| `Lifecycle.StateExact` | src/tcp/tcp_input.c:1488-1625 | over every run from ESTABLISHED the state follows from four facts: whether it was closed here, whether the FIN of the peer came and which was first, and whether our FIN is acknowledged; a FIN is owed between close and acknowledgement; writing is allowed until the close, also after the FIN of the peer |
| `Lifecycle.FinGoesOut` | src/tcp/tcp_output.c:1157-1195 | with a FIN owed, it goes out with the output that sends the last byte, so it is out unless window, device or memory stopped that |
| `Lifecycle.PassiveClose` | src/tcp/tcp_input.c:1488-1625 | the FIN of the peer leads to CLOSE_WAIT, our close to LAST_ACK, and the acknowledgement of our FIN, and no other, to CLOSED with everything delivered |
| `Lifecycle.RunDoes` | src/tcp/tcp_input.c:1533-1625 | every run of a connection is a run of its send half, so what holds of all those holds here |
| `Sockets.Socket.OnPacket` | src/tcp/tcp_input.c:1536-1634 | tcp_rcv_pkt in a synchronized state, as specified |
| `Sockets.Socket.OnWrite` | src/tcp/tcp_output.c:938-974 | a write is accepted only in a state that allows it |
| `Sockets.Socket.Output` | src/tcp/tcp_output.c:1157-1200 | tcp_output_one: data first, the FIN behind it, as specified |
| `Sockets.Socket.OnRto` | src/tcp/tcp_timeout.c:48-108 | the timeout, or the end of the connection after too many |
| `EndToEnd.FromWireGenuine` | src/tcp/tcp_input.c:624-673 | a segment made of bytes that were on the wire carries the written stream |
| `EndToEnd.RunBelow` | src/tcp/tcp_input.c:624-673 | the receiver never gets beyond what was put on the wire |
| `EndToEnd.HeardExactly` | include/tcp.h:74-92 | a 32-bit sequence number is taken for what it is if and only if the segment starts within 2^31 of rcv_nxt |
| `EndToEnd.StaleTaken` | src/tcp/tcp_input.c:624-673 | every segment that starts 2^32 bytes too low, and fits, is taken for the next data |
| `EndToEnd.ShortInReach` | src/tcp/tcp_input.c:624-673 | no segment is that far off on a connection that carries fewer than 2^31 bytes |
| `EndToEnd.ReadsWhatWasWritten` | src/tcp/tcp_output.c:508-1024 | whatever both ends do and the network loses, repeats, reorders, splits and merges, under 32-bit sequence numbers, as long as nothing arrives 2^31 bytes from rcv_nxt: the receiving application reads a prefix of what the sending application wrote, and the unread bytes continue it |
| `EndToEnd.EverythingArrives` | src/tcp/tcp_output.c:508-1024 | once every byte on the wire has arrived, in whatever segments, order and number, with room for each: rcv_nxt is the snd_nxt of the sender or the right edge of the window, and the application can read the written stream up to there |
| `EndToEnd.TimeoutRecovers` | src/tcp/tcp_timeout.c:80-108 | when the receiver waits for the first unacknowledged byte, a timeout sends it again, and whichever packet of it holds that byte moves rcv_nxt |
| `SackJoint.ReportTravels` | src/tcp/tcp_input.c:167-248 | the options of a packet deliver the blocks that were put into them |
| `SackJoint.NewMarkHeld` | src/tcp/tcp_input.c:912-968 | a descriptor newly marked from the blocks a receiver reported is held by that receiver |
| `SackJoint.StepSound` | src/tcp/tcp_input.c:912-968 | every step of either end keeps that, with any number of older reports still on their way |
| `SackJoint.MarkedIsHeld` | src/tcp/tcp_input.c:912-968 | over every joint run of a sending and a receiving end, a marked descriptor holds only bytes the receiving end holds |

## Left out

- Handshake: initial numbers, option negotiation, SYN retries, listening and accepting; the model starts in ESTABLISHED, and the looser hand-off of snd_una from SYN_RCVD is not covered.
- FIN on the receive side: the code does not sequence it with the data, so no theorem speaks of end of stream; the FIN appears in the closing model only.
- Congestion window: its growth and deflation are not modelled; windows and retransmission budgets are arbitrary inputs below 2^31.
- snd_wnd, snd_wl1 and snd_wl2: not part of the state; the fast and slow path may differ in them after out-of-order segments.
- Timestamps and PAWS: whether a segment passes them is an input; the flags and times kept per descriptor for round-trip samples are left out.
- Zero-window probes, keepalive probes and delayed acknowledgements: they change none of the state modelled here.
- Memory ordering, spin locks and several workers: each operation runs to completion on one worker.
- Packet fuzzer: off by default; duplicating packets, it could fill the device queue during a burst. Prepending a header is taken to succeed, because the largest one needs 114 of the 128 bytes of headroom.
- Device rings, checksum and segmentation offload, address resolution, statistics, traces, latency measurement, configuration and shell: input and output only.
- tcp_txq_enqueue_bulk and tcp_rxq_dequeue_burst: not used by the data path.
- reclaim_rxq and reclaim_rcv_ooo_queue: freeing packets when a socket goes would only add easy members.
- Receivers.Receiver.DropOooMbufs: nr_ooo_pkt is a natural number here; the code keeps it in 16 bits, which the default limit of 2048 stays far below.
- Receivers.Receiver.Zreadv: the checks on the state of the socket and the error numbers are left out; an empty result stands for EAGAIN and end of stream.
- Receivers.TryMerge: flags, acknowledgement and timestamp comparisons are one input.
- Receivers.Receiver.Arrive: acknowledgement flags to be sent in response are left out.
- Senders.Sender.Zwritev: the size of a write is a natural number; the running total of the code is a 32-bit number that a single call below 2^31 bytes does not exceed.
- Senders.Sender.ReclaimTxq: freeing the array of slots is left out.
- AckPath.SortSack: the library sort is an insertion sort with the same comparison; SackSound holds for every order.
- AckPath.RcvAckPacket: round-trip samples, timers and window updates are left out.
- AckPath.TimeoutRto: the threshold and window it sets are inputs of what follows, and back-off is left out.
- Closing.StepIsGood: when a connection is given up, and what the sequence and PAWS checks say, are inputs.
- PortAlloc.Worker.AllocRandom: the local range lies inside ports 64 to 65471, where a block can be found again; offload rules are taken to succeed.
- PortAlloc.Worker.AllocGiven: the same for a given port.
- PortAlloc.Worker.BindGiven: the same for the port asked for.
- PortAlloc.Worker.BindRandom: the same for the local range.
- PortAlloc.Worker.BindFromBlock: nothing is said about a failing table insertion beyond that nothing is bound.
- PortAlloc.Worker.Timeout: a branch for a block that is in use is omitted, because IdleBlock shows it dead.
- SockTables.SockTable.Lookup: addresses are numbers, and the hash is any function.
- OptionCode.ParseOpts: the option area must be followed by eight bytes of the same buffer, which a length byte that is too small makes the code read; an end-of-options byte behind an option of unknown kind gives success, as in the code.
- TimerWheel.TimerCtrl.Start: the number of ticks is a natural number here; the code stores the quotient in an int, which truncates from 2^31 ticks on.
- TimerWheel.TimerCtrl.FireSlot: says nothing of callbacks that go on arming timers out of reach for ever, under which the loop of the code does not end.
- TimerWheel.TimerCtrl.Process: the same.
- SackRuns.SackAccurate: runs that lose a byte once it is held are not covered; the code goes on reporting what it dropped.
- SackJoint.MarkedIsHeld: the same, and reports older than 2^31 bytes are not covered.
- PortMaps.PortMap.BlockAlloc: the block at port 0 is not covered, because allocating port 0 means any port.
- SendRecovery.AckSteers: nr_dupack is a natural number here; the code counts in 16 bits.
