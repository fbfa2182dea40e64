# Reliable file transfer over a lossy datagram network

This project models a file server and its clients that move a file over UDP with one of three
protocols, Selective Repeat, Stop-and-Wait and Go-Back-N, and proves what they keep.

* **Wire format and checksum** (`Bytes`, `PacketUtil`, `DataPackets`, `Corruption`): the byte
  layout of data and ACK packets, the end-around-carry sum in closed form, round trips in both
  directions, and exactly which single-byte errors the receiver does not notice.
* **Packetiser** (`PacketBuilders`): batched reading of the file refines the pure cut into
  500-byte pieces, and the cut is the only one of its kind.
* **Loss schedule** (`PacketSenders`): which sends report a loss event.
* **Selective Repeat** (`SenderParts`, `SelectiveRepeat`, `SelectiveRepeatInvariant`,
  `SelectiveRepeatEffects`, `WindowGrowth`, `Receiver`): sender and receiver as functions on their
  state, with the sender's invariant through nested shrinking and refilling, what every operation
  does in numbers, the growth law of the congestion window, and the receiver as a refinement of a
  growing map from numbers to payloads. Both windows slide by what has been acknowledged or
  received, in whatever order it came.
* **The composed system** (`Networks`, `Transfer`, `Progress`, `FairSchedules`): sender, client
  and network as one transition system. The network may lose anything for good, repeat and
  reorder, and deliver any damaged datagram whose checksum shows the damage. One inductive
  invariant gives end-to-end safety and sound completion; there is no reachable dead end; every
  fair infinite run completes, and fair runs exist.
* **One-byte errors** (`OneByteErrors`, `StopAndWaitErrors`, `GoBackNErrors`): over a network that
  may change one byte of any datagram, exactly which files each protocol transfers safely.
* **Stop-and-Wait** (`StopAndWait`, `StopAndWaitTransfer`, `StopAndWaitFinish`): Selective Repeat
  with a window of one is step for step the Stop-and-Wait sender. The whole transfer is safe
  whatever ACKs arrive; exactly which ACKs mislead the sender; runs without one refine the
  Selective Repeat transfer; and exactly which states can still finish.
* **Go-Back-N** (`GoBackN`, `GoBackNTransfer`, `GoBackNFinish`): the output is a prefix of the file
  in every run, whatever ACKs arrive; the client's ACKs are sound; exactly which steps mislead
  the sender or end a transfer too early; exactly which states can still finish, with the timer
  and without it.
* **The objects** (`SelectiveRepeatSender`, `StopAndWaitSender`, `GoBackNObjects`, and the
  classes in `DataPackets`, `PacketBuilders`, `PacketSenders`, `Receiver`): the code's own form,
  with mutable packet objects shared between the window, `aux_window`, the timer index and the
  builder. Every method is proved to do to the heap what the matching function does to the
  state; `PacketLinks` says how the two are tied.

## How to read a run

A system's state holds what is in flight in either direction. Any of it may arrive any number of
times, in any order, and may be lost for good at any time (`Event.Loses`, `AckLost`, `DataLost`),
so the reachable states include those in which an ACK will never arrive unless the client sends it
again. `Network` gives the outcome of the send at each clock tick: dropped, transmitted, or
transmitted with a loss event ("triple duplicate ACK"). The clock advances with every send. A step
that is not enabled changes nothing, so every list of steps is a run, and `Reachable` quantifies
over all of them.

An infinite run is fair when it does not lose for ever what is sent for ever: infinitely many
timeouts get their packet out, a packet or an ACK that is sent infinitely often arrives infinitely
often, the end marker arrives once, and the end of the transfer is noticed. Anything else may be
lost for good.

## Assumptions

* The last sequence number of a transfer, the end marker's included, fits into 32 bits. (The
  Selective Repeat client on its own is modelled up to the wrap: `Receiver.ReceiveRefines`.)
* `max_window_size` and the Selective Repeat client's window are at least 1. Window sizes are
  not negative.
* The file does not change during the transfer.
* Time stamps increase strictly from send to send, since `unacked_packets` compares packets by
  time stamp alone (shared/data_packet.h, lines 40-44); the set is a map from stamps to packets.
* One ACK (server/strategy/selective_repeat_strategy.cpp, lines 21-42) and one timeout (lines
  122-148) are atomic steps.
* Go-Back-N numbers start at 0. The server's constructor leaves `next_seq_number` unset; the
  client expects 0 (client/strategy/client_go_back_N_strategy.cpp, line 11).
* The upper end of the Go-Back-N client's window is computed in 32 bits and may wrap in the
  model as in the code. Only the statements about ending a transfer assume that it does not:
  number of packets plus client window below 2^32, and a client window of at least 1 (`Roomy`).
* Bytes are the numbers 0 to 255, and masks and shifts are remainders and quotients. Unsigned
  arithmetic of 16 and 32 bits takes the width out until the rest fits (`Bytes.Wrap16`,
  `Bytes.Wrap32`), which is the remainder (`Bytes.Wrap16IsRemainder`, `Bytes.Wrap32IsRemainder`).
* In Stop-and-Wait and Go-Back-N an ACK may arrive with any content, since neither sender looks
  at its checksum; Selective Repeat sees damaged ACKs too and drops them.

## What the proofs found

* A single-byte error can pass the data checksum: the length's high byte gets smaller, and the
  length and payload cut off add up to a multiple of 65535; for the protocol's packets, 256
  bytes adding up to 65279. Nothing else of one byte passes (`Corruption.SingleByteDamage`), and
  on ACKs nothing at all. So Selective Repeat and Stop-and-Wait survive one-byte errors for exactly the
  files without a piece that ends in such 256 bytes (`OneByteErrors.RightIffNoFragilePiece`,
  `StopAndWaitErrors.RightIffNoFragilePiece`).
* Stop-and-Wait and Go-Back-N stay safe under ACKs with any number: the output is a prefix of the
  file, and with the window of one that the Stop-and-Wait client has, `done` means the whole
  file. What a damaged ACK can break is that the sender pops only what the client has
  (`StaysInStepIff` in both transfers says exactly when), and with it progress: the packet
  popped too early reaches the client only if a copy is still in flight
  (`StopAndWaitFinish.CanFinishIff`, `GoBackNFinish.CanFinishIff`). In Go-Back-N the end marker
  may then also come too early (`GoBackNTransfer.EndsEarlyIff`).
* The Go-Back-N client tests for the end marker before the checksum, so a damaged datagram that
  reads as empty ends any unfinished transfer (`GoBackNTransfer.AnyClientCanBeDeceived`). With one
  wrong byte per packet this can happen exactly to pieces of 1 to 247 or 256 bytes, whose length
  can become that of the end marker (`GoBackNErrors.EmptyIff`, `GoBackNErrors.RightIffSturdy`).
* The Go-Back-N client does not answer old packets, so lost ACKs alone can stop a transfer for
  good (`GoBackNFinish.DeadEndIsNear`). The Selective Repeat client answers the packet at the
  sender's base whatever it has acknowledged before (`Progress.BaseIsAnswered`), so neither
  Selective Repeat nor, as long as no ACK has misled the sender, Stop-and-Wait has such a state,
  whatever has been lost (`Progress.NoDeadEnd`, `StopAndWaitFinish.StopAndWaitCanFinish`).
* The Go-Back-N timer loop as written calls send_packet while it holds the lock that send_packet
  takes (server/strategy/go_back_N_strategy.cpp, lines 40-45 and 83), and so hangs after its first
  resend. `GoBackNFinish.CanFinishIff` therefore has two readings: with the timer as it is meant,
  and without it, which is what the code can do. Without it a transfer can end just when none of
  the first up to 200 sends is lost (`GoBackNFinish.StartFinishesIff`).

## Model

| member | source | states |
|---|---|---|
| PacketUtil.FoldClosedForm | shared/packet_util.cpp:7-11 | end-around carry reduces a sum S >= 1 to 1 + (S - 1) mod 65535 |
| PacketUtil.FoldStep | shared/packet_util.cpp:7-11 | adding a 16-bit term to a reduced sum and wrapping once reduces the true sum |
| PacketUtil.CalculateDataChecksum | shared/packet_util.cpp:13-34 | for any payload the loop returns 1 + (S - 1) mod 65535, S the sum of length, both halves of the number and all payload bytes, or 0 if S is 0; the error exit is never taken |
| PacketUtil.CalculateAckChecksum | shared/packet_util.cpp:36-52 | the same for an ACK |
| PacketUtil.ChecksumIgnoresOrder | shared/packet_util.cpp:23-26 | payloads that are permutations of each other have the same checksum |
| PacketUtil.PayloadSwapUndetected | shared/packet_util.cpp:13-34 | one payload can stand for another unnoticed if and only if their byte sums differ by a multiple of 65535 |
| DataPackets.DataRoundTrip | shared/data_packet.cpp:46-82 | unpacking a packed data packet restores number, length, checksum and data, whatever bytes follow |
| DataPackets.DecodeThenEncode | shared/data_packet.cpp:46-82 | re-packing an unpacked datagram restores exactly the bytes its length field covers |
| DataPackets.DecodedLayout | shared/data_packet.cpp:67-82 | what unpacking reads from any datagram with a header, field by field, damaged lengths included |
| DataPackets.HeaderBytes | shared/data_packet.cpp:46-60 | the eight header bytes, each by its shift and mask |
| DataPackets.MadePacketIsIntact | shared/data_packet.cpp:8-13 | a packet is built with its number, its data, the length cut to 16 bits and a matching checksum; the length is honest when it fits |
| DataPackets.DataPacket.constructor | shared/data_packet.cpp:8-13 | the object built holds the specified packet, unacknowledged |
| DataPackets.DataPacket.FromBuffer | shared/data_packet.cpp:15-17 | the object read from a buffer holds what the specification decodes |
| DataPackets.DataPacket.Pack | shared/data_packet.cpp:46-65 | filling the buffer byte by byte yields the specified layout, in bounds |
| DataPackets.AckRoundTrip | shared/ack_packet.cpp:42-73 | unpacking a packed ACK restores number, length and checksum, whatever bytes follow |
| DataPackets.AckBytes | shared/ack_packet.cpp:42-55 | the eight bytes of an ACK, each by its shift and mask |
| DataPackets.MakeAck | shared/ack_packet.cpp:24-28 | an ACK is built with its number, length 8 and a matching checksum |
| DataPackets.AckPacket.constructor | shared/ack_packet.cpp:24-28 | the object built holds the specified ACK |
| DataPackets.AckPacket.FromBuffer | shared/ack_packet.cpp:20-22 | the object read from a buffer holds what the specification decodes |
| DataPackets.AckPacket.Pack | shared/ack_packet.cpp:42-57 | the buffer filled is the specified layout |
| Corruption.PayloadDamage | shared/packet_util.cpp:13-34 | changing exactly one payload byte of any packed packet is always noticed |
| Corruption.SeqnoDamage | shared/packet_util.cpp:17-21 | so is changing one byte of the sequence number |
| Corruption.ChecksumDamage | shared/data_packet.cpp:78-80 | so is changing one byte of the stored checksum |
| Corruption.LengthDamage | shared/data_packet.cpp:74-81 | for packets of any size, a changed length byte passes if and only if it is the hidden cut |
| Corruption.SingleByteDamage | shared/data_packet.cpp:46-82 | for every packet the codec can pack and every change of one byte anywhere: the receiver still accepts it if and only if the length's high byte got smaller and what this cuts off adds up, with the length, to a multiple of 65535 |
| Corruption.HiddenInProtocol | shared/packet_util.cpp:13-34 | for payloads up to 500 bytes this is: the high byte goes from 1 to 0 and the 256 bytes cut off add up to 65279 |
| Corruption.SingleByteAckDamage | shared/ack_packet.cpp:42-73 | every change of one byte of a packed ACK is noticed |
| Corruption.UndetectedExample | shared/packet_util.cpp:13-34 | a concrete packet whose whole payload can be cut off by one wrong byte without notice |
| PacketBuilders.ChunksIsCut | server/filereader/packet_builder.cpp:40-50 | the pieces concatenate to the file, none is empty, and all but the last hold 500 bytes |
| PacketBuilders.CutIsUnique | server/filereader/packet_builder.cpp:40-50 | there is only one such cut of a file |
| PacketBuilders.PiecesAreFile | server/filereader/packet_builder.cpp:40-50 | the first pieces make a prefix of the file, and all of it exactly when none is missing |
| PacketBuilders.ChunksOfBatch | server/filereader/packet_builder.cpp:31-33 | reading a whole number of pieces first moves no piece boundary |
| PacketBuilders.CutBuffer | server/filereader/packet_builder.cpp:39-50 | the inner loop makes exactly the numbered pieces of the buffer and advances the counter by their number |
| PacketBuilders.BatchOfFile | server/filereader/packet_builder.cpp:30-50 | after any batch, packets queued and packets still in the file are together the same as before, and the batch holds as many as the queue size allows |
| PacketBuilders.PacketBuilder.ReadBatch | server/filereader/packet_builder.cpp:31-50 | a batch read leaves the sequence of packets to come unchanged and queues min(queue_size, packets left) of them |
| PacketBuilders.PacketBuilder.GetNextPacket | server/filereader/packet_builder.cpp:30-58 | for any file and batch size, each call hands out exactly the next packet of the pure cut and reads a full batch exactly when the queue is empty |
| PacketBuilders.PacketBuilder.HasNextIffRemaining | server/filereader/packet_builder.cpp:60-62 | has_next is true exactly while packets remain |
| PacketBuilders.PacketBuilder.AllRemaining | server/filereader/packet_builder.cpp:10-28 | a new builder has the numbered pieces of the whole file to come |
| PacketSenders.NotScheduledBetween | server/packet_sender.cpp:28-36 | between two neighbouring prefix sums of the repeated loss sequence no call is scheduled |
| PacketSenders.ScheduleRepeats | server/packet_sender.cpp:36-46 | the loss events of round q are the running sums of the loss sequence, moved by q times its total |
| PacketSenders.PacketSender.SendPacket | server/packet_sender.cpp:27-47 | over any number of calls, true is returned exactly on the calls whose index is a prefix sum; those always transmit, others by the random draw |
| SelectiveRepeatInvariant.ShrinkKeeps | server/strategy/selective_repeat_strategy.cpp:61-83 | shrinking moves the tail to aux without losing, doubling or reordering a packet, and keeps the timer index exact |
| SelectiveRepeatInvariant.SendLastKeeps | server/strategy/selective_repeat_strategy.cpp:154-164 | sending the last window packet restores the invariant, loss event or not |
| SelectiveRepeatInvariant.PullConserves | server/strategy/selective_repeat_strategy.cpp:48-56 | the packet taken next, from aux or else the builder, is the one that follows the window in the file |
| SelectiveRepeatInvariant.RoundDecreases | server/strategy/selective_repeat_strategy.cpp:46-59 | every round of the refill loop makes (window_size, free places) lexicographically smaller even when the send shrinks the window |
| SelectiveRepeatInvariant.ExpandKeeps | server/strategy/selective_repeat_strategy.cpp:46-59 | the refill loop keeps the invariant through all nested shrinks, acknowledges nothing, and ends with a full window or nothing left to send |
| SelectiveRepeatInvariant.AdvanceKeeps | server/strategy/selective_repeat_strategy.cpp:167-180 | sliding pops acknowledged packets only, leaves an unacknowledged front, and moves the base if the front was acknowledged |
| SelectiveRepeatInvariant.AcknowledgeKeeps | server/strategy/selective_repeat_strategy.cpp:18-44 | any ACK keeps the invariant; what counts as acknowledged stays within what the receiver has; the ACK of the base advances it |
| SelectiveRepeatInvariant.HandleTimeOutKeeps | server/strategy/selective_repeat_strategy.cpp:131-148 | a timeout leaves exactly the front in a window of one, conserves all else, and resends the front |
| SelectiveRepeatInvariant.FirstIsFront | server/strategy/selective_repeat_strategy.cpp:116-131 | the earliest member of the timer index is always the front of the window |
| SelectiveRepeatInvariant.StartKeeps | server/strategy/selective_repeat_strategy.cpp:95-109 | the started sender satisfies the invariant |
| SelectiveRepeatInvariant.Conservation | server/strategy/selective_repeat_strategy.cpp:46-76 | window, then aux in number order, then the builder are the packets base..N, each once and in order |
| SelectiveRepeatInvariant.TimerIndex | server/strategy/selective_repeat_strategy.cpp:27-36 | unacked_packets is exactly the unacknowledged part of the window |
| SelectiveRepeatInvariant.NothingLeft | server/strategy/rdt_strategy.h:26-40 | an empty window means that aux, builder and timer index are empty too |
| SelectiveRepeatEffects.SendExactly | server/strategy/selective_repeat_strategy.cpp:154-164 | a loss event on any send halves the window size, never below 1, sets the threshold to the same number and cuts the window to it, after the packet has gone out; any other send changes neither; only a dropped packet stays off the wire |
| SelectiveRepeatEffects.SendLastFiles | server/strategy/selective_repeat_strategy.cpp:61-83 | what a loss event cuts off is in aux and out of the timer index, and nothing else is |
| SelectiveRepeatEffects.ExpandExactly | server/strategy/selective_repeat_strategy.cpp:46-59 | the refill sends the next packets of the file, in order and each once, the dropped ones left out on the wire; it stops at the first moment when the window is full or the file ends; k loss events leave the size divided by 2^k, never below 1; the slots it adds are new, waiting and stamped in order |
| SelectiveRepeatEffects.SettledExactly | server/strategy/selective_repeat_strategy.cpp:25-34 | before the refill an ACK for a waiting packet acknowledges exactly that packet, takes exactly its entry out of the index, and, for the front, pops exactly the acknowledged packets before the first one waiting |
| SelectiveRepeatEffects.AcknowledgeExactly | server/strategy/selective_repeat_strategy.cpp:18-44 | one ACK as a whole: an intact one with the number of a waiting packet does that, doubles the size below the threshold or adds one, up to the maximum, and refills; any other ACK changes nothing |
| SelectiveRepeatEffects.NewPacketsAreSent | server/strategy/selective_repeat_strategy.cpp:46-59 | over a network that drops nothing, an ACK puts on the wire exactly the packets it brings into the window, in order |
| SelectiveRepeatEffects.TimeOutExactly | server/strategy/selective_repeat_strategy.cpp:122-148 | a timeout leaves the front alone in a window of one and in the index, sends it once and nothing else, and sets the threshold to half the old size, or 1 after a loss event |
| SelectiveRepeatEffects.StartExactly | server/strategy/selective_repeat_strategy.cpp:10-17 | the started sender has sent the first packet once, waits for it, and has half the maximum as its threshold, or 1 after a loss event |
| SelectiveRepeatEffects.AckIsRecorded | server/strategy/selective_repeat_strategy.cpp:18-44 | over any network an ACK adds its own number to those acknowledged, if it is in the window, and only numbers evicted by a loss event are forgotten |
| SelectiveRepeatEffects.AcksAreRecorded | server/strategy/selective_repeat_strategy.cpp:18-44 | without a loss event, after any list of ACKs with numbers up to the end of the window, in any order and with damaged ones and repetitions, exactly the numbers named are acknowledged on top of the old ones |
| SelectiveRepeatEffects.BaseIsLeast | server/strategy/selective_repeat_strategy.cpp:167-180 | the base is the least number not acknowledged |
| SelectiveRepeatEffects.AcksInAnyOrder | server/strategy/selective_repeat_strategy.cpp:18-44 | ACKs for base..k in any order leave k + 1 as the base, unless that has been acknowledged as well |
| WindowGrowth.DoublingsIsLeast | server/strategy/selective_repeat_strategy.cpp:87-90 | the number of doublings is the least j with 2^j >= threshold |
| WindowGrowth.GrowthLaw | server/strategy/selective_repeat_strategy.cpp:85-93 | k adjustments from size 1 give 2^k up to j, then min(max, 2^j + k - j); doubling never reaches the clamp |
| WindowGrowth.GrowthFromStart | server/strategy/selective_repeat_strategy.cpp:10-16 | from the start on, any ACKs of which k are accepted give that size in the running sender, with threshold max_window_size / 2 |
| WindowGrowth.GrowthAfterTimeOut | server/strategy/selective_repeat_strategy.cpp:18-93 | after a timeout, any ACKs of which k are accepted give that size in the running sender, with the threshold the timeout has set |
| SelectiveRepeatSender.SelectiveRepeatSender.constructor | server/strategy/selective_repeat_strategy.cpp:9-16 | the object starts as the specified sender over the file's numbered pieces |
| SelectiveRepeatSender.SelectiveRepeatSender.FillWindow | server/strategy/rdt_strategy.h:56-60 | the base class loop fills the initial window |
| SelectiveRepeatSender.SelectiveRepeatSender.ShrinkWindow | server/strategy/selective_repeat_strategy.cpp:61-83 | the erase-and-insert loop on shared objects does what the specified shrink does |
| SelectiveRepeatSender.SelectiveRepeatSender.SendPacket | server/strategy/selective_repeat_strategy.cpp:154-164 | stamps the shared object while it is outside the timer index, indexes it, and shrinks on a loss event |
| SelectiveRepeatSender.SelectiveRepeatSender.ExpandWindow | server/strategy/selective_repeat_strategy.cpp:46-59 | the loop terminates and does what the specified refill does, nested shrinks included |
| SelectiveRepeatSender.SelectiveRepeatSender.AdjustWindowSize | server/strategy/selective_repeat_strategy.cpp:85-93 | the object's window size follows the specified adjustment |
| SelectiveRepeatSender.SelectiveRepeatSender.AdvanceWindow | server/strategy/selective_repeat_strategy.cpp:167-180 | the popping loop does what the specified slide does |
| SelectiveRepeatSender.SelectiveRepeatSender.FindPacket | server/strategy/selective_repeat_strategy.cpp:22-24 | the scan finds the first position with the ACK's number, or the end |
| SelectiveRepeatSender.SelectiveRepeatSender.AcknowledgePacket | server/strategy/selective_repeat_strategy.cpp:18-44 | one ACK on the object is one specified acknowledge step and keeps the invariant |
| SelectiveRepeatSender.SelectiveRepeatSender.HandleTimeOut | server/strategy/selective_repeat_strategy.cpp:114-149 | one timeout on the object is one specified timeout step and keeps the invariant |
| SelectiveRepeatSender.SelectiveRepeatSender.Start | server/strategy/selective_repeat_strategy.cpp:95-109 | starting sends the initial window and establishes the invariant |
| Receiver.DeliverTakesRun | client/strategy/client_selective_repeat_strategy.cpp:43-57 | one pass of the delivery loop writes the maximal consecutive run and changes nothing about what has been accepted |
| Receiver.ReceiveRefines | client/strategy/client_selective_repeat_strategy.cpp:25-41 | one datagram, any number included, adds exactly a fresh packet to the accepted map; ACKs answer exactly fresh packets and those below expected_seqno; done is set exactly by an intact empty packet in the window; until all 32-bit numbers are used up expected_seqno is the least number missing, and then it wraps to 0 with everything written |
| Receiver.ExpectsLeastMissingIff | client/strategy/client_selective_repeat_strategy.cpp:46-52 | expected_seqno is the least number missing if and only if not every 32-bit number has been accepted |
| Receiver.WrittenIsContents | client/strategy/client_selective_repeat_strategy.cpp:46-53 | the output is the accepted payloads 1..expected_seqno - 1 in order |
| Receiver.BufferBound | client/strategy/client_selective_repeat_strategy.cpp:25-31 | at most window_size - 1 packets are ever buffered |
| Receiver.ReceiverRun | client/strategy/client_selective_repeat_strategy.cpp:12-57 | all of this after any packets in any order, as long as some 32-bit number is not among them |
| Receiver.ReceiveExactly | client/strategy/client_selective_repeat_strategy.cpp:25-40 | one datagram by its number alone: damaged or at least expected_seqno + window_size, nothing happens; below expected_seqno, its ACK; in between, an empty one ends the transfer, an accepted one is ignored, and any new one is accepted and acknowledged |
| Receiver.PacketsAreRecorded | client/strategy/client_selective_repeat_strategy.cpp:25-34 | after any packets with numbers up to the end of the window, in any order and with repetitions, exactly the numbers brought undamaged are accepted on top of the old ones |
| Receiver.PacketsInAnyOrder | client/strategy/client_selective_repeat_strategy.cpp:25-57 | the packets expected_seqno..k in any order leave k + 1 expected, unless that has come as well |
| Receiver.SelectiveRepeatClient.DeliverBufferedPackets | client/strategy/client_selective_repeat_strategy.cpp:43-57 | the loop over the ordered buffer does what the specified delivery does |
| Receiver.SelectiveRepeatClient.Run | client/strategy/client_selective_repeat_strategy.cpp:12-41 | one datagram on the object is one specified receive step, short datagrams fail and change nothing |
| Transfer.StepKeeps | server/server.cpp:175-196 | every step of sender, client and network keeps the system invariant |
| Transfer.LossKeeps | server/packet_sender.cpp:27-47 | losing any part of what is in flight for good keeps the system invariant |
| Transfer.MarkerArrives | client/strategy/client_selective_repeat_strategy.cpp:26-27 | when the end marker arrives it lies in the client's window, the client has everything, and done is set |
| Transfer.EmptyWindow | server/strategy/rdt_strategy.h:26-48 | the end marker is sent with number N + 1, after all N packets have been popped |
| Transfer.FileStream | server/filereader/packet_builder.cpp:30-58 | every packet of a file carries data, fits its buffer, passes its own check, and has its number |
| Transfer.EndToEndSafety | client/strategy/client_selective_repeat_strategy.cpp:25-57 | in every run the client's output is exactly pieces 1..expected_seqno - 1, a prefix of the file |
| Transfer.CompletionIsSound | client/strategy/client_selective_repeat_strategy.cpp:26-27 | in every run the client is done only with the whole file written |
| Transfer.SenderNeverOutruns | server/strategy/selective_repeat_strategy.cpp:167-180 | in every run base <= expected_seqno <= next_seq_number, popped packets are in the client's file, and ACKs in flight name delivered or buffered packets |
| Transfer.SenderConserves | server/strategy/selective_repeat_strategy.cpp:18-180 | in every run window, aux and builder hold the packets base..N in order, the timer index is exact with the front earliest, and an empty window means that all packets are popped |
| Progress.BaseIsAnswered | client/strategy/client_selective_repeat_strategy.cpp:25-37 | the client replies with its ACK to the packet at the sender's base, whatever it has received and acknowledged before |
| Progress.RescueAdvances | server/strategy/selective_repeat_strategy.cpp:145-148 | from every reachable unfinished state, with anything in flight lost for good before, timeout, front packet, its ACK advance the base |
| Progress.NoDeadEnd | server/strategy/selective_repeat_strategy.cpp:18-180 | from every reachable state, with anything in flight lost for good before, some schedule completes the transfer with the whole file |
| Progress.NeverStuck | client/strategy/client_selective_repeat_strategy.cpp:35-37 | in a fair run a sender with packets waiting does not keep its base for ever: its front is resent for ever, answered for ever, and so an ACK arrives |
| Progress.FairRunsComplete | server/server.cpp:175-196 | every infinite run that only delivers what is sent for ever, and the end marker once, ends with the client done for good and the whole file written |
| FairSchedules.FairRunExists | server/server.cpp:175-196 | from every reachable state there is a fair run |
| OneByteErrors.PossibleIsEnabled | shared/packet_util.cpp:13-52 | for a file without a fragile piece, whatever a network with one-byte errors delivers is undamaged or shows its damage |
| OneByteErrors.ReceiveAlike | client/strategy/client_selective_repeat_strategy.cpp:25-57 | two clients that differ only in the payload under one number stay so whatever they receive |
| OneByteErrors.RightIffNoFragilePiece | client/strategy/client_selective_repeat_strategy.cpp:12-57 | for any window sizes: all runs over a network that may change one byte of any datagram keep the output right, and complete when done, if and only if no piece of at least 256 bytes ends in 256 bytes adding up to 65279 |
| StopAndWaitErrors.RightIffNoFragilePiece | client/client.cpp:125-127 | Stop-and-Wait with its client window of one, one-byte errors in data and ACKs of any content: always right if and only if no piece is fragile |
| GoBackNErrors.EmptyIff | shared/data_packet.cpp:67-82 | one wrong byte makes a data packet read as empty if and only if it turns its length into 8 |
| GoBackNErrors.RightIffSturdy | client/strategy/client_go_back_N_strategy.cpp:26-36 | Go-Back-N with one-byte errors in data and no misleading ACK, whatever is lost: always right if and only if no piece is fragile and none has 1 to 247 or 256 bytes |
| StopAndWait.AcknowledgeSame | server/strategy/stop_and_wait_strategy.cpp:31-52 | for any valid ACK, Selective Repeat with a window of one does what Stop-and-Wait does and leaves aux empty |
| StopAndWait.TimeOutSame | server/strategy/stop_and_wait_strategy.cpp:63-91 | the same for a timeout |
| StopAndWait.WindowOfOneIsStopAndWait | server/strategy/stop_and_wait_strategy.cpp:18-112 | over any run of valid ACKs and timeouts both have the same window, timer index, builder position and packets on the wire |
| StopAndWait.AgreeIffNotFooled | server/strategy/stop_and_wait_strategy.cpp:35-37 | over all ACKs, damaged ones included, the two agree if and only if the ACK is not a damaged one that names the waiting packet |
| StopAndWait.AcknowledgeMoves | server/strategy/stop_and_wait_strategy.cpp:31-52 | an ACK with any number pops the waiting packet if it names it and sends the next; any other changes nothing |
| StopAndWaitTransfer.StepKeeps | server/strategy/stop_and_wait_strategy.cpp:18-112 | every step, with ACKs of any content, keeps the system invariant |
| StopAndWaitTransfer.StopAndWaitIsSafe | client/client.cpp:125-127 | in every run, with any ACKs, the output is the first pieces of the file for any client window, and with the window of one that the client has it is the whole file once the client is done |
| StopAndWaitTransfer.StaysInStepIff | server/strategy/stop_and_wait_strategy.cpp:31-52 | exactly which steps make the sender drop a packet the client does not have: an ACK naming the waiting packet while the client still expects it |
| StopAndWaitTransfer.AckNumberIsSafe | server/strategy/stop_and_wait_strategy.cpp:35-45 | the same for an ACK by its number alone, in every reachable state |
| StopAndWaitTransfer.StartCanBeMisled | server/strategy/stop_and_wait_strategy.cpp:35-37 | for every file that is not empty, a damaged ACK with number 1 misleads the sender in the start state |
| StopAndWaitTransfer.SystemStepSame | server/strategy/stop_and_wait_strategy.cpp:18-112 | every step that does not mislead the sender, harmless damaged ACKs included, is a step of the Selective Repeat system with a window of one |
| StopAndWaitTransfer.LossyStep | server/strategy/stop_and_wait_strategy.cpp:18-112 | after losses the system takes every step as it would have without them, except for what is lost |
| StopAndWaitTransfer.ReachableTwin | server/server.cpp:156-196 | every state of a run without a misleading ACK, with losses at any time, is the view of a reachable Selective Repeat state |
| StopAndWaitTransfer.HonestCompletion | server/server.cpp:156-196 | in such runs done means the whole file for any client window |
| StopAndWaitFinish.CanFinishIff | server/strategy/stop_and_wait_strategy.cpp:63-112 | in every state of every run, with any ACKs before and anything lost for good: an unfinished transfer can still end with the whole file over an undamaging network if and only if every packet that was dropped too early is in flight or buffered |
| StopAndWaitFinish.StopAndWaitCanFinish | server/strategy/stop_and_wait_strategy.cpp:63-91 | after every run without a misleading ACK, harmless damaged ones included and with anything lost for good, some schedule completes the transfer with the whole file |
| StopAndWaitFinish.FairRunsComplete | server/server.cpp:175-196 | every infinite run without a misleading ACK that only delivers what is sent for ever, and the end marker once, ends with the client done for good and the whole file written |
| FairSchedules.StopAndWaitFairRunExists | server/server.cpp:175-196 | such fair runs exist |
| StopAndWaitSender.StopAndWaitSender.constructor | server/strategy/stop_and_wait_strategy.cpp:9-16 | the object starts as the specified sender over the file's numbered pieces |
| StopAndWaitSender.StopAndWaitSender.Start | server/strategy/stop_and_wait_strategy.cpp:18-29 | starting sends the first packet and establishes the invariant |
| StopAndWaitSender.StopAndWaitSender.SendPacket | server/strategy/stop_and_wait_strategy.cpp:54-61 | stamps and indexes the shared object; a loss event has no effect |
| StopAndWaitSender.StopAndWaitSender.AdvanceWindow | server/strategy/stop_and_wait_strategy.cpp:93-112 | the pop, fetch and send loop does what the specified one does |
| StopAndWaitSender.StopAndWaitSender.AcknowledgePacket | server/strategy/stop_and_wait_strategy.cpp:31-52 | one ACK on the object is one specified step and keeps the invariant |
| StopAndWaitSender.StopAndWaitSender.HandleTimeOut | server/strategy/stop_and_wait_strategy.cpp:68-88 | one timeout on the object resends the packet the index names and keeps the invariant |
| GoBackN.AdvanceKeeps | server/strategy/go_back_N_strategy.cpp:88-105 | the loop pops exactly the acknowledged prefix and fetches as many packets as it pops, as far as there are any |
| GoBackN.AcknowledgeMoves | server/strategy/go_back_N_strategy.cpp:57-77 | an ACK in the window moves the base just past its number and refills; any other changes nothing |
| GoBackN.AcknowledgeExactly | server/strategy/go_back_N_strategy.cpp:57-105 | an ACK in the window takes out exactly the packets up to its number and sends as many of the next packets of the file, in order and each once, the dropped ones left out on the wire; any other changes nothing |
| GoBackN.StartExactly | server/strategy/go_back_N_strategy.cpp:14-29 | the start puts the first packets of the file, 200 at most, into the window and sends each once, in order |
| GoBackN.ReceiveExactly | client/strategy/client_go_back_N_strategy.cpp:26-38 | one datagram by its number alone, the window end taken to 32 bits: outside the window nothing happens; in it an empty one ends the transfer, the undamaged one expected is written and acknowledged, and any other is answered with expected_seqno - 1, which is 0xFFFFFFFF before the first |
| GoBackN.StartKeeps | server/strategy/go_back_N_strategy.cpp:14-29 | the started sender satisfies the invariant with base 0 |
| GoBackNTransfer.NextPacket | client/strategy/client_go_back_N_strategy.cpp:29-32 | the packet expected next is written and acknowledged |
| GoBackNTransfer.OtherPacket | client/strategy/client_go_back_N_strategy.cpp:26-38 | no other packet, damaged or not, changes the output, and every reply is a sound cumulative ACK |
| GoBackNTransfer.LostAckComesBack | client/strategy/client_go_back_N_strategy.cpp:33-36 | any later packet of the window, damaged or not, brings the ACK of the last packet delivered back into flight and changes nothing else |
| GoBackNTransfer.ReturnedAckReleases | server/strategy/go_back_N_strategy.cpp:57-77 | that ACK makes the sender's base catch up with the client |
| GoBackN.AcknowledgeWire | server/strategy/go_back_N_strategy.cpp:88-105 | an ACK puts no old packet on the wire, and over a lossless network every packet it fetches |
| GoBackNTransfer.StepKeeps | client/strategy/client_go_back_N_strategy.cpp:15-47 | every step, with ACKs of any content, keeps the system invariant |
| GoBackNTransfer.OutputIsPrefix | client/strategy/client_go_back_N_strategy.cpp:41-47 | in every run, with damaged data and any ACKs, the output is exactly the pieces below expected_seqno, a prefix of the file |
| GoBackNTransfer.CumulativeAckIsSound | server/strategy/go_back_N_strategy.cpp:57-105 | in every run an ACK k of the client that matches the window means that 0..k are delivered; the wrapped expected_seqno - 1 matches nothing |
| GoBackNTransfer.StaysInStepIff | server/strategy/go_back_N_strategy.cpp:57-77 | exactly which steps make the sender drop a packet the client does not have: an ACK with a number from expected_seqno to the end of the window |
| GoBackNTransfer.AckNumberIsSafe | server/strategy/go_back_N_strategy.cpp:57-77 | the same for an ACK by its number alone, in every reachable state |
| GoBackNTransfer.AnySenderCanBeMisled | server/strategy/go_back_N_strategy.cpp:60 | whenever the client misses a packet of the window, a damaged ACK misleads the sender |
| GoBackNTransfer.EndsEarlyIff | client/strategy/client_go_back_N_strategy.cpp:26-28 | a step ends the transfer without the whole file if and only if it brings an unfinished client a datagram that reads as empty within the window; that is a damaged one, or the end marker after the sender was misled |
| GoBackNTransfer.CompletionIsSound | client/strategy/client_go_back_N_strategy.cpp:26-28 | in every run without such a damaged datagram and without a misleading ACK the client is done only with the whole file and has all that the sender popped |
| GoBackNTransfer.AnyClientCanBeDeceived | client/strategy/client_go_back_N_strategy.cpp:26-28 | in every reachable unfinished state such a damaged datagram exists |
| GoBackNFinish.CanFinishIff | client/strategy/client_go_back_N_strategy.cpp:26-37 | in every state of every run: an unfinished transfer can still end with the whole file over an undamaging network if and only if it does not wait for an ACK that nobody sends and every packet the client needs is in flight or can be sent again; with the timer as intended the packets of the window can, without it, as the code's own timer hangs, none can |
| GoBackNFinish.CanFinishMeans | client/strategy/client_go_back_N_strategy.cpp:26-28 | to finish means to stop with an output that equals the file |
| GoBackNFinish.StartFinishesIff | server/strategy/go_back_N_strategy.cpp:20-29 | without the timer a transfer can end if and only if none of the first sends is lost |
| GoBackNFinish.DeadEndIsNear | client/strategy/client_go_back_N_strategy.cpp:26 | from every state with a packet in the window, a run that loses nothing but ACKs leads to a state that cannot end with the whole file, even with the timer |
| GoBackNObjects.GoBackNSender.constructor | server/strategy/go_back_N_strategy.cpp:14-18 | the object starts with the specified full window over batches of 200 packets |
| GoBackNObjects.GoBackNSender.FillWindow | server/strategy/rdt_strategy.h:56-60 | the base class loop fills the window up to its size or the end of the file |
| GoBackNObjects.GoBackNSender.Start | server/strategy/go_back_N_strategy.cpp:20-29 | starting sends the whole window once, in order, and establishes the invariant |
| GoBackNObjects.GoBackNSender.SendPacket | server/strategy/go_back_N_strategy.cpp:79-86 | sends and stamps one shared object and touches no other, in the window or in the builder's queue |
| GoBackNObjects.GoBackNSender.MarkBack | server/strategy/go_back_N_strategy.cpp:63-70 | the backward walk sets the ACK flag of exactly the packets up to the position found |
| GoBackNObjects.GoBackNSender.AdvanceWindow | server/strategy/go_back_N_strategy.cpp:88-105 | the pop, fetch and send loop does what the specified one does |
| GoBackNObjects.GoBackNSender.AcknowledgePacket | server/strategy/go_back_N_strategy.cpp:57-77 | one ACK on the object is one specified acknowledge step and keeps the invariant |
| GoBackNObjects.GoBackNSender.SendEmptyPacket | server/strategy/rdt_strategy.h:42-48 | the datagram sent at the end decodes to the empty packet numbered N although the counter ran ahead in batches |
| GoBackNObjects.GoBackNClient.Run | client/strategy/client_go_back_N_strategy.cpp:15-38 | one datagram on the object is one specified receive step, short datagrams fail and change nothing |
| GoBackNObjects.GoBackNClient.DeliverPacket | client/strategy/client_go_back_N_strategy.cpp:41-47 | exactly one write, of the packet's payload, and one more number expected |

## Left out

- Sockets, `select`, addresses, the request handshake and its resend loop (client/client.cpp, most of server/server.cpp): only "the end marker is sent after is_done" is kept.
- Threads, locks, sleeping and wall-clock time: ACKs and timeouts are atomic steps on a logical clock. The gaps between the lock regions of handle_time_out (server/strategy/selective_repeat_strategy.cpp, lines 111-152) are not modelled.
- The timer loop of Go-Back-N (server/strategy/go_back_N_strategy.cpp, lines 31-55), its `unacked_packets`, which nothing else reads, and the second time stamp that start sets: the loop hangs on its own lock. The model lets the intended timer resend any packet of the window at any time, and says what holds without it.
- Damaged data that still passes the checksum, beyond one wrong byte per datagram.
- Stop-and-Wait with a window size other than 1: the server always passes 1 (server/server.cpp, line 157).
- The random draw of packet_sender: a choice of the network.
- The default ACK constructor, getters, printing, the window size history, stats.txt, the argument parsers, the file writer's file handling and the plotting scripts: no hard property.
- `new`, `delete`, iterator validity and missing-file exits: packet objects are never freed here.
- Loss of the end marker, which is sent only once: the source assumes that it arrives (server/strategy/rdt_strategy.h, line 43). Safety does not use this; that a transfer ends does.
