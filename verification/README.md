# A verified model of the streaming core

A Dafny model of the C streaming core in `lib/src`, with proofs. It follows the code's own structure, one module per
component: the reliable part of the Takion transport, the GKCrypt key stream and its ring cache, the video pipeline, and
the framing and codecs of the control connection, the HTTP header and the input history.

Each component is stated twice. A specification function on values says what an operation means (a map over unwrapped
sequence numbers, a filter, a list of bits, a stream of bytes), and a class or method with the code's own loops, rings,
`memmove`s and modular arithmetic is proved equal to it. The main results are lemmas about the specification functions,
over every run, every interleaving, or every input.

- `SeqNum`, `ReorderQueue`, `ReorderRuns`, `SendBuffer`, `ResendPass`, `Takion`, `TakionProtocol`, `TakionDelivery`,
  `TakionGiveUp`: serial numbers, the reorder window, the retransmit buffer, and both ends as a state machine over a
  channel that loses, repeats and reorders.
- `KeyStream`, `KeyCache`, `KeyPos`: counter-mode key stream with AES as an arbitrary function on blocks, the ring cache
  shared with the generator thread, and key positions.
- `Bits`, `BitReader`, `NalReader`, `BitPatch`, `SliceHeader`, `SliceSyntax`, `SliceOutcomes`: the buffered bit reader
  against a list of bits, and rewriting the reference frame of an H.265 slice header.
- `FrameProcessor`, `FrameRecovery`, `VideoReceiver`, `VideoOutcomes`: frame assembly in place, the reference frame window
  over whole runs, and what becomes of each frame.
- `CtrlFraming`, `CtrlQueue`: the receive buffer and the message queue of the ctrl thread.
- `Feedback`, `FeedbackSender`, `InputReplay`: input events, the history ring, and what a receiver can rebuild.
- `Base64`, `HttpHeader`, `HttpFields`: text codecs.
- `Powers`, `Octets`, `Options`, `Sequences`, `Memory`: shared arithmetic, types, and library functions.

Run `dafny verify dfyconfig.toml` in this directory to check everything.

Some results are about where the code falls short of what one might expect of it; each has an exact condition:

- The resend thread, giving up on a packet, reads its number after releasing the mutex, and acks what it reads. That is
  the number of the packet it decided on exactly if no ack or push in between put another one into its slot
  (`TakionProtocol.RemovalIsJustified`); otherwise packets can go that were neither delivered nor repeated
  (`TakionGiveUp.UntriedPacketRemoved`).
- A pass of the resend thread that gives up on a packet leaves out as many of the packets behind it as there were before
  it, and one at least, due or not (`ResendPass.GiveUpSkips`).
- Messages share a GMAC counter exactly if one does not leave its block of the key stream, as only messages of fewer than
  eight bytes can fail to (`KeyPos.GmacCountersDiffer`, `KeyPos.SharedCounter`).
- Input events bring a receiver to the current touches exactly if the last report about each touch that is down was not
  its end (`InputReplay.RunReplays`): a touch that replaces another one in its slot is not reported until it moves
  (`InputReplay.ReplacedTouchIsLost`, `InputReplay.MovedTouchIsFound`).
- A stop request of the ctrl thread is lost exactly when a login PIN is sent while it is pending (`CtrlQueue.StopKept`,
  `CtrlQueue.StopStranded`).
- A ctrl thread that is woken and finds nothing to do leaves the wake-up byte in the pipe, and so is woken again at once
  until there is something to do (`CtrlQueue.SpinsExactly`, `CtrlQueue.LateWake`).
- The frames reported lost with one that error correction cannot complete are counted rightly exactly if the 16-bit index
  does not start again from zero among them; otherwise the count does not go up at all (`VideoOutcomes.LostIsCounted`,
  `VideoOutcomes.WrongCount`).
- The address of a later slice segment is read with the wrong code, and rightly only if it looks like that code
  (`SliceSyntax.AddressMisread`, `SliceSyntax.SecondSegmentMisread`).
- A header field with an empty value is not rejected although the code means to: the value becomes the carriage return
  behind it. Printing and parsing round-trips exactly for the fields of `HttpFields.Clean` (`HttpFields.RoundTrip`).
- Receiving an HTTP header stays within the buffer, however the stream is split, exactly if the whole stream fits into it,
  the bytes behind the header included (`HttpHeader.StaysInsideExactly`, `HttpHeader.LargeStreamLeaves`).
- Reference frames are matched by 16-bit numbers, which is right exactly for frames up to 2^16 back
  (`VideoReceiver.ReferenceIsExact`, `VideoReceiver.WrongMatch`).

## Model

| member | source | states |
|---|---|---|
| SeqNum.Unwrap | lib/include/chiaki/seqnum.h:21-37 | the integer nearest to a reference point with a given wrapped number: within half the number space of it |
| SeqNum.UnwrapNear | lib/include/chiaki/seqnum.h:21-37 | integers closer than half the number space to the reference point are recovered exactly from their residue |
| SeqNum.CompareUnwrapped | lib/include/chiaki/seqnum.h:21-37 | lt and gt against the wrapped reference point are order of the unwrapped numbers, and neither holds at half distance |
| SeqNum.CompareWrapped32 | lib/include/chiaki/seqnum.h:21-37 | for integers less than 2^31 apart, 32-bit lt and gt on their residues are integer order |
| ReorderQueue.SlotsDistinct | lib/src/reorderqueue.c:12-14 | numbers of a window no longer than the ring never share a slot |
| ReorderQueue.SlotOfWrapped | lib/src/reorderqueue.c:13-14 | wrapping a number to 32 bits does not change its slot |
| ReorderQueue.Queue.constructor | lib/src/reorderqueue.c:16-43 | an empty window at the start number, for every size_exp up to 30 |
| ReorderQueue.Queue.Push | lib/src/reorderqueue.c:63-127 | the window afterwards is Insert of the one before at the unwrapped number, and exactly Insert's dropped items reach the drop callback, in order, under both drop strategies |
| ReorderQueue.Queue.PushBeyondEnd | lib/src/reorderqueue.c:84-127 | the same for numbers at or beyond the window's end |
| ReorderQueue.Queue.MakeRoom | lib/src/reorderqueue.c:92-107 | dropping from the front leaves exactly the items that the new end has room for, the rest is dropped in order |
| ReorderQueue.Queue.ExtendTo | lib/src/reorderqueue.c:109-117 | extending clears exactly the new slots and keeps all items |
| ReorderQueue.Queue.Pull | lib/src/reorderqueue.c:129-146 | returns the item at the window's start if it is there and moves the window past it, and changes nothing otherwise |
| ReorderQueue.Queue.Fini | lib/src/reorderqueue.c:48-61 | all items still in the window reach the drop callback, in order |
| ReorderRuns.WindowInvariant | lib/src/reorderqueue.c:63-146 | over every run of pushes and pulls the window stays within the ring's size and holds only its items |
| ReorderRuns.Conservation | lib/src/reorderqueue.c:48-146 | over every run each pushed item is exactly one of pulled, dropped or pending, counted with multiplicity |
| ReorderRuns.PullOrder | lib/src/reorderqueue.c:129-146 | pulled numbers strictly increase; with the END strategy they are start, start + 1, and so on without gaps |
| ReorderRuns.PushFate | lib/src/reorderqueue.c:63-127 | for any window and number: one that is not behind the window, has not arrived and is within the ring's size, or, with the BEGIN strategy, beyond it, is kept with its own item, and of the others exactly those at least the ring's size behind it are dropped, in ascending order; any other number goes to the drop callback and changes nothing |
| ReorderRuns.RangeInOrder | lib/src/reorderqueue.c:48-61 | the items left at the end are dropped by ascending numbers, all of them and each once |
| ReorderRuns.ItemFate | lib/src/reorderqueue.c:63-146 | over every run an item that arrived waits under its number until it is pulled under it; with the BEGIN strategy it is dropped instead if and only if a number at least the ring's size ahead comes in while it waits |
| ReorderRuns.ArrivalsArePulled | lib/src/reorderqueue.c:63-146 | with the END strategy, once start to start + n - 1 have arrived, in any order, n pulls give back exactly the first item that arrived as each of them, in order |
| Memory.Memmove | lib/src/takionsendbuffer.c:174-191 | the moved range equals the source range before the call, whatever the overlap |
| SendBuffer.Buffer.Push | lib/src/takionsendbuffer.c:86-131 | overflow at capacity, refusal of a number already buffered, and otherwise the packet appended with no tries |
| SendBuffer.Buffer.Ack | lib/src/takionsendbuffer.c:133-200 | the lazy memmove compaction leaves exactly the packets not covered by the ack, in order, and behind them every slot of the array as it was, and reports exactly the covered numbers and their round-trip times, in order |
| SendBuffer.Buffer.CloseGap | lib/src/takionsendbuffer.c:184-194 | the last gap is closed and the count reduced to the survivors |
| SendBuffer.Buffer.WidenGap | lib/src/takionsendbuffer.c:160-180 | another acked packet: the survivors so far stay the filter of the packets seen |
| SendBuffer.Buffer.Resend | lib/src/takionsendbuffer.c:244-274 | a whole pass that no other thread interrupts, with the index steps of its give-up branch, is ResendFrom of the contents before |
| SendBuffer.AckPartitions | lib/src/takionsendbuffer.c:133-200 | every packet is reported or kept, never both, as multisets |
| SendBuffer.AckFilters | lib/src/takionsendbuffer.c:148-194 | and both keep the order of the buffer, each packet once |
| SendBuffer.UnackedAt | lib/src/takionsendbuffer.c:148-194 | an ack moves packets only towards the front, and the k-th one left was at k exactly if nothing up to there was covered |
| SendBuffer.AckChangesSlot | lib/src/takionsendbuffer.c:148-194 | an ack changes the number in a slot, used or stale, if and only if it leaves more packets than come before the slot and covers one up to it |
| SendBuffer.AckKeepsDistinct | lib/src/takionsendbuffer.c:133-200 | numbers in the buffer stay pairwise distinct under acks |
| SendBuffer.PushKeepsDistinct | lib/src/takionsendbuffer.c:86-131 | and under pushes |
| SendBuffer.ResendRemovesOnlyExhausted | lib/src/takionsendbuffer.c:244-274 | a resend pass that nothing interrupts removes a packet only if a packet with all its tries used up covers it, and keeps every other one's number and bytes |
| ResendPass.DueAfter | lib/src/takionsendbuffer.c:254-256 | a packet is due more than 200 ms after it was last sent, or if that lies in the future, and exhausted with 25 tries |
| ResendPass.PassRepeatsDue | lib/src/takionsendbuffer.c:251-273 | a pass with nothing to give up sends exactly the packets that are due, in their order and each once, and changes nothing but their time and tries |
| ResendPass.GiveUpSkips | lib/src/takionsendbuffer.c:256-267 | a pass over ascending numbers that gives up on one packet: what it sends, what it leaves, and that it leaves out the next packets, as many as came before the one given up, or one |
| Takion.Endpoint.FlushDataQueue | lib/src/takion.c:1130-1179 | pulls everything that is in order, reports it to the application, and acknowledges the last number if there was any |
| Takion.Endpoint.HandleNext | lib/src/takion.c:1134-1175 | one turn: the next entry leaves the queue, and reaches the application if it is long enough and of a known type |
| Takion.Endpoint.HandlePacketMessageData | lib/src/takion.c:1181-1206 | a packet shorter than its header changes nothing, any other is pushed and the queue flushed |
| Takion.FlushIs | lib/src/takion.c:1130-1179 | flushing takes the items from the front up to the first number that has not arrived, and leaves all others |
| Takion.EventsAreKnown | lib/src/takion.c:1142-1171 | the events, each put together again from its data type and content, are exactly the messages pulled whose first byte is 0, 7, 9 or 11, in order and each once |
| TakionProtocol.UnwrapMessage | lib/src/takion.c:1181-1206 | in every reachable state the queue's unwrapping recovers the true position of every packet in the channel, and never meets the half distance |
| TakionProtocol.StepInv | lib/src/takion.c:539-585 | every step of sender, resender, channel and receiver keeps the protocol invariant, the three steps of a give-up and all that comes between them included |
| TakionProtocol.AckResender | lib/src/takionsendbuffer.c:261-263 | an ack between the decision to give up and the read of the number leaves the exhausted packet's number in its slot if and only if it does not displace it, and then and ever after the packet is not behind the slot |
| TakionProtocol.PushResender | lib/src/takionsendbuffer.c:86-131 | the same for a push, which displaces a packet exactly by going into its emptied slot |
| TakionProtocol.RunInv | lib/src/takion.c:539-585 | the invariant holds in every state of every run |
| TakionProtocol.FlushInv | lib/src/takion.c:1130-1179 | flushing pulls exactly the next messages in order, and the ack names the last of them |
| TakionProtocol.PulledIsPrefixOfSent | lib/src/takion.c:1130-1206 | under any loss, repetition and reordering, the payloads pulled are always a prefix of those sent, and only ever grow |
| TakionProtocol.EventsArePrefix | lib/src/takion.c:1142-1171 | the application sees exactly a prefix of the events of the messages sent |
| TakionDelivery.EventsAreExact | lib/src/takion.c:1142-1171 | at every moment of every run the events are exactly the messages of these types among the first of those sent, as many as have been pulled |
| TakionDelivery.PulledIsArrived | lib/src/takion.c:1130-1206 | at every moment of every run the messages pulled are exactly those up to the first one of which no packet has arrived while it was among the 16 that follow those pulled |
| TakionDelivery.PulledIsAcknowledged | lib/src/takion.c:1176-1178 | in every run an ack goes out exactly when messages are pulled, with the number of the last of them |
| TakionProtocol.RemovalIsJustified | lib/src/takionsendbuffer.c:133-274 | a packet that a received ack removes from the send buffer was pulled already; the only other removal is the end of a give-up, which acks the number of a packet that had all its 25 tries if and only if that packet was not displaced from its slot between the decision and the unlocked read |
| TakionGiveUp.UntriedPacketRemoved | lib/src/takionsendbuffer.c:256-267 | a run in which an ack does come in between: a packet leaves the buffer that was neither pulled nor ever repeated |
| TakionGiveUp.PassIsSteps | lib/src/takionsendbuffer.c:251-273 | a pass of the resend thread that nothing interrupts is a sequence of protocol steps: it leaves the buffer that Buffer.Resend leaves, sends the packets that it sends, in order, and puts exactly these into the channel |
| KeyStream.CounterAddIsAddition | lib/src/gkcrypt.c:166-179 | the computed counter is base plus offset modulo 2^128 if and only if the first 64-bit addition does not wrap |
| KeyStream.CounterAdd | lib/src/gkcrypt.c:166-179 | the byte loop with its early exit writes that counter and nothing else |
| KeyStream.PositionCounter | lib/src/gkcrypt.c:166-279 | at every 64-bit key position the counter is the base plus the block number modulo 2^128 |
| KeyStream.GmacCounters | lib/src/gkcrypt.c:181-200 | at every 64-bit key position the GMAC key offset does not wrap, and both counters that a GMAC needs are the base plus the offset modulo 2^128 |
| KeyStream.GenKeyStream | lib/src/gkcrypt.c:217-279 | the area holds the key stream bytes of its positions, counters encrypted in place block by block |
| KeyStream.WriteCounters | lib/src/gkcrypt.c:250-253 | the area holds consecutive counters |
| KeyStream.DecryptInvolution | lib/src/gkcrypt.c:336-356 | decryption is its own inverse at every position |
| KeyStream.DecryptSplit | lib/src/gkcrypt.c:336-356 | decrypting any split of a buffer piecewise equals decrypting it whole |
| KeyStream.KeyByteIs | lib/src/gkcrypt.c:217-279 | at every 64-bit position the byte is that of the cipher's block for the little-endian sum, modulo 2^128, of the IV and the block number |
| KeyStream.DecryptedIsXor | lib/src/utils.h:96-105 | bit by bit, what decryption leaves is the exclusive or of the data and the key stream; of zeros it makes the key stream |
| KeyCache.InitInv | lib/src/gkcrypt.c:28-94 | a new cache is empty and agrees with the key stream |
| KeyCache.RoomForChunk | lib/src/gkcrypt.c:480-485 | whenever the generator starts a chunk the capacity assertion holds and the chunk lies within the ring |
| KeyCache.BeginInv | lib/src/gkcrypt.c:525-542 | skipping ahead, dropping the oldest chunk and starting a new one keep all populated bytes right |
| KeyCache.ScribbleInv | lib/src/gkcrypt.c:487-489 | whatever bytes the unlocked write leaves in its chunk, populated bytes are untouched |
| KeyCache.FinishInv | lib/src/gkcrypt.c:489-498 | the finished chunk extends the populated bytes by the right key stream |
| KeyCache.AnswerAgrees | lib/src/gkcrypt.c:286-334 | in any good state, from the ring or generated, the answer is the key stream at that position |
| KeyCache.ReaderAvoidsChunk | lib/src/gkcrypt.c:286-334 | no byte read from the ring lies in the chunk being written |
| KeyCache.StepInv | lib/src/gkcrypt.c:286-549 | every step of readers and generator keeps the cache good |
| KeyCache.CacheAgrees | lib/src/gkcrypt.c:286-549 | in every interleaving, every answer of get_key_stream is exactly what gen_key_stream would give |
| KeyCache.TurnExtends | lib/src/gkcrypt.c:525-542 | a turn of the generator: with the last request ahead of the ring, the ring then is the one chunk in which it ended; otherwise it has one more chunk, at the price of the oldest one only if it was full |
| KeyCache.RestsWhenAhead | lib/src/gkcrypt.c:465-478 | the generator rests exactly when the ring is full and the last request ended no further than in the middle of it |
| KeyCache.GkCrypt.constructor | lib/src/gkcrypt.c:28-94 | an empty ring of whole chunks |
| KeyCache.GkCrypt.GetKeyStream | lib/src/gkcrypt.c:286-334 | the buffer holds the key stream bytes of its positions, from the ring exactly if it has them all and one more; the last requested position is recorded, and a resting generator is signalled exactly if there is work now |
| KeyCache.GkCrypt.CopyFromRing | lib/src/gkcrypt.c:313-328 | one copy or two around the ring's end give the ring's bytes for the position |
| KeyCache.GkCrypt.Decrypt | lib/src/gkcrypt.c:336-356 | unaligned positions are padded to the block and cut again: the buffer becomes its exclusive or with the key stream at the position, bit by bit |
| KeyCache.GkCrypt.BeginChunk | lib/src/gkcrypt.c:480-542 | one turn of the generator up to its unlock |
| KeyCache.GkCrypt.FinishChunk | lib/src/gkcrypt.c:489-498 | the rest of the turn |
| KeyPos.ReserveCovers | lib/src/takion.c:426-450 | the reserved size covers the data exactly if the 64-bit sum does not wrap |
| KeyPos.AdvanceIs | lib/src/takion.c:426-450 | what a call hands out and moves on by, and when it fails |
| KeyPos.ReservationsDisjoint | lib/src/takion.c:426-450 | ranges reserved in any run are pairwise disjoint, ascending, and within 64 bits |
| KeyPos.PacketInsideReservation | lib/src/takion.c:677-707 | a feedback packet's encrypted bytes lie in its own range, behind the block its GMAC uses |
| KeyPos.NoKeyStreamReuse | lib/src/takion.c:426-707 | over any run that mixes feedback packets with other reservations no key stream byte encrypts twice, none of a feedback packet is reserved for anything else, and a GMAC block is free between feedback packets |
| KeyPos.NextCounter | lib/src/gkcrypt.c:358-361 | the reservation after this one has another GMAC counter if and only if this one reaches into a later block |
| KeyPos.GmacCountersDiffer | lib/src/gkcrypt.c:358-361 | over any run no two reservations share a GMAC counter if and only if every one but the last leaves its block |
| KeyPos.EightBytesLeaveBlock | lib/src/takion.c:426-450 | reservations of eight bytes and more always do |
| KeyPos.SharedCounter | lib/src/takion.c:426-450 | two reservations of one byte share a counter |
| KeyPos.Local.CryptAdvanceKeyPos | lib/src/takion.c:426-450 | hands out the old position and advances, or fails without change when 64 bits would overflow |
| KeyPos.Local.SendFeedbackPacket | lib/src/takion.c:677-707 | the encrypted range has the payload's size and lies between the old and the new position |
| KeyPos.RequestPosRecovers | lib/src/gkcrypt.c:556-568 | any 64-bit position less than 2^31 from the committed one is recovered from its low 32 bits |
| KeyPos.RequestPosIs | lib/src/gkcrypt.c:556-568 | for any low 32 bits: the nearest position with them, brought into 64 bits, and what happens at exactly half distance |
| KeyPos.RunRecovers | lib/src/gkcrypt.c:556-573 | along any run with such distances, in either direction, every position is recovered |
| KeyPos.KeyState.RequestKeyPos | lib/src/gkcrypt.c:556-568 | the result is that recovery, and is committed exactly on request |
| Bits.AppendBits | lib/src/vl_rbsp.h:63-110 | or-ing shifted bits into a packed buffer packs the longer bit list |
| Bits.TopBits | lib/src/vl_rbsp.h:155-160 | the right shift of a packed buffer is the value of its first n bits |
| Bits.DropBits | lib/src/vl_rbsp.h:165-172 | the left shift of a packed buffer packs the bits behind the first n |
| BitReader.GolombRoundTrip | lib/src/vl_rbsp.h:390-399 | reading the codeword of any k anywhere returns k and consumes 2 floor(log2(k + 1)) + 1 bits |
| BitReader.Vlc.constructor | lib/src/vl_rbsp.h:115-130 | for every length and alignment the reader stands at the first bit, with 32 bits buffered or all there are |
| BitReader.Vlc.AlignDataPtr | lib/src/vl_rbsp.h:63-72 | aligning changes nothing about the remaining bits |
| BitReader.Vlc.FillBits | lib/src/vl_rbsp.h:77-110 | filling changes nothing about the remaining bits, and leaves 32 of them buffered or all there are |
| BitReader.Vlc.EatBits | lib/src/vl_rbsp.h:165-172 | the remaining bits lose their first n |
| BitReader.Vlc.Peeks | lib/src/vl_rbsp.h:155-160 | peeking gives the value of the next n bits |
| BitReader.Vlc.GetUimsbf | lib/src/vl_rbsp.h:177-188 | returns the next n bits as a number and moves past them |
| NalReader.Rbsp.constructor | lib/src/vl_rbsp.h:303-336 | a payload reader at the NAL reader's position |
| NalReader.Rbsp.Silent | lib/src/vl_rbsp.h:359-370 | the escape scan never matches where no byte is 0x03 |
| NalReader.Rbsp.FillBits | lib/src/vl_rbsp.h:341-371 | filling keeps the position, whatever the escape scan looks at |
| NalReader.Rbsp.U | lib/src/vl_rbsp.h:376-385 | reads the value of the next n bits |
| NalReader.Rbsp.UE | lib/src/vl_rbsp.h:390-399 | reads an Exp-Golomb codeword of the bit list |
| NalReader.Rbsp.CountZeros | lib/src/vl_rbsp.h:394-396 | counts exactly the leading zeros and eats them and the one behind them |
| BitPatch.PatchBit | lib/src/bitstream.c:345-362 | the read-modify-write of two big-endian dwords changes exactly one bit of the input |
| BitPatch.OrSetsBit | lib/src/bitstream.c:345-362 | or with a one-bit mask sets that bit of the list and no other |
| BitPatch.AndClearsBit | lib/src/bitstream.c:345-362 | and with its complement clears it |
| SliceHeader.StartCodeTest | lib/src/bitstream.c:9-24 | the 32-bit peek equals 1 exactly at a start code, also on a buffer that ran out |
| SliceHeader.SkipStartCode | lib/src/bitstream.c:9-24 | succeeds exactly if a start code begins among the first 64 byte positions, and then stands behind it |
| SliceHeader.ReadSliceTypeCode | lib/src/bitstream.c:237-257 | the reader consumes exactly the header fields in front of the slice type, and the slice type |
| SliceHeader.ReadNegativePics | lib/src/bitstream.c:262-281 | and those in front of the pictures, giving their number |
| SliceHeader.ReadFirstUsed | lib/src/bitstream.c:283-293 | the first picture whose flag is set |
| SliceHeader.SliceH265 | lib/src/bitstream.c:227-300 | the whole parse is that of the bit list |
| SliceHeader.PatchFlag | lib/src/bitstream.c:345-362 | the reader's next bit is rewritten behind its back and its state stays valid |
| SliceHeader.RewriteFlags | lib/src/bitstream.c:336-367 | the loop leaves the input as the bit list with the flags 0 to k rewritten |
| SliceHeader.SetReferenceFrameH265 | lib/src/bitstream.c:302-370 | the whole rewrite is that of the bit list, and without a start code or with another NAL type nothing changes |
| SliceHeader.WithFlagsAt | lib/src/bitstream.c:336-367 | rewriting sets the k-th flag, clears the earlier ones and keeps every other bit |
| SliceHeader.FlagsAscend | lib/src/bitstream.c:336-367 | the flags written are at strictly ascending positions, k + 1 of them if it succeeds |
| SliceSyntax.ParseWritten | lib/src/bitstream.c:227-300 | of every header of the slice segment syntax (sections 7.3.6.1 and 7.3.7 of ITU-T H.265, with the flags listed under Left out absent) whose address the code reads, parsing gives back the slice type and the first picture used |
| SliceSyntax.RewriteWritten | lib/src/bitstream.c:302-370 | rewriting any such P slice succeeds exactly for its pictures, and leaves what would be written with that picture the first one used, or with none used where it fails |
| SliceSyntax.ReadsExactly | lib/src/vl_rbsp.h:390-399 | reading ue(v) at a field consumes exactly the field if and only if it is a codeword, whatever follows |
| SliceSyntax.AddressMisread | lib/src/bitstream.c:255-257 | behind the u(v) address of a later segment the code stands at the slice type if and only if the address bits happen to be a codeword |
| SliceSyntax.SecondSegmentMisread | lib/src/bitstream.c:327-335 | an instance: every P slice with the two-bit address 2 reads as type 3 or 4 and is refused by the rewriter |
| SliceOutcomes.FirstStart | lib/src/bitstream.c:9-24 | the start code found is the first at one of the byte positions 0 to 64, 31 zeros and a one; none is found exactly if there is none |
| SliceOutcomes.OtherUnit | lib/src/bitstream.c:242-320 | any other NAL unit type than 1 and 20 is rejected, and any but 1 refused by the rewriter, untouched |
| SliceOutcomes.ParseRefresh | lib/src/bitstream.c:242-275 | of a unit of type 20, behind no_output_of_prior_pics_flag, the slice type is read, and the reference frame left as it was |
| SliceOutcomes.ParseSpsSet | lib/src/bitstream.c:276-297 | a header that takes its reference picture set from the SPS has no reference frame and is refused by the rewriter |
| SliceOutcomes.TooManyPics | lib/src/bitstream.c:278-283 | more than 16 negative pictures are rejected, and refused by the rewriter |
| SliceOutcomes.OnlyPRewritten | lib/src/bitstream.c:331-335 | a slice that is no P slice is refused, untouched |
| SliceHeader.PatchThenParse | lib/src/bitstream.c:227-370 | if rewriting to k succeeds, only the flags 0 to k changed, and parsing the new bits reports a P slice with reference frame k |
| FrameProcessor.EmptyIsExact | lib/src/frameprocessor.c:207-229 | the erasure list is exactly the empty slots, ascending, as many as the counters say are missing |
| FrameProcessor.FilledUpdate | lib/src/frameprocessor.c:185-188 | filling an empty slot raises the count of exactly the ranges it is in |
| FrameProcessor.FrameProcessor.AllocFrame | lib/src/frameprocessor.c:67-148 | each error has its condition and leaves exactly the fields it had not reached, and success leaves empty slots, zero counters, the stride, and a zeroed buffer large enough for all units |
| FrameProcessor.FrameProcessor.PutUnit | lib/src/frameprocessor.c:150-191 | a unit that fits an empty slot is stored and counted in its range, anything else is refused and changes nothing |
| FrameProcessor.FrameProcessor.ReportPacketStats | lib/src/frameprocessor.c:193-198 | received and lost add up to the expected units, and received is the number of filled slots |
| FrameProcessor.FrameProcessor.Erasures | lib/src/frameprocessor.c:207-229 | the loop fills the array exactly, so neither assertion fails |
| FrameProcessor.FrameProcessor.RestoreSizes | lib/src/frameprocessor.c:246-260 | after decoding, the size of every source unit whose padding is below the unit size comes from its padding field |
| FrameProcessor.FrameProcessor.Compact | lib/src/frameprocessor.c:286-306 | the write cursor never overtakes a unit not copied yet, and the result is the concatenation of all unit payloads |
| FrameProcessor.FrameProcessor.MovePart | lib/src/frameprocessor.c:301-304 | the unit's payload stands at the write cursor and everything behind the unit is untouched |
| FrameProcessor.FrameProcessor.Flush | lib/src/frameprocessor.c:267-310 | the result code, the erasure list and the frame: with all source units, exactly the payloads of the units put, in order |
| FrameProcessor.OutputIsPayloads | lib/src/frameprocessor.c:286-306 | the concatenation over the slots is the concatenation of bytes 2 and up of the units that were put |
| FrameRecovery.UnitSizeIsFrames | lib/src/frameprocessor.c:81-90 | whichever source unit of a video frame comes first, its size and the padding it announces give the unit size of the frame; any other packet gives its own size |
| FrameRecovery.AllocErrorIs | lib/src/frameprocessor.c:67-138 | when allocation fails, and with which error |
| FrameRecovery.RestoredAt | lib/src/frameprocessor.c:246-260 | slot by slot, the size that a decoded unit's padding leaves, or the one there was |
| FrameRecovery.RecoveredFrame | lib/src/frameprocessor.c:246-306 | if error correction leaves the padded units that were sent at their places, the frame is exactly their payloads one after the other, whatever had been received |
| VideoReceiver.AddRefInv | lib/src/videoreceiver.c:10-26 | adding a frame keeps the window equal to the last 16 accepted frames |
| VideoReceiver.HaveRefIsRecent | lib/src/videoreceiver.c:28-34 | a frame is found exactly if it is among the last 16 accepted |
| VideoReceiver.FlushInv | lib/src/videoreceiver.c:160-236 | flushing keeps the run invariant: order, window, and references of every sample |
| VideoReceiver.PacketInv | lib/src/videoreceiver.c:83-158 | so does any packet |
| VideoReceiver.Run | lib/src/videoreceiver.c:83-236 | the state after any run of packets satisfies the invariant |
| VideoReceiver.FramesHandedOver | lib/src/videoreceiver.c:83-236 | over whole runs: frames are handed over in strictly increasing order, references match one of the last 16 accepted frames by 16-bit number, and the window is those frames |
| VideoReceiver.ReferenceIsExact | lib/src/videoreceiver.c:186-203 | the accepted frame that a reference matches is the frame meant, by unwrapped indices, if and only if it is no more than 2^16 + k frames back for reference k |
| VideoReceiver.WrongMatch | lib/src/videoreceiver.c:186-203 | a run of five packets whose last frame is handed over with a reference to a frame that was never accepted, matched by the number of one 2^16 older |
| VideoOutcomes.FlushOutcome | lib/src/videoreceiver.c:160-236 | in any reachable state: a complete frame is handed over as it is exactly if it refers to no frame or to one of the last 16 accepted; otherwise rewritten to the nearest of these further back, if there is one and the rewriter can; otherwise it is lost and counted; and what a failed one reports |
| VideoOutcomes.RecoveredToNearest | lib/src/videoreceiver.c:186-203 | over whole runs every recovered frame asked for a frame not accepted among the last 16, and refers to the nearest one further back that was; all others keep their header |
| VideoOutcomes.PacketOutcome | lib/src/videoreceiver.c:83-158 | in any reachable state: which packets do nothing, which open a frame and what gap is then reported, and when a frame is flushed |
| VideoOutcomes.LostIsCounted | lib/src/videoreceiver.c:167-176 | the lost frames of a range reported corrupt are counted rightly if and only if the index does not wrap in it |
| VideoOutcomes.WrongCount | lib/src/videoreceiver.c:167-217 | a run of three packets in which the callback is told of -65533 lost frames, where it is three |
| VideoReceiver.HandedOverAsParsed | lib/src/videoreceiver.c:183-228 | with the parser and the rewriter on the bits of the frame, the header recorded for a sample is what parsing the bits handed over gives, rewritten or not |
| VideoReceiver.VideoReceiver.AddRefFrame | lib/src/videoreceiver.c:10-26 | the array afterwards is AddRef of the one before, whether shifting or taking a free entry |
| VideoReceiver.VideoReceiver.HaveRefFrame | lib/src/videoreceiver.c:28-34 | whether the frame is in the array |
| VideoReceiver.VideoReceiver.FlushCurrent | lib/src/videoreceiver.c:160-236 | the state afterwards, for every outcome of frame processor, parser, rewriter and callback, and without a callback |
| VideoReceiver.VideoReceiver.FindReference | lib/src/videoreceiver.c:191-203 | the nearest reference from there on whose frame is in the array, of the 16 there can be |
| VideoReceiver.VideoReceiver.HandleAvPacket | lib/src/videoreceiver.c:83-158 | the state afterwards, for every packet |
| CtrlFraming.FramesOfEncoded | lib/src/ctrl.c:327-349 | framing any encoded list of messages, whatever follows it, gives exactly these messages first and then the framing of the rest |
| CtrlFraming.FramesAre | lib/src/ctrl.c:327-349 | byte by byte: type and payload of the first message, when it is complete, and when the buffer overflows |
| CtrlFraming.FramesAppend | lib/src/ctrl.c:327-349 | framing a stream in two parts, the rest of the first carried over, equals framing it whole |
| CtrlFraming.ChunkingIrrelevant | lib/src/ctrl.c:324-509 | however recv splits the stream, the messages handed over are the framing of all bytes, and failure is exactly overflow |
| CtrlFraming.RoomAfterPass | lib/src/ctrl.c:326-355 | after a pass overflow is flagged or a byte of the buffer is free |
| CtrlFraming.RoomToReceive | lib/src/ctrl.c:492-509 | so recv always has room in every reachable state |
| CtrlFraming.Incoming.constructor | lib/src/ctrl.c:1391-1394 | bytes received beyond the HTTP header are the first of the stream |
| CtrlFraming.Incoming.ParsePass | lib/src/ctrl.c:326-355 | one pass over the buffer is the framing of its bytes |
| CtrlFraming.Incoming.TakeMessage | lib/src/ctrl.c:342-348 | the first message is handed over and memmove brings the rest to the front |
| CtrlFraming.Incoming.Receive | lib/src/ctrl.c:492-509 | received bytes are appended |
| CtrlQueue.StepInv | lib/src/ctrl.c:198-398 | every step of senders and ctrl thread, its exits included, keeps order and wake-up |
| CtrlQueue.NoMessageStranded | lib/src/ctrl.c:357-398 | in every interleaving messages go out in order, each once; while the thread waits with a nonempty queue a wake-up byte is in the pipe or about to be written |
| CtrlQueue.WokenOutcome | lib/src/ctrl.c:364-398 | a woken thread sends everything queued, and a PIN; it stops exactly for a stop request without a PIN, and empties the pipe exactly if it has sent something and goes on |
| CtrlQueue.SpinsExactly | lib/src/ctrl.c:364-398 | it is woken again at once, in the very same state, if and only if there was nothing to do |
| CtrlQueue.LateWake | lib/src/ctrl.c:231-232 | a run that gets there: of two messages sent together, the second one's wake-up comes late |
| CtrlQueue.StopKept | lib/src/ctrl.c:171-178 | the wake-up of a stop request survives a step if and only if the step does not send a login PIN while the request is pending |
| CtrlQueue.StopNotStranded | lib/src/ctrl.c:364-398 | in every run without such a step a thread with a stop request pending has a byte to wake it |
| CtrlQueue.StopObeyed | lib/src/ctrl.c:386-390 | and in such runs a thread waiting with a stop request is woken when it returns from select, and stops when it then acts, with all messages sent |
| CtrlQueue.StopStranded | lib/src/ctrl.c:376-392 | a run with such a step: the thread waits with the stop request set and an empty pipe |
| CtrlQueue.Outgoing.SendMessage | lib/src/ctrl.c:221-232 | the list of entries is walked to its end, and the new one linked behind the last; the queue is the old one with the message appended |
| CtrlQueue.Outgoing.SendFirst | lib/src/ctrl.c:369-373 | the first entry is sent and unlinked, the others stay linked in order |
| CtrlQueue.Outgoing.HandleCancelled | lib/src/ctrl.c:364-398 | draining the list sends the whole queue in order; then the PIN, a stop or the reset of the pipe, exactly as the step says |
| Feedback.DecodeEncoded | lib/src/feedback.c:87-165 | an event in front of anything decodes with its own length, and to itself exactly if it is one the format can express |
| Feedback.DecodeFlat | lib/src/feedback.c:183-199 | a packet decodes to the events it was made of |
| Feedback.PushSlot | lib/src/feedback.c:201-208 | stepping the ring's start back puts the new event first and drops only the oldest of a full ring |
| Feedback.HistoryEvent.SetButton | lib/src/feedback.c:87-154 | accepts exactly the known buttons, and writes their bytes |
| Feedback.HistoryEvent.SetTouchpad | lib/src/feedback.c:156-165 | writes the bytes of the touch |
| Feedback.HistoryBuffer.constructor | lib/src/feedback.c:167-176 | an empty ring |
| Feedback.HistoryBuffer.Push | lib/src/feedback.c:201-208 | the ring holds the new event and then the latest before it |
| Feedback.HistoryBuffer.Format | lib/src/feedback.c:183-199 | succeeds exactly if everything fits, and then writes all entries, newest first, and nothing else |
| FeedbackSender.EqualStatesHaveNoEvents | lib/src/feedbacksender.c:142-157 | states that compare equal for the history have no events between them, so skipping them loses nothing |
| FeedbackSender.OneEventPerButton | lib/src/feedbacksender.c:181-198 | exactly the buttons that changed have an event, one each, with their new state, by ascending bits |
| FeedbackSender.OneEventPerControl | lib/src/feedbacksender.c:200-247 | a trigger or touch slot has one event or none, and none exactly if nothing to report has changed |
| FeedbackSender.PacketDecodes | lib/src/feedbacksender.c:159-173 | the packet after the k-th event decodes to the last 16 events or fewer, newest first |
| FeedbackSender.PacketFits | lib/src/feedbacksender.c:159-173 | formatting into the packet buffer never runs out of space |
| FeedbackSender.FeedbackSender.PushAndSend | lib/src/feedbacksender.c:159-173 | one event, one packet with the next number, and all packets so far as they should be |
| FeedbackSender.FeedbackSender.SendTouch | lib/src/feedbacksender.c:226-247 | the events of one touch slot |
| FeedbackSender.FeedbackSender.SendHistory | lib/src/feedbacksender.c:175-248 | the history grows by exactly the events between the two states, buttons by ascending bit, triggers, touches |
| FeedbackSender.FeedbackSender.HandleState | lib/src/feedbacksender.c:277-301 | so it does in a turn of the thread, which skips equal states |
| InputReplay.ReceiverRebuilds | lib/src/feedbacksender.c:159-248 | a receiver that never misses 16 consecutive packets rebuilds the whole event sequence through loss, repetition and reordering, from 16-bit packet numbers |
| InputReplay.MissedEventInvisible | lib/src/feedback.c:201-208 | and without one of the 16 packets behind an event, all others are the same for any other event in its place |
| InputReplay.ReplayButtons | lib/src/feedbacksender.c:181-198 | the button events bring exactly the buttons to their new state |
| InputReplay.TouchesReplay | lib/src/feedbacksender.c:226-247 | from a receiver that sees all touches, of states without the same touch in both slots: it goes on to see them all if and only if none was replaced in its slot or moved forward |
| InputReplay.ShownStep | lib/src/feedbacksender.c:226-247 | the reports of both slots turn the map of what was known into the map of what NextShown says is known, for any two states |
| InputReplay.SeesExactly | lib/src/feedbacksender.c:226-247 | the receiver has the touches as they are if and only if it knows every touch that is down |
| InputReplay.ReplayChanges | lib/src/feedbacksender.c:175-248 | whatever a receiver knows of the touches, the events between two states carry buttons and triggers over, and change what it knows exactly as NextShown says |
| InputReplay.ReplacedTouchIsLost | lib/src/feedbacksender.c:228-235 | an instance where a new touch is never reported |
| InputReplay.MovedTouchIsFound | lib/src/feedbacksender.c:236-246 | a touch lost that way is known again once it moves |
| InputReplay.RunReplays | lib/src/feedbacksender.c:256-305 | over any run of states, replaying the history gives the buttons and triggers of the last state always, and its touches if and only if Sees holds of what the reports of the run leave known |
| InputReplay.ReceiverSeesController | lib/src/feedbacksender.c:159-305 | end to end, a receiver that missed no 16 packets in a row and has the last one sees buttons and triggers as they are, and the touches under exactly that condition |
| InputReplay.HistoryExact | lib/src/feedbacksender.c:175-248 | with 12-bit touch positions all events of a run are ones the format can express |
| Base64.ClassifyInvertsSymbol | lib/src/base64.c:86-98 | the decoder's table maps exactly the symbols to values, each to its own |
| Base64.UnpackPacked | lib/src/base64.c:10-153 | unpacking the sextets of any byte string gives it back |
| Base64.ScanWithoutNewlines | lib/src/base64.c:113-114 | newlines anywhere in a text do not change what the decoder reads |
| Base64.DecodeEncoded | lib/src/base64.c:100-153 | decoding an encoding, with newlines inserted anywhere, gives the bytes if they fit the capacity and the size error if not |
| Base64.DecodeUntil | lib/src/base64.c:100-153 | of a text that goes on behind its symbols, newlines anywhere, what follows a '=' is ignored and any other character is an error, reported after a lack of space for the full groups in front of it |
| Base64.EncodedInjective | lib/src/base64.c:10-80 | different byte strings have different texts |
| Base64.Encode | lib/src/base64.c:10-80 | succeeds exactly if the output has room for the text and its terminator, and writes exactly these |
| Base64.EncodeGroup | lib/src/base64.c:22-62 | the symbols of up to three bytes are appended as far as there is room |
| Base64.Decode | lib/src/base64.c:100-153 | error code, reported size and the whole output, also what an error leaves behind |
| Base64.DecodeLast | lib/src/base64.c:137-152 | the same for the incomplete last group |
| HttpHeader.StateIsLongestMatch | lib/src/http.c:132-139 | until the end mark is complete the state is the length of its longest beginning that the text ends with |
| HttpHeader.StateStep | lib/src/http.c:164-183 | the state reaches 4 exactly at the first end mark |
| HttpHeader.Scan | lib/src/http.c:164-183 | the inner loop stops behind the first end mark or consumes the chunk |
| HttpHeader.RecvHttpHeader | lib/src/http.c:130-193 | however recv splits the stream, header_size is the end of its first CRLFCRLF, received_size what has been received by then, and those bytes are in memory from the start of the buffer on, and nothing else has changed |
| HttpHeader.StaysInsideExactly | lib/src/http.c:143-163 | for every stream and buffer size: what is received stays inside the buffer however recv splits the stream, if and only if the whole stream fits |
| HttpHeader.LargeStreamLeaves | lib/src/http.c:154-163 | a split of any larger stream that leaves the buffer: one byte, and then a call that delivers all it is asked for |
| HttpHeader.OneCallStaysInside | lib/src/http.c:154-163 | a header that comes in one call stays within the buffer whatever follows it |
| HttpFields.ParsePrinted | lib/src/http.c:26-85 | printing clean fields in front of any text and parsing it adds exactly these fields, reversed |
| HttpFields.ParseEmptyValue | lib/src/http.c:45-67 | an empty value becomes the carriage return behind it |
| HttpFields.ParseNoColon | lib/src/http.c:60-65 | a line without a colon is an error, but skipped with no more than one character |
| HttpFields.ParseNothingThere | lib/src/http.c:44-56 | an empty key, or a text that ends behind the colon, is an error |
| HttpFields.ParseUnfinished | lib/src/http.c:33-83 | a last line without its end is dropped, also in front of a terminator |
| HttpFields.ParseTight | lib/src/http.c:49-58 | the space behind the colon may be missing |
| HttpFields.ParsedAreClean | lib/src/http.c:26-85 | whatever the input, parsed keys are clean and values clean or empty |
| HttpFields.RoundTrip | lib/src/http.c:26-85 | a list of fields printed and parsed comes back reversed if and only if all its fields are clean |
| HttpFields.ParseInPlace | lib/src/http.c:26-85 | the pointer walk succeeds exactly when the line-by-line parse does, its pointers are C strings of exactly these fields, and only terminators were written |

## Left out

- Sockets, select, threads, condition variables, clocks, logging and allocation failures: parameters, atomic steps, or absent.
- AES, GMAC, ECDH, HMAC, FEC decoding, video and audio decoders: arbitrary functions or results where one is needed.
- chiaki_reorder_queue_drop and chiaki_reorder_queue_peek, and with them the one place that calls them, where Takion checks the MACs of waiting packets again once a key is there (lib/src/takion.c:898-918): drop never clears the slot it drops, and peek writes through a null pointer that this caller passes. The 16-bit queue is not used by the code.
- ReorderQueue.Queue.Push: requires that a push into an empty queue, or one of a single slot, is not at exactly half distance, where the code's comparisons exclude each other; TakionProtocol.UnwrapMessage shows that Takion never does that.
- Takion.Endpoint.HandlePacketMessageData: the same for the packets that reach the queue.
- ReorderQueue.Queue.Fini: the drop callback is a log of its calls.
- Takion headers, MACs, the handshake, postponed packets and congestion control. A full send buffer, which the sender ignores, is part of the model.
- SendBuffer.Buffer.Resend: a pass that no other thread interrupts; TakionProtocol has the interrupted ones, step by step.
- TakionProtocol.RemovalIsJustified: the unlocked read falls between the other threads' mutex-protected blocks, not into the middle of a memmove.
- TakionProtocol.PulledIsPrefixOfSent: fewer than 2^31 messages in one connection.
- TakionDelivery.PulledIsArrived: which packets the channel delivers at all is up to the channel.
- ResendPass.GiveUpSkips: one packet to give up, and numbers in ascending order around it.
- KeyCache.CacheAgrees: positions stay so far below 2^64 that the cache's run-ahead does not wrap.
- KeyStream.GenKeyStream: positions and sizes are multiples of the block size, as the code asserts; positions stay within 2^64.
- KeyPos.PacketInsideReservation: payload sizes for which the reservation's own sum does not wrap.
- The GMAC side of key positions, and gkcrypt_gen_key_iv.
- NalReader.Rbsp.FillBits: removal of emulation prevention bytes is not modelled; payloads have none within reach of the reader.
- NalReader.Rbsp.constructor: payloads hold a single NAL unit, so the search for the next start code finds none.
- NalReader.Rbsp.UE: codewords with at most 30 leading zeros, beyond which the C shift is undefined.
- SliceHeader.SkipStartCode: inputs of fewer than 64 bytes without a start code run the reader dry, which the code's assertions forbid.
- SliceSyntax.ParseWritten: no dependent slice segments, extra slice header bits, pic_output_flag or separate colour planes, and no short-term sets in the SPS, all of which the code knows nothing of, except that SliceOutcomes.ParseSpsSet has a set taken from there; the address of a later segment is one that AddressReads accepts.
- H.264 slices, and the sequence parameter sets that give the picture order count its width.
- FrameProcessor.FrameProcessor.PutUnit: not for unit_index equal to the number of slots, which the code's check lets through.
- FrameProcessor.FrameProcessor.Flush: no more than once per frame, since a second flush counts erasures that the first one restored; FEC decoding may leave anything in the buffer.
- VideoReceiver.VideoReceiver.FlushCurrent: frames_lost is an unbounded number; parser and rewriter are any functions of the frame, and VideoReceiver.HandedOverAsParsed puts those of SliceHeader in.
- CtrlFraming.Incoming.ParsePass: length fields up to 2^32 - 9, where the 32-bit sum with the header size does not wrap; the TCP path only.
- CtrlQueue.NoMessageStranded: messages sent from other threads past the queue are left out.
- The feedback state packets, which are floating point; FeedbackSender.FeedbackSender.HandleState covers the history only.
- InputReplay.TouchesReplay: TouchesDistinct, which chiaki_controller_state_or can break by merging two controllers; RunReplays and ReceiverSeesController do without it, reading a state with one touch at two places as the second slot's.
- InputReplay.ReceiverRebuilds: the receiver is not part of the repository; the one here is a reference that shows the packets suffice.
- Base64.Decode: texts of seven-bit characters, since others index the table with a negative char.
- HttpHeader.RecvHttpHeader: nothing but recv writes to the memory that the stream reaches.
- The HTTP status line, registration, discovery, audio, packet statistics, rpcrypt's key tables, the protobuf messages, and everything outside lib.
