# OpenDmxReceiver: a verified model of the DMX receive pipeline

This project models, in Dafny, how raw tty bytes become published DMX512 frames, how frames of several
sources are merged, and how merged frames travel over Art-Net. Each imperative part of the program is a
class or a method with loops, proved against a small machine on values; the theorems are about those
machines and hold for every input and every run.

* `Dmx.dfy`: bytes, frames, line events, and the ordered stream of data bytes and events.
* `Parmrk.dfy`: the PARMRK escape automaton (section 11.2.2 "Input Modes" of IEEE Std 1003.1, Base
  Definitions), its round trip, and the buffered decoder.
* `SerialPort.dfy`: `ReadChunk` over two fixed buffers, against a reference for what a list of reads stands for.
* `BreakVote.dfy`: the vote that vets inferred breaks.
* `BreakFraming.dfy`, `DriverFraming.dfy`, `InferredFraming.dfy`: framing on line events; what it emits with
  driver-reported and with inferred breaks.
* `Alignment.dfy`, `FallbackFraming.dfy`, `FallbackSync.dfy`, `FallbackGaps.dfy`, `FallbackErrors.dfy`: framing on
  length alone; the hunt, sync, idle gaps and line errors.
* `Provenance.dfy`: every emitted frame is a window of the received data.
* `Receiver.dfy`, `EndToEnd.dfy`, `PowerUp.dfy`, `IdleEndToEnd.dfy`: the receiver's two loops, and theorems from tty
  reads to frames, in every mode.
* `Channels.dfy`: bounded channels whose consumer may receive at any point.
* `Htp.dfy`, `Merger.dfy`, `MergerRuns.dfy`: the highest-takes-precedence merge, the merger, and its runs.
* `ArtNet.dfy`, `Node.dfy`, `Bridge.dfy`: the packet codec, the node with its loopback filter, and the running
  program: setup, merger calls, sending, forwarding, and what comes back from the network.

Reads of the operating system are an arbitrary script of results whose end is a failed read, clock readings are an
arbitrary function, map iteration picks any remaining key, and a consumer takes any number of elements at the marked
points. The program's goroutines are an arbitrary interleaving of events.
A byte is an integer in 0..255; a frame owns 512 channel slots and a length, as in the program. The platform
constants (breaks inferred from short reads, USB payload size) are parameters.

Where the program and its comments differ, the model follows the program:

* The relearning branch of the vote cannot be reached from the receiver, because a locked receiver handles breaks
  itself; in a receiver run a lock is permanent (`InferredFraming.LockPermanent`), and relearning is a property of
  the class (`BreakVote.LockHeldIff`).
* Inferred breaks frame correctly from power-up only for full-size packets: a shorter packet is learned one channel
  too long, its stray byte being counted (`InferredFraming.ExactIffFullSize`).
* Noise while the length is learned can put the lock off the packet boundary (`InferredFraming.SpuriousLock`); the
  framing after it is exact if and only if the full length was locked on a boundary (`InferredFraming.LockExactIff`).
* A wrong alignment is dropped only when a byte at the stride is not zero (`FallbackSync.LosesSyncIff`).
* In fallback mode a line error abandons the open frame only if it arrives with data, and then that data, which
  precedes the error, is kept for the hunt (dmx/receiver.go:330-381; `FallbackErrors.ErrorAbandonsIff`); a frame can
  span an error (`FallbackErrors.ErrorSpanned`).
* An idle gap resynchronises the fallback receiver except right after a lone start code or with a single byte buffered
  (`FallbackGaps.GapResyncsIff`).
* One call of the decoder can put out one byte more than it is given, when it starts after a lone FF; the exact bound
  counts held bytes (`Parmrk.Accounting`).
* The loopback filter works exactly for universes closed under the cut to 15 bits (`Node.LoopbackClosedIff`); the
  configuration does not check the range, and universe 40000 does come back (`Node.WideUniverseLoopsBack`).
* Remapping an active source forgets it without a disconnected event (`MergerRuns.RemapSoundIff`).

Verify with `dafny verify dfyconfig.toml`. Nothing was executed: the claims are about the model.

## Model

| member | source | states |
|---|---|---|
| Parmrk.RunAppend | dmx/parmrk.go:29-33 | decoding with carried escape state is a homomorphism: a stream cut in two decodes as the whole |
| Parmrk.ChunkInvariance | dmx/parmrk.go:29-90 | decoding any list of pieces with carried state equals decoding their concatenation |
| Parmrk.RoundTrip | dmx/parmrk.go:3-15 | decoding an escaped line of bytes, breaks and errors returns that line, with only the erroneous byte's value forgotten |
| Parmrk.LoneFF | dmx/parmrk.go:72-78 | a lone FF after any escaped line is data, and so is the byte after it |
| Parmrk.EndsOnEventIff | dmx/parmrk.go:80-87 | bytes end on an event exactly if the last thing they decode to is one and nothing is held |
| Parmrk.Accounting | dmx/parmrk.go:48-90 | items put out plus bytes held in the new state never exceed bytes consumed plus bytes held before |
| Parmrk.PassFollowsStep | dmx/parmrk.go:52-87 | one pass of the loop keeps the decoder in step with the reference, also when it puts out a lone FF without consuming the next byte |
| Parmrk.Decoder.Decode | dmx/parmrk.go:48-90 | what is consumed is decoded as the reference does, data appended after the existing prefix, stopping exactly at the first event; no event means all consumed |
| SerialPort.SplitInvariance | dmx/serial_unix.go:171-182 | with driver-reported breaks, the stream of data and events depends on the bytes read, not on how reads split them |
| SerialPort.InferenceKeepsData | dmx/serial_unix.go:174-212 | breaks inferred from short reads never add, drop or reorder data bytes, for any reads and any platform constants |
| SerialPort.PlainReads | dmx/serial_unix.go:206-212 | where no byte is escaped, every read stands for its bytes, followed by a break exactly if breaks are inferred and the read is below the payload size |
| SerialPort.PendingIff | dmx/serial_unix.go:173-182 | an inferred break is still to come exactly if some read was short and it and every later one ended on an event |
| SerialPort.ReadAdds | dmx/serial_unix.go:173-212 | a read adds what it decodes to and then one break exactly if it is short or one is owed, unless it ends on an event itself |
| SerialPort.DueIsPrefix | dmx/serial_unix.go:190-204 | the results that count are the script up to its first failed one, an end of file failing only on a pollable descriptor |
| SerialPort.LookDecode | dmx/serial_unix.go:173-182 | a decoding pass, with or without a pending inferred break, leaves the whole stream unchanged, and a silent pass moves deeper into an escape |
| SerialPort.LookServe | dmx/serial_unix.go:154-164 | serving part or all of the decoded data leaves the whole stream unchanged, the event staying behind until the data is out |
| SerialPort.SerialPort.DecodeCarry | dmx/serial_unix.go:173-182 | runs only when nothing is undelivered in the output buffer, and keeps delivered, decoded, pending and carried parts equal to the reference stream |
| SerialPort.SerialPort.Fill | dmx/serial_unix.go:190-212 | runs only when nothing undecoded is in the carry buffer, and keeps the port equal to the reference stream with one more result, a read or an idle line |
| SerialPort.SerialPort.ReadChunk | dmx/serial_unix.go:151-214 | delivers the next stretch of the reference stream for any reads and caller buffer; reports an idle line exactly where one was met, all before it delivered; failure only when all is delivered; at most three underlying reads; no result lost or repeated; progress |
| BreakVote.BreakValidator.Best | dmx/receiver.go:138-143 | whatever the iteration order, the winner is the length with most votes, longest among equals |
| BreakVote.BreakValidator.Classify | dmx/receiver.go:114-149 | the map of counters behaves as a multiset of votes: verdict and whole new state |
| BreakVote.Learning | dmx/receiver.go:134-148 | with fewer than 24 positive lengths seen, the votes are exactly their tally, the votes sum to `seen`, and there is no lock |
| BreakVote.LockTaken | dmx/receiver.go:137-146 | the 24th positive length takes the lock, for the elected length of all 24 |
| BreakVote.MajorityWins | dmx/receiver.go:91-94 | any length with 13 of the 24 votes is elected |
| BreakVote.LockHeldIff | dmx/receiver.go:119-132 | the lock is dropped exactly when one single other length has been rejected 24 times since it was taken |
| BreakVote.DriverVerdict | dmx/receiver.go:115-117 | driver breaks are always boundaries and published |
| BreakVote.LearningVerdict | dmx/receiver.go:134-148 | while learning every break is a boundary and nothing is published |
| BreakVote.LockedVerdict | dmx/receiver.go:119-132 | under a lock exactly the locked length is a boundary and published |
| BreakVote.Pigeonhole | dmx/receiver.go:119-132 | with lengths in 0..512 a lock survives at most 23 * 512 rejections |
| BreakVote.PigeonholeIsTight | dmx/receiver.go:119-132 | and there is a history in which it survives exactly that many |
| BreakFraming.FramesAppend | dmx/receiver.go:174-256 | framing in pieces with carried state is framing the whole, so chunking is irrelevant |
| BreakFraming.Resyncs | dmx/receiver.go:225-254 | in every mode a line error, or another start code, silences the receiver until the next break, which starts afresh with the open frame forgotten and the vote kept |
| DriverFraming.DriverExact | dmx/receiver.go:162-257 | with driver-reported breaks the frames are exactly the stretches between two breaks with no event between, start code 0 and at least one channel, cut to 512, in order |
| DriverFraming.SegmentIff | dmx/receiver.go:225-254 | a break closes a frame exactly when the data since an opening break is a zero start code and channels |
| DriverFraming.HoldingByte | dmx/receiver.go:189-222 | a data byte emits nothing and extends what the receiver holds by exactly that byte |
| InferredFraming.KeptStep | dmx/receiver.go:189-254 | one byte or event keeps the run invariant; a lock never changes and a frame is emitted only at the locked length |
| InferredFraming.RunInvariant | dmx/receiver.go:200-249 | over every run: no frame before the lock, the lock in 1..512, every frame of exactly the locked length, an open frame strictly shorter |
| InferredFraming.LockPermanent | dmx/receiver.go:227-235 | once a receiver run has a lock, no continuation changes the vote |
| InferredFraming.BreaksIgnored | dmx/receiver.go:226-235 | a locked receiver that does not lose the boundary frames as if there were no breaks |
| InferredFraming.InferredExact | dmx/receiver.go:189-235 | locked at a packet boundary, packets of the locked size plus a stray byte are emitted exactly, wherever the stream is cut and wherever breaks are claimed |
| InferredFraming.BreakNoiseIrrelevant | dmx/receiver.go:226-235 | two runs that differ only in chunking and break placement emit the same frames |
| InferredFraming.RelockedExact | dmx/receiver.go:227-254 | after any run with a lock: from where the boundary is lost nothing is emitted until the next break, and packets of the locked size after it are emitted exactly |
| InferredFraming.ExactIffFullSize | dmx/receiver.go:82-94 | from power-up on a noise-free stream, everything after the 24 learning packets is emitted exactly if and only if packets carry 512 channels |
| InferredFraming.LockExactIff | dmx/receiver.go:112-149 | on full-size packets with events anywhere, the break that takes the lock is followed by exact framing, whatever the later bytes and breaks, if and only if it locks 512 and the data before it is a whole number of packets |
| InferredFraming.SpuriousLock | dmx/receiver.go:225-249 | after 23 clean packets a spurious break among the channels of the next one locks 512 off the boundary, and framing is not exact |
| Provenance.BreakModeProvenance | dmx/receiver.go:162-257 | in both break-detecting modes every frame is a window of the received data right after a zero byte, windows disjoint and in order |
| Alignment.AlignmentIsLeast | dmx/receiver.go:17-45 | the offset is sound, least and complete: the smallest whose every boundary in the buffer is zero, at least two of them, and none only if there is none |
| Alignment.CheckOffset | dmx/receiver.go:33-39 | the pairwise scan accepts an offset exactly when all its boundaries are zero |
| Alignment.FindAlignment | dmx/receiver.go:28-45 | the nested scans compute that offset |
| FallbackFraming.FallbackSafety | dmx/receiver.go:290-385 | over every run the hunting buffer is a suffix of the received bytes, empty unless hunting, at most 2052 bytes; the open frame has room; every frame is a window of the received bytes, in order |
| FallbackFraming.TidyRun | dmx/receiver.go:290-385 | in every state a run reaches only a hunt buffers bytes, and a frame that is not open holds no channel |
| FallbackSync.ConsumeInSync | dmx/receiver.go:290-313 | zeros at the stride keep sync, and the completed packets are emitted once and in order |
| FallbackSync.SyncLostIff | dmx/receiver.go:293-301 | consuming from sync ends in the hunt exactly when some boundary byte is not a start code |
| FallbackSync.WindowsAt | dmx/receiver.go:303-310 | the emitted packets are as many as fit, the k-th made of the 512 bytes after the k-th start code |
| FallbackSync.HoldsSync | dmx/receiver.go:259-264 | from any hunting state with anything buffered, on any reads: nothing is emitted before the hunt settles; while the bytes at the stride from there are start codes, every packet is emitted once, in order, and the hunt is never re-entered |
| FallbackSync.FreshHunt | dmx/receiver.go:365-382 | with nothing buffered, on full-size packets joined anywhere, the hunt ends exactly when 1026 bytes are buffered, on an offset no later than the true one |
| FallbackSync.TrueBoundaryStays | dmx/receiver.go:259-264 | whatever was buffered before, a hunt that settles on a true boundary has only start codes at the stride from there on |
| FallbackSync.HuntIsTail | dmx/receiver.go:367-382 | what a hunt buffers or settles on is a tail of what came before and during it; nothing is cut but the front of more than four packets |
| FallbackSync.LosesSyncIff | dmx/receiver.go:24-27 | the next read sends the receiver hunting exactly if it brings a non-zero byte at the stride |
| FallbackSync.SettledIff | dmx/receiver.go:24-45 | the true boundary is the one found exactly when no smaller offset looks like one in the bytes first buffered |
| FallbackSync.HuntBounded | dmx/receiver.go:367-382 | whatever was buffered before, a hunt on a clean stream of full-size packets lasts at most four packets and a chunk |
| FallbackGaps.BurstFramed | dmx/receiver.go:330-356 | one packet of 1 to 512 channels followed by an idle gap is emitted exactly once, whether hunting or in sync, leaving the receiver at a boundary |
| FallbackGaps.GapFramed | dmx/receiver.go:266-270 | from any state at a boundary, packets of any sizes, each followed by a gap, are emitted exactly, in order |
| FallbackGaps.GapResyncsIff | dmx/receiver.go:330-355 | after any run, an idle read past the gap leaves the receiver at a boundary if and only if it was neither in a frame without channels nor hunting with one byte buffered |
| FallbackGaps.ResyncedFraming | dmx/receiver.go:266-270 | after any run and such a gap, packets each followed by a gap are emitted exactly |
| FallbackErrors.ErrorAbandonsIff | dmx/receiver.go:330-363 | after any run with a frame open, a read that ends in a line error abandons it if and only if it brings data; without, the frame stays open or is emitted once the gap has passed |
| FallbackErrors.ErrorKeepsHunt | dmx/receiver.go:358-382 | away from an open frame an error with data starts or continues the hunt: buffered bytes are kept and the read's own bytes join them |
| FallbackErrors.GapFromLastHeard | dmx/receiver.go:330-357 | the gap is measured from the last read that brought data |
| FallbackErrors.FrameSpansError | dmx/receiver.go:330-333 | with 511 channels open, an error without data and one more byte give a frame |
| FallbackErrors.ErrorSpanned | dmx/receiver.go:330-363 | a run from power-up whose third frame spans a line error |
| Receiver.Receiver.Emit | dmx/receiver.go:154-160 | whatever the consumer does, the frame follows what was delivered and queued, or is dropped because the queue was full |
| Receiver.Receiver.OnChunk | dmx/receiver.go:189-255 | handling a chunk is running the framing machine on its bytes and then its event |
| Receiver.Receiver.RunWithBreakDetect | dmx/receiver.go:168-257 | until the port fails, the frames offered are the framing machine's frames on everything delivered, and nothing that was read is left over |
| Receiver.Receiver.OnData | dmx/receiver.go:357-384 | a read with data does what the fallback machine does, and leaves at most four packets buffered |
| Receiver.Receiver.RunFallback | dmx/receiver.go:271-386 | until the port fails, the frames offered are the fallback machine's frames on the reads made, each of at most 1024 bytes and stamped with the next reading of the given clock, with an empty read for every idle line, at its place |
| EndToEnd.DriverEndToEnd | dmx/receiver.go:162-167 | a line escaped by the driver and split into reads in any way yields exactly the frames its breaks delimit |
| EndToEnd.ReadsExtend | dmx/serial_unix.go:171-212 | further reads extend the stream by their decoding with nothing but inferred breaks mixed in |
| EndToEnd.InferredEndToEnd | dmx/serial_darwin.go:87-104 | locked and at a boundary, escaped packets are emitted exactly whatever the read sizes and so whatever breaks they imply |
| PowerUp.FromPowerUp | dmx/serial_darwin.go:87-104 | inferring from power-up, packets in reads short exactly at packet ends: after the first packet and the 24 learned, all are emitted exactly if and only if packets carry 512 channels |
| PowerUp.PacketHeard | dmx/serial_unix.go:206-212 | the reads of one packet, full payloads and then a short one, stand for its bytes and one break |
| IdleEndToEnd.IdleFramed | dmx/receiver.go:343-355 | without break detection, packets of 1 to 512 channels read in any pieces, the line idle past the gap after each, are all emitted, exactly and in order |
| EndToEnd.Session | dmx/receiver.go:168-257 | on an arbitrary script of reads the frames are those of the bytes before the first failure: delimited by breaks where the driver reports them, windows of the data always |
| EndToEnd.FallbackSession | dmx/receiver.go:271-386 | the same without break detection under any clock; the reads hold the stream of the bytes before the first failure, and one empty read for every idle line, at its place |
| Channels.SubseqRemove | merge/merge.go:86-95 | dropping any element keeps what was delivered and queued a subsequence of what was offered |
| Channels.Chan.Offer | dmx/receiver.go:154-160 | a non-blocking send appends to what was delivered and queued, dropping the element only when the queue was full |
| Channels.Chan.SendLatest | merge/merge.go:86-95 | with the consumer receiving at any point the final send finds room, the new element ends up newest in the queue, and at most the oldest undelivered element of a full queue is lost |
| Htp.MergeMonotone | merge/merge.go:157-182 | more or brighter sources never lower a channel or the length |
| Htp.MergeUnique | merge/merge.go:163-178 | there is only one merge, so iteration order cannot matter |
| Htp.SoleSource | merge/merge.go:163-178 | the only source of a universe passes through unchanged |
| Htp.MergePadding | merge/merge.go:160-182 | a merged frame is zero past its length |
| Htp.UpdateReaction | merge/merge.go:62-83 | brightening or adding a source never lowers its universe; other universes keep their merge |
| Htp.MappingReaction | merge/merge.go:53-58 | mapping never raises a channel, and changes nothing if the source was not contributing |
| Htp.ExpiryReaction | merge/merge.go:131-154 | expiry never raises a channel, and leaves universes without an expired source alone |
| Merger.Merger.AddMapping | merge/merge.go:53-58 | maps the source afresh, everything else unchanged |
| Merger.Merger.MergeFrame | merge/merge.go:173-177 | each channel becomes the larger of the two as far as the frame reaches |
| Merger.MergeStep | merge/merge.go:163-178 | folding one more source keeps the result the merge of the sources visited so far |
| Merger.Merger.ComputeHTP | merge/merge.go:157-183 | the result is the merge of the universe in any visiting order |
| Merger.Merger.Update | merge/merge.go:60-96 | stores the frame, announces a source that was not active, and leaves the merge of its universe newest in the queue without ever blocking, losing at most the oldest merge of a full queue |
| Merger.WalkOne | merge/merge.go:131-145 | looking at one more source lists it exactly if it has timed out and changes nothing else |
| Merger.Merger.ExpireSources | merge/merge.go:118-155 | clears exactly the timed-out sources, one event each, and offers one merge per affected universe; nothing happens without a timeout |
| MergerRuns.SoundStep | merge/merge.go:62-155 | one exclusive call keeps a source sound: active exactly when seen, empty when inactive, event history alternating |
| MergerRuns.Lifecycle | merge/merge.go:60-155 | over every run after setup each source's events strictly alternate starting with connected and agree with its state; unmapped sources cause none |
| MergerRuns.RemapSoundIff | merge/merge.go:53-58 | mapping a source again keeps it sound exactly if it is not active |
| MergerRuns.Freshness | merge/merge.go:98-136 | for any calls with ticks at most a period apart no source contributes later than its last update plus timeout plus period |
| MergerRuns.LatestCounts | merge/merge.go:60-145 | over every run a source contributes exactly if it has arrived and no tick came more than the timeout after its last arrival, and what it contributes is the frame of that arrival |
| MergerRuns.TickYields | merge/merge.go:127-154 | a tick offers one merge of the sources left for each universe that lost a source by it, and no other |
| MergerRuns.Play | merge/merge.go:60-155 | any calls on the merger, with consumers receiving at any point, are a run of exactly those calls, and each adds exactly the merges of the state it leads to |
| MergerRuns.PlayOne | merge/merge.go:60-155 | one call is the step it asks for: an update of a mapped source offers one merge, a tick one for each affected universe |
| MergerRuns.PlayedDestined | merge/merge.go:62-96 | every merge of a run is for a universe mapped at setup |
| ArtNet.EncodeArtDmx | artnet/artnet.go:27-60 | the in-place writes produce the packet laid out field by field |
| ArtNet.DecodeArtDmx | artnet/artnet.go:142-170 | accepts exactly ArtDmx datagrams; channels are the least of declared, present and 512; a rejected datagram gives an empty frame |
| ArtNet.PollIsNotDmx | artnet/artnet.go:172-182 | no datagram is both a poll and DMX |
| ArtNet.RoundTrip | artnet/artnet.go:27-60 | decoding an encoded packet returns all 512 channels and the universe cut to 15 bits |
| ArtNet.ParsesIff | artnet/artnet.go:142-153 | a datagram is ArtDmx exactly if it has the fixed fields and starts with the header and the opcode |
| ArtNet.Declares | artnet/artnet.go:154-169 | n declared channels are the first n bytes present, at most 512; a datagram cut short gives what is present |
| ArtNet.EncodesBackIff | artnet/artnet.go:142-170 | of the datagrams understood, exactly the full-size ones of this version with a 15-bit universe are reproduced by encoding |
| ArtNet.SwitchesCompose | artnet/artnet.go:85-130 | NetSwitch, SubSwitch and SwIn together are the 15-bit universe that ArtDmx packets carry |
| Node.Node.SendDmxUniverse | artnet/node.go:94-106 | the n-th packet carries sequence number ((n-1) mod 255) + 1 on the given universe |
| Node.SequencesMeetIff | artnet/node.go:94-98 | sequence numbers start at 1, count up, are never 0, and meet exactly 255 apart |
| Node.Node.HandleDatagram | artnet/node.go:126-157 | a datagram is offered to ReceivedDmx exactly if it is DMX and not from the local address on a registered universe, and gets in when there is room |
| Node.Node.Run | artnet/node.go:110-165 | the receive loop offers what the datagrams contribute, in order |
| Node.BufferSuffices | artnet/node.go:111-124 | cutting a datagram to the receive buffer never changes what it decodes to |
| Node.DmxReceived | artnet/node.go:126-157 | any datagram contributes what it decodes to, except from the local address on a registered universe |
| Node.PacketReceived | artnet/node.go:139-152 | a packet from anyone is received as its 512 channels on its 15-bit universe, unless it is from the local address on a registered one |
| Node.OwnPacketDroppedIff | artnet/node.go:139-146 | an own packet coming back from the local address is dropped exactly if its 15-bit universe is registered |
| Node.LoopbackClosedIff | artnet/node.go:139-146 | the filter drops every own packet exactly if the registered universes are closed under the cut to 15 bits |
| Node.WideUniverseLoopsBack | artnet/artnet.go:49-51 | universe 40000, registered alone, comes back as 7232 |
| Bridge.Setup | main.go:137-151 | the local source is mapped to the node's universe, each input's source to its last output, and nothing else; exactly those universes are registered, and exactly the inputs' sources allowed |
| Bridge.UniversesMeetIff | main.go:138-151 | universe numbers of 16 bits are kept, and two numbers meet exactly if they differ by a multiple of 65536 |
| Bridge.NoFeedback | main.go:221-231 | a merge that is sent and comes back is dropped exactly if its 15-bit universe is registered, always for closed configurations |
| Bridge.OwnPacketsVanish | artnet/node.go:139-146 | with closed universes, whatever comes back and whenever, what the node accepts is what it accepts of the foreign datagrams |
| Bridge.Program.SendNext | main.go:225-231 | the next merge is received and sent on its universe with the next sequence number |
| Bridge.Program.ForwardNext | main.go:195-216 | the next frame received is passed to the merger as its universe's source exactly if that universe is allowed |
| Bridge.ForeignIsFed | main.go:200-211 | a packet from elsewhere on an allowed universe is, once received and forwarded, its frame fed to the merger |
| Bridge.Program.Step | main.go:153-231 | each event makes the merger calls and brings the datagrams it stands for, and keeps the program's invariant |
| Bridge.FifteenBitIsClosed | main.go:47-49 | configurations in the documented range 0-32767 are closed |
| Bridge.Session | main.go:137-231 | under any interleaving of merger calls, sends, forwards, own packets coming back and foreign datagrams: the packets sent are exactly those of the merges received, in order; the node accepts what its filter lets through of what reached it, with closed universes only what is foreign; and the merger is fed nothing else from the network, in order |

## Left out

- The Windows and platform files, port opening, termios and ioctls: foreign calls; only the two platform constants are kept.
- Resetting the decoder, choosing a receiver loop and sending on the node's own universe: single assignments or dispatch.
- A merge is received and sent, and a frame received and forwarded, in one or two events; a packet written is kept, not lost.
- A failing `SetReadDeadline` is the same as a failed read; context cancellation is the end of the run.
- UDP sockets, address detection and ArtPoll replies other than their universe bytes: I/O and constant fields.
- Display, configuration parsing and timestamps: they carry no property of the pipeline; the configuration is a list of universe pairs.
- Goroutine scheduling: the mutex makes each merger call one step, consumers receive at marked points; source identifiers are a datatype instead of formatted strings.
- The loop bodies of the decoder and of the receiver are methods of their own, called from the loops.
- `outputUniverses` is a set, since its map only ever holds true.
