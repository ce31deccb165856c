# libnexus-rv in Dafny

libnexus-rv reads and writes the trace of RISC-V cores in the format of the
RISC-V N-Trace (Nexus-based Trace) specification, version 1.0. This project
models the library from the bytes of a message up to the client that replays a
program, and proves what each layer keeps and what the layers mean together.

## The layers

**Messages and their bytes.** `MsgTypes` holds a message as the library lays it
out in memory, with one field per shared storage slot, and the tables of fields
per kind. `Protocol` and `Codec` are the reference: lanes of six bits (MDO) with
two end marks (MSEO), decoding and encoding as functions. `MsgUnpack`,
`MsgDecode` and `MsgEncoder` are the library's loops over byte arrays, each
proved against that reference. `CodecFraming`, `CodecContent`, `CodecVao`,
`CodecRoundTrip`, `CodecNormal` and `CodecSize` prove what the reference
promises. Two messages say the same when their `Content` is equal: every bit a
kind does not carry is set to zero there.

**The wire, per TCODE.** `WireFormat`, `WireReading` and `WireLegible` fix the
reference from outside. They name no table of it and no field width but the
numbers of the specification: `EncodeLaid` gives every byte of an encoding,
`DecodedMeaning` what a message decoded from any bytes says, and `DecodesExactly`
which bytes decode at all. `WireExamples` has one encoding per TCODE.

**The stream.** `Stream` says what reading a file delivers, with a buffer of a
given size and with the file in memory, and `StreamExact` for which buffers the
two agree. `StreamDecoder.MsgDecoder` is the sliding window with its carry,
refill, end-of-file sentinel, source filter and one message of rewind. `WrittenFile`, `SplitBySource` and `Patch` add files written
by the encoder, `split` and the patching of one message.

**The trace.** `TraceSemantics` reads a stream of messages as a list of segments:
the instructions and branch outcomes up to an event, the event, the time.
`TraceDecoder.Decoder` is the library's state machine. Its `View` is what is
still to come of that list; fetching and pulling messages leave it alone, and
each request takes off it exactly what it answers. `Inv` holds every assertion
of the source. `TraceRuns` has whole client runs, `TraceReplay` repeats, syncs
and the exact limits of the assertions, `TraceByKind` what each TCODE, B-TYPE and
RCODE means to a client by its literal value, `TraceReports` addresses and times over
a run, and `ClientTold` which of them a client is given.

**The program.** `ReturnStack` is the growing array, `CallStack` calls and
returns over a bounded stack, `InstBlocks` the retiring of instruction blocks.

`EndToEnd` puts all of it together: messages encoded into a file, read through a
buffer and played to a client give the answers the messages themselves imply.

## Where the source does not keep a promise

* An ICT message with CKDF 0 is written with a CKDATA1 group. A decoder that
  expects a timestamp takes it for one when the timestamp itself was left out.
  `CodecRoundTrip.RoundTrip` gives the exact condition, `RoundTripFails` an input.
  The other half of that condition is a SRC wider than its field, which the
  encoder cuts without an error (`EncodeCut`).
  Such a message may also have been read from fewer bytes than it is written to:
  `CodecNormal.RefitsExactly` says that these are the only ones, and `BareGrows`
  gives the bytes for each of them.
* A partial last message at least as long as the buffer is reported as not
  fitting it rather than as truncated. `StreamExact.MessageFits` gives the exact
  condition, `DeliversExactly` the one for a whole file, `Stream.ExactlyFilled` an
  input.
* After an I-CNT ResourceFull a timestamp stays in the queue until the next
  outcome is asked for, so a branch without outcomes breaks the assertion of
  `lib/trace-decoder.c:239`. `TraceReplay.QueueEmpties` says exactly when,
  `TrailingResource` gives a stream. A history of 1 has no outcome and is not
  skipped either (`UsableExactly`), so that it breaks the same assertion
  (`EmptyHistory`). If outcomes follow it, the one of `lib/trace-decoder.c:140` on
  the front history fails before they are reached: `MeetsExactly` says exactly
  when, `OutcomeBehindEmptyHistory` gives a stream. The 32-bit count of outcomes
  is right exactly while they are fewer than 2^32 (`CountExactly`), and
  `ManyOutcomes` gives streams that bring it back to zero. `TraceFacts.Sound` is
  the condition on a stream that rules these out, and `TraceReplay.SegmentSound`
  says that it rules out nothing else. The decoder class requires it.
* Syncing on an indirect sync message leaves an ownership message behind it in
  the stream, where it makes no event (`TraceReplay.ResyncReaches`).
* The header of the trace decoder says that NextSync may be used on a DirectSync
  or IndirectSync event (`include/libnexus-rv/trace-decoder.h:36-47`); the code
  answers with a mismatch (`lib/trace-decoder.c:466-468`), and so does the model.
* The header says that the time of a repeated branch is divided over its
  repetitions (`include/libnexus-rv/trace-decoder.h:222-224`); the code folds an
  XOR delta in once and an additive one every time (`TraceReplay.Replays`).
  `TraceReports.ToldOnTime` says exactly when a sender's own times come back as
  those of the segments.
* What ResourceFull messages bring before a branch that repeats goes to its first
  delivery alone, so that the deliveries differ (`TraceReplay.AlikeExactly`).
* An error drops the queue and folds the delta of each element in once, however
  often it repeats, so the decoder's additive time may miss that of the segment
  (`TraceSteps.DroppedExactly` says exactly when, `DroppedAstray` gives a queue).
  What a client asked for before matters too: `TraceReplay.AlwaysExactly` is the
  condition whatever it asked for, and `OnTimeUntilAsked` a queue where the time
  is right only as long as no outcome was taken.
* `split` leaves out messages of unknown kinds, which the source filter lets
  through (`SplitBySource.SplitCommutes`).
* A maximum stack depth above 2^31 makes the growing array shrink to nothing
  (`ReturnStack.GrowthSafe`).

## Model

| member | source | states |
|---|---|---|
| MsgEncoder.PackByte | lib/msg-encoder.c:19-29 | one pass of the packing loop: OR-ing the value into a byte, which is cleared first when it is new, leaves the lanes so far holding the packed number whatever the byte held |
| MsgEncoder.PackBits | lib/msg-encoder.c:14-36 | packing a value appends its low bits to the number in the open lanes, disturbs no earlier byte and does not depend on what the buffer held |
| MsgEncoder.PackField | lib/msg-encoder.c:38-44 | a field is packed exactly if it fits the limit; otherwise the stream is reported truncated |
| MsgEncoder.EndField | lib/msg-encoder.c:46-55 | rounds up to a whole lane and sets only the end mark of the last byte |
| MsgEncoder.PackVarReq | lib/msg-encoder.c:84-90 | a required field takes at least one bit and closes its group |
| MsgEncoder.PackVar | lib/msg-encoder.c:76-82 | an optional field takes no lane when zero; the group closed is the one before it |
| MsgEncoder.PackXaddrVao | lib/msg-encoder.c:92-110 | writes the group of the shortest sign-extended form in whole lanes |
| MsgEncoder.EncodeCommon | lib/msg-encoder.c:135-149 | the groups of a branch or sync message are those of the reference |
| MsgEncoder.EncodeOwnership | lib/msg-encoder.c:154-159 | PROCESS and CONTEXT make one group |
| MsgEncoder.EncodeResource | lib/msg-encoder.c:164-182 | the groups of a ResourceFull message, by RCODE |
| MsgEncoder.EncodeTwoCodes | lib/msg-encoder.c:186-202 | the groups of the correlation and ICT messages, the latter with CKDATA1 whatever CKDF is |
| MsgEncoder.EndMessage | lib/msg-encoder.c:204-213 | the last group written gets end mark 3, whether or not a timestamp was |
| MsgEncoder.Encode | lib/msg-encoder.c:112-214 | succeeds exactly when the message is encodable and its computed length fits the limit; the bytes are the reference encoding whatever the buffer held; no byte after them changes |
| MsgUnpack.SyncForward | lib/msg-decoder.c:90-97 | just past the first end of a message |
| MsgUnpack.SyncBackward | lib/msg-decoder.c:99-106 | just past the last end of a message before a position |
| MsgUnpack.ConsumeBytes | lib/msg-decoder.c:108-119 | the length of the next group and whether it ends the message; reserved marks and missing ends are errors |
| MsgUnpack.GatherLanes | lib/msg-decoder.c:126-137 | shifting and OR-ing lanes from the top down gives the low 64 bits of the number they hold |
| MsgUnpack.UnpackBits | lib/msg-decoder.c:121-141 | the bits at an offset of the number in the lanes, cut to 64 |
| MsgUnpack.UnpackFixed | lib/msg-decoder.c:143-152 | a fixed field, or a missing-field error if the group is too short |
| MsgUnpack.UnpackVar | lib/msg-decoder.c:154-165 | the rest of the group is one field, zero if nothing is left |
| MsgUnpack.UnpackVarReq | lib/msg-decoder.c:167-173 | the same, an error if nothing is left |
| MsgUnpack.UnpackXaddrVao | lib/msg-decoder.c:175-182 | OR-ing ones above the top bit is sign extension |
| MsgUnpack.NextGroup | lib/msg-decoder.c:184-195 | a group after the last one is a missing field |
| MsgDecode.ReadCommon | lib/msg-decoder.c:226-244 | the fields of a branch or sync message are read as the reference reads them |
| MsgDecode.ReadResource | lib/msg-decoder.c:266-288 | the fields of a ResourceFull message, by RCODE |
| MsgDecode.ReadOther | lib/msg-decoder.c:246-315 | the fields of all the other kinds |
| MsgDecode.ReadTimestamp | lib/msg-decoder.c:316-325 | the trailing timestamp: absent, required of a sync, or in the last group |
| MsgDecode.Decode | lib/msg-decoder.c:197-328 | message, length and error are those of the reference decoder, for any bytes and any former contents of the structure |
| WireFormat.EncodeLaid | lib/msg-encoder.c:112-214 | every byte of an encoding, written out per TCODE: which fields in which order and bits, how many lanes each group takes, data above two mark bits, marks 0, 1 and 3 |
| WireFormat.EncodedNumbers | include/libnexus-rv/internal/protocol.h:13-22 | read without tables, an encoding holds those numbers: TCODE, SRC, the codes and the first field in the first one, then the others, then the timestamp |
| WireFormat.EncodedMarks | include/libnexus-rv/internal/protocol.h:13-22 | the first byte holds the TCODE above its mark, the last byte has mark 3, the others 0 or 1 |
| WireReading.DecodedMeaning | lib/msg-decoder.c:197-328 | whatever bytes a message is decoded from, its fields are the bits of their numbers at the places its TCODE gives them |
| WireLegible.DecodesExactly | lib/msg-decoder.c:108-119 | n bytes are decoded if and only if they are marked as one message and hold as many numbers, long enough, as their TCODE needs |
| WireExamples.BranchesAndSyncs | include/libnexus-rv/msg-types.h:43-60 | one byte string for each TCODE of a branch or sync, which is its encoding and decodes to it |
| WireExamples.OtherKinds | include/libnexus-rv/msg-types.h:43-60 | one for each other TCODE, and for each RCODE |
| WireExamples.DataAcquisition | lib/msg-decoder.c:261-265 | one for DataAcquisition, which is only decoded |
| CodecContent.DecodeIndependent | lib/msg-decoder.c:197-328 | nothing a decoded message says depends on what the structure held |
| CodecFraming.DecodeStable | lib/msg-decoder.c:184-195 | unless it is truncated, a decode does not change when bytes are appended |
| CodecFraming.DecodeEndsAtSync | lib/msg-decoder.c:316-327 | a decoded message ends where SyncForward stops; a truncated one has no end |
| CodecFraming.SelfDelimiting | lib/msg-decoder.c:197-328 | the bytes of a message decode to it whatever follows them |
| CodecFraming.ForwardToBoundary | lib/msg-decoder.c:90-97 | from any place inside the k-th message of a concatenation, SyncForward lands on the start of the next |
| CodecFraming.BackwardToBoundary | lib/msg-decoder.c:99-106 | from the start of message k, or from any place inside it, SyncBackward lands on that start |
| CodecVao.VaoShortest | lib/msg-encoder.c:92-110 | any run of lanes from which sign extension recovers the address has at least the length the encoder uses |
| CodecVao.VaoLossless | lib/msg-encoder.c:92-110 | sign extension of what the encoder writes gives the address back, also when it is cut at 64 bits |
| CodecRoundTrip.RoundTrip | lib/msg-encoder.c:112-214 | decoding an encoding followed by any bytes takes exactly its bytes; the content is the same if and only if the SRC fits its field and no stray CKDATA1 is taken for the timestamp |
| CodecRoundTrip.EncodeCut | lib/msg-encoder.c:121-122 | a SRC too wide for its field is written as its low bits |
| CodecRoundTrip.RoundTripFails | lib/msg-encoder.c:195-202 | an ICT message that comes back with a timestamp it did not have |
| CodecRoundTrip.EncodeFrames | lib/msg-encoder.c:211-213 | an encoding has exactly one end mark 3, at its end |
| CodecNormal.EncodeLength | lib/msg-encoder.c:213-213 | the length of an encoding is the sum of the lanes of its groups |
| CodecNormal.Normalise | util/patch.c:79-81 | re-encoding a decoded message decodes again in exactly its bytes, to the same content if and only if no stray CKDATA1 is taken for the timestamp; the bytes are no more than were read, ICT without CKDATA1 aside |
| CodecNormal.RefitsExactly | util/patch.c:79-84 | wherever a message is decoded from it can be encoded again in place, if and only if it is not an ICT message without CKDATA1 |
| CodecNormal.BareGrows | lib/msg-decoder.c:306-314 | every ICT message without CKDATA1 also decodes from fewer bytes than its encoding |
| CodecSize.SizeBound | include/libnexus-rv/msg-decoder.h:79-79 | no encodable message takes more than 38 bytes |
| CodecSize.BranchReachesBound | include/libnexus-rv/msg-decoder.h:79-79 | an IndirectBranchHistSync message that takes 38 bytes |
| CodecSize.IctReachesBound | include/libnexus-rv/msg-decoder.h:79-79 | an ICT message that takes 38 bytes |
| StreamExact.NeededIs | lib/msg-decoder.c:108-119 | decoding a prefix is truncated exactly below the number of bytes needed: those of the message, or more than there are |
| StreamExact.NextExactly | lib/msg-decoder.c:330-385 | through a buffer of any size the next message is the one of the whole file if and only if the buffer has room for what decoding needs of it and of those filtered out before; otherwise it is reported as too small |
| StreamExact.MessageFits | lib/msg-decoder.c:362-368 | a message is delivered if and only if it is no longer than the buffer; a partial last one is reported truncated if and only if it is shorter than the buffer |
| StreamExact.NextBy | lib/msg-decoder.c:330-385 | the next message is what the bytes from there decode to, or their error, or the end, or that the buffer is too small, each in terms of the file and the buffer size alone |
| StreamExact.DeliversExactly | lib/msg-decoder.c:330-385 | all that is delivered and how it ends are those of the file in memory if and only if the buffer has that room at every message boundary reached |
| Stream.BufferIndependent | lib/msg-decoder.c:363-368 | if every stretch of the file as long as the buffer holds the end of a message, the buffer size changes nothing |
| Stream.ExactlyFilled | lib/msg-decoder.c:362-368 | a partial message of one byte that fills a buffer of one byte: too small where the file is truncated |
| Stream.DeliveredAgain | lib/msg-decoder.c:399-413 | from where a delivered message starts, the same message is delivered |
| Stream.HaltsAgain | lib/msg-decoder.c:337-366 | an end of the file or an error comes again when asked again |
| Stream.NextOfMessages | lib/msg-decoder.c:330-385 | asking for one message after the other goes through the decoding of the whole file |
| Stream.DeliversMessages | lib/msg-decoder.c:330-385 | a buffer that fits the messages delivers exactly those of the file decoded in memory, and ends the same way |
| Stream.FramesFit | lib/msg-decoder.c:363-368 | a buffer as long as the longest message fits a file of whole messages |
| StreamDecoder.MsgDecoder.constructor | include/libnexus-rv/msg-decoder.h:138-149 | an empty window at the start of the file |
| StreamDecoder.MsgDecoder.ReadAll | lib/misc.c:12-27 | fills the rest of the buffer with what the file has left; a short read is its end |
| StreamDecoder.MsgDecoder.Slide | lib/msg-decoder.c:370-374 | what is unread moves to the front and still is the file from the new offset on |
| StreamDecoder.MsgDecoder.Refill | lib/msg-decoder.c:370-384 | keeps the window on the file, or reaches the sentinel when nothing is left |
| StreamDecoder.MsgDecoder.Next | lib/msg-decoder.c:330-385 | delivers the outcome the file and the buffer size determine, leaves the decoder behind the message, and ends |
| StreamDecoder.MsgDecoder.LastMsg | lib/msg-decoder.c:387-397 | exactly the bytes of the message just delivered, also after the buffer was used up |
| StreamDecoder.MsgDecoder.RewindLast | lib/msg-decoder.c:399-413 | moves back by exactly that message, also across the reset of a full buffer |
| StreamDecoder.MsgDecoder.Offset | include/libnexus-rv/msg-decoder.h:156-161 | the file position of the message just delivered |
| StreamDecoder.NextTwice | lib/msg-decoder.c:387-413 | deliver, ask for offset and bytes, rewind, deliver: the same message twice, its own position and bytes, and the same place in the file |
| WrittenFile.MessagesWritten | lib/msg-encoder.c:112-214 | decoding a file of encoded messages gives them all back in order |
| WrittenFile.ReadsBack | lib/msg-decoder.c:330-385 | the same through any buffer of at least 38 bytes and with any source filter |
| CodecContent.DecodedSrc | util/split.c:70-71 | a decoded SRC is inside the arrays it indexes |
| SplitBySource.Split | util/split.c:57-83 | every output holds the bytes of its source's messages in order, and every counter counts them |
| SplitBySource.SplitCommutes | util/split.c:57-83 | decoding the output of a source gives the known non-Idle messages of that source; on a file without Idle messages that is what decoding the original with the filter gives, if and only if no unknown message carries that source |
| SplitBySource.FilterIsPart | lib/msg-decoder.c:356-359 | on a file without Idle messages a source filter ends as the unfiltered stream does, and delivers the part of the source if and only if all its messages are known |
| SplitBySource.SplitCovers | util/split.c:57-71 | the byte counts of all the sources the SRC field can name add up to the bytes decoded if and only if every message is known and not Idle |
| Patch.PatchBytes | util/patch.c:79-84 | the message over its own length, the rest left as ones; fails exactly if it does not fit |
| Patch.PatchedReads | util/patch.c:79-85 | the stream then says the new message, Idle for the bytes saved, and what followed before |
| ReturnStack.RetStack.constructor | include/libnexus-rv/return-stack.h:25-39 | empty, with an array of the smaller of 32 and the maximum |
| ReturnStack.RetStack.MayEnlarge | include/libnexus-rv/return-stack.h:55-71 | keeps the contents and makes room for one more, in an array of twice the size or the maximum |
| ReturnStack.RetStack.Push | include/libnexus-rv/return-stack.h:73-86 | pushes, or does nothing at the maximum; the wrap to the bottom is never reached |
| ReturnStack.RetStack.Pop | include/libnexus-rv/return-stack.h:88-98 | takes the last address pushed, or fails on an empty stack; the wrap to the top is never reached |
| ReturnStack.RetStack.Clear | include/libnexus-rv/return-stack.h:50-53 | empties the stack |
| ReturnStack.GrowthSafe | include/libnexus-rv/return-stack.h:61-63 | every enlargement makes room if and only if the maximum is at most 2^31 |
| TraceSemantics.TntAt | lib/trace-decoder.c:128-133 | the outcome picked by the mask is the next one from the most significant down |
| TraceDecoder.Decoder.constructor | lib/trace-decoder.c:25-37 | not synced, nothing queued, the whole stream still to come |
| TraceDecoder.Decoder.FetchMsg | lib/trace-decoder.c:63-90 | holds the next message with the RepeatBranch behind it folded in; an unsupported message is given back |
| TraceDecoder.Decoder.HoldMsg | lib/trace-decoder.c:63-90 | holding a message changes nothing of what is to come |
| TraceDecoder.Decoder.PullMsg | lib/trace-decoder.c:187-233 | moving a ResourceFull message into the queue changes nothing of what is to come; it fails where the trace halts, or when the queue or the instruction count is at its limit |
| TraceDecoder.Decoder.QueueRes | lib/trace-decoder.c:193-232 | the element queued, its repeat count and the two sums, without wrapping |
| TraceDecoder.Decoder.AvailableTnts | lib/trace-decoder.c:101-111 | never negative, fits 32 bits |
| TraceDecoder.Decoder.AvailableIcnt | lib/trace-decoder.c:157-167 | never negative, fits 32 bits |
| TraceDecoder.Decoder.DrainTimes | lib/trace-decoder.c:115-125 | using up timestamp-only elements changes nothing of what is to come, nor what will be left of the queue |
| TraceDecoder.Decoder.ConsumeTnt | lib/trace-decoder.c:113-155 | gives the first outcome of the trace and takes just that off it; what will be left of the queue stays the same, and nothing is left once an outcome of the message held is given |
| TraceDecoder.Decoder.UseFront | lib/trace-decoder.c:147-153 | one repetition of the front history is used up |
| TraceDecoder.Decoder.ConsumeIcnt | lib/trace-decoder.c:169-180 | takes so many instructions off the trace, from the queue first |
| TraceDecoder.Decoder.RetireReady | lib/trace-decoder.c:235-248 | the assertions before a message is retired hold once nothing before its event is left |
| TraceDecoder.Decoder.RetireMsg | lib/trace-decoder.c:235-276 | what stays of a message: the sync a sync branch also is, a branch that repeats, or nothing; time, address and return stack with it |
| TraceDecoder.Decoder.RetireBranch | lib/trace-decoder.c:251-265 | after a branch is retired the decoder stands where the rest of the trace begins, at its time |
| TraceDecoder.Decoder.SyncReset | lib/trace-decoder.c:278-301 | from a lost decoder, the event and the state the next sync message stands for, whatever is skipped |
| TraceDecoder.Decoder.Downgrade | lib/trace-decoder.c:290-299 | the sync message held becomes the next event, without instructions |
| TraceDecoder.Decoder.TryRetire | lib/trace-decoder.c:303-364 | retires the smaller of what is asked and what precedes the next event; reports the event exactly if all of that is retired; halts only where the trace does |
| TraceDecoder.Decoder.HeldEvent | lib/trace-decoder.c:333-363 | the event reported is that of the segment at hand, an error before all else, a pending outcome before the closing event |
| TraceDecoder.Decoder.NextTnt | lib/trace-decoder.c:366-388 | the next outcome; not taken while instructions are left; taken for a direct branch, which is retired; otherwise a mismatch that changes nothing |
| TraceDecoder.Decoder.NextIndirect | lib/trace-decoder.c:404-455 | target, trap flags and owner of the indirect branch at hand, and the trace behind it; otherwise a mismatch that changes nothing |
| TraceDecoder.Decoder.TakeOwner | lib/trace-decoder.c:440-453 | an ownership message right behind is taken, anything else is given back |
| TraceDecoder.Decoder.NextSync | lib/trace-decoder.c:457-475 | reason and address of the sync at hand, and an empty return stack; otherwise a mismatch that changes nothing |
| TraceDecoder.Decoder.NextError | lib/trace-decoder.c:477-502 | the error at hand, whatever was left before it is dropped, and the decoder is lost; its time is that of the segment if and only if deltas are XOR-ed or the repetitions left in the queue add up to nothing modulo 2^64, as they do with no outcomes or empty histories left |
| TraceDecoder.Decoder.NextStop | lib/trace-decoder.c:504-520 | the stop at hand, and the decoder is lost |
| TraceDecoder.Decoder.PushCall | lib/trace-decoder.c:390-393 | pushes onto the return stack |
| TraceDecoder.Decoder.PopRet | lib/trace-decoder.c:395-398 | pops off the return stack |
| TraceByKind.KindsAre | include/libnexus-rv/msg-types.h:154-285 | which TCODEs are branches, indirect, syncs, and which carry I-CNT, X-ADDR and HIST; which messages are known, and which the trace decoder takes |
| TraceByKind.CarriedIs | lib/msg-decoder.c:226-315 | the fields the codec reads are the ones the trace decoder counts |
| TraceByKind.HistoryIs | lib/trace-decoder.c:128-133 | the outcomes of a history are its bits below the top one, from the top down |
| TraceByKind.ClosesBy | lib/trace-decoder.c:157-167 | the I-CNT, the outcomes and the time of a segment by the TCODE of its message |
| TraceByKind.ReportedBy | lib/trace-decoder.c:333-363 | the event reported by TCODE and B-TYPE once all before it is used up, and while outcomes are left |
| TraceByKind.RetiresBy | lib/trace-decoder.c:303-333 | a request retires the least of what it asks, 2^31 - 1 and what is left |
| TraceByKind.AnsweredBy | lib/trace-decoder.c:366-520 | what a client is told when it takes a direct branch, sync, stop or error, field by field |
| TraceByKind.BranchBy | lib/trace-decoder.c:366-388 | the next outcome is of the histories first, not taken while instructions are left, taken for a direct branch |
| TraceByKind.TargetIs | lib/trace-decoder.c:17-23 | an address bit by bit: half an address doubled, with the bits above the width set if the top bit within it is |
| TraceByKind.IndirectBy | lib/trace-decoder.c:404-455 | on the stream, what a client is told of an indirect branch: target, interrupt and exception by B-TYPE, and format, privilege, V and context by the bits of PROCESS behind it |
| TraceByKind.ResourceBy | lib/trace-decoder.c:187-233 | what a ResourceFull message adds by RCODE: instructions, a history, a history repeated, or under the quirk so many branches not taken or taken |
| TraceByKind.StartsBy | lib/trace-decoder.c:278-301 | a lost decoder starts at the next sync and tells its reason, address and time; what stops a trace |
| TraceRuns.Ask | lib/trace-decoder.c:303-520 | any request is answered as the segments of the stream say, or the queue is at its limit |
| TraceRuns.Play | lib/trace-decoder.c:303-520 | a whole run of requests is answered so |
| TraceRuns.EventWhenDone | lib/trace-decoder.c:316-363 | no event is reported exactly when instructions are left before it, or the message makes none |
| TraceRuns.SyncBranchTwice | lib/trace-decoder.c:251-258 | once its branch event is taken, a sync branch answers any request for instructions with none and a sync event, and that event has the address and the time of the branch |
| TraceRuns.RunConserves | lib/trace-decoder.c:101-233 | over any run, what was served and what is left make up the trace: every instruction and outcome once and in order |
| TraceRuns.LosesOnlyAtFaults | lib/trace-decoder.c:487-497 | only an error makes a client lose part of a segment |
| TraceRuns.ChoppingInvariance | lib/trace-decoder.c:303-388 | two clients that split their requests differently finish the same segments, with the same instructions, outcomes, events and times |
| TraceReplay.ResourcesAddUp | lib/trace-decoder.c:191-232 | ResourceFull messages contribute the sum of their instructions and their histories as often as they repeat, in order |
| TraceReplay.Replays | lib/trace-decoder.c:258-265 | a branch that repeats n times is delivered n + 1 times with its own instructions and outcomes and the same target, the first one with what was queued before it as well; an XOR time delta counts once, an additive one every time |
| TraceReplay.ReplaysEnd | lib/trace-decoder.c:258-265 | and not once more: then the stream goes on |
| TraceReplay.AlikeExactly | lib/trace-decoder.c:258-265 | all deliveries are alike if and only if there is one only or nothing was queued before the branch |
| TraceReplay.RepeatsOnStream | lib/trace-decoder.c:78-89 | on the stream: ResourceFull messages, a branch and RepeatBranch(n) are n + 1 such deliveries, then what follows |
| TraceReplay.ResyncReaches | lib/trace-decoder.c:278-301 | syncing on a message after any skipped ones leaves what a synced decoder would have, except behind an indirect sync with an ownership message |
| TraceReplay.QueueEmpties | lib/trace-decoder.c:239-239 | nothing is left of the queue when a message is to be retired if and only if it ended in outcomes, or in timestamps and the message has outcomes of its own |
| TraceReplay.SegmentEmpties | lib/trace-decoder.c:187-239 | the same of the ResourceFull messages of a segment and the message that closes it |
| TraceReplay.MeetsExactly | lib/trace-decoder.c:136-140 | asked for all its outcomes, a queue comes to an empty history at its front with outcomes still due if and only if one is queued behind an empty history |
| TraceReplay.SegmentSound | lib/trace-decoder.c:113-239 | a segment is followed if and only if no outcome comes behind an empty history, the outcomes are fewer than 2^32, and nothing is left of the queue when its message is retired |
| TraceReplay.UsableExactly | lib/trace-decoder.c:120-121 | a history that is not zero has an outcome if and only if it is not 1 |
| TraceReplay.TrailingResource | lib/trace-decoder.c:198-202 | a stream that breaks the assertion on the queue |
| TraceReplay.CountExactly | lib/trace-decoder.c:228-229 | the 32-bit sum of repeats times history bits is the number of outcomes queued modulo 2^32, and so right if and only if these are fewer |
| TraceReplay.EmptyHistory | lib/trace-decoder.c:239-239 | a history of 1 before a branch, which is still queued when the branch is to be retired |
| TraceReplay.OutcomeBehindEmptyHistory | lib/trace-decoder.c:140-140 | a history of 1 with an outcome behind it, which is never reached |
| TraceReplay.ManyOutcomes | lib/trace-decoder.c:228-229 | 2^32 outcomes, with and without the quirk, that count as none |
| TraceSteps.DroppedExactly | lib/trace-decoder.c:487-497 | dropping a queue leads to the time that using it up would if and only if deltas are XOR-ed or the sum of (repeat - 1) times delta is zero modulo 2^64 |
| TraceSteps.DroppedAstray | lib/trace-decoder.c:487-497 | a queue of one history that misses by its delta |
| TraceReplay.AlwaysExactly | lib/trace-decoder.c:487-497 | it does so wherever a client stops asking for outcomes if and only if deltas are XOR-ed, or besides that no history with outcomes both repeats and carries a delta |
| TraceReplay.ErrorOnTime | lib/trace-decoder.c:477-502 | both conditions for the ResourceFull messages before an error: for a client that asked for no outcome, and for any |
| TraceReplay.OnTimeUntilAsked | lib/trace-decoder.c:147-153 | a queue that meets the first condition and not the second |
| TraceReports.AddressRestored | lib/trace-decoder.c:17-23 | half an address comes back whole if and only if it is even and the address width is 64 or more, or its top bit within the width is clear, or every bit above the width is set |
| TraceReports.Followed | lib/trace-decoder.c:417-424 | over any sequence of reports, and however the stream ends, the events and their addresses are those the sender's reports call for, through repeats, sync branches and lost stretches |
| TraceReports.Missed | lib/trace-decoder.c:282-300 | the same for a decoder that is lost, from the next sync on |
| TraceReports.ToldOnTime | lib/trace-decoder.c:92-99 | over any such sequence the segments have the sender's time of each report, if and only if no branch repeats behind an additive delta other than zero and the repeats of a history add up to nothing modulo 2^64 |
| TraceReports.ToldAtTheirTimes | lib/trace-decoder.c:147-153 | under that condition the segments of the k-th report have its time, which is the decoder's when their events are taken, an error aside (TraceDecoder.Decoder.NextError) |
| ClientTold.FinishedTold | lib/trace-decoder.c:303-520 | however a client asks, the events of the segments it finishes are the first of those the sender's reports call for, with their addresses and times |
| ClientTold.AddressesTold | lib/trace-decoder.c:404-475 | the addresses it is answered are the first of those |
| CallStack.ReturnsMatch | include/libnexus-rv/return-stack.h:73-98 | in a properly nested run no deeper than the maximum every return finds its own call on top, and the stack ends as it began |
| CallStack.MatchExactly | include/libnexus-rv/return-stack.h:73-98 | every return of a nested run finds its own call and the stack ends as it began if and only if the run goes no deeper than the maximum |
| CallStack.TooDeep | include/libnexus-rv/return-stack.h:75-76 | such a run: one call too deep, its return finds the call around it |
| InstBlocks.InstBlock.CheckExc | util/inst.cpp:32-56 | retires the block, or says which event came first and where, or that it should not have |
| InstBlocks.InstBlock.RetireStraight | util/inst.cpp:27-30 | goes on behind the block |
| InstBlocks.InstBlock.RetireDirJump | util/inst.cpp:69-72 | goes where the jump points |
| InstBlocks.InstBlock.RetireCondBranch | util/inst.cpp:74-90 | takes one outcome, and goes where it says; an error event comes first |
| InstBlocks.InstBlock.RetireDirCall | util/inst.cpp:103-109 | also pushes the address behind the call |
| InstBlocks.InstBlock.RetireIndirJump | util/inst.cpp:122-134 | goes where the indirect branch reported says, nothing else will do |
| InstBlocks.InstBlock.RetireIndirCall | util/inst.cpp:136-142 | also pushes the address behind the call |
| InstBlocks.InstBlock.RetireRet | util/inst.cpp:155-180 | pops the stack either way; goes where the trace says, or else to the address popped |
| InstBlocks.InstBlock.RetireCoSwap | util/inst.cpp:196-210 | a return and a call, or with the quirk a call alone |
| InstBlocks.InstBlock.RetireInt | util/inst.cpp:228-247 | retires all but the last instruction and takes the trap there |
| InstBlocks.AddressesRun | util/inst.cpp:27-30 | addresses count two bytes for each unit of icnt and go on in the block behind |
| InstBlocks.JumpsFromItself | util/inst.cpp:69-72 | a jump counts from the address where a trap on its last instruction is taken |
| InstBlocks.GoesBy | util/inst.cpp:69-142 | where a straight block, a direct jump, a call, a conditional branch and an indirect jump go, and what they leave on the stack |
| InstBlocks.StopsBy | util/inst.cpp:41-54 | which events may come inside a block, and the address they are raised at |
| InstBlocks.ReturnsBy | util/inst.cpp:155-180 | where a return goes by the event reported, and the stack after it |
| InstBlocks.TrapsBy | util/inst.cpp:228-247 | what a trapping block does by the event reported before its last instruction |
| InstBlocks.StackFollows | util/inst.cpp:155-180 | the stack moves the same way whether a return is explicit or not, and an implicit return goes to its top |
| InstBlocks.CallsAndReturnsMatch | util/inst.cpp:103-180 | over any properly nested run of blocks every implicit return goes behind its own call, whichever returns were explicit |
| InstBlocks.RetireAll | util/inst.cpp:27-247 | retiring blocks in a row follows the path these rules give, up to the first that does not go on |
| EndToEnd.Assemble | util/assemble.c:40-65 | the file written is the concatenation of the encodings, and 38 bytes of room are always enough |
| EndToEnd.PlayWritten | lib/trace-decoder.c:25-520 | what a client is told about a file of encoded messages is what the messages say, whatever the buffer size, the filter and the requests |
| EndToEnd.PlayReported | lib/trace-decoder.c:25-520 | through a file, a buffer and a filter: the addresses a client is answered are the first of those the sender's reports call for |

## Left out

- TraceDecoder.Decoder.constructor: requires a stream that `TraceFacts.Sound` accepts, because on others a client can make an assertion of the source fail or its count of outcomes wrap (`TraceReplay.SegmentSound`).
- TraceDecoder.Decoder.NextError: does not promise the time of the segment when additive deltas of repeating histories are dropped, because the source folds them in once.
- TraceDecoder.Decoder.NextIndirect: and the other requests for an event require that a closing message is held or comes next; on a ResourceFull message the source stops at an assertion.
- TraceRuns.ChoppingInvariance: excludes error events, at which a client that did not ask for all outcomes loses some.
- InstBlocks.InstBlock.CheckExc: blocks are at most 2 GiB long, so that twice an instruction count fits the source's 32 bits.
- At the end of the file the lookahead for a repeat count or an owner reads a structure the source never set; the model takes it as no match.
- An Idle message has no SRC, so nothing is promised of a filter that meets one (`Stream.Unspecified`).
- What a failed decode leaves in the structure, and the slots a kind does not carry, are not modelled; apart from that filter nothing reads them.
- Read errors and failing allocations: a file is a sequence of bytes and a short read is its end.
- Encoding DataAcquisition messages, which the encoder refuses; decoding them is modelled.
- Configuration strings, printing messages and parsing them from text, because all of it is formatting.
- Scaling the time to nanoseconds and cutting it to the timestamp width, a formula without state.
- The deque of `lib/hist-array.cpp` is a sequence in a field of the decoder; its operations are those of sequences.
- Disassembly, memory maps, symbols, console output and the options of the tools; blocks of instructions are given.
