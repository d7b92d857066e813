# Verified model of MXL

MXL exchanges media between processes through shared memory: a writer fills a ring of grains (video, ancillary data)
or of samples (audio), readers look at the ring without taking locks, and a GStreamer plugin, a test source and a data
probe sit on top. This project models the parts of it in which a wrong branch, a wrong rounding or a wrong order would
not be noticed at once, and proves what they are for.

| modules | what they model |
|---|---|
| `BitString`, `Delimited`, `Arith`, `Wrappers` | bits and bytes, concatenations of self-delimiting words, products and quotients |
| `AncPacket`, `BitIo`, `AncCodec`, `AncWrite`, `AncGrain` | ancillary data packets in the layouts of SMPTE ST 2038 and of section 2.1 of RFC 8331, the bit cursors that read and write them, and the 4096-byte grain around them |
| `UdwUnpacker` | the data probe's accumulator for ten-bit words |
| `DiscreteFlow`, `FrameRun`, `SliceBatches`, `WaitLoop`, `GrainWait` | the grain ring, the loops that fill it, and the futex protocol of blocking readers |
| `ContinuousRing`, `ContinuousFlow`, `SyncBatch`, `SampleWait`, `AudioPath`, `BufferSizing` | the sample ring from its bytes up, wake-ups per batch and the readers that wait for them, de-interleaving and interleaving, the length of the ring |
| `IndexConversion`, `Latency`, `AudioTiming`, `AudioChunker`, `AudioSink`, `PtsTimeline` | rational rates, indices and nanoseconds, the sinks' correction for late buffers, the audio sink from a buffer to its reader, and the timelines of the sources |
| `Lifecycle`, `FlowDomain` | flows, writers and instances in one domain; first as what each call does, then as files and advisory locks that do it |

How the pieces fit:

- The packet formats are grammars (`AncPacket.St2038`, `AncPacket.Rfc8331`): functions from a packet to its bytes. The
  readers and writers are methods over mutable cursors. A reader that succeeds has found a packet whose bytes are in
  front; one that fails has met input in front of which no packet's bytes stand. `DecodesTo` and `EncodesTo` are the
  contracts of the two grain methods read as relations, so that `RoundTrip` and `NormalForm` speak about both methods.
- The rings carry a ghost log of what has been committed. `Valid()` says that the slots stand for the log for as long
  as every commit has followed the one before (`contiguous`), and the read methods return what the log holds.
  `contiguous` only ever goes from true to false, in exactly the calls whose contracts say so. The account of the grain
  ring also says, after any opens and commits whatever, which commit each slot holds and under which index, and
  whether no commit has gone back (`forward`): then what is read of a committed index is right even after gaps.
- `GrainWait` is a state machine over single steps of one writer and any number of readers. Its reads are those of
  `DiscreteFlow`, and its commit, when nothing comes between the steps, is the writer's. `SampleWait` is the same for
  samples, where most commits do not bump the counter; both orders of the writer's decision are configurations of it.
  The loop they share is `WaitLoop`.
- `AudioPath.EndToEnd` puts a new flow, any list of contiguous batches and a read together: what a granted read returns
  is the slice of the input that belongs to its indices. `AudioSink.BufferToReader` begins a step earlier, with a
  buffer that the sink cuts and times.
- `Arith.Times` is multiplication by repeated addition (`Arith.TimesIs`); sizes and addresses are written with it.
- `Lifecycle` is written in terms of who has a writer. `FlowDomain.World` does the same with a lock table, as the
  program does, and each of its methods is proved to have the effect that `Lifecycle` states.

Findings about the program:

- Wake-ups of sample readers. The writer clears its index before the decision to wake readers looks at it
  (`lib/internal/src/PosixContinuousFlowWriter.cpp:114` and `:140`), so that it wakes them at its first commit, perhaps
  at its second, and never again (`ContinuousFlow.CommitAll`). "Fewer than a sync batch past the last signal" then
  holds exactly until the writer is a batch past that commit (`SyncBatch.PromptAsBuilt`; with the hints of a 48 kHz
  flow it fails at the third commit, `SyncBatch.LateAtThirdCommit`). What holds of blocking grain reads does not hold
  of blocking sample reads: a reader can be left asleep until its deadline over samples that are there, exactly when
  the head has gone past the index last signalled (`SampleWait.OversleepsExactly`, `SampleWait.OversleepsAsBuilt`).
  Decided at the committed index, signals would be prompt (`SyncBatch.SignalledInTime`) and a sleeping reader overdue
  by less than a batch (`SampleWait.OverdueByLessThanABatch`).
- Latency correction. It makes up for every delay exactly at rates of which a period in nanoseconds is at most 5 ms
  and the fraction gcd(10^9 d, n) / n (`Latency.CatchesUpExactly`): at 200 Hz and above for the audio sink, whose rates
  are whole (`Latency.WholeRates`), and at no ordinary frame rate for the video and data sinks, where a buffer more
  than 5 ms and less than a frame late stays late (`Latency.RateBounds`, `Latency.LateByLessThanAPeriod`).
- Gaps between audio chunks. A chunk's index is computed from its first sample and used as the end of its batch, so
  that the last, shorter chunk of a buffer leaves unwritten what it is shorter by (`AudioTiming.GapBetween`,
  `AudioTiming.GapAt48kHz`; for whole buffers `AudioTiming.WholeBuffer`).
- Skipped frames. After filling in skipped grains the test source passes the received frame's own index over; its
  commits stay one run exactly if nothing is opened after an index has been passed over
  (`FrameRun.KeepsRunExactly`, `SliceBatches.SendFrames`; one skip is enough, `FrameRun.OneSkipBreaksTheRun`).
  A read of an index passed over can be granted, with the grain of an earlier lap (`DiscreteFlow.GetGrain`).
- Invalid for good. Opening a grain keeps the flags of its slot and nothing takes the invalid flag away again, so that
  a frame sent whole is marked invalid if and only if an index of its slot has been skipped at any time before
  (`SliceBatches.SendFrames`, `SliceBatches.SendAndRead`; a concrete run, `FrameRun.OneSkipMarksALaterGrain`).
- Head before info. The head is published before the info is copied
  (`lib/internal/src/PosixDiscreteFlowWriter.cpp:133` and `:136`), so that a read in between can be granted on the
  strength of the slot's former info (`GrainWait.ServedTooSoon`); what it is then given, and exactly when that is the
  last commit of its index, is `GrainWait.ServedCommit`.
- Asked for no samples at all, the fragments handed out are not empty (`ContinuousRing.EmptySlice`).
- A rate of less than one nanosecond per index always loses indices (`IndexConversion.RoundTrip`).

## Model

| member | source | states |
|---|---|---|
| `AncCodec.AncFromSt2038` | rust/gst-mxl-rs/src/format/data.rs:59-129 | on success the packet is well formed and the input is exactly its ST 2038 bytes followed by what is left; on failure nothing is consumed and no well-formed packet's bytes begin the input |
| `AncCodec.AncFromRfc8331` | rust/gst-mxl-rs/src/format/data.rs:197-251 | the same for RFC 8331, whatever S and StreamNum are; an I/O error is reported exactly when the input is a proper prefix of some packet |
| `AncPacket.St2038Unique` | rust/gst-mxl-rs/src/format/data.rs:59-129 | at most one packet begins an input: the format delimits itself |
| `AncPacket.Rfc8331Unique` | rust/gst-mxl-rs/src/format/data.rs:197-251 | at most one packet, with one S and StreamNum octet, begins an input |
| `AncPacket.CutShortBits` | rust/gst-mxl-rs/src/format/data.rs:204-237 | the bits that make the reader run dry are those of inputs that some packet extends |
| `AncWrite.AppendRfc8331` | rust/gst-mxl-rs/src/format/data.rs:132-181 | succeeds exactly for fields that fit their widths, and then appends the RFC 8331 bytes with S and StreamNum zero |
| `AncWrite.AppendSt2038` | rust/gst-mxl-rs/src/format/data.rs:254-282 | succeeds exactly for fields that fit their widths, and then appends the ST 2038 bytes with one bits as padding |
| `AncWrite.Rfc8331FromSt2038` | rust/gst-mxl-rs/src/format/data.rs:186-193 | carries one packet across and advances past it; on failure changes neither side |
| `AncWrite.St2038FromRfc8331` | rust/gst-mxl-rs/src/format/data.rs:286-293 | carries one packet back, dropping S and StreamNum; on failure changes neither side |
| `AncGrain.PadGrain` | rust/gst-mxl-rs/src/format/data.rs:356-363 | refuses exactly what is longer than a grain and fills up with zeros |
| `AncGrain.GrainFromSt2038` | rust/gst-mxl-rs/src/format/data.rs:296-326 | succeeds exactly when the buffer splits into at most 255 well-formed packets whose RFC 8331 sizes sum to at most 4090; the grain has that sum as Length, their number as ANC_Count, and zeros after them |
| `AncGrain.St2038FromGrain` | rust/gst-mxl-rs/src/format/data.rs:329-354 | succeeds exactly when the bytes that Length announces are exactly ANC_Count packets, and returns those in ST 2038 form; reports an I/O error exactly when the packets are cut short |
| `AncGrain.St2038SplitUnique` | rust/gst-mxl-rs/src/format/data.rs:308-318 | a buffer splits into ST 2038 packets in one way at most |
| `AncGrain.Rfc8331SplitUnique` | rust/gst-mxl-rs/src/format/data.rs:344-352 | a payload splits into RFC 8331 packets, with their S and StreamNum, in one way at most |
| `AncGrain.RoundTrip` | rust/gst-mxl-rs/src/format/data.rs:296-354 | decoding the grain of any buffer the encoder accepts gives that buffer, byte for byte, and nothing else |
| `AncGrain.NormalFormExists` | rust/gst-mxl-rs/src/format/data.rs:356-363 | what a grain of any size decodes to can be encoded again if and only if its Length is at most 4090 |
| `AncGrain.NormalForm` | rust/gst-mxl-rs/src/format/data.rs:296-354 | decoding and encoding keeps Length, ANC_Count and the packets, and zeroes F, reserved, every S and StreamNum and everything past Length |
| `AncGrain.NormaliseTwice` | rust/gst-mxl-rs/src/format/data.rs:296-354 | normalising a normal form changes nothing |
| `AncGrain.StreamOctet` | rust/gst-mxl-rs/src/format/data.rs:148-153 | S and StreamNum are the fourth octet of a packet and no other octet depends on them |
| `BitIo.BitReader.Read` | rust/gst-mxl-rs/src/format/data.rs:65-102 | reads the next n bits as a big-endian number and moves on by n, or fails if they are not there |
| `BitIo.BitWriter.Write` | rust/gst-mxl-rs/src/format/data.rs:141-167 | appends the n bits of a number, and fails exactly if it needs more |
| `UdwUnpacker.WordReader.Read` | tools/mxl-data-probe/main.cpp:131-141 | the next sixteen bits as a number, or the out-of-bounds case exactly when fewer than two bytes are left |
| `UdwUnpacker.Unpacker.Refill` | tools/mxl-data-probe/main.cpp:172-176 | at most one word is needed, and the 32-bit accumulator never holds more than 25 bits |
| `UdwUnpacker.Unpacker.Read` | tools/mxl-data-probe/main.cpp:170-182 | the ten bits at the current bit position of the byte string, which moves on by ten |
| `UdwUnpacker.ReadUserData` | tools/mxl-data-probe/main.cpp:160-188 | k reads give the k consecutive ten-bit groups, take ceil(10k/16) words, and fail exactly when those are not there |
| `UdwUnpacker.TopTen` | tools/mxl-data-probe/main.cpp:178-180 | shifting and masking the accumulator take the first ten bits of the bit string and leave the others |
| `DiscreteFlow.OpenKeeps` | lib/internal/src/PosixDiscreteFlowWriter.cpp:82-95 | opening the head or the index after it changes what no index of the window holds, save the index field of the oldest |
| `DiscreteFlow.CommitKeeps` | lib/internal/src/PosixDiscreteFlowWriter.cpp:123-147 | after a contiguous commit every index of the new window finds its own last commit in its slot |
| `DiscreteFlow.ReadsLog` | lib/internal/src/PosixDiscreteFlowReader.cpp:149-193 | window test and slice test over the ring give the answer that the log of commits gives; what the answers are is `ReadAnswers` |
| `DiscreteFlow.ServedMeans` | lib/internal/src/PosixDiscreteFlowReader.cpp:162-164 | a grain is enough for a reader if it has the slices asked for, or all there are, or is marked invalid |
| `DiscreteFlow.ReadAnswers` | lib/internal/src/PosixDiscreteFlowReader.cpp:149-193 | too late if and only if the index is a whole ring or more behind the head; granted if and only if it is within a ring behind the head and its slot has the slices asked for, or all, or is marked invalid; too early in every other case |
| `DiscreteFlow.CommitAccounted` | lib/internal/src/PosixDiscreteFlowWriter.cpp:132-136 | after any commit each slot still holds the last commit of the index last committed into it, under the index last opened in it; a commit that does not go back leaves the newest index of each slot in it |
| `DiscreteFlow.HeldInWindow` | lib/internal/src/PosixDiscreteFlowReader.cpp:154-161 | if no commit has gone back, the slot of an index of the window holds that index exactly if it has been committed, and otherwise an older one or none |
| `DiscreteFlow.Writer.OpenGrain` | lib/internal/src/PosixDiscreteFlowWriter.cpp:82-95 | one slot gets the new index and keeps everything else; the ring stays consistent with the log |
| `DiscreteFlow.Writer.Commit` | lib/internal/src/PosixDiscreteFlowWriter.cpp:123-152 | accepted exactly for the open index; then head, slot, log and counter move on together, and a complete grain closes |
| `DiscreteFlow.GetGrain` | lib/internal/src/PosixDiscreteFlowReader.cpp:149-193 | a granted read has the slices asked for, or all, or is marked invalid; it is too late exactly a ring behind the head; and of an index of the window, if no commit has gone back, it is granted exactly if the last commit of the index has them. After contiguous commits, and asked for a slice or more, a granted read returns the info last committed for exactly that index; only the tail, once reopened, comes with another index. After any opens and commits it returns the last commit of the index last committed into the slot, under the index last opened in it; if no commit has gone back that is the index asked for exactly if it has been committed, and else an older one |
| `SliceBatches.BatchCount` | tools/mxl-gst/testsrc.cpp:672-673 | the number of batches computed is the least that brings every slice |
| `SliceBatches.SendGrain` | tools/mxl-gst/testsrc.cpp:683-723 | every batch commit is accepted, no commit announces a slice whose bytes are not in place, each byte is copied exactly once, the grain ends complete and closed with the bytes of the frame first in its payload, and no other slot changes |
| `SliceBatches.SendSkipped` | tools/mxl-gst/testsrc.cpp:645-666 | the ring is opened and committed at each skipped index in turn; what that comes to is `FrameRun.AllSkipped` |
| `FrameRun.AllSkipped` | tools/mxl-gst/testsrc.cpp:645-666 | every skipped index ends in the log under itself as an invalid grain, no other index changes, the slots marked invalid by it are exactly those of the skipped indices, and these commits are one run if the first of them continues it |
| `SliceBatches.ReceiveFrame` | tools/mxl-gst/testsrc.cpp:622-734 | one frame changes the ring as `FrameRun.StepMeans` says, puts its bytes into the payload of its slot exactly if it is in time and can be read, leaves every other payload, and moves the expected index on |
| `FrameRun.StepMeans` | tools/mxl-gst/testsrc.cpp:629-734 | an early frame has every index before it committed as invalid; a frame in time that can be read has its own index committed with all slices; any other frame changes nothing |
| `FrameRun.ExpectedIsLatest` | tools/mxl-gst/testsrc.cpp:619-734 | the expected index is the greatest that any frame so far would lead to at one index a frame |
| `SliceBatches.SendFrames` | tools/mxl-gst/testsrc.cpp:613-736 | after any frames the log has exactly the indices of the frames in time that could be read and the skipped ones; the former have every slice, the latter the invalid flag, and the former have it too if and only if an index of their slot was skipped before; the payload of a slot begins with the bytes of the frame last sent in it; no commit has gone back, and the log, if there is one, is a run of indices without a hole if and only if nothing was opened after an index had been passed over |
| `SliceBatches.SendAndRead` | lib/internal/src/PosixDiscreteFlowReader.cpp:149-193 | after any frames a read of a sent frame is too late exactly a ring behind the head, and otherwise granted, whole, with the bytes of that very frame, marked invalid exactly if an index of its slot had been skipped; a read of a skipped index of the window is granted as invalid |
| `FrameRun.OneSkipBreaksTheRun` | tools/mxl-gst/testsrc.cpp:635-667 | a frame one index early, followed by one in time, breaks the run |
| `FrameRun.OneSkipMarksALaterGrain` | tools/mxl-gst/testsrc.cpp:653-688 | in a ring of two the second of them is sent and marked invalid, as the skipped index had its slot |
| `FrameRun.KeepsRunExactly` | tools/mxl-gst/testsrc.cpp:622-734 | the step-by-step account of a run of frames amounts to the condition that nothing is opened after an index has been passed over |
| `GrainWait.StepKeeps` | lib/internal/src/PosixDiscreteFlowReader.cpp:195-217 | the invariant of the wait protocol is kept by every step of the writer and of every reader |
| `GrainWait.NoLostWakeUp` | lib/internal/src/Sync.cpp:67-111 | after any interleaving, between commits a reader is asleep only if its check would still be too early |
| `GrainWait.Answered` | lib/internal/src/PosixDiscreteFlowReader.cpp:199-216 | after any interleaving, between commits, a reader whose request can be answered gets its answer within six of its own steps, without sleeping and whatever its deadline; it is the answer of a non-blocking read, or, if the head was looked at before, of the slot test |
| `GrainWait.HeadCheck` | lib/internal/src/PosixDiscreteFlowReader.cpp:154-160 | looking at the head, a read is too late if and only if its index is a ring or more behind it, waits if and only if it is past it, and goes on to the slot in between |
| `GrainWait.SlotCheck` | lib/internal/src/PosixDiscreteFlowReader.cpp:161-175 | looking at the slot, it is granted if and only if the slices asked for, or all, are there or the grain is marked invalid, and waits otherwise |
| `GrainWait.RunEndsAsChecked` | lib/internal/src/PosixDiscreteFlowReader.cpp:199-216 | over any interleaving, also under late deadlines and during commits, a read ends too late only if its index was a ring behind the head it saw, and granted only if it was in the window of that head |
| `GrainWait.ServedCommit` | lib/internal/src/PosixDiscreteFlowReader.cpp:154-175 | after any interleaving a granted read hands out a copy of one commit; it is the last commit of the index asked for if and only if it is one of that index at all and the writer is not between the head and the info of another one |
| `GrainWait.ServedTooSoon` | lib/internal/src/PosixDiscreteFlowWriter.cpp:133-136 | between head and info, a read is granted on the slot's former info although the new one would not serve it |
| `GrainWait.SleepsAtMultiples` | lib/internal/src/Sync.cpp:78-90 | whatever has happened since its load, a reader that asks the kernel is put to sleep if and only if the bumps since are a multiple of 2^32 |
| `GrainWait.WrappedCounterSleeps` | lib/internal/src/Sync.cpp:78-90 | from every initial state a run leads to a reader that is n commits late and whose slices are there; it is put to sleep if and only if n is a multiple of 2^32, so that the bound of the protocol is exact |
| `GrainWait.CommitInOneStep` | lib/internal/src/PosixDiscreteFlowWriter.cpp:132-147 | head, slot, counter and wake in a row are the commit of the ring model |
| `GrainWait.OpenAndCancel` | lib/internal/src/PosixDiscreteFlowWriter.cpp:82-121 | an open changes the index in one slot, a cancel closes it, and after a cancel no commit is accepted |
| `ContinuousRing.WordAfterSplice` | rust/gst-mxl-rs/src/mxlsink/render_audio.rs:171-180 | writing one sample changes that sample and no other of any channel within a ring's length |
| `ContinuousRing.SliceParts` | lib/internal/src/PosixContinuousFlowReader.cpp:131-147 | in 64-bit arithmetic the fragments are the part before the end of the ring and the rest from its start |
| `ContinuousRing.SlicePlanes` | lib/internal/src/PosixContinuousFlowWriter.cpp:80-96 | fragment by fragment and channel by channel, the bytes handed out are exactly those of the requested indices, and stay in the memory |
| `ContinuousRing.SliceCovers` | lib/internal/src/PosixContinuousFlowReader.cpp:134-135 | the fragment sizes add up to the range if and only if at least one sample is asked for |
| `ContinuousRing.EmptySlice` | lib/internal/src/PosixContinuousFlowReader.cpp:134-135 | asked for no sample, the first fragment still reaches to the end of the ring |
| `ContinuousRing.StrideReaches` | rust/mxl/src/samples/data.rs:30-34 | a multiple of the stride leads to the same place in another channel, within the memory |
| `ContinuousRing.Granted` | lib/internal/src/PosixContinuousFlowReader.cpp:123-127 | a read is granted if and only if the whole range lies in the half ring that ends at the head |
| `ContinuousRing.RangeAnswers` | lib/internal/src/PosixContinuousFlowReader.cpp:120-157 | too early exactly past the head, granted exactly if the range lies between half a ring before the head and the head, and too late otherwise |
| `ContinuousRing.WindowsDisjoint` | lib/internal/src/PosixContinuousFlowWriter.cpp:78-98 | no slot of the batch the writer holds open is a slot of any range a reader can be granted |
| `ContinuousFlow.WindowUnchanged` | lib/internal/src/PosixContinuousFlowWriter.cpp:132-136 | writes outside the half ring before the head, committed or cancelled, change nothing a reader can be granted |
| `ContinuousFlow.Flow.GetSamples` | lib/internal/src/PosixContinuousFlowReader.cpp:120-157 | the answer and the fragments; if granted, the frames in the ring are those of the log at these indices |
| `ContinuousFlow.Writer.OpenSamples` | lib/internal/src/PosixContinuousFlowWriter.cpp:74-106 | accepts up to half a ring, hands out the fragments, and leaves the flow as it was |
| `ContinuousFlow.Writer.SignalCompletedBatch` | lib/internal/src/PosixContinuousFlowWriter.cpp:138-163 | decides and remembers as the specification of sync batches says |
| `ContinuousFlow.Writer.MoveHead` | lib/internal/src/PosixContinuousFlowWriter.cpp:112-114 | the head moves, and the log grows by exactly the frames the memory holds for the batch |
| `ContinuousFlow.Writer.Commit` | lib/internal/src/PosixContinuousFlowWriter.cpp:108-130 | that, and the batch remembered and the counter are those of a run decided at the cleared index over all commits of the writer |
| `ContinuousFlow.CommitAll` | lib/internal/src/PosixContinuousFlowWriter.cpp:108-130 | any number of commits in a row bump the counter once or twice; signals have been prompt throughout if and only if the last commit is less than a batch past the one that last signalled |
| `SyncBatch.SignalledInTime` | lib/internal/src/PosixContinuousFlowWriter.cpp:138-163 | decided at the committed index, for any non-decreasing indices, fewer than a batch of samples lie past the last signal, and up to index N there are at most N / batch + 1 signals |
| `SyncBatch.ClearedIndexSignalsTwice` | lib/internal/src/PosixContinuousFlowWriter.cpp:114-116 | in the order the program uses, after any commits the last signal is at the second of them if there is one and the sizes are such, else at the first; none comes after |
| `SyncBatch.PromptAsBuilt` | lib/internal/src/PosixContinuousFlowWriter.cpp:114-116 | in that order signals stay prompt over a run if and only if its last commit is less than a batch past that signal, and sparing unless the second commit signals within the first batch |
| `SyncBatch.LateAtThirdCommit` | lib/internal/src/PosixContinuousFlowWriter.cpp:114-116 | with batches of 480 samples the third commit is already a batch past the last signal |
| `SyncBatch.SizesFor` | lib/internal/src/PosixContinuousFlowWriter.cpp:30-32 | for all hints, zero included, the batch is positive and the threshold below it; for positive ones the batch is the sync hint, and threshold and commit hint make up a batch if the commit hint is no larger |
| `SampleWait.SleepsPastSignal` | lib/internal/src/PosixContinuousFlowReader.cpp:159-177 | after any interleaving, between commits, a reader is asleep only for an index past the one last signalled |
| `SampleWait.OverdueByLessThanABatch` | lib/internal/src/PosixContinuousFlowWriter.cpp:138-163 | decided at the committed index, the samples a sleeping reader could already have had are fewer than a sync batch |
| `SampleWait.OversleepsExactly` | lib/internal/src/PosixContinuousFlowReader.cpp:159-177 | for any commits and either order, some interleaving leaves a reader asleep over samples that are there if and only if the last commit is past the index last signalled |
| `SampleWait.OversleepsAsBuilt` | lib/internal/src/PosixContinuousFlowWriter.cpp:112-121 | in the program's order, if and only if it is past the index of the first or, where that signals, second commit |
| `SampleWait.CheckMeans` | lib/internal/src/PosixContinuousFlowReader.cpp:120-157 | looking at the head, a blocking read waits exactly if its index is past it, is granted exactly if its range lies in the half ring that ends there, and is too late otherwise |
| `SampleWait.RunEndsAsChecked` | lib/internal/src/PosixContinuousFlowReader.cpp:159-177 | over any interleaving a blocking read ends with the answer that the head it last saw gives |
| `AudioPath.WriteSamplesPerChannel` | rust/gst-mxl-rs/src/mxlsink/render_audio.rs:129-169 | every sample the chunk has ends in its channel at its index, across the end of the ring; every other word, and all that is readable, stays |
| `AudioPath.NothingLeft` | rust/gst-mxl-rs/src/mxlsink/render_audio.rs:145-148 | leaving the loop at the first sample a short chunk lacks leaves out no sample the chunk has |
| `AudioPath.ChunkWritten` | rust/gst-mxl-rs/src/mxlsink/render_audio.rs:129-184 | the frames then in the ring are, concatenated, the chunk |
| `AudioPath.WriteBuffer` | rust/gst-mxl-rs/src/mxlsink/render_audio.rs:251-261 | opening, writing and committing a batch adds exactly the chunk to the log |
| `AudioPath.GatherChannels` | rust/gst-mxl-rs/src/mxlsrc/create_audio.rs:265-274 | joining both planes of a channel gives its samples in order |
| `AudioPath.InterleaveAudio` | rust/gst-mxl-rs/src/mxlsrc/create_audio.rs:260-284 | the output is the concatenation of the frames of the range |
| `AudioPath.ReadAudio` | rust/gst-mxl-rs/src/mxlsrc/create_audio.rs:68-82 | a granted read yields the frames of the log at its indices |
| `AudioPath.EndToEnd` | rust/gst-mxl-rs/src/mxlsrc/create_audio.rs:260-284 | after any contiguous batches a granted read equals, byte for byte, the slice of the concatenated input at its indices, for all batch boundaries, wrap points and channel counts |
| `BufferSizing.LeastPages` | lib/internal/src/Instance.cpp:268-272 | the length is the least whole number of pages that covers the request |
| `BufferSizing.HistoryReadable` | lib/internal/src/Instance.cpp:262-272 | half the ring is at least the samples of the configured history, for every positive rate |
| `BufferSizing.NoPageTooMany` | lib/internal/src/Instance.cpp:262-272 | the ring is at least twice the history, to the sample lost in rounding, a page less would not be, and it is empty exactly if the history is shorter than half a period |
| `IndexConversion.RoundTrip` | lib/internal/include/mxl-internal/IndexConversion.hpp:12-34 | every index whose timestamp is representable survives the trip through it if and only if the numerator is at most 10^9 times the denominator |
| `IndexConversion.ShortPeriodClash` | lib/internal/include/mxl-internal/IndexConversion.hpp:25-34 | beyond that bound some index up to the numerator does not survive |
| `IndexConversion.LaterIndexLaterTime` | lib/internal/include/mxl-internal/IndexConversion.hpp:25-34 | timestamps are monotone in the index |
| `IndexConversion.LaterTimeLaterIndex` | lib/internal/include/mxl-internal/IndexConversion.hpp:12-23 | indices are monotone in the timestamp |
| `IndexConversion.Snapping` | lib/internal/include/mxl-internal/IndexConversion.hpp:12-34 | snapping a time moves it by at most half a period and half a nanosecond, and doing it twice is doing it once |
| `IndexConversion.Spacing` | lib/internal/include/mxl-internal/IndexConversion.hpp:25-34 | the timestamps of indices k apart differ from k periods by less than a nanosecond |
| `IndexConversion.NeverUndefined` | lib/src/time.cpp:42-43 | only index zero has timestamp zero, so that no other is reported as undefined |
| `IndexConversion.LaterByPeriods` | lib/internal/include/mxl-internal/IndexConversion.hpp:12-23 | k periods later, floored, is k indices later, or k - 1 exactly if the floor takes more than the time is past the middle before its index |
| `Latency.CatchesUpExactly` | rust/gst-mxl-rs/src/mxlsink/render_audio.rs:96-106 | the increased latency and the cushion make up for every delay, from every latency, if and only if 10^9 d <= 5 * 10^6 n + gcd(10^9 d, n) |
| `Latency.WholeRates` | rust/gst-mxl-rs/src/mxlsink/state.rs:328-331 | at the whole sample rates of the audio sink, if and only if the rate is at least 200 |
| `Latency.RateBounds` | rust/gst-mxl-rs/src/mxlsink/render_video.rs:44-51 | for rational rates, always from 200 periods a second on and never up to 199 |
| `Latency.LateByLessThanAPeriod` | rust/gst-mxl-rs/src/mxlsink/render_data.rs:45-52 | a buffer less than a period late is made up for if and only if it is at most 5 ms late |
| `Latency.Correct` | rust/gst-mxl-rs/src/mxlsink/render_audio.rs:96-106 | exactly when the buffer would be late, latency grows by the whole periods of the delay and the cushion is added; the time is then at most the cushion and a nanosecond after the present; latency never decreases and, at the rates above, the time is not before the present |
| `Latency.WholePeriodsFit` | rust/gst-mxl-rs/src/mxlsink/render_audio.rs:97-103 | the latency added lasts no longer than the delay, and one period more would |
| `AudioChunker.AudioState.Audio` | rust/gst-mxl-rs/src/mxlsink/render_audio.rs:69-126 | the chunks are the whole frames of the buffer in order, each at most half a ring and all but the last exactly that; each is due when those before it have lasted, with the latency so far, and at the rates above none is for the past |
| `AudioTiming.ChunksOnTime` | rust/gst-mxl-rs/src/mxlsink/render_audio.rs:86-97 | two successive chunks that need no correction are as far apart as the first of them lasts |
| `AudioTiming.GapBetween` | rust/gst-mxl-rs/src/mxlsink/render_audio.rs:251-253 | such chunks make contiguous batches if and only if the second is as long as the first, less the sample rounding may take; otherwise the difference is left unwritten |
| `AudioTiming.GapAt48kHz` | rust/gst-mxl-rs/src/mxlsink/render_audio.rs:251-253 | chunks of 9600 and 5400 samples leave 4200 indices unwritten |
| `AudioTiming.WholeBuffer` | rust/gst-mxl-rs/src/mxlsink/render_audio.rs:73-125 | all chunks of a buffer sent in time make contiguous batches if and only if each but the first is as long as the longest, less the sample that rounding may take |
| `AudioTiming.WholeBufferEven` | rust/gst-mxl-rs/src/mxlsink/render_audio.rs:73-125 | where the longest chunk lasts whole nanoseconds, if and only if the last chunk is as long as the others |
| `AudioSink.WriteAll` | rust/gst-mxl-rs/src/mxlsink/render_audio.rs:201-261 | batches written at their own indices grow into a log exactly if each starts where the one before has ended, and the log then is their bytes |
| `AudioSink.WriteAndRead` | rust/gst-mxl-rs/src/mxlsink/render_audio.rs:201-261 | of contiguous batches, a granted read is the slice of their bytes at its indices |
| `AudioSink.BufferToReader` | rust/gst-mxl-rs/src/mxlsink/render_audio.rs:33-127 | a buffer is cut, timed, written and read again: if its chunks follow each other, what a granted read returns is the slice of the buffer at its indices |
| `PtsTimeline.PullMovesOn` | tools/mxl-gst/testsrc.cpp:262-269 | for any source timestamps, time does not go back, moves on strictly once it has begun, the offset only grows, and spacing is the source's own or one frame where the source starts over |
| `PtsTimeline.PullOrdered` | tools/mxl-gst/testsrc.cpp:262-269 | the same between any two buffers of the run |
| `PtsTimeline.OffsetStaysZero` | tools/mxl-gst/testsrc.cpp:253-261 | the offset stays zero for exactly the sources that never go back |
| `PtsTimeline.Pipeline.Pull` | tools/mxl-gst/testsrc.cpp:262-269 | the buffer's timestamp is the base time plus what the run so far has emitted |
| `PtsTimeline.VideoSource.CreateVideo` | rust/gst-mxl-rs/src/mxlsrc/create_video.rs:24-63 | each timestamp is a frame past the one before or, if that is later, the latest running time of the calls since it, so that timestamps are at least one floored frame duration apart, also across grains that could not be read |
| `PtsTimeline.PlayVideo` | rust/gst-mxl-rs/src/mxlsrc/create_video.rs:24-63 | over any run of calls that find their grain each timestamp is a frame past the one before or the running time; if none of the running times is behind the frames, frame k is at exactly the first time and k periods, floored |
| `PtsTimeline.AudioSource.ComputePts` | rust/gst-mxl-rs/src/mxlsrc/create_audio.rs:210-230 | the timestamp is the later of the running time and a batch past the last one, and the origin moves with it |
| `PtsTimeline.AudioSource.CreateAudio` | rust/gst-mxl-rs/src/mxlsrc/create_audio.rs:47-105 | between resyncs each timestamp is a batch past the one before, or the running time if that is later; the first after a resync is the running time and is marked discontinuous |
| `PtsTimeline.PlayAudio` | rust/gst-mxl-rs/src/mxlsrc/create_audio.rs:47-105 | over any run without a resync each timestamp is a batch past the one before or the running time; if none of the running times is past the batches, timestamp k is the first and k batches |
| `PtsTimeline.OwnPace` | rust/gst-mxl-rs/src/mxlsrc/create_audio.rs:210-230 | a source that is never behind emits its first timestamp and from then on its own steps |
| `Lifecycle.OneFilePerFlow` | lib/internal/src/FlowManager.cpp:239-253 | after any run of calls and crashes all writers of a flow share its one published file |
| `Lifecycle.NeverRemoved` | lib/internal/src/Instance.cpp:303-368 | over any run in which nothing ends a given writer, its flow is never removed nor its file replaced |
| `Lifecycle.CollectedExactly` | lib/internal/src/Instance.cpp:303-368 | after a collection exactly the flows with a writer are left, files and writers untouched |
| `Lifecycle.OrderlyRun` | lib/internal/src/Instance.cpp:95-119 | without crashes every published flow has a writer, and a collection finds nothing to do |
| `Lifecycle.CountsCreates` | lib/internal/src/Instance.cpp:217-228 | n creates by one instance are n references to one writer |
| `Lifecycle.CountsReleases` | lib/internal/include/mxl-internal/Instance.hpp:227-238 | a writer lasts until it has been released as often as created; its flow lasts longer exactly if another instance writes it |
| `Lifecycle.CreateExactly` | lib/internal/src/Instance.cpp:188-231 | a create adds one writer or one reference and at most the flow, on a file never used before; every other writer and flow stays |
| `Lifecycle.ReleaseExactly` | lib/internal/src/Instance.cpp:164-186 | a release takes one reference; with the last one the writer goes, and the flow with it if and only if no other instance writes it |
| `Lifecycle.DestroyExactly` | lib/internal/src/Instance.cpp:95-119 | an orderly end leaves exactly the writers of other instances, as they were; a flow stays, on its file, if and only if the instance did not write it or another one does |
| `Lifecycle.CrashExactly` | lib/internal/src/SharedMemory.cpp:115-127 | a crash leaves exactly the writers of other instances and every flow |
| `Lifecycle.CollectExactly` | lib/internal/src/Instance.cpp:303-368 | a collection leaves exactly the flows with a writer, on their files, and every writer |
| `Lifecycle.CrashThenCollect` | lib/internal/src/Instance.cpp:303-368 | after a crash a collection removes exactly what no other instance writes |
| `FlowDomain.LockedElsewhere` | lib/internal/src/SharedMemory.cpp:142-165 | another descriptor has a lock on a writer's file if and only if another instance writes the flow |
| `FlowDomain.LockedAtAll` | lib/internal/src/Instance.cpp:332-335 | a published file is locked if and only if some instance writes the flow |
| `FlowDomain.World.CreateFlowWriter` | lib/internal/src/Instance.cpp:188-231 | preparing, publishing or opening, locking and counting have the effect of a create; created exactly if the flow was not there |
| `FlowDomain.World.ReleaseWriter` | lib/internal/src/Instance.cpp:164-186 | counting down, upgrading the lock and deleting have the effect of a release |
| `FlowDomain.World.Crash` | lib/internal/src/SharedMemory.cpp:115-127 | losing all descriptors of an instance leaves its flows in place and the other writers as they were |
| `FlowDomain.World.Destroy` | lib/internal/src/Instance.cpp:95-119 | the destructor's loop removes exactly the flows only this instance still writes, in whatever order it meets them |
| `FlowDomain.World.GarbageCollect` | lib/internal/src/Instance.cpp:303-368 | the loop over the directory removes exactly the flows nobody writes and returns their number |

## Left out

- Memory ordering: shared variables are read and written in one step each and in program order.
- Real clocks, sleeping and time zones: times are parameters, and a deadline may pass at any step of a waiting reader.
- `GrainWait` has one writer and its payload bytes are not part of the state; `waitUntilChanged` is modelled as steps of each reader, not as a method, because its meaning lies in the interleaving.
- Liveness beyond `GrainWait.Answered`: the scheduler is not modelled, so that nothing is said about how soon a reader takes its steps.
- Grain payload bytes in `DiscreteFlow`: the ring model holds the info of each slot; `SliceBatches` follows the payloads, one array for each slot.
- `DiscreteFlow` takes a commit as one step; what a read finds in the middle of one is the subject of `GrainWait`, whose state has no payload.
- SliceBatches.SendGrain, and what calls it: require the slot's slice count to be the frame height and the payload to hold the frame, because interlaced formats, where they differ, are decided elsewhere in the source.
- 64-bit overflow of nanosecond sums, grain indices and history lengths: they are unbounded here, save in `IndexConversion` (which models truncating division, the signed and unsigned casts, and the range in which they lose nothing) and in the fragment arithmetic of `ContinuousRing`.
- Indices within one ring of 2^64 in `AudioPath`: the fragment arithmetic of the source wraps there.
- AudioPath.InterleaveAudio: requires 4-byte words, the only sample format the plugin's source advertises.
- SampleWait: the ring's contents are not part of its state, and the indices committed do not decrease; the loop of its readers is otherwise that of `GrainWait`.
- The command channel between the sink's two threads, and its waiting for the time of a chunk: the batches are written in the order they are sent. `AudioSink.SampleData` is what it carries.
- The rest of the video and data sinks: their correction is that of `Latency.Correct`, with grains for samples.
- The test source's index offset: the indices of `SliceBatches` are those after it has been subtracted.
- `batch`, head and ring in the audio source decide only whether a resync happens; `PtsTimeline` takes that as a parameter.
- Error message texts: `AncError` keeps only whether the input was invalid or ran out.
- A write of fields too wide leaves a partial packet behind in the source's buffer; the contracts say only that what was there before is kept.
- A failed upgrade of an advisory lock may lose the shared lock, since the conversion gives up the old lock first; `FlowDomain.World.MakeExclusive` keeps it. Both callers close the descriptor in the same call, so that what they promise does not depend on it.
- Files in preparation: a flow is published in one step and a crash while it is prepared leaves only a temporary directory, which is not part of this model.
- Filesystem races between the lock test and the removal of a directory, reuse of inode numbers, and failing system calls: each call is one step on fresh inodes.
- Readers take no lock, so that nothing is promised to them about removal.
- `FlowSynchronizationGroup`, the data probe's packet parser above the unpacker, `DomainWatcher`, JSON parsing, the C interface, the fabrics layer and the command-line tools.
