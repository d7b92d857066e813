/** Interleaved audio into the ring and out of it again. */
module AudioPath {
  import Arith
  import opened BitString
  import opened Delimited
  import opened DiscreteFlow
  import opened ContinuousRing
  import ContinuousFlow

  function FrameSize(sh: Shape): nat {
    SizeOf(sh, sh.channels)
  }

  /** Where the word of channel `c` in frame `i` of an interleaved chunk starts. */
  function SampleOffset(sh: Shape, i: nat, c: nat): nat {
    Arith.Times(FrameSize(sh), i) + SizeOf(sh, c)
  }

  lemma {:induction false} OffsetIs(sh: Shape, i: nat, c: nat)
    ensures i * sh.channels * sh.wordSize + c * sh.wordSize == SampleOffset(sh, i, c)
  {
    Arith.TimesIs(sh.wordSize, c);
    Arith.TimesIs(sh.wordSize, sh.channels);
    Arith.TimesIs(FrameSize(sh), i);
    Arith.MulAssoc(i, sh.channels, sh.wordSize);
    Arith.MulComm(i, sh.channels * sh.wordSize);
    Arith.MulComm(sh.channels, sh.wordSize);
    Arith.MulComm(c, sh.wordSize);
  }

  predicate HasWord(sh: Shape, src: Bytes, i: nat, c: nat) {
    SampleOffset(sh, i, c) + sh.wordSize <= |src|
  }

  function SourceWord(sh: Shape, src: Bytes, i: nat, c: nat): Bytes
    requires HasWord(sh, src, i, c)
  {
    src[SampleOffset(sh, i, c)..SampleOffset(sh, i, c) + sh.wordSize]
  }

  lemma {:induction false} OffsetMono(sh: Shape, i: nat, j: nat, c: nat)
    requires i <= j
    ensures SampleOffset(sh, i, c) <= SampleOffset(sh, j, c)
  {
    Arith.TimesMono(FrameSize(sh), i, j);
  }

  // --- Writing -----------------------------------------------------------------------------------

  /** What the word at index `j` should be once channels below `ch` and samples below `i` of `ch` are written. */
  predicate WordWritten(sh: Shape, mem: Bytes, mem': Bytes, src: Bytes, first: int, ch: nat, i: nat, c: nat, j: int)
    requires sh.Valid() && |mem| == |mem'| == Size(sh) && c < sh.channels
  {
    Word(sh, mem', c, j) ==
    if first <= j && (c < ch || (c == ch && j - first < i)) && HasWord(sh, src, j - first, c)
    then SourceWord(sh, src, j - first, c)
    else Word(sh, mem, c, j)
  }

  /** The same of every word of the ring. */
  ghost predicate Written(sh: Shape, mem: Bytes, mem': Bytes, src: Bytes, first: int, count: nat, ch: nat, i: nat)
    requires sh.Valid() && |mem| == |mem'| == Size(sh)
  {
    forall c: nat, j: int | c < sh.channels && first + count - sh.length <= j < first + count ::
      WordWritten(sh, mem, mem', src, first, ch, i, c, j)
  }

  lemma {:induction false} WriteOne(sh: Shape, mem: Bytes, mem': Bytes, src: Bytes, first: int, count: nat, ch: nat,
                                    i: nat)
    requires sh.Valid() && |mem| == |mem'| == Size(sh) && Written(sh, mem, mem', src, first, count, ch, i)
    requires i < count <= sh.length && ch < sh.channels && HasWord(sh, src, i, ch)
    requires Address(sh, ch, Slot(first + i, sh.length)) + sh.wordSize <= |mem|
    ensures Written(sh, mem, Splice(mem', Address(sh, ch, Slot(first + i, sh.length)), SourceWord(sh, src, i, ch)),
                    src, first, count, ch, i + 1)
  {
    var w, next := SourceWord(sh, src, i, ch), i + 1;
    var mem'' := Splice(mem', Address(sh, ch, Slot(first + i, sh.length)), w);
    forall c: nat, j: int | c < sh.channels && first + count - sh.length <= j < first + count
      ensures WordWritten(sh, mem, mem'', src, first, ch, next, c, j)
    {
      assert WordWritten(sh, mem, mem', src, first, ch, i, c, j);
      WordAfterSplice(sh, mem', ch, first + i, w, c, j);
    }
  }

  /** Past the end of a short chunk nothing is written. */
  lemma {:induction false} NothingLeft(sh: Shape, mem: Bytes, mem': Bytes, src: Bytes, first: int, count: nat,
                                       ch: nat, i: nat)
    requires sh.Valid() && |mem| == |mem'| == Size(sh) && Written(sh, mem, mem', src, first, count, ch, i)
    requires ch < sh.channels && (i >= count || !HasWord(sh, src, i, ch))
    ensures Written(sh, mem, mem', src, first, count, ch + 1, 0)
  {
    var next := ch + 1;
    forall c: nat, j: int | c < sh.channels && first + count - sh.length <= j < first + count
      ensures WordWritten(sh, mem, mem', src, first, next, 0, c, j)
    {
      assert WordWritten(sh, mem, mem', src, first, ch, i, c, j);
      if c == ch && j - first >= i {
        OffsetMono(sh, i, j - first, c);
      }
    }
  }

  /** Only the batch itself is written: the frames readers can still be granted stay as they are. */
  lemma {:induction false} WrittenKeepsWindow(sh: Shape, mem: Bytes, mem': Bytes, src: Bytes, first: int,
                                              count: nat, log: seq<Bytes>, start: int)
    requires sh.Valid() && |mem| == |mem'| == Size(sh) && count <= sh.length / 2
    requires Written(sh, mem, mem', src, first, count, sh.channels, 0)
    requires ContinuousFlow.Window(sh, mem, log, start) && (log == [] || first == start + |log|)
    ensures ContinuousFlow.Window(sh, mem', log, start)
  {
    if log != [] {
      forall c: nat, j: int | c < sh.channels && first + sh.length / 2 - sh.length <= j < first
        ensures Word(sh, mem', c, j) == Word(sh, mem, c, j)
      {
        assert WordWritten(sh, mem, mem', src, first, sh.channels, 0, c, j);
      }
      ContinuousFlow.WindowUnchanged(sh, mem, mem', log, start);
    }
  }

  method WriteSample(memory: array<byte>, at: nat, src: Bytes, offset: nat, n: nat)
    requires at + n <= memory.Length && offset + n <= |src|
    modifies memory
    ensures memory[..] == Splice(old(memory[..]), at, src[offset..offset + n])
  {
    var k := 0;
    while k < n
      invariant 0 <= k <= n
      invariant forall m | 0 <= m < memory.Length ::
        memory[m] == if at <= m < at + k then src[offset + (m - at)] else old(memory[m])
    {
      memory[at + k] := src[offset + k];
      k := k + 1;
    }
  }

  /** One sample, into whichever of the two planes of its channel it belongs to. */
  method PlaceSample(memory: array<byte>, sh: Shape, slice: Slice, src: Bytes, sampleOffset: nat, ch: nat,
                     written: nat,
                     ghost first: int, ghost count: nat, ghost i: nat)
    requires sh.Valid() && memory.Length == Size(sh) && Planes(sh, slice, first, count)
    requires ch < sh.channels && i < count && written == SizeOf(sh, i)
    requires sampleOffset == SampleOffset(sh, i, ch) && HasWord(sh, src, i, ch)
    modifies memory
    ensures Address(sh, ch, Slot(first + i, sh.length)) + sh.wordSize <= memory.Length
    ensures memory[..] ==
            Splice(old(memory[..]), Address(sh, ch, Slot(first + i, sh.length)), SourceWord(sh, src, i, ch))
  {
    ghost var a := Address(sh, ch, Slot(first + i, sh.length));
    AddressBound(sh, ch, Slot(first + i, sh.length));
    StrideReaches(sh, ch);
    assert Reaches(sh, slice, first, ch, i);
    var base := slice.stride * ch;
    var plane1, plane2 := slice.pointer0 + base, slice.pointer1 + base;
    if written + sh.wordSize <= slice.size0 {
      assert plane1 + written == a;
      WriteSample(memory, plane1 + written, src, sampleOffset, sh.wordSize);
    } else if written < slice.size0 + slice.size1 {
      var offset := if written > slice.size0 then written - slice.size0 else 0;
      if offset + sh.wordSize <= slice.size1 {
        assert plane2 + offset == a;
        WriteSample(memory, plane2 + offset, src, sampleOffset, sh.wordSize);
      }
    }
  }

  /** Puts an interleaved chunk into the open batch, channel by channel, across the end of the ring if need be. */
  method WriteSamplesPerChannel(writer: ContinuousFlow.Writer, slice: Slice, samples: nat, src: Bytes)
    requires writer.Valid() && writer.IsOpen() && samples == writer.openCount
    requires Planes(writer.flow.shape, slice, writer.currentIndex - samples, samples)
    modifies writer.flow.memory
    ensures writer.Valid()
    ensures var sh := writer.flow.shape;
      Written(sh, old(writer.flow.memory[..]), writer.flow.memory[..], src, writer.currentIndex - samples, samples,
              sh.channels, 0)
  {
    var flow, sh := writer.flow, writer.flow.shape;
    ghost var mem, first := flow.memory[..], writer.currentIndex - samples;
    var ch := 0;
    while ch < sh.channels
      invariant 0 <= ch <= sh.channels
      invariant Written(sh, mem, flow.memory[..], src, first, samples, ch, 0)
    {
      WriteChannel(flow.memory, sh, slice, samples, src, ch, mem, first);
      ch := ch + 1;
    }
    if flow.contiguous {
      WrittenKeepsWindow(sh, mem, flow.memory[..], src, first, samples, flow.log, flow.start);
    }
  }

  /** The samples of one channel, as far as the chunk has them. */
  method WriteChannel(memory: array<byte>, sh: Shape, slice: Slice, samples: nat, src: Bytes, ch: nat,
                      ghost mem: Bytes, ghost first: int)
    requires sh.Valid() && |mem| == memory.Length == Size(sh) && ch < sh.channels && samples <= sh.length
    requires Planes(sh, slice, first, samples)
    requires Written(sh, mem, memory[..], src, first, samples, ch, 0)
    modifies memory
    ensures Written(sh, mem, memory[..], src, first, samples, ch + 1, 0)
  {
    var written := 0;
    var i := 0;
    while i < samples
      invariant 0 <= i <= samples && written == SizeOf(sh, i)
      invariant Written(sh, mem, memory[..], src, first, samples, ch, i)
    {
      var sampleOffset := i * sh.channels * sh.wordSize + ch * sh.wordSize;
      OffsetIs(sh, i, ch);
      if sampleOffset + sh.wordSize > |src| {
        break;
      }
      ghost var before := memory[..];
      PlaceSample(memory, sh, slice, src, sampleOffset, ch, written, first, samples, i);
      WriteOne(sh, mem, before, src, first, samples, ch, i);
      Arith.TimesNext(sh.wordSize, i);
      written := written + sh.wordSize;
      i := i + 1;
    }
    NothingLeft(sh, mem, memory[..], src, first, samples, ch, i);
  }

  // --- What has been written, frame by frame -----------------------------------------------------

  /** The frames of the batch are those of the chunk. */
  lemma {:induction false} FrameWritten(sh: Shape, mem: Bytes, mem': Bytes, src: Bytes, first: int, count: nat,
                                        i: nat, n: nat)
    requires sh.Valid() && |mem| == |mem'| == Size(sh) && Written(sh, mem, mem', src, first, count, sh.channels, 0)
    requires i < count <= sh.length && n <= sh.channels && SampleOffset(sh, i, n) <= |src|
    ensures FramePart(sh, mem', first + i, n) == src[SampleOffset(sh, i, 0)..SampleOffset(sh, i, n)]
    decreases n
  {
    if n > 0 {
      var c := n - 1;
      Arith.TimesNext(sh.wordSize, c);
      FrameWritten(sh, mem, mem', src, first, count, i, c);
      FramePartNext(sh, mem', first + i, c);
      assert WordWritten(sh, mem, mem', src, first, sh.channels, 0, c, first + i);
      assert Word(sh, mem', c, first + i) == src[SampleOffset(sh, i, c)..SampleOffset(sh, i, n)];
    }
  }

  lemma {:induction false} ChunkWritten(sh: Shape, mem: Bytes, mem': Bytes, src: Bytes, first: int, count: nat,
                                        n: nat)
    requires sh.Valid() && |mem| == |mem'| == Size(sh) && Written(sh, mem, mem', src, first, count, sh.channels, 0)
    requires n <= count <= sh.length && Arith.Times(FrameSize(sh), n) <= |src|
    ensures Flat(Frames(sh, mem', first, n)) == src[..Arith.Times(FrameSize(sh), n)]
    decreases n
  {
    if n > 0 {
      var i := n - 1;
      Arith.TimesNext(FrameSize(sh), i);
      ChunkWritten(sh, mem, mem', src, first, count, i);
      FrameWritten(sh, mem, mem', src, first, count, i, sh.channels);
      FramesNext(sh, mem', first, i);
    }
  }

  lemma {:induction false} FramesNext(sh: Shape, mem: Bytes, first: int, n: nat)
    requires sh.Valid() && |mem| == Size(sh)
    ensures Flat(Frames(sh, mem, first, n + 1)) == Flat(Frames(sh, mem, first, n)) + Frame(sh, mem, first + n)
  {
    FlatSnoc(Frames(sh, mem, first, n), Frame(sh, mem, first + n));
    assert Frames(sh, mem, first, n + 1) == Frames(sh, mem, first, n) + [Frame(sh, mem, first + n)];
  }

  lemma {:induction false} FrameLength(sh: Shape, mem: Bytes, j: int, n: nat)
    requires sh.Valid() && |mem| == Size(sh) && n <= sh.channels
    ensures |FramePart(sh, mem, j, n)| == SizeOf(sh, n)
    decreases n
  {
    if n > 0 {
      FrameLength(sh, mem, j, n - 1);
      FramePartNext(sh, mem, j, n - 1);
      Arith.TimesNext(sh.wordSize, n - 1);
    }
  }

  predicate AllOfSize(fs: seq<Bytes>, size: nat) {
    forall k | 0 <= k < |fs| :: |fs[k]| == size
  }

  lemma {:induction false} FramesOfSize(sh: Shape, mem: Bytes, first: int, n: nat)
    requires sh.Valid() && |mem| == Size(sh)
    ensures AllOfSize(Frames(sh, mem, first, n), FrameSize(sh))
  {
    forall k | 0 <= k < n
      ensures |Frames(sh, mem, first, n)[k]| == FrameSize(sh)
    {
      FrameLength(sh, mem, first + k, sh.channels);
    }
  }

  /** The log has taken in `count` more frames, which hold exactly the bytes of the chunk. */
  predicate GrownBy(log: seq<Bytes>, log': seq<Bytes>, chunk: Bytes, count: nat, size: nat) {
    && |log'| == |log| + count && log'[..|log|] == log
    && AllOfSize(log'[|log|..], size)
    && Flat(log') == Flat(log) + chunk
  }

  /** Opens, fills and commits one batch: the chunk is what the log grows by. */
  method WriteBuffer(writer: ContinuousFlow.Writer, index: nat, samples: nat, chunk: Bytes)
    requires writer.Valid() && index + writer.flow.shape.length < Arith.TWO_TO_64
    requires 1 <= samples <= writer.flow.shape.length / 2
    requires |chunk| == Arith.Times(FrameSize(writer.flow.shape), samples)
    modifies writer, writer.flow, writer.flow.memory
    ensures writer.Valid() && writer.flow.headIndex == index
    ensures writer.flow.contiguous == old(writer.flow.contiguous && writer.flow.Follows(index, samples))
    ensures writer.flow.contiguous ==>
      GrownBy(old(writer.flow.log), writer.flow.log, chunk, samples, FrameSize(writer.flow.shape))
    ensures writer.flow.contiguous ==>
      writer.flow.start == if old(writer.flow.log) == [] then index - samples else old(writer.flow.start)
  {
    var flow, sh := writer.flow, writer.flow.shape;
    var status, slice := writer.OpenSamples(index, samples);
    ghost var mem, log := flow.memory[..], flow.log;
    SlicePlanes(sh, index, samples);
    WriteSamplesPerChannel(writer, slice, samples, chunk);
    ghost var mem' := flow.memory[..];
    BatchGrows(sh, mem, mem', log, index, samples, chunk);
    ghost var log' := log + Frames(sh, mem', index - samples, samples);
    writer.Commit();
    assert flow.contiguous ==> flow.log == log';
  }

  lemma {:induction false} BatchGrows(sh: Shape, mem: Bytes, mem': Bytes, log: seq<Bytes>, index: nat, samples: nat,
                                      chunk: Bytes)
    requires sh.Valid() && |mem| == |mem'| == Size(sh) && samples <= sh.length
    requires |chunk| == Arith.Times(FrameSize(sh), samples)
    requires Written(sh, mem, mem', chunk, index - samples, samples, sh.channels, 0)
    ensures GrownBy(log, log + Frames(sh, mem', index - samples, samples), chunk, samples, FrameSize(sh))
  {
    var frames := Frames(sh, mem', index - samples, samples);
    ChunkWritten(sh, mem, mem', chunk, index - samples, samples, samples);
    assert chunk[..|chunk|] == chunk;
    FramesOfSize(sh, mem', index - samples, samples);
    GrowsBy(log, frames, chunk, FrameSize(sh));
  }

  lemma {:induction false} GrowsBy(log: seq<Bytes>, frames: seq<Bytes>, chunk: Bytes, size: nat)
    requires AllOfSize(frames, size) && Flat(frames) == chunk
    ensures GrownBy(log, log + frames, chunk, |frames|, size)
  {
    FlatAppend(log, frames);
    assert (log + frames)[|log|..] == frames;
    assert (log + frames)[..|log|] == log;
  }

  // --- Reading -----------------------------------------------------------------------------------

  const SIZE_OF_F32: nat := 4

  /** Both planes of a channel, as bytes. */
  ghost predicate ChannelBytes(sh: Shape, mem: Bytes, first: int, count: nat, ch: nat, bytes: Bytes)
    requires sh.Valid() && |mem| == Size(sh) && ch < sh.channels
  {
    && |bytes| == SizeOf(sh, count)
    && forall k | 0 <= k < count :: WordAt(sh, bytes, k) == Word(sh, mem, ch, first + k)
  }

  function WordAt(sh: Shape, bytes: Bytes, k: nat): Bytes {
    if SizeOf(sh, k) + sh.wordSize <= |bytes| then bytes[SizeOf(sh, k)..SizeOf(sh, k) + sh.wordSize] else []
  }

  /** A word that lies in one of two planes lies in what they make when joined. */
  lemma {:induction false} TwoPlanes(mem: Bytes, p: nat, n: nat, q: nat, m: nat, at: nat, w: nat, a: nat)
    requires p + n <= |mem| && q + m <= |mem| && a + w <= |mem|
    requires if at + w <= n then a == p + at else n <= at && at + w <= n + m && a == q + (at - n)
    ensures (mem[p..p + n] + mem[q..q + m])[at..at + w] == mem[a..a + w]
  {
    if at + w <= n {
      InFirst(mem[p..p + n], mem[q..q + m], at, w);
      SliceOfSlice(mem, p, n, at, w);
    } else {
      InSecond(mem[p..p + n], mem[q..q + m], at - n, w);
      SliceOfSlice(mem, q, m, at - n, w);
    }
  }

  lemma {:induction false} InFirst(x: Bytes, y: Bytes, at: nat, w: nat)
    requires at + w <= |x|
    ensures (x + y)[at..at + w] == x[at..at + w]
  {
  }

  lemma {:induction false} InSecond(x: Bytes, y: Bytes, at: nat, w: nat)
    requires at + w <= |y|
    ensures (x + y)[|x| + at..|x| + at + w] == y[at..at + w]
  {
  }

  lemma {:induction false} SliceOfSlice(s: Bytes, p: nat, n: nat, at: nat, w: nat)
    requires p + n <= |s| && at + w <= n
    ensures s[p..p + n][at..at + w] == s[p + at..p + at + w]
  {
    var x, y := s[p..p + n][at..at + w], s[p + at..p + at + w];
    forall k | 0 <= k < w
      ensures x[k] == y[k]
    {
      assert s[p..p + n][at + k] == s[p + at + k];
    }
  }

  lemma {:induction false} PlanesHoldWords(sh: Shape, mem: Bytes, s: Slice, first: int, count: nat, ch: nat, p: nat,
                                           q: nat)
    requires sh.Valid() && |mem| == Size(sh) && ch < sh.channels && Planes(sh, s, first, count)
    requires p == s.pointer0 + ChannelBase(sh, ch) && q == s.pointer1 + ChannelBase(sh, ch)
    ensures p + s.size0 <= |mem| && q + s.size1 <= |mem|
    ensures ChannelBytes(sh, mem, first, count, ch, mem[p..p + s.size0] + mem[q..q + s.size1])
  {
    StrideReaches(sh, ch);
    var bytes := mem[p..p + s.size0] + mem[q..q + s.size1];
    forall k | 0 <= k < count
      ensures WordAt(sh, bytes, k) == Word(sh, mem, ch, first + k)
    {
      assert Reaches(sh, s, first, ch, k);
      var a := Address(sh, ch, Slot(first + k, sh.length));
      AddressBound(sh, ch, Slot(first + k, sh.length));
      TwoPlanes(mem, p, s.size0, q, s.size1, SizeOf(sh, k), sh.wordSize, a);
    }
  }

  lemma {:induction false} FourByteWords(sh: Shape, n: nat)
    requires sh.wordSize == SIZE_OF_F32
    ensures SizeOf(sh, n) == SIZE_OF_F32 * n
  {
    Arith.TimesIs(sh.wordSize, n);
  }

  lemma {:induction false} WordBounds(sh: Shape, count: nat, k: nat)
    requires k < count
    ensures SizeOf(sh, k) + sh.wordSize <= SizeOf(sh, count)
  {
    Arith.TimesNext(sh.wordSize, k);
    Arith.TimesMono(sh.wordSize, k + 1, count);
  }

  /** The planes of every channel, joined. */
  method GatherChannels(memory: array<byte>, sh: Shape, slice: Slice, ghost first: int, ghost count: nat)
    returns (channels: seq<Bytes>, samples: nat)
    requires sh.Valid() && sh.wordSize == SIZE_OF_F32 && sh.channels > 0 && memory.Length == Size(sh)
    requires Planes(sh, slice, first, count)
    ensures samples == count && |channels| == sh.channels
    ensures forall c | 0 <= c < sh.channels :: ChannelBytes(sh, memory[..], first, count, c, channels[c])
  {
    channels, samples := [], 0;
    var ch := 0;
    while ch < slice.count
      invariant 0 <= ch <= slice.count == sh.channels && |channels| == ch
      invariant ch > 0 ==> samples == count
      invariant forall c | 0 <= c < ch :: ChannelBytes(sh, memory[..], first, count, c, channels[c])
    {
      StrideReaches(sh, ch);
      var plane1, plane2 := slice.pointer0 + slice.stride * ch, slice.pointer1 + slice.stride * ch;
      PlanesHoldWords(sh, memory[..], slice, first, count, ch, plane1, plane2);
      var combined := memory[plane1..plane1 + slice.size0] + memory[plane2..plane2 + slice.size1];
      assert combined == memory[..][plane1..plane1 + slice.size0] + memory[..][plane2..plane2 + slice.size1];
      FourByteWords(sh, count);
      samples := |combined| / SIZE_OF_F32;
      channels := channels + [combined];
      ch := ch + 1;
    }
  }

  /** One sample of every channel. */
  method InterleaveFrame(channels: seq<Bytes>, frame: nat, ghost mem: Bytes, sh: Shape, ghost first: int,
                         ghost count: nat)
    returns (bytes: Bytes)
    requires sh.Valid() && sh.wordSize == SIZE_OF_F32 && |mem| == Size(sh) && |channels| == sh.channels && frame < count
    requires forall c | 0 <= c < sh.channels :: ChannelBytes(sh, mem, first, count, c, channels[c])
    ensures bytes == Frame(sh, mem, first + frame)
  {
    bytes := [];
    var c := 0;
    while c < |channels|
      invariant 0 <= c <= |channels|
      invariant bytes == FramePart(sh, mem, first + frame, c)
    {
      var offset := frame * SIZE_OF_F32;
      assert ChannelBytes(sh, mem, first, count, c, channels[c]);
      WordBounds(sh, count, frame);
      FourByteWords(sh, frame);
      assert WordAt(sh, channels[c], frame) == Word(sh, mem, c, first + frame);
      FramePartNext(sh, mem, first + frame, c);
      bytes := bytes + channels[c][offset..offset + SIZE_OF_F32];
      c := c + 1;
    }
  }

  /** The samples of a slice, interleaved. */
  method InterleaveAudio(memory: array<byte>, sh: Shape, slice: Slice, ghost first: int, ghost count: nat)
    returns (interleaved: Bytes)
    requires sh.Valid() && sh.wordSize == SIZE_OF_F32 && sh.channels > 0 && memory.Length == Size(sh)
    requires Planes(sh, slice, first, count)
    ensures interleaved == Flat(Frames(sh, memory[..], first, count))
  {
    var channels, samples := GatherChannels(memory, sh, slice, first, count);
    interleaved := [];
    var frame := 0;
    while frame < samples
      invariant 0 <= frame <= samples
      invariant interleaved == Flat(Frames(sh, memory[..], first, frame))
    {
      var bytes := InterleaveFrame(channels, frame, memory[..], sh, first, count);
      interleaved := interleaved + bytes;
      FramesNext(sh, memory[..], first, frame);
      frame := frame + 1;
    }
  }

  /** A read that is granted yields the frames of the log. */
  method ReadAudio(flow: ContinuousFlow.Flow, index: nat, count: nat) returns (status: Status, interleaved: Bytes)
    requires flow.Valid() && flow.shape.wordSize == SIZE_OF_F32
    requires count >= 1 && index + flow.shape.length < Arith.TWO_TO_64
    ensures status == RangeStatus(flow.headIndex, flow.shape.length, index, count)
    ensures flow.contiguous && flow.log != [] && status == StatusOk && flow.start <= index - count ==>
      index <= flow.start + |flow.log| && interleaved == Flat(flow.log[index - count - flow.start..index - flow.start])
  {
    interleaved := [];
    var slice;
    status, slice := flow.GetSamples(index, count);
    if status == StatusOk {
      SlicePlanes(flow.shape, index, count);
      interleaved := InterleaveAudio(flow.memory, flow.shape, slice, index - count, count);
    }
  }

  // --- End to end --------------------------------------------------------------------------------

  lemma {:induction false} FlatLength(fs: seq<Bytes>, size: nat)
    requires AllOfSize(fs, size)
    ensures |Flat(fs)| == Arith.Times(size, |fs|)
    decreases |fs|
  {
    if fs != [] {
      var n := |fs| - 1;
      FlatLength(fs[..n], size);
      FlatSnoc(fs[..n], fs[n]);
      assert fs == fs[..n] + [fs[n]];
      Arith.TimesNext(size, n);
    }
  }

  /** Frames of one size are slices of their concatenation. */
  lemma {:induction false} FlatRange(fs: seq<Bytes>, size: nat, a: nat, b: nat)
    requires AllOfSize(fs, size)
    requires a <= b <= |fs|
    ensures Arith.Times(size, a) <= Arith.Times(size, b) <= |Flat(fs)|
    ensures Flat(fs[a..b]) == Flat(fs)[Arith.Times(size, a)..Arith.Times(size, b)]
  {
    FlatLength(fs[..a], size);
    FlatLength(fs[..b], size);
    FlatLength(fs, size);
    FlatAppend(fs[..b], fs[b..]);
    assert fs == fs[..b] + fs[b..];
    FlatAppend(fs[..a], fs[a..b]);
    assert fs[..b] == fs[..a] + fs[a..b];
    Arith.TimesMono(size, a, b);
    Arith.TimesMono(size, b, |fs|);
  }

  datatype Batch = Batch(samples: nat, chunk: Bytes)

  /** Between one sample and half a ring, all channels present. */
  predicate BatchFits(sh: Shape, b: Batch) {
    1 <= b.samples <= sh.length / 2 && |b.chunk| == Arith.Times(FrameSize(sh), b.samples)
  }

  function Samples(bs: seq<Batch>): (n: nat)
    decreases |bs|, 1
  {
    if bs == [] then 0 else SamplesStep(bs)
  }

  function SamplesStep(bs: seq<Batch>): (n: nat)
    requires bs != []
    decreases |bs|, 0
  {
    Samples(bs[..|bs| - 1]) + bs[|bs| - 1].samples
  }

  function Chunks(bs: seq<Batch>): seq<Bytes> {
    seq(|bs|, i requires 0 <= i < |bs| => bs[i].chunk)
  }

  lemma {:induction false} NextBatch(bs: seq<Batch>, i: nat)
    requires i < |bs|
    ensures Samples(bs[..i + 1]) == Samples(bs[..i]) + bs[i].samples
    ensures Flat(Chunks(bs[..i + 1])) == Flat(Chunks(bs[..i])) + bs[i].chunk
  {
    assert bs[..i + 1][..i] == bs[..i];
    assert bs[..i + 1][i] == bs[i];
    assert Chunks(bs[..i + 1]) == Chunks(bs[..i]) + [bs[i].chunk];
    FlatSnoc(Chunks(bs[..i]), bs[i].chunk);
  }

  lemma {:induction false} SamplesMono(bs: seq<Batch>, i: nat, j: nat)
    requires i <= j <= |bs|
    ensures Samples(bs[..i]) <= Samples(bs[..j])
    decreases j
  {
    if i < j {
      SamplesMono(bs, i, j - 1);
      NextBatch(bs, j - 1);
    }
  }

  /** The log after `samples` samples of whole chunks. */
  predicate Recorded(log: seq<Bytes>, chunks: seq<Bytes>, samples: nat, size: nat) {
    |log| == samples && AllOfSize(log, size) && Flat(log) == Flat(chunks)
  }

  lemma {:induction false} RecordNext(log: seq<Bytes>, log': seq<Bytes>, bs: seq<Batch>, i: nat, size: nat)
    requires i < |bs| && Recorded(log, Chunks(bs[..i]), Samples(bs[..i]), size)
    requires GrownBy(log, log', bs[i].chunk, bs[i].samples, size)
    ensures Recorded(log', Chunks(bs[..i + 1]), Samples(bs[..i + 1]), size)
  {
    NextBatch(bs, i);
    forall k | 0 <= k < |log'|
      ensures |log'[k]| == size
    {
      if k < |log| {
        assert log'[k] == log'[..|log|][k];
      } else {
        assert log'[k] == log'[|log|..][k - |log|];
      }
    }
  }

  /** Batches back to back from index `first` into a flow without a log. */
  method SendAll(writer: ContinuousFlow.Writer, first: nat, batches: seq<Batch>) returns (at: nat)
    requires writer.Valid() && writer.flow.contiguous && writer.flow.log == []
    requires batches != [] && forall b | b in batches :: BatchFits(writer.flow.shape, b)
    requires first + Samples(batches) + writer.flow.shape.length < Arith.TWO_TO_64
    modifies writer, writer.flow, writer.flow.memory
    ensures writer.Valid() && writer.flow.contiguous
    ensures at == writer.flow.headIndex == first + Samples(batches)
    ensures writer.flow.start == first && writer.flow.log != []
    ensures Recorded(writer.flow.log, Chunks(batches), Samples(batches), FrameSize(writer.flow.shape))
  {
    var flow, sh := writer.flow, writer.flow.shape;
    at := first;
    var i := 0;
    assert batches[..0] == [];
    while i < |batches|
      invariant 0 <= i <= |batches| && at == first + Samples(batches[..i])
      invariant writer.Valid() && flow.contiguous
      invariant i > 0 ==> flow.start == first && flow.headIndex == at && flow.log != []
      invariant i == 0 ==> flow.log == []
      invariant Recorded(flow.log, Chunks(batches[..i]), Samples(batches[..i]), FrameSize(sh))
    {
      assert batches[i] in batches;
      NextBatch(batches, i);
      SamplesMono(batches, i + 1, |batches|);
      assert batches[..|batches|] == batches;
      ghost var log := flow.log;
      at := at + batches[i].samples;
      WriteBuffer(writer, at, batches[i].samples, batches[i].chunk);
      RecordNext(log, flow.log, batches, i, FrameSize(sh));
      i := i + 1;
    }
    assert batches[..|batches|] == batches;
  }

  /**
   Any batches back to back from index `first`, then one read: a granted range gives the bytes that went
   in for those indices, wherever the batches and the ring end.
   */
  method EndToEnd(sh: Shape, commitHint: u32, syncHint: u32, first: nat, batches: seq<Batch>, index: nat, count: nat)
    returns (status: Status, out: Bytes)
    requires sh.Valid() && sh.channels > 0 && sh.wordSize == SIZE_OF_F32
    requires batches != [] && forall b | b in batches :: BatchFits(sh, b)
    requires first + Samples(batches) + sh.length < Arith.TWO_TO_64 && count >= 1 && index + sh.length < Arith.TWO_TO_64
    ensures status == RangeStatus(first + Samples(batches), sh.length, index, count)
    ensures status == StatusOk && first <= index - count ==>
      var size, src := FrameSize(sh), Flat(Chunks(batches));
      var from, to := Arith.Times(size, index - count - first), Arith.Times(size, index - first);
      from <= to <= |src| && out == src[from..to]
  {
    var flow := new ContinuousFlow.Flow(sh);
    var writer := new ContinuousFlow.Writer(flow, commitHint, syncHint);
    var _ := SendAll(writer, first, batches);
    status, out := ReadAudio(flow, index, count);
    if status == StatusOk && first <= index - count {
      FlatRange(flow.log, FrameSize(sh), index - count - first, index - first);
    }
  }
}
