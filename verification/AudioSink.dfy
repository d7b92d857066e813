/** The audio sink end to end: a buffer cut into chunks, each written at the index of its time, and read again. */
module AudioSink {
  import Arith
  import opened BitString
  import opened Delimited
  import opened DiscreteFlow
  import opened ContinuousRing
  import opened IndexConversion
  import opened AudioChunker
  import opened AudioTiming
  import ContinuousFlow
  import AudioPath

  /** What the sink's threads hand over: the bytes of a chunk, its samples, and the index it is opened at. */
  datatype SampleData = SampleData(chunk: Bytes, samples: nat, index: nat)

  /** The ring can open it, all its bytes are there, and its index can be counted to. */
  predicate Writable(sh: Shape, d: SampleData) {
    && 1 <= d.samples <= sh.length / 2 && |d.chunk| == Arith.Times(AudioPath.FrameSize(sh), d.samples)
    && d.index + sh.length < Arith.TWO_TO_64
  }

  /** Each batch starts where the one before it has ended. */
  predicate Contiguous(ds: seq<SampleData>) {
    forall k | 0 < k < |ds| :: ds[k].index - ds[k].samples == ds[k - 1].index
  }

  function ChunksOf(ds: seq<SampleData>): (cs: seq<Bytes>)
    ensures |cs| == |ds| && forall k | 0 <= k < |ds| :: cs[k] == ds[k].chunk
  {
    seq(|ds|, k requires 0 <= k < |ds| => ds[k].chunk)
  }

  /** After the first `n` batches: as long as they have been contiguous, the log is their bytes. */
  ghost predicate WrittenTo(flow: ContinuousFlow.Flow, ds: seq<SampleData>, n: nat)
    requires n <= |ds|
    reads flow
  {
    && flow.contiguous == Contiguous(ds[..n])
    && (n == 0 ==> flow.log == [])
    && (n > 0 ==> flow.headIndex == ds[n - 1].index)
    && (n > 0 && flow.contiguous ==> flow.log != [] && flow.start == ds[0].index - ds[0].samples)
    && (flow.contiguous ==> Flat(flow.log) == Flat(ChunksOf(ds[..n]))
                            && AudioPath.AllOfSize(flow.log, AudioPath.FrameSize(flow.shape)))
  }

  lemma {:induction false} OneMore(ds: seq<SampleData>, n: nat)
    requires n < |ds|
    ensures Flat(ChunksOf(ds[..n + 1])) == Flat(ChunksOf(ds[..n])) + ds[n].chunk
    ensures Contiguous(ds[..n + 1]) <==>
            Contiguous(ds[..n]) && (n > 0 ==> ds[n].index - ds[n].samples == ds[n - 1].index)
  {
    var s, s' := ds[..n], ds[..n + 1];
    assert ChunksOf(s') == ChunksOf(s) + [ds[n].chunk];
    FlatSnoc(ChunksOf(s), ds[n].chunk);
    if Contiguous(s') {
      forall k | 0 < k < |s|
        ensures s[k].index - s[k].samples == s[k - 1].index
      {
        assert s'[k].index - s'[k].samples == s'[k - 1].index;
      }
      assert n > 0 ==> s'[n].index - s'[n].samples == s'[n - 1].index;
    }
  }

  /** A chunk more is a batch more in the log. */
  lemma {:induction false} SizesNext(log: seq<Bytes>, log': seq<Bytes>, chunk: Bytes, count: nat, size: nat)
    requires AudioPath.AllOfSize(log, size) && AudioPath.GrownBy(log, log', chunk, count, size)
    ensures AudioPath.AllOfSize(log', size)
  {
    forall k | 0 <= k < |log'|
      ensures |log'[k]| == size
    {
      if k < |log| {
        assert log'[k] == log'[..|log|][k];
      } else {
        assert log'[k] == log'[|log|..][k - |log|];
      }
    }
  }

  method WriteData(writer: ContinuousFlow.Writer, ds: seq<SampleData>, n: nat)
    requires n < |ds| && writer.Valid() && WrittenTo(writer.flow, ds, n) && Writable(writer.flow.shape, ds[n])
    modifies writer, writer.flow, writer.flow.memory
    ensures writer.Valid() && WrittenTo(writer.flow, ds, n + 1)
  {
    ghost var log := writer.flow.log;
    OneMore(ds, n);
    AudioPath.WriteBuffer(writer, ds[n].index, ds[n].samples, ds[n].chunk);
    if writer.flow.contiguous {
      SizesNext(log, writer.flow.log, ds[n].chunk, ds[n].samples, AudioPath.FrameSize(writer.flow.shape));
    }
  }

  /** The writing thread's loop: each batch is opened, filled and committed at its index. */
  method WriteAll(writer: ContinuousFlow.Writer, ds: seq<SampleData>)
    requires ds != [] && writer.Valid() && writer.flow.contiguous && writer.flow.log == []
    requires forall d | d in ds :: Writable(writer.flow.shape, d)
    modifies writer, writer.flow, writer.flow.memory
    ensures writer.Valid() && writer.flow.contiguous == Contiguous(ds)
    ensures writer.flow.headIndex == ds[|ds| - 1].index
    ensures writer.flow.contiguous ==>
      && writer.flow.log != [] && writer.flow.start == ds[0].index - ds[0].samples
      && Flat(writer.flow.log) == Flat(ChunksOf(ds))
      && AudioPath.AllOfSize(writer.flow.log, AudioPath.FrameSize(writer.flow.shape))
  {
    assert ChunksOf(ds[..0]) == [] && Contiguous(ds[..0]);
    for n := 0 to |ds|
      invariant writer.Valid() && WrittenTo(writer.flow, ds, n)
    {
      assert ds[n] in ds;
      WriteData(writer, ds, n);
    }
    assert ds[..|ds|] == ds;
  }

  /**
   A new flow, the batches of a buffer, one read. If the batches are contiguous, what a granted read returns
   is the slice of their bytes at its indices.
   */
  method WriteAndRead(sh: Shape, commitHint: u32, syncHint: u32, ds: seq<SampleData>, index: nat, count: nat)
    returns (status: Status, out: Bytes)
    requires sh.Valid() && sh.channels > 0 && sh.wordSize == AudioPath.SIZE_OF_F32
    requires ds != [] && forall d | d in ds :: Writable(sh, d)
    requires count >= 1 && index + sh.length < Arith.TWO_TO_64
    ensures status == RangeStatus(ds[|ds| - 1].index, sh.length, index, count)
    ensures Contiguous(ds) && status == StatusOk && ds[0].index - ds[0].samples <= index - count ==>
      IsSlice(out, Flat(ChunksOf(ds)), AudioPath.FrameSize(sh), ds[0].index - ds[0].samples, index, count)
  {
    var flow := new ContinuousFlow.Flow(sh);
    var writer := new ContinuousFlow.Writer(flow, commitHint, syncHint);
    WriteAll(writer, ds);
    status, out := AudioPath.ReadAudio(flow, index, count);
    ghost var first := ds[0].index - ds[0].samples;
    if flow.contiguous && status == StatusOk && first <= index - count {
      LogSlice(flow.log, Flat(ChunksOf(ds)), AudioPath.FrameSize(sh), first, index, count);
    }
  }

  lemma {:induction false} LogSlice(log: seq<Bytes>, src: Bytes, size: nat, first: int, index: nat, count: nat)
    requires AudioPath.AllOfSize(log, size) && Flat(log) == src && first <= index - count && index <= first + |log|
    ensures IsSlice(Flat(log[index - count - first..index - first]), src, size, first, index, count)
  {
    AudioPath.FlatRange(log, size, index - count - first, index - first);
  }

  /** `out` are the `count` frames before `index` of a stream of frames of one size that begins at `first`. */
  ghost predicate IsSlice(out: Bytes, src: Bytes, size: nat, first: int, index: nat, count: nat)
    requires first <= index - count
  {
    var from, to := Arith.Times(size, index - count - first), Arith.Times(size, index - first);
    from <= to <= |src| && out == src[from..to]
  }

  // --- From chunks to data -----------------------------------------------------------------------

  function DataOf(rate: Rational, sent: seq<Chunk>): (ds: seq<SampleData>)
    ensures |ds| == |sent|
    ensures forall k | 0 <= k < |sent| :: ds[k] == SampleData(sent[k].bytes, sent[k].samples, sent[k].Position(rate))
  {
    seq(|sent|, k requires 0 <= k < |sent| => SampleData(sent[k].bytes, sent[k].samples, sent[k].Position(rate)))
  }

  lemma {:induction false} DataFollow(rate: Rational, sent: seq<Chunk>)
    ensures Contiguous(DataOf(rate, sent)) <==> AllFollow(rate, sent)
  {
    var ds := DataOf(rate, sent);
    forall k | 0 < k < |sent|
      ensures Follows(rate, sent[k - 1], sent[k]) <==> ds[k].index - ds[k].samples == ds[k - 1].index
    {
    }
  }

  lemma {:induction false} DataBytes(rate: Rational, sent: seq<Chunk>)
    ensures Flat(ChunksOf(DataOf(rate, sent))) == Payloads(sent)
    decreases |sent|
  {
    if sent != [] {
      var n := |sent| - 1;
      DataBytes(rate, sent[..n]);
      var cs := ChunksOf(DataOf(rate, sent[..n]));
      FlatSnoc(cs, sent[n].bytes);
      assert ChunksOf(DataOf(rate, sent)) == cs + [sent[n].bytes];
    }
  }

  lemma {:induction false} DataWritable(sh: Shape, rate: Rational, src: Bytes, sent: seq<Chunk>)
    requires Cut(src, sent, |Payloads(sent)|, AudioPath.FrameSize(sh), sh.length / 2, true)
    requires forall d | d in DataOf(rate, sent) :: d.index + sh.length < Arith.TWO_TO_64
    ensures forall d | d in DataOf(rate, sent) :: Writable(sh, d)
  {
    var ds := DataOf(rate, sent);
    forall d | d in ds
      ensures Writable(sh, d)
    {
      var k :| 0 <= k < |ds| && ds[k] == d;
      assert ChunkFits(sent[k], AudioPath.FrameSize(sh), sh.length / 2, k == |sent| - 1);
    }
  }

  method QueueBuffer(state: AudioState, src: Bytes, maxChunk: nat, basePts: nat, clock: nat -> nat)
    returns (sent: seq<Chunk>, ds: seq<SampleData>)
    requires state.Valid() && maxChunk > 0 && |src| >= state.FrameSize()
    modifies state
    ensures Cut(src, sent, |Payloads(sent)|, state.FrameSize(), maxChunk, true)
    ensures ds == DataOf(state.rate, sent) && ds != []
  {
    ghost var latencies;
    sent, latencies := state.Audio(src, maxChunk, basePts, clock);
    ds := DataOf(state.rate, sent);
    assert |Payloads([])| == 0;
  }

  /**
   The whole way of one buffer: cut by the sink, written, and read back. `placed` says that every index can be
   counted to; a read that is granted, of chunks that follow each other, is a slice of the buffer.
   */
  method BufferToReader(state: AudioState, sh: Shape, commitHint: u32, syncHint: u32, src: Bytes, basePts: nat,
                        clock: nat -> nat, index: nat, count: nat)
    returns (sent: seq<Chunk>, ds: seq<SampleData>, placed: bool, status: Status, out: Bytes)
    requires state.Valid() && sh.Valid() && sh.length >= 2 && sh.wordSize == AudioPath.SIZE_OF_F32
    requires sh.channels == state.channels && sh.wordSize == state.bytesPerSample && |src| >= state.FrameSize()
    requires count >= 1 && index + sh.length < Arith.TWO_TO_64
    modifies state
    ensures Cut(src, sent, |Payloads(sent)|, state.FrameSize(), sh.length / 2, true) && ds == DataOf(state.rate, sent)
    ensures ds != [] && (placed <==> forall d | d in ds :: d.index + sh.length < Arith.TWO_TO_64)
    ensures placed && AllFollow(state.rate, sent) && status == StatusOk
            && ds[0].index - ds[0].samples <= index - count ==>
      IsSlice(out, src, state.FrameSize(), ds[0].index - ds[0].samples, index, count)
  {
    sent, ds := QueueBuffer(state, src, sh.length / 2, basePts, clock);
    placed := forall d | d in ds :: d.index + sh.length < Arith.TWO_TO_64;
    status, out := TooEarly, [];
    if placed {
      DataWritable(sh, state.rate, src, sent);
      status, out := WriteAndRead(sh, commitHint, syncHint, ds, index, count);
      DataFollow(state.rate, sent);
      DataBytes(state.rate, sent);
    }
  }
}
