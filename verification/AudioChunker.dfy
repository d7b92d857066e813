/** The audio sink: one buffer in chunks of at most half a ring, sent late rather than into the past. */
module AudioChunker {
  import Arith
  import opened AudioTiming
  import opened Delimited
  import opened IndexConversion
  import opened Latency

  class AudioState {
    const rate: Rational
    const channels: nat
    const bytesPerSample: nat
    var latency: nat

    predicate Valid() {
      rate.Positive() && channels > 0 && bytesPerSample > 0
    }

    constructor (rate: Rational, channels: nat, bytesPerSample: nat, latency: nat)
      requires rate.Positive() && channels > 0 && bytesPerSample > 0
      ensures Valid() && this.rate == rate && this.channels == channels && this.bytesPerSample == bytesPerSample
      ensures this.latency == latency
    {
      this.rate, this.channels, this.bytesPerSample, this.latency := rate, channels, bytesPerSample, latency;
    }

    function FrameSize(): nat {
      Arith.Times(bytesPerSample, channels)
    }

    /** The bytes of `samples` frames from frame `offset` on. */
    method ComputeChunk(src: Bytes, offset: nat, samples: nat) returns (chunk: Bytes)
      requires Arith.Times(FrameSize(), offset + samples) <= |src|
      ensures Arith.Times(FrameSize(), offset + samples) == Arith.Times(FrameSize(), offset) + |chunk|
      ensures |chunk| == Arith.Times(FrameSize(), samples)
      ensures src[..Arith.Times(FrameSize(), offset + samples)] == src[..Arith.Times(FrameSize(), offset)] + chunk
    {
      BytesOf(offset, channels, bytesPerSample);
      BytesOf(samples, channels, bytesPerSample);
      Arith.TimesAdd(FrameSize(), offset, samples);
      var from, size := offset * channels * bytesPerSample, samples * channels * bytesPerSample;
      chunk := src[from..from + size];
    }

    /** The bytes and the time of one chunk. */
    method NextChunk(src: Bytes, offset: nat, samples: nat, mxlPts: nat, now: nat) returns (c: Chunk)
      requires Valid() && Arith.Times(FrameSize(), offset + samples) <= |src|
      modifies this
      ensures Arith.Times(FrameSize(), offset + samples) == Arith.Times(FrameSize(), offset) + |c.bytes|
      ensures c.samples == samples && |c.bytes| == Arith.Times(FrameSize(), samples)
      ensures src[..Arith.Times(FrameSize(), offset + samples)] == src[..Arith.Times(FrameSize(), offset)] + c.bytes
      ensures Timed(rate, c.pts, mxlPts, old(latency), latency, now) && latency >= old(latency)
      ensures FastEnough(rate) ==> c.pts >= now
    {
      var bytes := ComputeChunk(src, offset, samples);
      var pts;
      pts, latency := Latency.Correct(rate, mxlPts, latency, now);
      c := Chunk(bytes, samples, pts);
    }

    /**
     Sends a buffer. `clock(k)` is the time read for chunk `k`. The chunks are the whole frames of the
     buffer, cut into pieces none of which is longer than half a ring; each is due when those before it
     have been played, and none is for the past. `latencies` are those before and after each chunk.
     */
    method Audio(src: Bytes, maxChunk: nat, basePts: nat, clock: nat -> nat)
      returns (sent: seq<Chunk>, ghost latencies: seq<nat>)
      requires Valid() && maxChunk > 0
      modifies this
      ensures |src| < |Payloads(sent)| + FrameSize()
      ensures Cut(src, sent, |Payloads(sent)|, FrameSize(), maxChunk, true)
      ensures OnSchedule(rate, basePts, Duration(rate, maxChunk), sent, latencies, clock)
      ensures latencies[0] == old(latency) && latencies[|sent|] == latency
    {
      var remaining: nat := SamplesPerBuffer(src);
      var offset: nat, base: nat := 0, basePts;
      ghost var total, done := remaining, 0;
      ghost var duration := Duration(rate, maxChunk);
      sent, latencies := [], [latency];
      assert Payloads(sent) == [];
      while remaining > 0
        invariant offset + remaining == total
        invariant done == Arith.Times(FrameSize(), offset)
        invariant Cut(src, sent, done, FrameSize(), maxChunk, remaining == 0)
        invariant OnSchedule(rate, basePts, duration, sent, latencies, clock)
        invariant latencies[0] == old(latency) && latencies[|sent|] == latency
        invariant remaining > 0 ==> base == basePts + Arith.Times(duration, |sent|)
      {
        var samples := if remaining < maxChunk then remaining else maxChunk;
        Arith.TimesMono(FrameSize(), offset + samples, total);
        var chunk := NextChunk(src, offset, samples, base, clock(|sent|));
        base := base + Duration(rate, samples);
        Arith.TimesNext(duration, |sent|);
        CutNext(src, sent, done, FrameSize(), maxChunk, chunk, samples == remaining);
        Scheduled(rate, basePts, duration, sent, latencies, clock, chunk, latency);
        sent, latencies := sent + [chunk], latencies + [latency];
        offset := offset + samples;
        done := done + |chunk.bytes|;
        remaining := remaining - samples;
      }
    }

    /** The whole frames of a buffer; a trailing part of a frame is not sent. */
    method SamplesPerBuffer(src: Bytes) returns (n: nat)
      requires Valid()
      ensures Arith.Times(FrameSize(), n) <= |src| < Arith.Times(FrameSize(), n) + FrameSize()
    {
      var size := channels * bytesPerSample;
      BytesOf(1, channels, bytesPerSample);
      Arith.TimesOne(FrameSize());
      Arith.MulMono(channels, 1, bytesPerSample);
      Arith.DivMod(|src|, size);
      Arith.DivBounds(|src|, size, 0, 0);
      n := |src| / size;
      Arith.TimesIs(FrameSize(), n);
    }
  }

  lemma {:induction false} BytesOf(n: nat, channels: nat, bytesPerSample: nat)
    ensures n * channels * bytesPerSample == Arith.Times(Arith.Times(bytesPerSample, channels), n)
  {
    Arith.TimesIs(bytesPerSample, channels);
    Arith.TimesIs(Arith.Times(bytesPerSample, channels), n);
    Arith.MulAssoc(n, channels, bytesPerSample);
    Arith.MulComm(n, channels * bytesPerSample);
    Arith.MulComm(channels, bytesPerSample);
  }
}
