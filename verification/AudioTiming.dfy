/** The chunks of the audio sink: what a schedule of them means, and when they make contiguous batches. */
module AudioTiming {
  import Arith
  import opened BitString
  import opened Delimited
  import opened IndexConversion
  import opened Latency

  datatype Chunk = Chunk(bytes: Bytes, samples: nat, pts: nat) {
    /** Where the chunk goes in the ring. */
    function Position(rate: Rational): nat {
      TimestampToIndex(rate, pts)
    }
  }

  function Payloads(cs: seq<Chunk>): Bytes
    decreases |cs|, 1
  {
    if cs == [] then [] else PayloadsStep(cs)
  }

  function PayloadsStep(cs: seq<Chunk>): Bytes
    requires cs != []
    decreases |cs|, 0
  {
    Payloads(cs[..|cs| - 1]) + cs[|cs| - 1].bytes
  }

  lemma {:induction false} PayloadsSnoc(cs: seq<Chunk>, c: Chunk)
    ensures Payloads(cs + [c]) == Payloads(cs) + c.bytes
  {
    assert (cs + [c])[..|cs|] == cs;
  }

  /**
   Each chunk is due when those before it have been played, and is timed by the latency so far. No chunk is
   for the past as long as the rate is fast enough, and the latency never decreases.
   */
  ghost predicate OnSchedule(rate: Rational, base: nat, duration: nat, sent: seq<Chunk>, latencies: seq<nat>,
                             clock: nat -> nat) {
    && |latencies| == |sent| + 1
    && forall k | 0 <= k < |sent| ::
      && Timed(rate, sent[k].pts, base + Arith.Times(duration, k), latencies[k], latencies[k + 1], clock(k))
      && latencies[k] <= latencies[k + 1]
      && (FastEnough(rate) ==> sent[k].pts >= clock(k))
  }

  lemma {:induction false} Scheduled(rate: Rational, base: nat, duration: nat, sent: seq<Chunk>,
                                     latencies: seq<nat>, clock: nat -> nat,
                                     c: Chunk, latency: nat)
    requires OnSchedule(rate, base, duration, sent, latencies, clock) && latencies[|sent|] <= latency
    requires Timed(rate, c.pts, base + Arith.Times(duration, |sent|), latencies[|sent|], latency, clock(|sent|))
    requires FastEnough(rate) ==> c.pts >= clock(|sent|)
    ensures OnSchedule(rate, base, duration, sent + [c], latencies + [latency], clock)
  {
  }

  /** Between one sample and `maxChunk`, exactly that unless it is the last chunk, and with all its bytes. */
  predicate ChunkFits(c: Chunk, size: nat, maxChunk: nat, last: bool) {
    && 1 <= c.samples <= maxChunk && (last || c.samples == maxChunk)
    && |c.bytes| == Arith.Times(size, c.samples)
  }

  /** The first `done` bytes of a buffer, cut into chunks. */
  ghost predicate Cut(src: Bytes, sent: seq<Chunk>, done: nat, size: nat, maxChunk: nat, finished: bool) {
    && done == |Payloads(sent)| <= |src| && Payloads(sent) == src[..done]
    && forall k | 0 <= k < |sent| :: ChunkFits(sent[k], size, maxChunk, finished && k == |sent| - 1)
  }

  lemma {:induction false} CutNext(src: Bytes, sent: seq<Chunk>, done: nat, size: nat, maxChunk: nat, c: Chunk,
                                   last: bool)
    requires Cut(src, sent, done, size, maxChunk, false) && ChunkFits(c, size, maxChunk, last)
    requires done + |c.bytes| <= |src| && src[..done + |c.bytes|] == src[..done] + c.bytes
    ensures Cut(src, sent + [c], done + |c.bytes|, size, maxChunk, last)
  {
    PayloadsSnoc(sent, c);
  }

  // --- Where successive chunks go ----------------------------------------------------------------

  /** Opened with its position as the end of the batch, `d` starts where `c` has ended. */
  predicate Follows(rate: Rational, c: Chunk, d: Chunk) {
    d.Position(rate) - d.samples == c.Position(rate)
  }

  /** Two successive chunks that need no correction are as far apart as the first of them lasts. */
  lemma {:induction false} ChunksOnTime(rate: Rational, base: nat, duration: nat, sent: seq<Chunk>,
                                        latencies: seq<nat>,
                                        clock: nat -> nat, k: nat)
    requires rate.Positive() && OnSchedule(rate, base, duration, sent, latencies, clock) && k + 1 < |sent|
    requires var due := base + Arith.Times(duration, k) + Duration(rate, latencies[k]);
      clock(k) <= due && clock(k + 1) <= due + duration
    ensures sent[k + 1].pts == sent[k].pts + duration
  {
    Arith.TimesNext(duration, k);
    var j, played := k + 1, base + Arith.Times(duration, k);
    assert Timed(rate, sent[k].pts, played, latencies[k], latencies[j], clock(k));
    assert Timed(rate, sent[j].pts, base + Arith.Times(duration, j), latencies[j], latencies[j + 1], clock(j));
    assert base + Arith.Times(duration, j) == played + duration;
  }

  /**
   The indices left out between two such chunks, or written twice if negative: the batches are contiguous
   exactly if the second chunk is as long as the first, less the sample that rounding may take. The last
   chunk of a buffer, when it is shorter, leaves a gap of what it is shorter by.
   */
  lemma {:induction false} GapBetween(rate: Rational, c: Chunk, d: Chunk)
    requires rate.Positive() && rate.numerator <= rate.Unit()
    requires d.pts == c.pts + Duration(rate, c.samples) < Arith.TWO_TO_63
    ensures var length := c.samples - if RoundsOff(rate, c.pts, c.samples) then 1 else 0;
      && d.Position(rate) - d.samples - c.Position(rate) == length - d.samples
      && (Follows(rate, c, d) <==> d.samples == length)
  {
    LaterByPeriods(rate, c.pts, c.samples);
  }

  /** All chunks of a buffer make contiguous batches. */
  predicate AllFollow(rate: Rational, sent: seq<Chunk>) {
    forall k | 0 < k < |sent| :: Follows(rate, sent[k - 1], sent[k])
  }

  /** No chunk would be late with the latency there is. */
  ghost predicate InTime(rate: Rational, base: nat, duration: nat, sent: seq<Chunk>, latency: nat, clock: nat -> nat)
    requires rate.Positive()
  {
    forall k | 0 <= k < |sent| :: clock(k) <= base + Arith.Times(duration, k) + Duration(rate, latency)
  }

  lemma {:induction false} NoCorrection(rate: Rational, base: nat, duration: nat, sent: seq<Chunk>,
                                        latencies: seq<nat>,
                                        clock: nat -> nat, k: nat)
    requires rate.Positive() && OnSchedule(rate, base, duration, sent, latencies, clock) && k <= |sent|
    requires InTime(rate, base, duration, sent, latencies[0], clock)
    ensures latencies[k] == latencies[0]
    ensures k < |sent| ==> sent[k].pts == base + Arith.Times(duration, k) + Duration(rate, latencies[0])
    decreases k
  {
    if k > 0 {
      NoCorrection(rate, base, duration, sent, latencies, clock, k - 1);
      var j := k - 1;
      assert Timed(rate, sent[j].pts, base + Arith.Times(duration, j), latencies[j], latencies[k], clock(j));
    }
    if k < |sent| {
      assert Timed(rate, sent[k].pts, base + Arith.Times(duration, k), latencies[k], latencies[k + 1], clock(k));
    }
  }

  predicate Matches(rate: Rational, maxChunk: nat, sent: seq<Chunk>, k: nat)
    requires rate.Positive() && 0 < k < |sent|
  {
    sent[k].samples == maxChunk - if RoundsOff(rate, sent[k - 1].pts, maxChunk) then 1 else 0
  }

  /**
   A buffer sent in time makes contiguous batches exactly if each of its chunks but the first has as many
   samples as the longest, less the one that rounding the time before it may take.
   */
  lemma {:induction false} WholeBuffer(rate: Rational, base: nat, maxChunk: nat, sent: seq<Chunk>,
                                       latencies: seq<nat>,
                                       clock: nat -> nat)
    requires rate.Positive() && rate.numerator <= rate.Unit()
    requires OnSchedule(rate, base, Duration(rate, maxChunk), sent, latencies, clock)
    requires InTime(rate, base, Duration(rate, maxChunk), sent, latencies[0], clock)
    requires forall k | 0 <= k < |sent| - 1 :: sent[k].samples == maxChunk
    requires forall k | 0 <= k < |sent| :: sent[k].pts < Arith.TWO_TO_63
    ensures AllFollow(rate, sent) <==>
            forall k | 0 < k < |sent| :: Matches(rate, maxChunk, sent, k)
  {
    forall k | 0 < k < |sent|
      ensures Follows(rate, sent[k - 1], sent[k]) <==> Matches(rate, maxChunk, sent, k)
    {
      NoCorrection(rate, base, Duration(rate, maxChunk), sent, latencies, clock, k - 1);
      NoCorrection(rate, base, Duration(rate, maxChunk), sent, latencies, clock, k);
      Arith.TimesNext(Duration(rate, maxChunk), k - 1);
      GapBetween(rate, sent[k - 1], sent[k]);
    }
  }

  lemma {:induction false} MatchesEven(rate: Rational, maxChunk: nat, sent: seq<Chunk>, k: nat)
    requires rate.Positive() && EvenChunks(rate, maxChunk) && 0 < k < |sent|
    ensures Matches(rate, maxChunk, sent, k) <==> sent[k].samples == maxChunk
  {
    NothingRoundsOff(rate, sent[k - 1].pts, maxChunk);
  }

  predicate EvenChunks(rate: Rational, maxChunk: nat)
    requires rate.Positive()
  {
    maxChunk * rate.Unit() % rate.numerator == 0
  }

  /** Where a longest chunk lasts whole nanoseconds, that is exactly if all chunks are of that length. */
  lemma {:induction false} WholeBufferEven(rate: Rational, base: nat, maxChunk: nat, sent: seq<Chunk>,
                                           latencies: seq<nat>, clock: nat -> nat)
    requires rate.Positive() && rate.numerator <= rate.Unit() && EvenChunks(rate, maxChunk)
    requires OnSchedule(rate, base, Duration(rate, maxChunk), sent, latencies, clock)
    requires InTime(rate, base, Duration(rate, maxChunk), sent, latencies[0], clock)
    requires forall k | 0 <= k < |sent| - 1 :: sent[k].samples == maxChunk
    requires forall k | 0 <= k < |sent| :: sent[k].pts < Arith.TWO_TO_63
    ensures AllFollow(rate, sent) <==> (|sent| > 1 ==> sent[|sent| - 1].samples == maxChunk)
  {
    WholeBuffer(rate, base, maxChunk, sent, latencies, clock);
    forall k | 0 < k < |sent|
      ensures Matches(rate, maxChunk, sent, k) <==> sent[k].samples == maxChunk
    {
      MatchesEven(rate, maxChunk, sent, k);
    }
    if |sent| > 1 {
      MatchesEven(rate, maxChunk, sent, |sent| - 1);
    }
  }

  lemma {:induction false} NothingRoundsOff(rate: Rational, t: nat, k: nat)
    requires rate.Positive() && EvenChunks(rate, k)
    ensures !RoundsOff(rate, t, k)
  {
    Arith.DivMod(t * rate.numerator + rate.Unit() / 2, rate.Unit());
  }

  /** A buffer of 15000 samples at 48 kHz, half a ring being 9600: 4200 indices are never written. */
  lemma {:induction false} GapAt48kHz(c: Chunk, d: Chunk)
    requires c.samples == 9600 && d.samples == 5400
    requires d.pts == c.pts + Duration(Rational(48000, 1), 9600) < Arith.TWO_TO_63
    ensures d.Position(Rational(48000, 1)) - d.samples == c.Position(Rational(48000, 1)) + 4200
    ensures !AllFollow(Rational(48000, 1), [c, d])
  {
    NothingRoundsOff(Rational(48000, 1), c.pts, 9600);
    GapBetween(Rational(48000, 1), c, d);
    assert !Follows(Rational(48000, 1), [c, d][0], [c, d][1]);
  }
}
