/** Presentation timestamps: the looping test source, and the video and audio sources of the plugin. */
module PtsTimeline {
  import Arith
  import opened Wrappers
  import opened IndexConversion

  // --- A source that starts over ------------------------------------------------------------------

  datatype Wrap = Wrap(offset: nat, last: nat)

  /** The source has gone back in time, so that the offset has to grow. */
  predicate Wraps(w: Wrap, ts: nat) {
    ts + w.offset <= w.last && w.last != 0
  }

  function PullStep(w: Wrap, ts: nat, frame: nat): Wrap {
    var offset := if Wraps(w, ts) then w.last - ts + frame else w.offset;
    Wrap(offset, ts + offset)
  }

  /** The state after a run of source timestamps; `last` is what has been emitted for the last of them. */
  function Pulled(tss: seq<nat>, frame: nat): Wrap
    decreases |tss|
  {
    if tss == [] then Wrap(0, 0) else PullStep(Pulled(tss[..|tss| - 1], frame), tss[|tss| - 1], frame)
  }

  lemma {:induction false} PulledNext(tss: seq<nat>, frame: nat, k: nat)
    requires k < |tss|
    ensures Pulled(tss[..k + 1], frame) == PullStep(Pulled(tss[..k], frame), tss[k], frame)
  {
    assert tss[..k + 1][..k] == tss[..k];
  }

  /**
   Time never goes back, and once it has begun it always moves on; the offset only grows. From one buffer
   to the next the spacing is the source's own, or one frame where the source has gone back.
   */
  lemma {:induction false} PullMovesOn(tss: seq<nat>, frame: nat, k: nat)
    requires k < |tss| && frame > 0
    ensures var w, w' := Pulled(tss[..k], frame), Pulled(tss[..k + 1], frame);
      && w.last <= w'.last && (w.last > 0 ==> w.last < w'.last) && w.offset <= w'.offset
      && w'.last == tss[k] + w'.offset
      && (if Wraps(w, tss[k]) then w'.last == w.last + frame else w'.offset == w.offset)
      && (k > 0 && !Wraps(w, tss[k]) ==> w'.last - w.last == tss[k] - tss[k - 1])
  {
    PulledNext(tss, frame, k);
    if k > 0 {
      PulledNext(tss, frame, k - 1);
    }
  }

  lemma {:induction false} PullOrdered(tss: seq<nat>, frame: nat, i: nat, j: nat)
    requires i < j <= |tss| && frame > 0
    ensures var w, w' := Pulled(tss[..i], frame), Pulled(tss[..j], frame);
      w.last <= w'.last && w.offset <= w'.offset && (w.last > 0 ==> w.last < w'.last)
    decreases j
  {
    PullMovesOn(tss, frame, j - 1);
    if i < j - 1 {
      PullOrdered(tss, frame, i, j - 1);
    }
  }

  /** Each timestamp after a positive one is larger. */
  predicate NeverBack(tss: seq<nat>) {
    forall k | 0 < k < |tss| :: tss[k - 1] == 0 || tss[k - 1] < tss[k]
  }

  lemma {:induction false} NoOffset(tss: seq<nat>, frame: nat, k: nat)
    requires NeverBack(tss) && k <= |tss|
    ensures Pulled(tss[..k], frame) == Wrap(0, if k == 0 then 0 else tss[k - 1])
    decreases k
  {
    if k > 0 {
      NoOffset(tss, frame, k - 1);
      PulledNext(tss, frame, k - 1);
    }
  }

  lemma {:induction false} OffsetForGood(tss: seq<nat>, frame: nat, k: nat)
    requires 0 < k < |tss| && tss[k - 1] > 0 && tss[k] <= tss[k - 1] && frame > 0
    ensures Pulled(tss, frame).offset > 0
  {
    PulledNext(tss, frame, k);
    PulledNext(tss, frame, k - 1);
    assert tss[..|tss|] == tss;
    if k + 1 < |tss| {
      PullOrdered(tss, frame, k + 1, |tss|);
    }
  }

  /** The offset stays at zero for exactly the sources that never go back. */
  lemma {:induction false} OffsetStaysZero(tss: seq<nat>, frame: nat)
    requires frame > 0
    ensures Pulled(tss, frame).offset == 0 <==> NeverBack(tss)
  {
    assert tss[..|tss|] == tss;
    if NeverBack(tss) {
      NoOffset(tss, frame, |tss|);
    } else {
      var k :| 0 < k < |tss| && !(tss[k - 1] == 0 || tss[k - 1] < tss[k]);
      OffsetForGood(tss, frame, k);
    }
  }

  class Pipeline {
    const baseTime: nat
    const frameDuration: nat
    var ptsWrapOffset: nat
    var lastEmittedPts: nat
    ghost var pulled: seq<nat>

    ghost predicate Valid()
      reads this
    {
      Wrap(ptsWrapOffset, lastEmittedPts) == Pulled(pulled, frameDuration)
    }

    constructor (baseTime: nat, frameDuration: nat)
      ensures Valid() && pulled == [] && this.baseTime == baseTime && this.frameDuration == frameDuration
    {
      this.baseTime, this.frameDuration := baseTime, frameDuration;
      ptsWrapOffset, lastEmittedPts, pulled := 0, 0, [];
    }

    /** The timestamp a pulled buffer is given. */
    method Pull(bufferTs: nat) returns (pts: nat)
      requires Valid()
      modifies this
      ensures Valid() && pulled == old(pulled) + [bufferTs]
      ensures pts == baseTime + Pulled(pulled, frameDuration).last
    {
      if bufferTs + ptsWrapOffset <= lastEmittedPts && lastEmittedPts != 0 {
        ptsWrapOffset := lastEmittedPts - bufferTs + frameDuration;
      }
      var adjustedTs := bufferTs + ptsWrapOffset;
      lastEmittedPts := adjustedTs;
      assert (pulled + [bufferTs])[..|pulled|] == pulled;
      pulled := pulled + [bufferTs];
      pts := baseTime + adjustedTs;
    }
  }

  // --- Timelines ----------------------------------------------------------------------------------

  /** At least `gap` from each timestamp to the next. */
  predicate Spaced(emitted: seq<nat>, gap: nat) {
    forall k | 0 < k < |emitted| :: emitted[k] >= emitted[k - 1] + gap
  }

  function Later(a: nat, b: nat): (c: nat)
    ensures a <= c && b <= c && (c == a || c == b)
  {
    if a < b then b else a
  }

  /** Each timestamp is a step after the one before it, or the running time if that is later. */
  predicate OnTimeline(emitted: seq<nat>, nows: seq<nat>, steps: seq<nat>) {
    && |emitted| == |nows| == |steps|
    && (nows != [] ==> emitted[0] == nows[0])
    && forall k | 0 < k < |emitted| :: emitted[k] == Later(nows[k], emitted[k - 1] + steps[k])
  }

  /** The steps up to step `k`, the first not counted. */
  function Sum(steps: seq<nat>, k: nat): nat
    requires k < |steps|
    decreases k
  {
    if k == 0 then 0 else Sum(steps, k - 1) + steps[k]
  }

  /** A source that never falls behind plays at exactly its own pace from the first timestamp on. */
  lemma {:induction false} OwnPace(emitted: seq<nat>, nows: seq<nat>, steps: seq<nat>, k: nat)
    requires OnTimeline(emitted, nows, steps) && k < |nows|
    requires forall j | 0 <= j < |nows| :: nows[j] <= nows[0] + Sum(steps, j)
    ensures emitted[k] == nows[0] + Sum(steps, k)
    decreases k
  {
    assert nows[k] <= nows[0] + Sum(steps, k);
    if k > 0 {
      OwnPace(emitted, nows, steps, k - 1);
    }
  }

  // --- The video source ---------------------------------------------------------------------------

  /** How long after frame `k - 1` frame `k` comes. */
  function FrameStep(rate: Rational, k: nat): nat
    requires rate.Positive() && k > 0
  {
    DurationsAdd(rate, k - 1, 1);
    Duration(rate, k) - Duration(rate, k - 1)
  }

  function FrameSteps(rate: Rational, n: nat): (steps: seq<nat>)
    requires rate.Positive()
    ensures |steps| == n && forall k | 0 < k < n :: steps[k] == FrameStep(rate, k)
  {
    seq(n, k requires 0 <= k => if k == 0 then 0 else FrameStep(rate, k))
  }

  lemma {:induction false} FramesTake(rate: Rational, n: nat, k: nat)
    requires rate.Positive() && k < n
    ensures Sum(FrameSteps(rate, n), k) == Duration(rate, k)
    decreases k
  {
    if k == 0 {
      NoDuration(rate);
    } else {
      FramesTake(rate, n, k - 1);
    }
  }

  /** A frame past the last timestamp; nothing before the first. */
  function FramePast(rate: Rational, emitted: seq<nat>): nat
    requires rate.Positive()
  {
    var n := |emitted|;
    if n == 0 then 0 else emitted[n - 1] + FrameStep(rate, n)
  }

  class VideoSource {
    const rate: Rational
    var initialized: bool
    var gstTime: nat
    var frameCounter: nat
    ghost var emitted: seq<nat>
    /** The latest running time of the calls since the last frame, 0 if there have been none. */
    ghost var floor: nat

    ghost predicate Valid()
      reads this
    {
      && rate.Positive() && Spaced(emitted, Duration(rate, 1)) && frameCounter == |emitted|
      && (!initialized ==> emitted == [] && floor == 0)
      && (initialized ==> gstTime + Duration(rate, frameCounter) == Later(floor, FramePast(rate, emitted)))
    }

    constructor (rate: Rational)
      requires rate.Positive()
      ensures Valid() && this.rate == rate && !initialized && emitted == []
    {
      this.rate := rate;
      initialized, gstTime, frameCounter, emitted, floor := false, 0, 0, [], 0;
    }

    /**
     One call: `ready` says whether the grain could be read. The timestamp is a frame past the last one, or the
     latest running time since then if that is later.
     */
    method CreateVideo(now: nat, ready: bool) returns (buffer: Option<nat>)
      requires Valid()
      modifies this
      ensures Valid() && initialized
      ensures buffer.Some? <==> ready
      ensures ready ==> buffer.value == Later(Later(now, old(floor)), old(FramePast(rate, emitted)))
      ensures emitted == old(emitted) + (if ready then [buffer.value] else [])
      ensures floor == if ready then 0 else Later(now, old(floor))
    {
      if !initialized {
        NoDuration(rate);
        gstTime := now;
        initialized := true;
        floor := now;
      }
      var pts := ComputePts(now);
      if !ready {
        floor := Later(now, floor);
        return None;
      }
      FrameAdded(rate, emitted, pts);
      frameCounter := frameCounter + 1;
      emitted, floor := emitted + [pts], 0;
      buffer := Some(pts);
    }

    /** The timestamp of the next frame; the origin moves when it has fallen behind the running time. */
    method ComputePts(now: nat) returns (pts: nat)
      requires rate.Positive()
      modifies this`gstTime
      ensures pts == gstTime + Duration(rate, frameCounter)
      ensures pts == Later(now, old(gstTime) + Duration(rate, frameCounter))
    {
      pts := Duration(rate, frameCounter) + gstTime;
      if pts < now {
        var prevPts := pts;
        pts := pts - gstTime;
        gstTime := gstTime + now - prevPts;
        pts := pts + gstTime;
      }
    }
  }

  lemma {:induction false} FrameAdded(rate: Rational, emitted: seq<nat>, pts: nat)
    requires rate.Positive() && Spaced(emitted, Duration(rate, 1)) && FramePast(rate, emitted) <= pts
    ensures Spaced(emitted + [pts], Duration(rate, 1))
    ensures var n := |emitted|;
      FramePast(rate, emitted + [pts]) + Duration(rate, n) == pts + Duration(rate, n + 1)
  {
    if emitted != [] {
      DurationsAdd(rate, |emitted| - 1, 1);
    }
  }

  /** A run of calls that all find their grain, at these running times. */
  method PlayVideo(source: VideoSource, nows: seq<nat>)
    requires source.Valid() && !source.initialized
    modifies source
    ensures source.Valid() && OnTimeline(source.emitted, nows, FrameSteps(source.rate, |nows|))
    ensures (forall j | 0 <= j < |nows| :: nows[j] <= nows[0] + Duration(source.rate, j)) ==>
      forall k | 0 <= k < |nows| :: source.emitted[k] == nows[0] + Duration(source.rate, k)
  {
    ghost var steps := FrameSteps(source.rate, |nows|);
    for k := 0 to |nows|
      invariant source.Valid() && source.floor == 0 && |source.emitted| == k
      invariant OnTimeline(source.emitted, nows[..k], steps[..k])
    {
      var _ := source.CreateVideo(nows[k], true);
    }
    assert nows[..|nows|] == nows && steps[..|nows|] == steps;
    VideoPace(source.emitted, nows, source.rate);
  }

  lemma {:induction false} VideoPace(emitted: seq<nat>, nows: seq<nat>, rate: Rational)
    requires rate.Positive() && OnTimeline(emitted, nows, FrameSteps(rate, |nows|))
    ensures (forall j | 0 <= j < |nows| :: nows[j] <= nows[0] + Duration(rate, j)) ==>
      forall k | 0 <= k < |nows| :: emitted[k] == nows[0] + Duration(rate, k)
  {
    var steps := FrameSteps(rate, |nows|);
    forall j | 0 <= j < |nows|
      ensures Sum(steps, j) == Duration(rate, j)
    {
      FramesTake(rate, |nows|, j);
    }
    if forall j | 0 <= j < |nows| :: nows[j] <= nows[0] + Duration(rate, j) {
      forall k | 0 <= k < |nows|
        ensures emitted[k] == nows[0] + Duration(rate, k)
      {
        OwnPace(emitted, nows, steps, k);
      }
    }
  }

  // --- The audio source ---------------------------------------------------------------------------

  /** A batch past the last timestamp; nothing before the first. */
  function BatchPast(emitted: seq<nat>, batchDuration: nat): nat {
    if emitted == [] then 0 else emitted[|emitted| - 1] + batchDuration
  }

  class AudioSource {
    const batchDuration: nat
    var initialized: bool
    var gstTime: nat
    var batchCounter: nat
    var nextDiscont: bool
    /** The timestamps since the last initialisation or resync. */
    ghost var emitted: seq<nat>
    /** The running time of that initialisation or resync until a batch has been sent, then 0. */
    ghost var floor: nat

    ghost predicate Valid()
      reads this
    {
      && Spaced(emitted, batchDuration)
      && (!initialized ==> emitted == [] && floor == 0)
      && (initialized ==> batchCounter == |emitted|)
      && (initialized ==>
        gstTime + Arith.Times(batchDuration, batchCounter) == Later(floor, BatchPast(emitted, batchDuration)))
    }

    /** A batch lasts its samples at the sample rate, rounded down. */
    constructor (batch: nat, rate: Rational)
      requires rate.Positive()
      ensures Valid() && !initialized && emitted == [] && !nextDiscont
      ensures batchDuration == Duration(rate, batch)
    {
      batchDuration := Duration(rate, batch);
      initialized, gstTime, batchCounter, nextDiscont, emitted, floor := false, 0, 0, false, [], 0;
    }

    method Resync(now: nat)
      requires Valid() && initialized
      modifies this
      ensures Valid() && initialized && emitted == [] && floor == now && nextDiscont
    {
      gstTime, batchCounter, nextDiscont := now, 0, true;
      emitted, floor := [], now;
    }

    /** The timestamp of the next batch; the origin moves when it has fallen behind the running time. */
    method ComputePts(now: nat) returns (pts: nat)
      requires Valid() && initialized
      modifies this`gstTime
      ensures pts == gstTime + Arith.Times(batchDuration, batchCounter)
      ensures pts == Later(now, Later(floor, BatchPast(emitted, batchDuration)))
    {
      Arith.TimesIs(batchDuration, batchCounter);
      pts := gstTime + batchDuration * batchCounter;
      if pts < now {
        gstTime := gstTime + (now - pts);
        pts := now;
      }
    }

    /**
     One call. `late` says that the reader has been overtaken and has to resync, `ready` that the batch could
     be read. The timestamp is a batch past the last one, or the running time if that is later; the first after
     a resync is the running time, or that of the resync, and carries the discontinuity flag.
     */
    method CreateAudio(now: nat, late: bool, ready: bool) returns (buffer: Option<nat>, discont: bool)
      requires Valid()
      modifies this
      ensures Valid() && initialized
      ensures buffer.Some? <==> ready
      ensures ready ==>
        buffer.value == if late then now else Later(now, Later(old(floor), old(BatchPast(emitted, batchDuration))))
      ensures discont == (ready && (late || old(nextDiscont))) && nextDiscont == (!ready && (late || old(nextDiscont)))
      ensures emitted == (if late then [] else old(emitted)) + (if ready then [buffer.value] else [])
      ensures floor == if ready then 0 else if late || !old(initialized) then now else old(floor)
    {
      buffer, discont := None, false;
      if !initialized {
        gstTime, batchCounter, initialized := now, 0, true;
        floor := now;
      }
      if late {
        Resync(now);
      }
      if !ready {
        return;
      }
      var pts := NextBatch(now);
      discont := nextDiscont;
      nextDiscont := false;
      buffer := Some(pts);
    }

    /** The timestamp of a batch that could be read; the counter moves on. */
    method NextBatch(now: nat) returns (pts: nat)
      requires Valid() && initialized
      modifies this`gstTime, this`batchCounter, this`emitted, this`floor
      ensures Valid() && emitted == old(emitted) + [pts] && floor == 0
      ensures pts == Later(now, Later(old(floor), old(BatchPast(emitted, batchDuration))))
    {
      pts := ComputePts(now);
      Arith.TimesNext(batchDuration, batchCounter);
      batchCounter := batchCounter + 1;
      emitted, floor := emitted + [pts], 0;
    }
  }

  /** A run of calls without a resync that all find their batch, at these running times. */
  method PlayAudio(source: AudioSource, nows: seq<nat>)
    requires source.Valid() && !source.initialized
    modifies source
    ensures source.Valid() && OnTimeline(source.emitted, nows, seq(|nows|, _ => source.batchDuration))
    ensures (forall j | 0 <= j < |nows| :: nows[j] <= nows[0] + Arith.Times(source.batchDuration, j)) ==>
      forall k | 0 <= k < |nows| :: source.emitted[k] == nows[0] + Arith.Times(source.batchDuration, k)
  {
    ghost var steps := seq(|nows|, _ => source.batchDuration);
    for k := 0 to |nows|
      invariant source.Valid() && source.floor == 0 && |source.emitted| == k
      invariant OnTimeline(source.emitted, nows[..k], steps[..k])
    {
      var _, _ := source.CreateAudio(nows[k], false, true);
    }
    assert nows[..|nows|] == nows && steps[..|nows|] == steps;
    AudioPace(source.emitted, nows, source.batchDuration);
  }

  lemma {:induction false} AudioPace(emitted: seq<nat>, nows: seq<nat>, batchDuration: nat)
    requires OnTimeline(emitted, nows, seq(|nows|, _ => batchDuration))
    ensures (forall j | 0 <= j < |nows| :: nows[j] <= nows[0] + Arith.Times(batchDuration, j)) ==>
      forall k | 0 <= k < |nows| :: emitted[k] == nows[0] + Arith.Times(batchDuration, k)
  {
    var steps: seq<nat> := seq(|nows|, _ => batchDuration);
    forall j | 0 <= j < |nows|
      ensures Sum(steps, j) == Arith.Times(batchDuration, j)
    {
      BatchesTake(steps, batchDuration, j);
    }
    if forall j | 0 <= j < |nows| :: nows[j] <= nows[0] + Arith.Times(batchDuration, j) {
      forall k | 0 <= k < |nows|
        ensures emitted[k] == nows[0] + Arith.Times(batchDuration, k)
      {
        OwnPace(emitted, nows, steps, k);
      }
    }
  }

  lemma {:induction false} BatchesTake(steps: seq<nat>, batchDuration: nat, k: nat)
    requires k < |steps| && forall j | 0 <= j < |steps| :: steps[j] == batchDuration
    ensures Sum(steps, k) == Arith.Times(batchDuration, k)
    decreases k
  {
    if k > 0 {
      BatchesTake(steps, batchDuration, k - 1);
      Arith.TimesNext(batchDuration, k - 1);
    }
  }
}
