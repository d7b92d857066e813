/**
 When a writer of samples wakes its readers: about once per sync batch if it decides at the index it has
 committed, and at most twice in its life if it has cleared that index before.
 */
module SyncBatch {
  import Arith
  import opened BitString
  import opened DiscreteFlow

  /** `batchSize` is positive; `threshold` is the offset in a batch past which the next commit may overshoot it. */
  datatype Sizes = Sizes(batchSize: nat, threshold: nat) {
    predicate Valid() {
      0 < batchSize < Arith.TWO_TO_32
    }
  }

  /** Past the threshold, a further commit of the hinted size would overshoot the batch. */
  function SizesFor(commitHint: u32, syncHint: u32): (r: Sizes)
    ensures r.Valid() && r.threshold < r.batchSize
    ensures syncHint >= 1 ==> r.batchSize == syncHint
    ensures 1 <= commitHint <= syncHint ==> r.threshold + commitHint == syncHint
    ensures commitHint > syncHint ==> r.threshold == 0
  {
    var commitSize := if commitHint > 1 then commitHint else 1;
    var batchSize := if syncHint > 1 then syncHint else 1;
    Sizes(batchSize, if batchSize >= commitSize then batchSize - commitSize else 0)
  }

  datatype Outcome = Outcome(signal: bool, last: nat)

  /** The decision at one index, and the batch to remember. */
  function Signal(z: Sizes, last: nat, index: nat): Outcome
    requires z.Valid()
  {
    var current := index / z.batchSize;
    if current < last then Outcome(false, last)
    else if current > last then Outcome(true, current)
    else if index % z.batchSize > z.threshold then Outcome(true, current + 1)
    else Outcome(false, last)
  }

  /** The state after a run: the batch remembered, the last index that signalled (0 at the start), how many did. */
  datatype Run = Run(last: nat, signalled: nat, count: nat)

  /** The index the decision is made at: the one committed, unless it has been cleared before. */
  function DecidedAt(cleared: bool, index: nat): nat {
    if cleared then UNDEFINED_INDEX else index
  }

  function RunStep(z: Sizes, cleared: bool, r: Run, index: nat): Run
    requires z.Valid()
  {
    var o := Signal(z, r.last, DecidedAt(cleared, index));
    if o.signal then Run(o.last, index, r.count + 1) else Run(o.last, r.signalled, r.count)
  }

  /** The run over the committed indices; the writer as it is built is `cleared`. */
  function RunOf(z: Sizes, cleared: bool, indices: seq<nat>): Run
    requires z.Valid()
    decreases |indices|, 1
  {
    if indices == [] then Run(0, 0, 0) else RunOfStep(z, cleared, indices)
  }

  function RunOfStep(z: Sizes, cleared: bool, indices: seq<nat>): Run
    requires z.Valid() && indices != []
    decreases |indices|, 0
  {
    RunStep(z, cleared, RunOf(z, cleared, indices[..|indices| - 1]), indices[|indices| - 1])
  }

  lemma {:induction false} RunSnoc(z: Sizes, cleared: bool, indices: seq<nat>, index: nat)
    requires z.Valid()
    ensures RunOf(z, cleared, indices + [index]) == RunStep(z, cleared, RunOf(z, cleared, indices), index)
  {
    assert (indices + [index])[..|indices|] == indices;
  }

  predicate NonDecreasing(indices: seq<nat>) {
    forall i, j | 0 <= i <= j < |indices| :: indices[i] <= indices[j]
  }

  /** Fewer than a batch of samples lie past the last signal. */
  predicate Prompt(z: Sizes, cleared: bool, indices: seq<nat>)
    requires z.Valid() && indices != []
  {
    indices[|indices| - 1] < RunOf(z, cleared, indices).signalled + z.batchSize
  }

  /** Signals come at most once per batch begun. */
  predicate Sparing(z: Sizes, cleared: bool, indices: seq<nat>)
    requires z.Valid() && indices != []
  {
    RunOf(z, cleared, indices).count <= indices[|indices| - 1] / z.batchSize + 1
  }

  // --- Deciding at the committed index ----------------------------------------------------------

  /** The batch remembered is that of the last signal, or the next one after an early signal. */
  predicate Remembers(z: Sizes, r: Run, index: nat)
    requires z.Valid()
  {
    && r.signalled <= index
    && index < r.signalled + z.batchSize
    && r.count <= r.last
    && (|| r.last == r.signalled / z.batchSize
        || (r.last == r.signalled / z.batchSize + 1 && r.signalled % z.batchSize > z.threshold))
  }

  lemma {:induction false} StepRemembers(z: Sizes, r: Run, before: nat, index: nat)
    requires z.Valid() && Remembers(z, r, before) && before <= index
    ensures Remembers(z, RunStep(z, false, r, index), index)
  {
    var b := z.batchSize;
    Arith.DivMod(index, b);
    Arith.DivMod(r.signalled, b);
    Arith.MulDistr(b, r.signalled / b, 1);
    Arith.DivMono(r.signalled, index, b);
  }

  lemma {:induction false} RunRemembers(z: Sizes, indices: seq<nat>)
    requires z.Valid() && NonDecreasing(indices) && indices != []
    ensures Remembers(z, RunOf(z, false, indices), indices[|indices| - 1])
    decreases |indices|
  {
    var n := |indices| - 1;
    if n == 0 {
      Arith.QuotientUnique(0, z.batchSize, 0, 0);
      assert RunOf(z, false, indices[..n]) == Run(0, 0, 0);
      StepRemembers(z, Run(0, 0, 0), 0, indices[0]);
    } else {
      RunRemembers(z, indices[..n]);
      StepRemembers(z, RunOf(z, false, indices[..n]), indices[n - 1], indices[n]);
    }
  }

  /** Decided at the committed index, signals are prompt and sparing after every run of commits. */
  lemma {:induction false} SignalledInTime(z: Sizes, indices: seq<nat>)
    requires z.Valid() && NonDecreasing(indices) && indices != []
    ensures RunOf(z, false, indices).signalled <= indices[|indices| - 1]
    ensures Prompt(z, false, indices) && Sparing(z, false, indices)
  {
    var r, index := RunOf(z, false, indices), indices[|indices| - 1];
    RunRemembers(z, indices);
    Arith.DivMono(r.signalled, index, z.batchSize);
  }

  // --- As the writer is built -------------------------------------------------------------------

  /** Whether the second commit of a writer signals too. */
  predicate SignalsTwice(z: Sizes)
    requires z.Valid()
  {
    UNDEFINED_INDEX % z.batchSize > z.threshold
  }

  /** The committed index of the last signal that a writer ever gives. */
  function LastSignal(z: Sizes, indices: seq<nat>): nat
    requires z.Valid() && indices != []
  {
    if |indices| > 1 && SignalsTwice(z) then indices[1] else indices[0]
  }

  /** With the index cleared, the first commit signals, the second may, and none after. */
  lemma {:induction false} ClearedIndexSignalsTwice(z: Sizes, indices: seq<nat>)
    requires z.Valid() && indices != []
    ensures var count := if |indices| > 1 && SignalsTwice(z) then 2 else 1;
      RunOf(z, true, indices) == Run(UNDEFINED_INDEX / z.batchSize + count - 1, LastSignal(z, indices), count)
    decreases |indices|
  {
    var n := |indices| - 1;
    if n == 0 {
      Arith.DivBounds(UNDEFINED_INDEX, z.batchSize, 1, 0);
      assert RunOf(z, true, indices[..n]) == Run(0, 0, 0);
    } else {
      ClearedIndexSignalsTwice(z, indices[..n]);
    }
  }

  /**
   So signals stay prompt, commit after commit, exactly as long as the writer has not gone a batch past its
   last signal; and sparing, unless the second commit signals within the first batch.
   */
  lemma {:induction false} PromptAsBuilt(z: Sizes, indices: seq<nat>)
    requires z.Valid() && NonDecreasing(indices) && indices != []
    ensures (forall k | 0 < k <= |indices| :: Prompt(z, true, indices[..k]))
            <==> indices[|indices| - 1] < LastSignal(z, indices) + z.batchSize
    ensures Sparing(z, true, indices)
            <==> !(|indices| > 1 && SignalsTwice(z) && indices[|indices| - 1] < z.batchSize)
  {
    var n, b := |indices|, z.batchSize;
    forall k | 0 < k <= n
      ensures Prompt(z, true, indices[..k]) <==> indices[k - 1] < LastSignal(z, indices[..k]) + b
    {
      ClearedIndexSignalsTwice(z, indices[..k]);
    }
    assert indices[..n] == indices;
    ClearedIndexSignalsTwice(z, indices);
    Arith.DivBounds(indices[n - 1], b, 1, 1);
    Arith.DivBounds(indices[n - 1], b, 0, 0);
  }

  /** With the hints of a 48 kHz flow and batches as large, the third commit is already a batch too late. */
  lemma {:induction false} LateAtThirdCommit()
    ensures var z, indices := SizesFor(480, 480), [480, 960, 1440];
      NonDecreasing(indices) && RunOf(z, true, indices).signalled == 960 && !Prompt(z, true, indices)
  {
    ClearedIndexSignalsTwice(SizesFor(480, 480), [480, 960, 1440]);
  }
}
