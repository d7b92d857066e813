/** A continuous flow, its writer and its readers, and the log of committed frames the ring stands for. */
module ContinuousFlow {
  import Arith
  import opened BitString
  import opened Delimited
  import opened DiscreteFlow
  import opened ContinuousRing
  import SyncBatch

  /** The frames from `start` on that the ring still holds, with room for the writer to open its half. */
  predicate Window(sh: Shape, mem: Bytes, log: seq<Bytes>, start: int)
    requires sh.Valid() && |mem| == Size(sh)
  {
    forall k | 0 <= k < |log| && |log| + sh.length / 2 - sh.length <= k :: log[k] == Frame(sh, mem, start + k)
  }

  /** Nothing readable changes as long as the words of the half ring before the head do not. */
  lemma {:induction false} WindowUnchanged(sh: Shape, mem: Bytes, mem': Bytes, log: seq<Bytes>, start: int)
    requires sh.Valid() && |mem| == |mem'| == Size(sh) && Window(sh, mem, log, start)
    requires var head := start + |log|; Agree(sh, mem, mem', head + sh.length / 2 - sh.length, head)
    ensures Window(sh, mem', log, start)
  {
    var head := start + |log|;
    forall k | 0 <= k < |log| && |log| + sh.length / 2 - sh.length <= k
      ensures log[k] == Frame(sh, mem', start + k)
    {
      FrameUnchanged(sh, mem, mem', head + sh.length / 2 - sh.length, head, start + k, sh.channels);
    }
  }

  lemma {:induction false} WindowExtended(sh: Shape, mem: Bytes, log: seq<Bytes>, start: int, count: nat)
    requires sh.Valid() && |mem| == Size(sh) && Window(sh, mem, log, start)
    ensures Window(sh, mem, log + Frames(sh, mem, start + |log|, count), start)
  {
  }

  /** A 32-bit counter after `n` more bumps. */
  function Bumped(counter: nat, n: nat): nat {
    (counter + n) % Arith.TWO_TO_32
  }

  lemma {:induction false} BumpsAdd(counter: nat, n: nat, m: nat)
    ensures Bumped(Bumped(counter, n), m) == Bumped(counter, n + m)
  {
  }

  class Flow {
    const shape: Shape
    const memory: array<byte>
    var headIndex: nat
    var syncCounter: nat

    /** The committed frames, from index `start` on, for as long as every batch has followed the one before. */
    ghost var log: seq<Bytes>
    ghost var start: int
    ghost var contiguous: bool

    ghost predicate Valid()
      reads this, memory
    {
      && shape.Valid() && shape.channels > 0 && memory.Length == Size(shape)
      && (contiguous && log != [] ==> headIndex == start + |log|)
      && (contiguous ==> Window(shape, memory[..], log, start))
      && syncCounter < Arith.TWO_TO_32
    }

    constructor (shape: Shape)
      requires shape.Valid() && shape.channels > 0
      ensures Valid() && this.shape == shape && fresh(memory) && headIndex == 0 && log == [] && contiguous
    {
      this.shape := shape;
      memory := new byte[Size(shape)](_ => 0);
      headIndex, syncCounter := 0, 0;
      log, start, contiguous := [], 0, true;
    }

    /** A batch that starts where the last one ended, or the first batch of all. */
    ghost predicate Follows(index: nat, count: nat)
      reads this
    {
      log == [] || index - count == headIndex
    }

    /** Takes the batch that the memory holds into the log. */
    ghost method Append(mem: Bytes, first: int, count: nat, frames: seq<Bytes>)
      requires shape.Valid() && |mem| == Size(shape) && Window(shape, mem, log, start)
      requires frames == Frames(shape, mem, first, count)
      requires log == [] || first == start + |log|
      modifies this`log, this`start
      ensures start + |log| == first + count && Window(shape, mem, log, start)
      ensures start == if old(log) == [] then first else old(start)
      ensures log == old(log) + frames
    {
      start := if log == [] then first else start;
      WindowExtended(shape, mem, log, start, count);
      log := log + frames;
    }

    /** A non-blocking read. */
    method GetSamples(index: nat, count: nat) returns (status: Status, slice: Slice)
      requires Valid()
      ensures status == RangeStatus(headIndex, shape.length, index, count)
      ensures status == StatusOk ==> slice == SliceFor(shape, index, count)
      ensures contiguous && status == StatusOk && log != [] && start <= index - count ==>
        && index <= start + |log|
        && Frames(shape, memory[..], index - count, count) == log[index - count - start..index - start]
    {
      slice := Slice(0, 0, 0, 0, 0, 0);
      if index <= headIndex {
        var minIndex := if headIndex >= shape.length / 2 then headIndex - shape.length / 2 else 0;
        if index >= minIndex && index - minIndex >= count {
          slice := SliceFor(shape, index, count);
          return StatusOk, slice;
        }
        return TooLate, slice;
      }
      return TooEarly, slice;
    }
  }

  class Writer {
    const flow: Flow
    const sync: SyncBatch.Sizes
    var currentIndex: nat
    var lastSyncSampleBatch: nat

    /** The length of the batch that is open; the indices of all commits; the counter before the first of them. */
    ghost var openCount: nat
    ghost var committed: seq<nat>
    ghost var firstCounter: nat

    ghost predicate Valid()
      reads this, flow, flow.memory
    {
      && flow.Valid() && sync.Valid()
      && openCount <= flow.shape.length / 2
      && lastSyncSampleBatch == SyncBatch.RunOf(sync, true, committed).last
      && flow.syncCounter == Bumped(firstCounter, SyncBatch.RunOf(sync, true, committed).count)
      && (flow.contiguous && IsOpen() ==> flow.Follows(currentIndex, openCount))
    }

    predicate IsOpen()
      reads this
    {
      currentIndex != UNDEFINED_INDEX
    }

    constructor (flow: Flow, commitHint: u32, syncHint: u32)
      requires flow.Valid()
      ensures Valid() && this.flow == flow && currentIndex == UNDEFINED_INDEX
      ensures committed == [] && firstCounter == flow.syncCounter
      ensures sync == SyncBatch.SizesFor(commitHint, syncHint)
    {
      this.flow := flow;
      sync := SyncBatch.SizesFor(commitHint, syncHint);
      currentIndex, lastSyncSampleBatch, openCount := UNDEFINED_INDEX, 0, 0;
      committed, firstCounter := [], flow.syncCounter;
    }

    method OpenSamples(index: nat, count: nat) returns (status: Status, slice: Slice)
      requires Valid()
      modifies this, flow`contiguous
      ensures Valid()
      ensures status == if count <= flow.shape.length / 2 then StatusOk else InvalidArg
      ensures status != StatusOk ==> unchanged(this) && unchanged(flow)
      ensures status == StatusOk ==>
        && slice == SliceFor(flow.shape, index, count) && currentIndex == index && openCount == count
        && lastSyncSampleBatch == old(lastSyncSampleBatch)
        && committed == old(committed) && firstCounter == old(firstCounter)
        && flow.contiguous == old(flow.contiguous && index != UNDEFINED_INDEX && flow.Follows(index, count))
    {
      slice := Slice(0, 0, 0, 0, 0, 0);
      if count > flow.shape.length / 2 {
        return InvalidArg, slice;
      }
      flow.contiguous := flow.contiguous && index != UNDEFINED_INDEX && flow.Follows(index, count);
      slice := SliceFor(flow.shape, index, count);
      currentIndex, openCount := index, count;
      status := StatusOk;
    }

    method SignalCompletedBatch() returns (signal: bool)
      requires sync.Valid()
      modifies this`lastSyncSampleBatch
      ensures SyncBatch.Outcome(signal, lastSyncSampleBatch) ==
              SyncBatch.Signal(sync, old(lastSyncSampleBatch), currentIndex)
    {
      var currentSyncSampleBatch := currentIndex / sync.batchSize;
      if currentSyncSampleBatch < lastSyncSampleBatch {
        return false;
      }
      if currentSyncSampleBatch == lastSyncSampleBatch {
        if currentIndex % sync.batchSize > sync.threshold {
          lastSyncSampleBatch := currentSyncSampleBatch + 1;
        } else {
          return false;
        }
      } else {
        lastSyncSampleBatch := currentSyncSampleBatch;
      }
      return true;
    }

    /** Moves the head; what the memory holds for the batch is what has been committed. */
    method MoveHead()
      requires Valid()
      modifies this`currentIndex, this`openCount, flow`contiguous, flow`log, flow`start, flow`headIndex
      ensures flow.Valid() && openCount == 0
      ensures flow.headIndex == old(currentIndex) && currentIndex == UNDEFINED_INDEX
      ensures flow.contiguous == old(flow.contiguous && IsOpen())
      ensures flow.contiguous ==> flow.log == old(flow.log + Batch())
      ensures flow.contiguous ==>
        flow.start == if old(flow.log) == [] then old(currentIndex) - old(openCount) else old(flow.start)
    {
      ghost var mem := flow.memory[..];
      flow.contiguous := flow.contiguous && IsOpen();
      if flow.contiguous {
        flow.Append(mem, currentIndex - openCount, openCount, Batch());
      }
      assert flow.memory[..] == mem;
      flow.headIndex := currentIndex;
      currentIndex, openCount := UNDEFINED_INDEX, 0;
    }

    /** The frames the memory holds for the open batch. */
    ghost function Batch(): seq<Bytes>
      requires Valid()
      reads this, flow, flow.memory
    {
      Frames(flow.shape, flow.memory[..], currentIndex - openCount, openCount)
    }

    /** Decides whether to wake the readers once the index has been cleared. */
    method Commit()
      requires Valid()
      modifies this, flow
      ensures Valid() && openCount == 0
      ensures flow.headIndex == old(currentIndex) && currentIndex == UNDEFINED_INDEX
      ensures flow.contiguous == old(flow.contiguous && IsOpen())
      ensures flow.contiguous ==> flow.log == old(flow.log + Batch())
      ensures flow.contiguous ==>
        flow.start == if old(flow.log) == [] then old(currentIndex) - old(openCount) else old(flow.start)
      ensures committed == old(committed) + [old(currentIndex)] && firstCounter == old(firstCounter)
    {
      ghost var index, bumps := currentIndex, SyncBatch.RunOf(sync, true, committed).count;
      SyncBatch.RunSnoc(sync, true, committed, index);
      MoveHead();
      committed := committed + [index];
      var signal := SignalCompletedBatch();
      if signal {
        BumpsAdd(firstCounter, bumps, 1);
        flow.syncCounter := Bumped(flow.syncCounter, 1);
      }
    }

    /** Forgets the open batch. Whatever has been written into it stays, and stays out of every reader's sight. */
    method Cancel()
      requires Valid()
      modifies this
      ensures Valid() && currentIndex == UNDEFINED_INDEX && openCount == 0
      ensures lastSyncSampleBatch == old(lastSyncSampleBatch)
      ensures committed == old(committed) && firstCounter == old(firstCounter)
    {
      currentIndex, openCount := UNDEFINED_INDEX, 0;
    }
  }

  /** A batch to open and commit: the index after its last sample, and its samples. */
  datatype Request = Request(index: nat, count: nat)

  function Indices(rs: seq<Request>): (xs: seq<nat>)
    ensures |xs| == |rs| && forall i | 0 <= i < |rs| :: xs[i] == rs[i].index
  {
    seq(|rs|, i requires 0 <= i < |rs| => rs[i].index)
  }

  /**
   A writer's whole life of commits. Readers are woken once or twice in it: at the first commit and, if
   the sizes are such, at the second. The wake-ups keep up with the commits exactly as long as the last of
   these has not been left a batch behind.
   */
  method CommitAll(writer: Writer, requests: seq<Request>)
    requires writer.Valid() && writer.committed == [] && requests != []
    requires forall r | r in requests :: r.count <= writer.flow.shape.length / 2
    requires SyncBatch.NonDecreasing(Indices(requests))
    modifies writer, writer.flow
    ensures writer.Valid() && writer.committed == Indices(requests)
    ensures var twice := |requests| > 1 && SyncBatch.SignalsTwice(writer.sync);
      && writer.flow.syncCounter == Bumped(old(writer.flow.syncCounter), if twice then 2 else 1)
      && ((forall k | 0 < k <= |requests| :: SyncBatch.Prompt(writer.sync, true, writer.committed[..k]))
          <==> requests[|requests| - 1].index < requests[if twice then 1 else 0].index + writer.sync.batchSize)
  {
    assert SyncBatch.RunOf(writer.sync, true, []) == SyncBatch.Run(0, 0, 0);
    assert writer.flow.syncCounter == Bumped(writer.firstCounter, 0);
    var i := 0;
    while i < |requests|
      invariant 0 <= i <= |requests| && writer.Valid()
      invariant writer.committed == Indices(requests)[..i]
      invariant writer.firstCounter == old(writer.firstCounter)
    {
      assert requests[i] in requests;
      var status, _ := writer.OpenSamples(requests[i].index, requests[i].count);
      writer.Commit();
      i := i + 1;
    }
    assert writer.committed == Indices(requests);
    SyncBatch.PromptAsBuilt(writer.sync, writer.committed);
    SyncBatch.ClearedIndexSignalsTwice(writer.sync, writer.committed);
    BumpsAdd(writer.firstCounter, 0, SyncBatch.RunOf(writer.sync, true, writer.committed).count);
  }
}
