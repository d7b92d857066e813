/** The video source's loops over one discrete flow: skipped grains, and a grain sent in batches of slices. */
module SliceBatches {
  import Arith
  import opened BitString
  import opened DiscreteFlow
  import opened FrameRun

  /** Slices in place once `batches` batches of a grain have been committed. */
  function SlicesAfter(batches: nat, perBatch: nat, total: nat): nat {
    if perBatch * batches < total then perBatch * batches else total
  }

  /** The number of batches is the first that brings every slice. */
  lemma {:induction false} BatchCount(height: nat, perBatch: nat, k: nat)
    requires perBatch > 0 && height > 0
    ensures SlicesAfter(k, perBatch, height) == height <==> k >= (height + perBatch - 1) / perBatch
  {
    var n := height + perBatch - 1;
    Arith.DivMod(n, perBatch);
    if k >= n / perBatch {
      Arith.MulMono(perBatch, n / perBatch, k);
    } else {
      Arith.MulMono(perBatch, k + 1, n / perBatch);
      Arith.MulDistr(perBatch, k, 1);
    }
  }

  /** One more batch brings a full batch, or what is missing. */
  lemma {:induction false} NextBatch(k: nat, perBatch: nat, total: nat)
    requires perBatch * k < total
    ensures SlicesAfter(k, perBatch, total) == perBatch * k
    ensures SlicesAfter(k + 1, perBatch, total) ==
            perBatch * k + (if perBatch < total - perBatch * k then perBatch else total - perBatch * k)
  {
    Arith.MulDistr(perBatch, k, 1);
  }

  /** The state of the payload of a grain at one of its commits. */
  datatype Snapshot = Snapshot(info: GrainInfo, payload: seq<byte>)

  /** The k-th commit announces the slices of the first k + 1 batches, and their bytes are in place. */
  ghost predicate Announced(s: Snapshot, k: nat, start: GrainInfo, perBatch: nat, sliceSize: nat, data: seq<byte>) {
    && s.info == start.(validSlices := SlicesAfter(k + 1, perBatch, start.totalSlices))
    && sliceSize * s.info.validSlices <= |s.payload| && sliceSize * s.info.validSlices <= |data|
    && s.payload[..sliceSize * s.info.validSlices] == data[..sliceSize * s.info.validSlices]
  }

  /** The first `end` bytes of the frame are in the payload, each copied once; the rest is as it was. */
  ghost predicate Copied(buffer: seq<byte>, old': seq<byte>, data: seq<byte>, copies: seq<nat>, end: nat) {
    && end <= |data| == |copies| && |data| <= |buffer| == |old'|
    && (forall j | 0 <= j < |copies| :: copies[j] == if j < end then 1 else 0)
    && forall m | 0 <= m < |buffer| :: buffer[m] == if m < end then data[m] else old'[m]
  }

  method CopyBytes(buffer: array<byte>, data: seq<byte>, offset: nat, count: nat, ghost old': seq<byte>,
                   ghost copies: seq<nat>) returns (ghost copies': seq<nat>)
    requires offset + count <= |data| && Copied(buffer[..], old', data, copies, offset)
    modifies buffer
    ensures Copied(buffer[..], old', data, copies', offset + count)
  {
    copies' := copies;
    var j := 0;
    while j < count
      invariant 0 <= j <= count && Copied(buffer[..], old', data, copies', offset + j)
    {
      CopiedNext(buffer[..], old', data, copies', offset + j);
      buffer[offset + j] := data[offset + j];
      copies' := copies'[offset + j := copies'[offset + j] + 1];
      j := j + 1;
    }
  }

  lemma {:induction false} CopiedNext(buffer: seq<byte>, old': seq<byte>, data: seq<byte>, copies: seq<nat>, at: nat)
    requires Copied(buffer, old', data, copies, at) && at < |data|
    ensures Copied(buffer[at := data[at]], old', data, copies[at := copies[at] + 1], at + 1)
  {
  }

  ghost function RingOf(flow: Flow): Ring
    reads flow, flow.grains
  {
    Ring(flow.grains[..], flow.headIndex, flow.account)
  }

  /**
   Sends one grain. Every batch commit is accepted, no commit announces a slice whose bytes are not yet in
   the payload, each byte is copied once, and at the end the grain is complete and closed.
   */
  method SendGrain(writer: Writer, index: nat, height: nat, perBatch: nat, sliceSize: nat, data: seq<byte>,
                   buffer: array<byte>)
    returns (statuses: seq<Status>, ghost start: GrainInfo, ghost commits: seq<Snapshot>, ghost copies: seq<nat>)
    requires writer.flow.Valid() && 1 <= perBatch <= height
    requires writer.flow.grains[Slot(index, writer.flow.grains.Length)].totalSlices == height
    requires |data| == sliceSize * height <= buffer.Length
    modifies writer, writer.flow, writer.flow.grains, buffer
    ensures writer.flow.Valid() && writer.currentIndex == UNDEFINED_INDEX
    ensures start == old(writer.flow.grains[Slot(index, writer.flow.grains.Length)]).(index := index)
    ensures |statuses| == |commits| == (height + perBatch - 1) / perBatch
    ensures forall k | 0 <= k < |statuses| :: statuses[k] == StatusOk
    ensures forall k | 0 <= k < |commits| :: Announced(commits[k], k, start, perBatch, sliceSize, data)
    ensures |copies| == |data| && forall j | 0 <= j < |copies| :: copies[j] == 1
    ensures buffer[..] == data + old(buffer[..])[|data|..]
    ensures RingOf(writer.flow) == OpenedAndCommitted(old(RingOf(writer.flow)), start.(validSlices := height))
  {
    var flow := writer.flow;
    var nbBatches := (height + perBatch - 1) / perBatch;
    var info := writer.OpenGrain(index);
    start := info;
    info := info.(validSlices := 0);
    statuses, commits, copies := [], [], seq(|data|, _ => 0);
    ghost var ring := old(RingOf(flow));
    ghost var end: nat := 0;
    var i := 0;
    while i < nbBatches
      invariant 0 <= i <= nbBatches && flow.Valid()
      invariant info == start.(validSlices := SlicesAfter(i, perBatch, height))
      invariant |statuses| == |commits| == i
      invariant forall k | 0 <= k < i :: statuses[k] == StatusOk
      invariant forall k | 0 <= k < i :: Announced(commits[k], k, start, perBatch, sliceSize, data)
      invariant end == sliceSize * info.validSlices && Copied(buffer[..], old(buffer[..]), data, copies, end)
      invariant writer.currentIndex == (if info.validSlices == height then UNDEFINED_INDEX else index)
      invariant RingOf(flow) == Sending(ring, start, info, i > 0)
    {
      BatchCount(height, perBatch, i);
      NextBatch(i, perBatch, height);
      ghost var was := info;
      var done := info.validSlices;
      var nbSlices := if perBatch < info.totalSlices - done then perBatch else info.totalSlices - done;
      BatchSpan(sliceSize, perBatch, i, done, nbSlices, height);
      var batchOffset, size := sliceSize * perBatch * i, nbSlices * sliceSize;
      copies := CopyBytes(buffer, data, batchOffset, size, old(buffer[..]), copies);
      info := info.(validSlices := done + nbSlices);
      end := batchOffset + size;
      assert end == sliceSize * info.validSlices;
      assert buffer[..end] == data[..end];
      commits := commits + [Snapshot(info, buffer[..])];
      assert Announced(commits[i], i, start, perBatch, sliceSize, data);
      var status := writer.Commit(info);
      statuses := statuses + [status];
      if status != StatusOk {
        break;
      }
      SendingNext(ring, start, was, info, i > 0);
      i := i + 1;
    }
    BatchCount(height, perBatch, i);
    assert end == |data|;
    AllCopied(buffer[..], old(buffer[..]), data, copies);
  }

  lemma {:induction false} AllCopied(buffer: seq<byte>, old': seq<byte>, data: seq<byte>, copies: seq<nat>)
    requires Copied(buffer, old', data, copies, |data|)
    ensures buffer == data + old'[|data|..]
  {
  }

  lemma {:induction false} BatchSpan(sliceSize: nat, perBatch: nat, i: nat, done: nat, nbSlices: nat, height: nat)
    requires done == perBatch * i && done + nbSlices <= height
    ensures sliceSize * perBatch * i == sliceSize * done
    ensures sliceSize * done + nbSlices * sliceSize == sliceSize * (done + nbSlices) <= sliceSize * height
  {
    Arith.MulDistr(sliceSize, done, nbSlices);
    Arith.MulMono(sliceSize, done + nbSlices, height);
    Arith.MulAssoc(sliceSize, perBatch, i);
  }

  /** One skipped index, opened and committed as it is, but for the flags. */
  method SkipOne(writer: Writer, index: nat) returns (status: Status)
    requires writer.flow.Valid()
    modifies writer, writer.flow, writer.flow.grains
    ensures writer.flow.Valid() && status == StatusOk
    ensures RingOf(writer.flow) == SkipStep(old(RingOf(writer.flow)), index)
  {
    var info := writer.OpenGrain(index);
    info := info.(flags := INVALID_FLAG);
    status := writer.Commit(info);
  }

  /** The loop that fills the indices the source has skipped. */
  method SendSkipped(writer: Writer, from: nat, to: nat)
    requires writer.flow.Valid() && from <= to
    modifies writer, writer.flow, writer.flow.grains
    ensures writer.flow.Valid()
    ensures RingOf(writer.flow) == SkipAll(old(RingOf(writer.flow)), from, to - from)
  {
    ghost var ring := RingOf(writer.flow);
    var grainIndex := from;
    while grainIndex < to
      invariant from <= grainIndex <= to && writer.flow.Valid()
      invariant RingOf(writer.flow) == SkipAll(ring, from, grainIndex - from)
    {
      var status := SkipOne(writer, grainIndex);
      if status != StatusOk {
        break;
      }
      grainIndex := grainIndex + 1;
    }
  }

  // --- A whole run of frames ---------------------------------------------------------------------

  ghost predicate Distinct(payloads: seq<array<byte>>) {
    forall o, o' | 0 <= o < o' < |payloads| :: payloads[o] != payloads[o']
  }

  ghost function Contents(payloads: seq<array<byte>>): (contents: seq<seq<byte>>)
    reads payloads
    ensures |contents| == |payloads| && forall o | 0 <= o < |payloads| :: contents[o] == payloads[o][..]
  {
    if payloads == [] then [] else Contents(payloads[..|payloads| - 1]) + [payloads[|payloads| - 1][..]]
  }

  /**
   One frame: late and ignored, or early and only the indices before it filled in, or sent if it can be read.
   Nothing happens to the ring and the payloads but that.
   */
  method ReceiveFrame(writer: Writer, f: Frame, grainIndex: nat, height: nat, perBatch: nat, sliceSize: nat,
                      payloads: seq<array<byte>>) returns (next: nat)
    requires writer.flow.Valid() && 1 <= perBatch <= height && |payloads| == writer.flow.grains.Length
    requires writer.flow.grains[Slot(grainIndex, writer.flow.grains.Length)].totalSlices == height
    requires |f.data| == sliceSize * height && Distinct(payloads)
    requires forall b | b in payloads :: |f.data| <= b.Length
    modifies writer, writer.flow, writer.flow.grains, payloads
    ensures writer.flow.Valid() && next == if f.index > grainIndex then f.index + 1 else grainIndex + 1
    ensures RingOf(writer.flow) == FrameStep(old(RingOf(writer.flow)), grainIndex, f, height)
    ensures Contents(payloads) == ContentStep(old(Contents(payloads)), grainIndex, f)
  {
    next := grainIndex;
    if f.index > next {
      SendSkipped(writer, next, f.index);
      next := f.index;
    } else if f.index == next && f.mapped {
      var payload := payloads[Slot(next, writer.flow.grains.Length)];
      var _, _, _, _ := SendGrain(writer, next, height, perBatch, sliceSize, f.data, payload);
    }
    next := next + 1;
  }

  /** The whole loop. */
  method ReceiveFrames(writer: Writer, fs: seq<Frame>, height: nat, perBatch: nat, sliceSize: nat,
                       payloads: seq<array<byte>>)
    requires writer.flow.Valid() && fs != []
    requires forall o | 0 <= o < writer.flow.grains.Length :: writer.flow.grains[o].totalSlices == height
    requires 1 <= perBatch <= height && |payloads| == writer.flow.grains.Length && Distinct(payloads)
    requires forall f | f in fs :: |f.data| == sliceSize * height
    requires forall b | b in payloads :: sliceSize * height <= b.Length
    modifies writer, writer.flow, writer.flow.grains, payloads
    ensures writer.flow.Valid()
    ensures RingOf(writer.flow) == RingAfter(fs, |fs|, height, old(RingOf(writer.flow)))
    ensures Contents(payloads) == ContentsAfter(fs, |fs|, old(Contents(payloads)))
  {
    var grainIndex := fs[0].index;
    ghost var ring, contents := RingOf(writer.flow), Contents(payloads);
    for k := 0 to |fs|
      invariant writer.flow.Valid() && grainIndex == Expected(fs, k)
      invariant RingOf(writer.flow) == RingAfter(fs, k, height, ring)
      invariant Contents(payloads) == ContentsAfter(fs, k, contents)
    {
      assert fs[k] in fs;
      SlotCount(fs, k, height, ring, Slot(grainIndex, |payloads|));
      grainIndex := ReceiveFrame(writer, fs[k], grainIndex, height, perBatch, sliceSize, payloads);
    }
  }

  /**
   The whole run, from a new flow. Afterwards the log is one run, so that reads are what they should be,
   exactly if no grain was opened after an index had been passed over. The indices of the log are those of the
   frames that came in time and could be read, and those that were skipped. The grain of a frame is complete,
   and its payload begins with the bytes of the frame unless a later frame has taken the slot; but it is marked
   invalid if an index of its slot has been skipped before, as a skipped index always is.
   */
  method SendFrames(writer: Writer, fs: seq<Frame>, height: nat, perBatch: nat, sliceSize: nat,
                    payloads: seq<array<byte>>)
    requires writer.flow.Valid() && writer.flow.account == NOTHING && fs != []
    requires forall o | 0 <= o < writer.flow.grains.Length :: writer.flow.grains[o].totalSlices == height
    requires 1 <= perBatch <= height && |payloads| == writer.flow.grains.Length && Distinct(payloads)
    requires forall f | f in fs :: |f.data| == sliceSize * height
    requires forall b | b in payloads :: sliceSize * height <= b.Length
    modifies writer, writer.flow, writer.flow.grains, payloads
    ensures writer.flow.Valid() && writer.flow.account.forward
    ensures writer.flow.account.contiguous <==>
            forall j, m | 0 <= j < m < |fs| :: PassedOver(fs, j) ==> !Opens(fs, m)
    ensures writer.flow.account.log != map[] ==>
      (writer.flow.account.contiguous
       <==> exists first :: LogIsRun(writer.flow.account.log, writer.flow.headIndex, first))
    ensures forall j | 0 <= j < |fs| && fs[j].index == Expected(fs, j) && fs[j].mapped ::
      fs[j].index in writer.flow.account.log && writer.flow.account.log[fs[j].index].validSlices == height
    ensures forall j, i | 0 <= j < |fs| && Expected(fs, j) <= i < fs[j].index ::
      i in writer.flow.account.log && writer.flow.account.log[i].flags == INVALID_FLAG
    ensures LogTold(fs, |fs|, |payloads|, height, writer.flow.account.log)
    ensures PayloadsTold(fs, |fs|, Contents(payloads))
  {
    ghost var ring, contents := RingOf(writer.flow), Contents(payloads);
    ReceiveFrames(writer, fs, height, perBatch, sliceSize, payloads);
    RunEnds(fs, height, ring);
    PayloadsHold(fs, |fs|, contents);
  }

  /**
   A read after the whole run. The grain of a frame still in the window is handed out whole, with the bytes of
   that frame, and an index that was skipped is handed out as invalid.
   */
  method SendAndRead(writer: Writer, fs: seq<Frame>, height: nat, perBatch: nat, sliceSize: nat,
                     payloads: seq<array<byte>>, index: nat, minSlices: nat)
    returns (status: Status, info: GrainInfo, payload: array<byte>)
    requires writer.flow.Valid() && writer.flow.account == NOTHING && fs != []
    requires forall o | 0 <= o < writer.flow.grains.Length :: writer.flow.grains[o].totalSlices == height
    requires 1 <= perBatch <= height && |payloads| == writer.flow.grains.Length && Distinct(payloads)
    requires forall f | f in fs :: |f.data| == sliceSize * height
    requires forall b | b in payloads :: sliceSize * height <= b.Length
    modifies writer, writer.flow, writer.flow.grains, payloads
    ensures status == TooLate <==> index + |payloads| <= writer.flow.headIndex
    ensures forall j | 0 <= j < |fs| && index == fs[j].index == Expected(fs, j) && fs[j].mapped && status != TooLate ::
      status == StatusOk && info.validSlices == info.totalSlices == height && fs[j].data <= payload[..]
      && (info.flags % 2 == 1 <==> SlotSkipped(fs, j, |payloads|, Slot(index, |payloads|)))
    ensures forall j | 0 <= j < |fs| && Expected(fs, j) <= index < fs[j].index && status != TooLate ::
      status == StatusOk && info.flags % 2 == 1
  {
    SendFrames(writer, fs, height, perBatch, sliceSize, payloads);
    status, info := GetGrain(writer.flow, index, minSlices);
    payload := payloads[Slot(index, |payloads|)];
    ghost var a, n, head := writer.flow.account, |payloads|, writer.flow.headIndex;
    forall j | 0 <= j < |fs| && index == fs[j].index == Expected(fs, j) && fs[j].mapped && status != TooLate
      ensures GrainTold(fs, j, n, height, a.log) && !Retaken(fs, j, |fs|, n)
    {
      AccountsHead(writer.flow.grains[..], head, a);
      NotRetaken(fs, j, n, height, a.log, head);
    }
  }

  lemma {:induction false} AccountsHead(slots: seq<GrainInfo>, head: nat, a: Account)
    requires |slots| > 0 && Accounts(slots, head, a) && a.forward
    ensures forall i | i in a.log :: i <= head
  {
    forall i | i in a.log
      ensures i <= head
    {
      assert IndexTold(a, head, |slots|, i);
    }
  }
}
