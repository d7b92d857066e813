/** A run of video frames: the indices each has committed or skipped, and what that leaves in the ring. */
module FrameRun {
  import opened BitString
  import opened DiscreteFlow

  const INVALID_FLAG: nat := 1

  /** The ring of a flow at one time: slots, head and account. */
  datatype Ring = Ring(slots: seq<GrainInfo>, head: nat, account: Account)

  /** The ring after a grain has been opened and then committed as `info`. */
  function OpenedAndCommitted(r: Ring, info: GrainInfo): (r': Ring)
    requires |r.slots| > 0
    ensures |r'.slots| == |r.slots|
  {
    var n := |r.slots|;
    Ring(r.slots[Slot(info.index, n) := info], info.index,
         AfterCommit(AfterOpen(r.account, r.head, n, info.index), r.head, n, info))
  }

  /** The ring after the open of `info.index`, or, `begun`, after commits of it of which `info` is the last. */
  function Sending(r: Ring, start: GrainInfo, info: GrainInfo, begun: bool): (r': Ring)
    requires |r.slots| > 0
    ensures |r'.slots| == |r.slots|
  {
    if begun then OpenedAndCommitted(r, info)
    else Ring(r.slots[Slot(start.index, |r.slots|) := start], r.head,
              AfterOpen(r.account, r.head, |r.slots|, start.index))
  }

  /** Committing again only replaces the info. */
  lemma {:induction false} SendingNext(r: Ring, start: GrainInfo, info: GrainInfo, info': GrainInfo, begun: bool)
    requires |r.slots| > 0 && start.index == info.index == info'.index
    ensures var r', n := Sending(r, start, info, begun), |r.slots|;
      Ring(r'.slots[Slot(info'.index, n) := info'], info'.index, AfterCommit(r'.account, r'.head, n, info'))
      == OpenedAndCommitted(r, info')
  {
    var r', n := Sending(r, start, info, begun), |r.slots|;
    var a, a' := AfterCommit(r'.account, r'.head, n, info'), OpenedAndCommitted(r, info').account;
    assert r'.slots[Slot(info'.index, n) := info'] == r.slots[Slot(info'.index, n) := info'];
    assert a.log == a'.log && a.held == a'.held && a.named == a'.named;
  }

  /** From `r` to `r'` only one grain has been committed, once or more often, and last as `info`. */
  ghost predicate OnlyCommitted(r: Ring, r': Ring, info: GrainInfo)
    requires |r.slots| > 0
  {
    && r'.slots == r.slots[Slot(info.index, |r.slots|) := info] && r'.head == info.index
    && r'.account.log == r.account.log[info.index := info]
    && r'.account.contiguous == (r.account.contiguous && Continues(r.account.log, r.head, info.index))
    && r'.account.forward == (r.account.forward && Advances(r.account.log, r.head, info.index))
  }

  lemma {:induction false} CommittedOnly(r: Ring, info: GrainInfo)
    requires |r.slots| > 0
    ensures OnlyCommitted(r, OpenedAndCommitted(r, info), info)
  {
  }

  // --- Skipped indices ---------------------------------------------------------------------------

  /** Some index of `[from, to)` has the slot `o`. */
  ghost predicate Hits(from: nat, to: nat, n: nat, o: nat)
    requires n > 0
  {
    exists i | from <= i < to :: Slot(i, n) == o
  }

  lemma {:induction false} HitsNext(from: nat, to: nat, n: nat, o: nat)
    requires n > 0 && from <= to
    ensures Hits(from, to + 1, n, o) <==> Hits(from, to, n, o) || Slot(to, n) == o
  {
    assert Slot(to, n) == o ==> Hits(from, to + 1, n, o);
  }

  /** From `r` to `r'` the indices of `[from, to)` have been committed as invalid grains, and nothing else. */
  ghost predicate Skipped(r: Ring, r': Ring, from: nat, to: nat)
    requires |r.slots| > 0
  {
    && (forall i | i in r'.account.log :: i in r.account.log || from <= i < to)
    && (forall i | from <= i < to ::
      i in r'.account.log && r'.account.log[i].flags == INVALID_FLAG && r'.account.log[i].index == i)
    && (forall i | i in r.account.log && !(from <= i < to) ::
      i in r'.account.log && r'.account.log[i] == r.account.log[i])
    && |r'.slots| == |r.slots| && (forall o | 0 <= o < |r.slots| :: r'.slots[o].totalSlices == r.slots[o].totalSlices)
    && (forall o | 0 <= o < |r.slots| ::
      r'.slots[o].flags == if Hits(from, to, |r.slots|, o) then INVALID_FLAG else r.slots[o].flags)
    && r'.head == (if from < to then to - 1 else r.head)
    && r'.account.contiguous == (r.account.contiguous && (from == to || Continues(r.account.log, r.head, from)))
    && r'.account.forward == (r.account.forward && (from == to || Advances(r.account.log, r.head, from)))
  }

  /** One skipped index: its slot is opened and committed as it is, but for the flags. */
  function SkipStep(r: Ring, index: nat): (r': Ring)
    requires |r.slots| > 0
    ensures |r'.slots| == |r.slots|
  {
    var info := r.slots[Slot(index, |r.slots|)].(index := index, flags := INVALID_FLAG);
    OpenedAndCommitted(r, info)
  }

  function SkipAll(r: Ring, from: nat, count: nat): (r': Ring)
    requires |r.slots| > 0
    ensures |r'.slots| == |r.slots|
    decreases count
  {
    if count == 0 then r else SkipStep(SkipAll(r, from, count - 1), from + count - 1)
  }

  lemma {:induction false} LogAfterSkips(r: Ring, from: nat, count: nat, i: nat)
    requires |r.slots| > 0
    ensures var log, log' := r.account.log, SkipAll(r, from, count).account.log;
      if from <= i < from + count then i in log' && log'[i].flags == INVALID_FLAG && log'[i].index == i
      else if i in log then i in log' && log'[i] == log[i]
      else i !in log'
    decreases count
  {
    if count > 0 {
      LogAfterSkips(r, from, count - 1, i);
    }
  }

  lemma {:induction false} SlotAfterSkips(r: Ring, from: nat, count: nat, o: nat)
    requires o < |r.slots|
    ensures var info, info' := r.slots[o], SkipAll(r, from, count).slots[o];
      && info'.totalSlices == info.totalSlices
      && info'.flags == if Hits(from, from + count, |r.slots|, o) then INVALID_FLAG else info.flags
    decreases count
  {
    if count > 0 {
      var n, last := |r.slots|, from + count - 1;
      SlotAfterSkips(r, from, count - 1, o);
      HitsNext(from, last, n, o);
    }
  }

  lemma {:induction false} RunAfterSkips(r: Ring, from: nat, count: nat)
    requires |r.slots| > 0
    ensures var a, r' := r.account, SkipAll(r, from, count);
      && r'.head == (if count > 0 then from + count - 1 else r.head)
      && r'.account.contiguous == (a.contiguous && (count == 0 || Continues(a.log, r.head, from)))
      && r'.account.forward == (a.forward && (count == 0 || Advances(a.log, r.head, from)))
      && (count > 0 ==> r'.head in r'.account.log)
    decreases count
  {
    if count > 0 {
      RunAfterSkips(r, from, count - 1);
    }
  }

  /** Each skipped index ends up in the log, marked invalid, and nothing else changes there. */
  lemma {:induction false} AllSkipped(r: Ring, from: nat, count: nat)
    requires |r.slots| > 0
    ensures Skipped(r, SkipAll(r, from, count), from, from + count)
  {
    var r' := SkipAll(r, from, count);
    RunAfterSkips(r, from, count);
    forall i: nat
      ensures i in r'.account.log <==> i in r.account.log || from <= i < from + count
      ensures from <= i < from + count ==> r'.account.log[i].flags == INVALID_FLAG && r'.account.log[i].index == i
      ensures i in r.account.log && !(from <= i < from + count) ==> r'.account.log[i] == r.account.log[i]
    {
      LogAfterSkips(r, from, count, i);
    }
    forall o | 0 <= o < |r.slots|
      ensures r'.slots[o].totalSlices == r.slots[o].totalSlices
      ensures r'.slots[o].flags == if Hits(from, from + count, |r.slots|, o) then INVALID_FLAG else r.slots[o].flags
    {
      SlotAfterSkips(r, from, count, o);
    }
  }

  // --- A whole run of frames ---------------------------------------------------------------------

  /** A frame the pipeline delivers: the index of its time, whether its bytes can be had, and the bytes. */
  datatype Frame = Frame(index: nat, mapped: bool, data: seq<byte>)

  /** The index expected when frame `k` comes; the first frame is always the expected one. */
  function Expected(fs: seq<Frame>, k: nat): nat
    requires k <= |fs| && fs != []
    decreases k
  {
    if k == 0 then fs[0].index
    else if fs[k - 1].index > Expected(fs, k - 1) then fs[k - 1].index + 1
    else Expected(fs, k - 1) + 1
  }

  /** The expected index is what the earliest to come of the frames so far would make it, a period a frame. */
  lemma {:induction false} ExpectedIsLatest(fs: seq<Frame>, k: nat)
    requires 0 < k <= |fs|
    ensures forall j | 0 <= j < k :: fs[j].index + (k - j) <= Expected(fs, k)
    ensures exists j | 0 <= j < k :: fs[j].index + (k - j) == Expected(fs, k)
    decreases k
  {
    if k > 1 {
      ExpectedIsLatest(fs, k - 1);
      if fs[k - 1].index <= Expected(fs, k - 1) {
        var j :| 0 <= j < k - 1 && fs[j].index + (k - 1 - j) == Expected(fs, k - 1);
        assert fs[j].index + (k - j) == Expected(fs, k);
      }
    }
    assert fs[k - 1].index + (k - (k - 1)) <= Expected(fs, k);
  }

  /** Frame `k` opens grains: its own, or those skipped before it. */
  predicate Opens(fs: seq<Frame>, k: nat)
    requires k < |fs|
  {
    fs[k].index > Expected(fs, k) || (fs[k].index == Expected(fs, k) && fs[k].mapped)
  }

  /** After frame `k` an index has been passed over: it came late, or could not be read, or came after a skip. */
  predicate Passes(fs: seq<Frame>, k: nat)
    requires k < |fs|
  {
    fs[k].index != Expected(fs, k) || !fs[k].mapped
  }

  /** Has anything been written before frame `k`, and if so, has an index been passed over since? Is the log one run? */
  datatype Progress = Progress(begun: bool, gap: bool, whole: bool)

  function ProgressAt(fs: seq<Frame>, k: nat): Progress
    requires k <= |fs|
    decreases k
  {
    if k == 0 then Progress(false, false, true)
    else
      var p := ProgressAt(fs, k - 1);
      var begun := p.begun || Opens(fs, k - 1);
      Progress(begun, begun && Passes(fs, k - 1), p.whole && !(p.gap && Opens(fs, k - 1)))
  }

  /** Something has been written by the time the index of frame `j`, or one before it, is passed over. */
  ghost predicate PassedOver(fs: seq<Frame>, j: nat)
    requires j < |fs|
  {
    Passes(fs, j) && exists i | 0 <= i <= j :: Opens(fs, i)
  }

  lemma {:induction false} BegunMeans(fs: seq<Frame>, k: nat)
    requires k <= |fs|
    ensures ProgressAt(fs, k).begun <==> exists i | 0 <= i < k :: Opens(fs, i)
    decreases k
  {
    if k > 0 {
      BegunMeans(fs, k - 1);
    }
  }

  /**
   The log is one run exactly if, once anything has been written, no grain is opened after an index has been
   passed over. A frame above the expected index passes its own over; so does one below, or one without bytes.
   */
  lemma {:induction false} KeepsRunExactly(fs: seq<Frame>, k: nat)
    requires k <= |fs|
    ensures ProgressAt(fs, k).whole <==> forall j, m | 0 <= j < m < k :: PassedOver(fs, j) ==> !Opens(fs, m)
    decreases k
  {
    if k > 0 {
      var last := k - 1;
      KeepsRunExactly(fs, last);
      BegunMeans(fs, last);
      assert last > 0 ==> (ProgressAt(fs, last).gap <==> PassedOver(fs, last - 1));
      if j :| 0 <= j < last && PassedOver(fs, j) && ProgressAt(fs, last).whole {
        assert j < last - 1 ==> !Opens(fs, last - 1);
        assert PassedOver(fs, last - 1);
      }
    }
  }

  /** Between two committed indices there is one that has not been committed. */
  ghost predicate HasHole(log: Log, head: nat) {
    head in log && exists lo, i :: lo in log && lo < i < head && i !in log
  }

  lemma {:induction false} HoleMeans(log: Log, head: nat)
    requires HasHole(log, head)
    ensures !exists first :: LogIsRun(log, head, first)
  {
  }

  /** Commits of `[from, to]` past the head keep a hole; if they skip the index after the head, they make one. */
  lemma {:induction false} HoleKept(log: Log, head: nat, log': Log, from: nat, to: nat)
    requires log != map[] ==> head in log && head < from && forall i | i in log :: i <= head
    requires from <= to && to in log' && forall i :: i in log' <==> i in log || from <= i <= to
    ensures forall i | i in log' :: i <= to
    ensures log != map[] && head + 1 < from ==> HasHole(log', to)
    ensures log != map[] && HasHole(log, head) ==> HasHole(log', to)
  {
    if log != map[] && head + 1 < from {
      assert head in log' && head + 1 !in log';
    }
    if log != map[] && HasHole(log, head) {
      var lo, i :| lo in log && lo < i < head && i !in log;
      assert lo in log' && i !in log';
    }
  }

  // --- What the frames leave behind --------------------------------------------------------------

  /** A frame in time whose bytes can be had. */
  predicate Sent(fs: seq<Frame>, j: nat)
    requires j < |fs|
  {
    fs[j].index == Expected(fs, j) && fs[j].mapped
  }

  /** An index that frame `j` skips. */
  predicate Skips(fs: seq<Frame>, j: nat, i: nat)
    requires j < |fs|
  {
    Expected(fs, j) <= i < fs[j].index
  }

  /** An index that frame `j` has had committed. */
  predicate Commits(fs: seq<Frame>, j: nat, i: nat)
    requires j < |fs|
  {
    Skips(fs, j, i) || (Sent(fs, j) && fs[j].index == i)
  }

  ghost predicate Committed(fs: seq<Frame>, k: nat, i: nat)
    requires k <= |fs|
  {
    exists j | 0 <= j < k :: Commits(fs, j, i)
  }

  lemma {:induction false} CommittedNext(fs: seq<Frame>, k: nat, i: nat)
    requires k < |fs|
    ensures Committed(fs, k + 1, i) <==> Committed(fs, k, i) || Commits(fs, k, i)
  {
    assert Commits(fs, k, i) ==> Committed(fs, k + 1, i);
  }

  /** Frame `j` skips an index of the slot `o`. */
  ghost predicate SkipHits(fs: seq<Frame>, j: nat, n: nat, o: nat)
    requires j < |fs| && n > 0
  {
    Hits(Expected(fs, j), fs[j].index, n, o)
  }

  ghost predicate SlotSkipped(fs: seq<Frame>, k: nat, n: nat, o: nat)
    requires k <= |fs| && n > 0
  {
    exists j | 0 <= j < k :: SkipHits(fs, j, n, o)
  }

  lemma {:induction false} ExpectedGrows(fs: seq<Frame>, j: nat, k: nat)
    requires j < k <= |fs|
    ensures Expected(fs, j) < Expected(fs, k) && fs[j].index < Expected(fs, k)
    decreases k
  {
    if j < k - 1 {
      ExpectedGrows(fs, j, k - 1);
    }
  }

  /** What the log says of the grain that frame `j` has sent. */
  ghost predicate GrainTold(fs: seq<Frame>, j: nat, n: nat, height: nat, log: Log)
    requires j < |fs| && n > 0
  {
    var i := fs[j].index;
    && i in log && log[i].index == i && log[i].totalSlices == log[i].validSlices == height
    && (log[i].flags % 2 == 1 <==> SlotSkipped(fs, j, n, Slot(i, n)))
  }

  /** The log before frame `k`: what has been committed, and how. */
  ghost predicate LogTold(fs: seq<Frame>, k: nat, n: nat, height: nat, log: Log)
    requires k <= |fs| && n > 0
  {
    && (forall i: nat {:trigger Committed(fs, k, i)} :: i in log <==> Committed(fs, k, i))
    && (forall j | 0 <= j < k && Sent(fs, j) :: GrainTold(fs, j, n, height, log))
    && (forall j, i | 0 <= j < k && Skips(fs, j, i) ::
      i in log && log[i].index == i && log[i].flags == INVALID_FLAG)
  }

  /** Before frame `k` a slot is marked invalid if and only if an index of it has ever been skipped. */
  ghost predicate SlotsTold(fs: seq<Frame>, k: nat, height: nat, slots: seq<GrainInfo>)
    requires k <= |fs|
  {
    forall o | 0 <= o < |slots| ::
      slots[o].totalSlices == height && (slots[o].flags % 2 == 1 <==> SlotSkipped(fs, k, |slots|, o))
  }

  ghost predicate Told(fs: seq<Frame>, k: nat, height: nat, r: Ring)
    requires k <= |fs| && |r.slots| > 0
  {
    LogTold(fs, k, |r.slots|, height, r.account.log) && SlotsTold(fs, k, height, r.slots)
  }

  lemma {:induction false} SlotSkippedNext(fs: seq<Frame>, k: nat, n: nat, o: nat)
    requires k < |fs| && n > 0
    ensures SlotSkipped(fs, k + 1, n, o) <==> SlotSkipped(fs, k, n, o) || SkipHits(fs, k, n, o)
  {
    assert SkipHits(fs, k, n, o) ==> SlotSkipped(fs, k + 1, n, o);
  }

  /** A frame that is late or cannot be read. */
  lemma {:induction false} LateTold(fs: seq<Frame>, k: nat, height: nat, r: Ring)
    requires k < |fs| && |r.slots| > 0 && Told(fs, k, height, r) && !Opens(fs, k)
    ensures Told(fs, k + 1, height, r)
  {
    forall i: nat
      ensures i in r.account.log <==> Committed(fs, k + 1, i)
    {
      CommittedNext(fs, k, i);
    }
    forall o | 0 <= o < |r.slots|
      ensures r.slots[o].flags % 2 == 1 <==> SlotSkipped(fs, k + 1, |r.slots|, o)
    {
      SlotSkippedNext(fs, k, |r.slots|, o);
    }
  }

  /** What is committed from the expected index on leaves the grains before it as they are. */
  lemma {:induction false} EarlierTold(fs: seq<Frame>, k: nat, n: nat, height: nat, log: Log, log': Log)
    requires k <= |fs| && fs != [] && n > 0 && LogTold(fs, k, n, height, log)
    requires forall i | i in log && i < Expected(fs, k) :: i in log' && log'[i] == log[i]
    ensures forall j | 0 <= j < k && Sent(fs, j) :: GrainTold(fs, j, n, height, log')
    ensures forall j, i | 0 <= j < k && Skips(fs, j, i) ::
      i in log' && log'[i].index == i && log'[i].flags == INVALID_FLAG
  {
    forall j | 0 <= j < k && Sent(fs, j)
      ensures GrainTold(fs, j, n, height, log')
    {
      ExpectedGrows(fs, j, k);
      assert GrainTold(fs, j, n, height, log);
    }
    forall j, i | 0 <= j < k && Skips(fs, j, i)
      ensures i in log' && log'[i].index == i && log'[i].flags == INVALID_FLAG
    {
      ExpectedGrows(fs, j, k);
    }
  }

  lemma {:induction false} SentTold(fs: seq<Frame>, k: nat, height: nat, r: Ring, r': Ring, info: GrainInfo)
    requires k < |fs| && |r.slots| > 0 && Told(fs, k, height, r) && Sent(fs, k)
    requires info == r.slots[Slot(fs[k].index, |r.slots|)].(index := fs[k].index, validSlices := height)
    requires OnlyCommitted(r, r', info)
    ensures Told(fs, k + 1, height, r')
  {
    var n, log, log' := |r.slots|, r.account.log, r'.account.log;
    EarlierTold(fs, k, n, height, log, log');
    forall i: nat
      ensures i in log' <==> Committed(fs, k + 1, i)
    {
      CommittedNext(fs, k, i);
    }
    forall o | 0 <= o < n
      ensures r'.slots[o].flags % 2 == 1 <==> SlotSkipped(fs, k + 1, n, o)
    {
      SlotSkippedNext(fs, k, n, o);
    }
  }

  lemma {:induction false} SkipsTold(fs: seq<Frame>, k: nat, height: nat, r: Ring, r': Ring)
    requires k < |fs| && |r.slots| > 0 && Told(fs, k, height, r) && fs[k].index > Expected(fs, k)
    requires Skipped(r, r', Expected(fs, k), fs[k].index)
    ensures Told(fs, k + 1, height, r')
  {
    var n, log, log' := |r.slots|, r.account.log, r'.account.log;
    EarlierTold(fs, k, n, height, log, log');
    forall i: nat
      ensures i in log' <==> Committed(fs, k + 1, i)
    {
      CommittedNext(fs, k, i);
    }
    forall o | 0 <= o < n
      ensures r'.slots[o].flags % 2 == 1 <==> SlotSkipped(fs, k + 1, n, o)
    {
      SlotSkippedNext(fs, k, n, o);
    }
  }

  /** How far the ring has come before frame `k`. */
  ghost predicate Reached(fs: seq<Frame>, k: nat, r: Ring)
    requires k <= |fs| && fs != []
  {
    var p, a := ProgressAt(fs, k), r.account;
    && a.forward && a.contiguous == p.whole && (a.log != map[] <==> p.begun)
    && (p.begun ==> r.head in a.log && forall i | i in a.log :: i <= r.head)
    && (!p.whole ==> HasHole(a.log, r.head))
    && (p.begun && !p.gap ==> r.head + 1 == Expected(fs, k))
    && (p.gap ==> r.head + 1 < Expected(fs, k))
  }

  lemma {:induction false} SkipsReach(fs: seq<Frame>, k: nat, r: Ring, r': Ring)
    requires k < |fs| && |r.slots| > 0 && Reached(fs, k, r) && fs[k].index > Expected(fs, k)
    requires Skipped(r, r', Expected(fs, k), fs[k].index)
    ensures Reached(fs, k + 1, r')
  {
    HoleKept(r.account.log, r.head, r'.account.log, Expected(fs, k), fs[k].index - 1);
  }

  lemma {:induction false} SentReaches(fs: seq<Frame>, k: nat, r: Ring, r': Ring, info: GrainInfo)
    requires k < |fs| && |r.slots| > 0 && Reached(fs, k, r) && Sent(fs, k) && info.index == fs[k].index
    requires OnlyCommitted(r, r', info)
    ensures Reached(fs, k + 1, r')
  {
    HoleKept(r.account.log, r.head, r'.account.log, info.index, info.index);
  }

  /** The grain of a frame in time, complete, in its slot. */
  function GrainOf(r: Ring, index: nat, height: nat): GrainInfo
    requires |r.slots| > 0
  {
    r.slots[Slot(index, |r.slots|)].(index := index, validSlices := height)
  }

  /** What one frame does to the ring when `expected` is the index expected. */
  function FrameStep(r: Ring, expected: nat, f: Frame, height: nat): (r': Ring)
    requires |r.slots| > 0
    ensures |r'.slots| == |r.slots|
  {
    if f.index > expected then SkipAll(r, expected, f.index - expected)
    else if f.index == expected && f.mapped then OpenedAndCommitted(r, GrainOf(r, expected, height))
    else r
  }

  /**
   A frame above the expected index has the indices before it committed as invalid; one at it whose bytes can be
   had has its own index committed, complete; any other changes nothing.
   */
  lemma {:induction false} StepMeans(r: Ring, expected: nat, f: Frame, height: nat)
    requires |r.slots| > 0
    ensures var r', was := FrameStep(r, expected, f, height), r.slots[Slot(f.index, |r.slots|)];
      if f.index > expected then Skipped(r, r', expected, f.index)
      else if f.index == expected && f.mapped then OnlyCommitted(r, r', was.(index := f.index, validSlices := height))
      else r' == r
  {
    if f.index > expected {
      AllSkipped(r, expected, f.index - expected);
    } else if f.index == expected && f.mapped {
      CommittedOnly(r, GrainOf(r, expected, height));
    }
  }

  function RingAfter(fs: seq<Frame>, k: nat, height: nat, r: Ring): (r': Ring)
    requires k <= |fs| && |r.slots| > 0
    ensures |r'.slots| == |r.slots|
    decreases k
  {
    if k == 0 then r else FrameStep(RingAfter(fs, k - 1, height, r), Expected(fs, k - 1), fs[k - 1], height)
  }

  lemma {:induction false} StepTold(fs: seq<Frame>, k: nat, height: nat, r: Ring)
    requires k < |fs| && |r.slots| > 0 && Reached(fs, k, r) && Told(fs, k, height, r)
    ensures var r' := FrameStep(r, Expected(fs, k), fs[k], height);
      Reached(fs, k + 1, r') && Told(fs, k + 1, height, r')
  {
    var r', expected := FrameStep(r, Expected(fs, k), fs[k], height), Expected(fs, k);
    StepMeans(r, expected, fs[k], height);
    if fs[k].index > expected {
      SkipsReach(fs, k, r, r');
      SkipsTold(fs, k, height, r, r');
    } else if Sent(fs, k) {
      SentReaches(fs, k, r, r', GrainOf(r, expected, height));
      SentTold(fs, k, height, r, r', GrainOf(r, expected, height));
    } else {
      LateTold(fs, k, height, r);
    }
  }

  lemma {:induction false} RunTold(fs: seq<Frame>, k: nat, height: nat, r: Ring)
    requires k <= |fs| && fs != [] && |r.slots| > 0 && Reached(fs, 0, r) && Told(fs, 0, height, r)
    ensures Reached(fs, k, RingAfter(fs, k, height, r)) && Told(fs, k, height, RingAfter(fs, k, height, r))
    decreases k
  {
    if k > 0 {
      RunTold(fs, k - 1, height, r);
      StepTold(fs, k - 1, height, RingAfter(fs, k - 1, height, r));
    }
  }

  /** A flow into which nothing has been committed. */
  ghost predicate IsNew(r: Ring, height: nat) {
    && |r.slots| > 0 && Accounts(r.slots, r.head, r.account) && r.account == NOTHING
    && forall o | 0 <= o < |r.slots| :: r.slots[o].totalSlices == height
  }

  lemma {:induction false} NothingTold(fs: seq<Frame>, height: nat, r: Ring)
    requires IsNew(r, height) && fs != []
    ensures Reached(fs, 0, r) && Told(fs, 0, height, r)
  {
    forall o | 0 <= o < |r.slots|
      ensures r.slots[o].Pristine()
    {
      assert SlotTold(r.slots, r.account, o);
    }
  }

  lemma {:induction false} RunEnds(fs: seq<Frame>, height: nat, r: Ring)
    requires IsNew(r, height) && fs != []
    ensures var r' := RingAfter(fs, |fs|, height, r); var a := r'.account;
      && a.forward && LogTold(fs, |fs|, |r.slots|, height, a.log)
      && (a.contiguous <==> forall j, m | 0 <= j < m < |fs| :: PassedOver(fs, j) ==> !Opens(fs, m))
      && (a.log != map[] && !a.contiguous ==> !exists first :: LogIsRun(a.log, r'.head, first))
      && (forall j | 0 <= j < |fs| && fs[j].index == Expected(fs, j) && fs[j].mapped ::
           fs[j].index in a.log && a.log[fs[j].index].validSlices == height)
      && (forall j, i | 0 <= j < |fs| && Expected(fs, j) <= i < fs[j].index ::
           i in a.log && a.log[i].flags == INVALID_FLAG)
  {
    var r' := RingAfter(fs, |fs|, height, r);
    NothingTold(fs, height, r);
    RunTold(fs, |fs|, height, r);
    KeepsRunExactly(fs, |fs|);
    if !r'.account.contiguous {
      HoleMeans(r'.account.log, r'.head);
    }
    forall j | 0 <= j < |fs| && fs[j].index == Expected(fs, j) && fs[j].mapped
      ensures fs[j].index in r'.account.log && r'.account.log[fs[j].index].validSlices == height
    {
      assert Sent(fs, j);
    }
    forall j, i | 0 <= j < |fs| && Expected(fs, j) <= i < fs[j].index
      ensures i in r'.account.log && r'.account.log[i].flags == INVALID_FLAG
    {
      assert Skips(fs, j, i);
    }
  }

  lemma {:induction false} SlotCount(fs: seq<Frame>, k: nat, height: nat, r: Ring, o: nat)
    requires k <= |fs| && fs != [] && o < |r.slots|
    ensures RingAfter(fs, k, height, r).slots[o].totalSlices == r.slots[o].totalSlices
    decreases k
  {
    if k > 0 {
      SlotCount(fs, k - 1, height, r, o);
      StepMeans(RingAfter(fs, k - 1, height, r), Expected(fs, k - 1), fs[k - 1], height);
    }
  }

  /** A later frame of the first `k` has been sent in the slot of frame `j`. */
  ghost predicate Retaken(fs: seq<Frame>, j: nat, k: nat, n: nat)
    requires j < |fs| && k <= |fs| && n > 0
  {
    exists m | j < m < k :: Sent(fs, m) && Slot(fs[m].index, n) == Slot(fs[j].index, n)
  }

  /** Before frame `k` a payload begins with the bytes of the frame that was last sent in its slot. */
  ghost predicate PayloadsTold(fs: seq<Frame>, k: nat, contents: seq<seq<byte>>)
    requires k <= |fs| && |contents| > 0
  {
    forall j | 0 <= j < k && Sent(fs, j) && !Retaken(fs, j, k, |contents|) ::
      fs[j].data <= contents[Slot(fs[j].index, |contents|)]
  }

  /** As long as the grain of a frame is in the window, no later frame has its slot. */
  lemma {:induction false} NotRetaken(fs: seq<Frame>, j: nat, n: nat, height: nat, log: Log, head: nat)
    requires j < |fs| && n > 0 && Sent(fs, j) && LogTold(fs, |fs|, n, height, log)
    requires (forall i | i in log :: i <= head) && head < fs[j].index + n
    ensures !Retaken(fs, j, |fs|, n)
  {
    forall m | j < m < |fs| && Sent(fs, m)
      ensures Slot(fs[m].index, n) != Slot(fs[j].index, n)
    {
      ExpectedGrows(fs, j, m);
      assert GrainTold(fs, m, n, height, log);
      SlotsDiffer(fs[j].index, fs[m].index, n);
    }
  }

  lemma {:induction false} RetakenNext(fs: seq<Frame>, j: nat, k: nat, n: nat)
    requires j < k < |fs| && n > 0
    ensures Retaken(fs, j, k + 1, n) <==>
            Retaken(fs, j, k, n) || (Sent(fs, k) && Slot(fs[k].index, n) == Slot(fs[j].index, n))
  {
  }

  /** A frame in time puts its bytes in the payload of its slot, and no other frame changes a payload. */
  function ContentStep(contents: seq<seq<byte>>, expected: nat, f: Frame): (contents': seq<seq<byte>>)
    requires |contents| > 0
    ensures |contents'| == |contents|
  {
    var o := Slot(f.index, |contents|);
    if f.index == expected && f.mapped && |f.data| <= |contents[o]|
    then contents[o := f.data + contents[o][|f.data|..]] else contents
  }

  function ContentsAfter(fs: seq<Frame>, k: nat, contents: seq<seq<byte>>): (contents': seq<seq<byte>>)
    requires k <= |fs| && |contents| > 0
    ensures |contents'| == |contents|
    decreases k
  {
    if k == 0 then contents else ContentStep(ContentsAfter(fs, k - 1, contents), Expected(fs, k - 1), fs[k - 1])
  }

  lemma {:induction false} ContentLength(fs: seq<Frame>, k: nat, contents: seq<seq<byte>>, o: nat)
    requires k <= |fs| && o < |contents|
    ensures |ContentsAfter(fs, k, contents)[o]| == |contents[o]|
    decreases k
  {
    if k > 0 {
      ContentLength(fs, k - 1, contents, o);
    }
  }

  lemma {:induction false} PayloadsHold(fs: seq<Frame>, k: nat, contents: seq<seq<byte>>)
    requires k <= |fs| && |contents| > 0 && forall f, o | f in fs && 0 <= o < |contents| :: |f.data| <= |contents[o]|
    ensures PayloadsTold(fs, k, ContentsAfter(fs, k, contents))
    decreases k
  {
    if k > 0 {
      PayloadsHold(fs, k - 1, contents);
      ContentLength(fs, k - 1, contents, Slot(fs[k - 1].index, |contents|));
      assert fs[k - 1] in fs;
      PayloadStep(fs, k - 1, ContentsAfter(fs, k - 1, contents));
    }
  }

  lemma {:induction false} PayloadStep(fs: seq<Frame>, k: nat, contents: seq<seq<byte>>)
    requires k < |fs| && |contents| > 0 && PayloadsTold(fs, k, contents)
    requires |fs[k].data| <= |contents[Slot(fs[k].index, |contents|)]|
    ensures PayloadsTold(fs, k + 1, ContentStep(contents, Expected(fs, k), fs[k]))
  {
    var contents' := ContentStep(contents, Expected(fs, k), fs[k]);
    forall j | 0 <= j < k && Sent(fs, j) && !Retaken(fs, j, k + 1, |contents|)
      ensures fs[j].data <= contents'[Slot(fs[j].index, |contents|)]
    {
      RetakenNext(fs, j, k, |contents|);
    }
  }

  /** A frame comes one index above the expected one, and the next in time: the index of the first is never written. */
  lemma {:induction false} OneSkipBreaksTheRun(i: nat, data: seq<byte>)
    ensures var fs := [Frame(i, true, data), Frame(i + 2, true, data), Frame(i + 3, true, data)];
      && Expected(fs, 1) == i + 1 && Expected(fs, 2) == i + 3
      && PassedOver(fs, 1) && Opens(fs, 2) && !ProgressAt(fs, 3).whole
  {
    var fs := [Frame(i, true, data), Frame(i + 2, true, data), Frame(i + 3, true, data)];
    assert Expected(fs, 0) == i && Expected(fs, 1) == i + 1 && Expected(fs, 2) == i + 3;
    assert Opens(fs, 0) && Opens(fs, 1) && Passes(fs, 1) && Opens(fs, 2);
    KeepsRunExactly(fs, 3);
  }

  /** In a ring of two, the frame that next has the slot of the skipped index is sent, and marked invalid. */
  lemma {:induction false} OneSkipMarksALaterGrain(i: nat, data: seq<byte>, height: nat, log: Log)
    ensures var fs := [Frame(i, true, data), Frame(i + 2, true, data), Frame(i + 3, true, data)];
      Sent(fs, 2) && (LogTold(fs, 3, 2, height, log) ==> i + 3 in log && log[i + 3].flags % 2 == 1)
  {
    var fs := [Frame(i, true, data), Frame(i + 2, true, data), Frame(i + 3, true, data)];
    assert Expected(fs, 0) == i && Expected(fs, 1) == i + 1 && Expected(fs, 2) == i + 3;
    assert Slot(i + 1, 2) == Slot(i + 3, 2);
    assert Hits(i + 1, i + 2, 2, Slot(i + 3, 2));
    assert SkipHits(fs, 1, 2, Slot(i + 3, 2));
    assert Sent(fs, 2);
  }
}
