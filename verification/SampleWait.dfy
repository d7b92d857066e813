/**
 Blocking reads of samples. The loop of a reader is that of a blocking grain read, but the writer bumps the
 counter only for the commits that signal a sync batch, so that a reader may stay asleep over the others.
 */
module SampleWait {
  import opened DiscreteFlow
  import opened ContinuousRing
  import opened Wrappers
  import SyncBatch
  import Arith
  import opened WaitLoop

  /** The sync batch sizes, whether the writer decides at the cleared index, and the length of the ring. */
  datatype Config = Config(sizes: SyncBatch.Sizes, cleared: bool, length: nat)

  datatype SamplePc = Between | Signalling | Counted

  datatype Ring = Ring(head: nat, counter: nat, bumps: nat, pc: SamplePc, committed: seq<nat>)

  /** A reader of the `count` samples before `index`; its program counter never is at a slot. */
  datatype SampleReader = SampleReader(index: nat, count: nat, wait: Wait) {
    function At(pc: Pc): SampleReader {
      this.(wait := wait.(pc := pc))
    }
  }

  function Signals(c: Config, committed: seq<nat>): SyncBatch.Run
    requires c.sizes.Valid()
  {
    SyncBatch.RunOf(c.sizes, c.cleared, committed)
  }

  /** Does the commit of `index` after those in `committed` wake the readers? */
  predicate Wakes(c: Config, committed: seq<nat>, index: nat)
    requires c.sizes.Valid()
  {
    SyncBatch.Signal(c.sizes, Signals(c, committed).last, SyncBatch.DecidedAt(c.cleared, index)).signal
  }

  /** What the reader's check would find now. */
  function Check(c: Config, s: Ring, r: SampleReader): Status {
    RangeStatus(s.head, c.length, r.index, r.count)
  }

  function SampleStep(c: Config, s: Ring, r: SampleReader, cause: Cause): Option<SampleReader> {
    match (r.wait.pc, cause)
    case (ReadHead, Next) =>
      var answer := Check(c, s, r);
      Some(r.(wait := r.wait.(pc := if answer == TooEarly then Compare else Done(answer), checked := s.head)))
    case _ =>
      match WaitStep(s.counter, s.bumps, r.wait, cause)
      case Some(w) => Some(r.(wait := w))
      case None => None
  }

  datatype World = World(ring: Ring, readers: map<nat, SampleReader>)

  datatype Event =
    | Publish(index: nat)
    | Increment
    | WakeAll
    | Ask(id: nat, index: nat, count: nat)
    | Go(id: nat, cause: Cause)

  /** What the writer does in turn; the indices it commits do not decrease. */
  predicate InTurn(s: Ring, e: Event) {
    match e
    case Publish(index) => s.pc.Between? && index >= s.head
    case Increment => s.pc.Signalling?
    case WakeAll => s.pc.Counted?
    case _ => true
  }

  predicate Possible(c: Config, w: World, e: Event) {
    InTurn(w.ring, e) &&
    match e
    case Ask(id, _, _) => id in w.readers ==> w.readers[id].wait.pc.Done?
    case Go(id, cause) => id in w.readers && SampleStep(c, w.ring, w.readers[id], cause).Some?
    case _ => true
  }

  /** The head is set before the decision, which no reader can see. */
  function RingStep(c: Config, s: Ring, e: Event): Ring
    requires c.sizes.Valid()
  {
    match e
    case Publish(index) =>
      s.(head := index, committed := s.committed + [index],
         pc := if Wakes(c, s.committed, index) then Signalling else Between)
    case Increment => s.(counter := (s.counter + 1) % Arith.TWO_TO_32, bumps := s.bumps + 1, pc := Counted)
    case WakeAll => s.(pc := Between)
    case _ => s
  }

  function Roused(r: SampleReader): SampleReader {
    r.(wait := Woken(r.wait))
  }

  function Happen(c: Config, w: World, e: Event): World
    requires c.sizes.Valid() && Possible(c, w, e)
  {
    World(RingStep(c, w.ring, e),
          match e
          case WakeAll => map id | id in w.readers :: Roused(w.readers[id])
          case Ask(id, index, count) => w.readers[id := SampleReader(index, count, Wait(Load, 0, 0, 0))]
          case Go(id, cause) => w.readers[id := SampleStep(c, w.ring, w.readers[id], cause).value]
          case _ => w.readers)
  }

  // --- The invariant -----------------------------------------------------------------------------

  predicate RingValid(c: Config, s: Ring)
    requires c.sizes.Valid()
  {
    && s.counter == s.bumps % Arith.TWO_TO_32 && SyncBatch.NonDecreasing(s.committed)
    && s.head == (if s.committed == [] then 0 else s.committed[|s.committed| - 1])
    && Signals(c, s.committed).signalled <= s.head
    && (!s.pc.Between? ==> Signals(c, s.committed).signalled == s.head)
  }

  /** No bump since the reader's load, and none on its way. */
  predicate Still(s: Ring, r: SampleReader) {
    s.bumps == r.wait.loaded && !s.pc.Signalling?
  }

  predicate SampleReaderValid(c: Config, s: Ring, r: SampleReader)
    requires c.sizes.Valid()
  {
    && Remembers(s.bumps, r.wait)
    && (r.wait.pc.FoundTooEarly() && Still(s, r) ==> Signals(c, s.committed).signalled < r.index)
    && (r.wait.pc.Asleep? ==> s.bumps == r.wait.loaded || s.pc.Counted?)
  }

  predicate WorldValid(c: Config, w: World)
    requires c.sizes.Valid()
  {
    RingValid(c, w.ring) && forall id | id in w.readers :: SampleReaderValid(c, w.ring, w.readers[id])
  }

  predicate ReaderInTime(s: Ring, r: SampleReader) {
    OnTime(s.bumps, r.wait)
  }

  predicate EveryoneInTime(w: World) {
    forall id | id in w.readers :: ReaderInTime(w.ring, w.readers[id])
  }

  lemma {:induction false} RingKeeps(c: Config, s: Ring, e: Event)
    requires c.sizes.Valid() && RingValid(c, s)
    requires InTurn(s, e)
    ensures RingValid(c, RingStep(c, s, e))
  {
    if e.Publish? {
      SyncBatch.RunSnoc(c.sizes, c.cleared, s.committed, e.index);
    }
  }

  lemma {:induction false} ReaderStays(c: Config, s: Ring, e: Event, r: SampleReader)
    requires c.sizes.Valid() && RingValid(c, s) && SampleReaderValid(c, s, r)
    requires InTurn(s, e)
    ensures SampleReaderValid(c, RingStep(c, s, e), if e.WakeAll? then Roused(r) else r)
  {
    if e.Publish? {
      SyncBatch.RunSnoc(c.sizes, c.cleared, s.committed, e.index);
    }
  }

  lemma {:induction false} ReaderMoves(c: Config, s: Ring, r: SampleReader, cause: Cause)
    requires c.sizes.Valid() && RingValid(c, s) && SampleReaderValid(c, s, r) && ReaderInTime(s, r)
    requires SampleStep(c, s, r, cause).Some?
    ensures SampleReaderValid(c, s, SampleStep(c, s, r, cause).value)
  {
  }

  lemma {:induction false} HappenKeeps(c: Config, w: World, e: Event)
    requires c.sizes.Valid() && WorldValid(c, w) && EveryoneInTime(w) && Possible(c, w, e)
    ensures WorldValid(c, Happen(c, w, e))
  {
    var w' := Happen(c, w, e);
    RingKeeps(c, w.ring, e);
    forall id | id in w'.readers
      ensures SampleReaderValid(c, w'.ring, w'.readers[id])
    {
      if e.Go? && e.id == id {
        ReaderMoves(c, w.ring, w.readers[id], e.cause);
      } else if !(e.Ask? && e.id == id) {
        ReaderStays(c, w.ring, e, w.readers[id]);
      }
    }
  }

  // --- Whole runs --------------------------------------------------------------------------------

  /** The world after a run from a new flow, if every event is possible and no reader 2^32 bumps behind. */
  function History(c: Config, run: seq<Event>): (w: Option<World>)
    requires c.sizes.Valid()
    decreases |run|, 1, c.length
  {
    if run == [] then Some(World(Ring(0, 0, 0, Between, []), map[])) else HistoryStep(c, run)
  }

  function HistoryStep(c: Config, run: seq<Event>): (w: Option<World>)
    requires c.sizes.Valid() && run != []
    decreases |run|, 0, c.length
  {
    var last := |run| - 1;
    match History(c, run[..last])
    case None => None
    case Some(w) => if EveryoneInTime(w) && Possible(c, w, run[last]) then Some(Happen(c, w, run[last])) else None
  }

  lemma {:induction false} HistorySnoc(c: Config, run: seq<Event>, e: Event, w: World)
    requires c.sizes.Valid() && History(c, run) == Some(w) && EveryoneInTime(w) && Possible(c, w, e)
    ensures History(c, run + [e]) == Some(Happen(c, w, e))
  {
    assert (run + [e])[..|run|] == run;
  }

  lemma {:induction false} HistoryValid(c: Config, run: seq<Event>)
    requires c.sizes.Valid() && History(c, run).Some?
    ensures WorldValid(c, History(c, run).value)
    decreases |run|
  {
    if run != [] {
      var last := |run| - 1;
      HistoryValid(c, run[..last]);
      HappenKeeps(c, History(c, run[..last]).value, run[last]);
    } else {
      assert Signals(c, []) == SyncBatch.Run(0, 0, 0);
    }
  }

  /** Between commits, a reader sleeps only for an index that is past the last one signalled. */
  lemma {:induction false} SleepsPastSignal(c: Config, run: seq<Event>, w: World, id: nat)
    requires c.sizes.Valid() && History(c, run) == Some(w) && w.ring.pc.Between?
    requires id in w.readers && w.readers[id].wait.pc.Asleep?
    ensures Signals(c, w.ring.committed).signalled < w.readers[id].index
  {
    HistoryValid(c, run);
  }

  /** Decided at the committed index, what a sleeping reader could have had is less than a sync batch. */
  lemma {:induction false} OverdueByLessThanABatch(c: Config, run: seq<Event>, w: World, id: nat)
    requires c.sizes.Valid() && !c.cleared && History(c, run) == Some(w) && w.ring.pc.Between?
    requires id in w.readers && w.readers[id].wait.pc.Asleep?
    ensures w.ring.head + 1 < w.readers[id].index + c.sizes.batchSize
  {
    HistoryValid(c, run);
    var xs := w.ring.committed;
    if xs != [] {
      SyncBatch.SignalledInTime(c.sizes, xs);
    }
  }

  // --- What the answers mean ---------------------------------------------------------------------

  /** What a reader has come to is what its last check of the head says. */
  predicate EndsAsChecked(c: Config, r: SampleReader) {
    var answer := RangeStatus(r.wait.checked, c.length, r.index, r.count);
    && (r.wait.pc.Done? ==> r.wait.pc.status == answer)
    && (r.wait.pc.FoundTooEarly() ==> answer == TooEarly)
    && !r.wait.pc.ReadSlot?
  }

  /** The check itself, in plain numbers: half a ring behind the head, and no further. */
  lemma {:induction false} CheckMeans(c: Config, s: Ring, r: SampleReader)
    requires r.wait.pc.ReadHead?
    ensures var r' := SampleStep(c, s, r, Next);
      && r'.Some? && r'.value.wait.checked == s.head
      && (r'.value.wait.pc == Compare <==> r.index > s.head)
      && (r'.value.wait.pc == Done(StatusOk) <==>
          r.index <= s.head && r.count <= r.index && s.head <= r.index - r.count + c.length / 2)
      && (r'.value.wait.pc == Done(TooLate) <==>
          r.index <= s.head && (r.count > r.index || s.head > r.index - r.count + c.length / 2))
  {
    RangeAnswers(s.head, c.length, r.index, r.count);
  }

  /** Over any run a blocking read ends with the answer of its last check, and not at all without one. */
  lemma {:induction false} RunEndsAsChecked(c: Config, run: seq<Event>, w: World, id: nat)
    requires c.sizes.Valid() && History(c, run) == Some(w) && id in w.readers
    ensures EndsAsChecked(c, w.readers[id])
    decreases |run|
  {
    if run != [] {
      var last := |run| - 1;
      var v := History(c, run[..last]).value;
      if id in v.readers {
        RunEndsAsChecked(c, run[..last], v, id);
      }
    }
  }

  // --- When a reader sleeps though its samples are there -----------------------------------------

  /** After these commits, and between commits, a reader that asked for `count` samples sleeps, and they are there. */
  ghost predicate Overslept(c: Config, xs: seq<nat>, count: nat, run: seq<Event>)
    requires c.sizes.Valid()
  {
    && History(c, run).Some?
    && var w := History(c, run).value;
      && w.ring.committed == xs && w.ring.pc.Between?
      && exists id :: id in w.readers && w.readers[id].wait.pc.Asleep? && w.readers[id].count == count
                      && Check(c, w.ring, w.readers[id]) == StatusOk
  }

  /** The commits, each with its wake-up if it has one. */
  function CommitsOnly(c: Config, xs: seq<nat>): seq<Event>
    requires c.sizes.Valid()
    decreases |xs|, c.length
  {
    if xs == [] then []
    else
      var last := |xs| - 1;
      var before := CommitsOnly(c, xs[..last]) + [Publish(xs[last])];
      if Wakes(c, xs[..last], xs[last]) then before + [Increment] + [WakeAll] else before
  }

  lemma {:induction false} AfterCommitsOnly(c: Config, xs: seq<nat>) returns (w: World)
    requires c.sizes.Valid() && SyncBatch.NonDecreasing(xs)
    ensures History(c, CommitsOnly(c, xs)) == Some(w) && WorldValid(c, w)
    ensures w.ring.committed == xs && w.ring.pc.Between? && w.readers == map[]
    decreases |xs|
  {
    if xs == [] {
      w := World(Ring(0, 0, 0, Between, []), map[]);
    } else {
      var last := |xs| - 1;
      var run := CommitsOnly(c, xs[..last]);
      w := AfterCommitsOnly(c, xs[..last]);
      assert xs[..last] + [xs[last]] == xs;
      HistorySnoc(c, run, Publish(xs[last]), w);
      w := Happen(c, w, Publish(xs[last]));
      if Wakes(c, xs[..last], xs[last]) {
        HistorySnoc(c, run + [Publish(xs[last])], Increment, w);
        w := Happen(c, w, Increment);
        HistorySnoc(c, run + [Publish(xs[last])] + [Increment], WakeAll, w);
        w := Happen(c, w, WakeAll);
        assert w.readers == map[];
      }
    }
    HistoryValid(c, CommitsOnly(c, xs));
  }

  function FallAsleep(index: nat, count: nat): seq<Event> {
    [Ask(0, index, count)] + [Go(0, Next)] + [Go(0, Next)] + [Go(0, Next)] + [Go(0, Next)]
  }

  lemma {:induction false} FallsAsleep(c: Config, run: seq<Event>, w: World, index: nat, count: nat)
    returns (w': World)
    requires c.sizes.Valid() && History(c, run) == Some(w) && w.readers == map[] && index > w.ring.head
    ensures History(c, run + FallAsleep(index, count)) == Some(w') && w'.ring == w.ring
    ensures w'.readers == map[0 := SampleReader(index, count, Wait(Asleep, w.ring.counter, w.ring.bumps, w.ring.head))]
  {
    var go := Go(0, Next);
    var r0 := SampleReader(index, count, Wait(Load, 0, 0, 0));
    var r1 := SampleReader(index, count, Wait(ReadHead, w.ring.counter, w.ring.bumps, 0));
    var run0 := run + [Ask(0, index, count)];
    HistorySnoc(c, run, Ask(0, index, count), w);
    HistorySnoc(c, run0, go, World(w.ring, map[0 := r0]));
    assert map[0 := r0][0 := r1] == map[0 := r1];
    w' := Doze(c, run0 + [go], World(w.ring, map[0 := r1]), r1);
    assert run0 + [go] + [go] + [go] + [go] == run + FallAsleep(index, count);
  }

  lemma {:induction false} Doze(c: Config, run: seq<Event>, w: World, r: SampleReader) returns (w': World)
    requires c.sizes.Valid() && History(c, run) == Some(w) && w.readers == map[0 := r]
    requires r.wait == Wait(ReadHead, w.ring.counter, w.ring.bumps, r.wait.checked) && r.index > w.ring.head
    ensures History(c, run + [Go(0, Next)] + [Go(0, Next)] + [Go(0, Next)]) == Some(w')
    ensures w'.ring == w.ring
    ensures w'.readers == map[0 := r.(wait := r.wait.(pc := Asleep, checked := w.ring.head))]
  {
    var go := Go(0, Next);
    var found := r.(wait := r.wait.(checked := w.ring.head));
    var r1, r2, r3 := found.At(Compare), found.At(EnterWait), found.At(Asleep);
    assert map[0 := r][0 := r1] == map[0 := r1] && map[0 := r1][0 := r2] == map[0 := r2];
    assert map[0 := r2][0 := r3] == map[0 := r3];
    HistorySnoc(c, run, go, w);
    HistorySnoc(c, run + [go], go, World(w.ring, map[0 := r1]));
    HistorySnoc(c, run + [go] + [go], go, World(w.ring, map[0 := r2]));
    w' := World(w.ring, map[0 := r3]);
  }

  /** The reader falls asleep right after the last signal, and the commits that follow leave it asleep. */
  lemma {:induction false} StaysAsleep(c: Config, xs: seq<nat>, index: nat, count: nat)
    returns (run: seq<Event>, w: World)
    requires c.sizes.Valid() && SyncBatch.NonDecreasing(xs) && index > Signals(c, xs).signalled
    ensures History(c, run) == Some(w) && w.ring.committed == xs && w.ring.pc.Between?
    ensures 0 in w.readers
    ensures var checked := w.readers[0].wait.checked;
      w.readers == map[0 := SampleReader(index, count, Wait(Asleep, w.ring.counter, w.ring.bumps, checked))]
    decreases |xs|
  {
    var last := |xs| - 1;
    if xs != [] {
      assert xs[..last] + [xs[last]] == xs;
      SyncBatch.RunSnoc(c.sizes, c.cleared, xs[..last], xs[last]);
    }
    if xs == [] || Wakes(c, xs[..last], xs[last]) {
      w := AfterCommitsOnly(c, xs);
      run := CommitsOnly(c, xs);
      w := FallsAsleep(c, run, w, index, count);
      run := run + FallAsleep(index, count);
    } else {
      run, w := StaysAsleep(c, xs[..last], index, count);
      HistoryValid(c, run);
      HistorySnoc(c, run, Publish(xs[last]), w);
      run, w := run + [Publish(xs[last])], Happen(c, w, Publish(xs[last]));
    }
  }

  /**
   A reader can be left asleep over samples that are there exactly when the last commit was not the last to
   signal: the head has gone past the index signalled.
   */
  lemma {:induction false} OversleepsExactly(c: Config, xs: seq<nat>, count: nat)
    requires c.sizes.Valid() && SyncBatch.NonDecreasing(xs) && xs != []
    requires count <= c.length / 2 && count <= xs[|xs| - 1]
    ensures (exists run :: Overslept(c, xs, count, run)) <==> xs[|xs| - 1] > Signals(c, xs).signalled
  {
    var head := xs[|xs| - 1];
    if head > Signals(c, xs).signalled {
      var run, w := StaysAsleep(c, xs, head, count);
      HistoryValid(c, run);
      assert 0 in w.readers && Check(c, w.ring, w.readers[0]) == StatusOk;
      assert Overslept(c, xs, count, run);
    }
    if run :| Overslept(c, xs, count, run) {
      var w := History(c, run).value;
      var id :| id in w.readers && w.readers[id].wait.pc.Asleep? && Check(c, w.ring, w.readers[id]) == StatusOk;
      SleepsPastSignal(c, run, w, id);
      HistoryValid(c, run);
    }
  }

  /**
   As the writer is built, that is so from the first commit on that goes past the index of the first, or where
   the sizes are such the second, commit: from then on a reader may sleep until its deadline.
   */
  lemma {:induction false} OversleepsAsBuilt(c: Config, xs: seq<nat>, count: nat)
    requires c.sizes.Valid() && c.cleared && SyncBatch.NonDecreasing(xs) && xs != []
    requires count <= c.length / 2 && count <= xs[|xs| - 1]
    ensures (exists run :: Overslept(c, xs, count, run)) <==> xs[|xs| - 1] > SyncBatch.LastSignal(c.sizes, xs)
  {
    SyncBatch.ClearedIndexSignalsTwice(c.sizes, xs);
    OversleepsExactly(c, xs, count);
  }
}
