/**
 Blocking grain reads. One writer and any number of readers share the head, the slots and a 32-bit
 counter, and interleave freely. A commit is four steps: head, slot, counter, wake. A reader loads the
 counter, reads the head, reads the slot, compares the counter again, and asks the kernel to put it to
 sleep unless the counter has changed.
 */
module GrainWait {
  import Arith
  import opened DiscreteFlow
  import opened Wrappers
  import opened WaitLoop

  datatype WriterPc = Idle | HeadSet(info: GrainInfo) | Copied | Bumped {
    /** The head may have moved and the counter has not. */
    predicate Committing() {
      HeadSet? || Copied?
    }
  }

  /**
   `bumps` counts the increments of the 32-bit `counter`, so that wrapping around does not hide them; `made` are
   the infos committed so far, and `held` says which of them each slot has a copy of.
   */
  datatype Shared = Shared(head: nat, slots: seq<GrainInfo>, counter: nat, bumps: nat, open: nat, pc: WriterPc,
                           made: seq<GrainInfo>, held: seq<Option<nat>>)
  {
    predicate Valid() {
      && |slots| == |held| > 0 && counter == bumps % Arith.TWO_TO_32
      && (pc.HeadSet? ==> open == pc.info.index == head && |made| > 0 && made[|made| - 1] == pc.info)
    }

    /** How many of the commits have been copied into their slots. */
    function CopiedCount(): (n: nat)
      requires Valid()
    {
      if pc.HeadSet? then |made| - 1 else |made|
    }
  }

  /** What a granted read hands out, and which commit it is a copy of. */
  datatype Grant = Grant(info: GrainInfo, commit: Option<nat>)

  datatype Reader = Reader(index: nat, minSlices: nat, wait: Wait, served: Option<Grant>) {
    function At(pc: Pc): Reader {
      this.(wait := wait.(pc := pc))
    }

    /** Having found this head. */
    function Finding(head: nat, pc: Pc): Reader {
      this.(wait := wait.(pc := pc, checked := head))
    }
  }

  /** What the reader's check would find now. */
  function Answer(s: Shared, r: Reader): Status
    requires |s.slots| > 0
  {
    ReadStatus(s.head, s.slots, r.index, r.minSlices)
  }

  function ReaderStep(s: Shared, r: Reader, cause: Cause): Option<Reader>
    requires s.Valid()
  {
    match (r.wait.pc, cause)
    case (ReadHead, Next) =>
      if r.index > s.head then Some(r.Finding(s.head, Compare))
      else if r.index < OldestIndex(s.head, |s.slots|) then Some(r.Finding(s.head, Done(TooLate)))
      else Some(r.Finding(s.head, ReadSlot))
    case (ReadSlot, Next) =>
      var o := Slot(r.index, |s.slots|);
      if s.slots[o].Served(r.minSlices) then Some(r.At(Done(StatusOk)).(served := Some(Grant(s.slots[o], s.held[o]))))
      else Some(r.At(Compare))
    case _ =>
      match WaitStep(s.counter, s.bumps, r.wait, cause)
      case Some(w) => Some(r.(wait := w))
      case None => None
  }

  datatype State = State(shared: Shared, readers: map<nat, Reader>)

  datatype Action =
    | Open(index: nat)
    | Cancel
    | Commit(info: GrainInfo)
    | Copy
    | Bump
    | Wake
    | Request(id: nat, index: nat, minSlices: nat)
    | Move(id: nat, cause: Cause)

  /** What the writer does in turn. */
  predicate InTurn(s: Shared, a: Action) {
    match a
    case Open(_) => s.pc.Idle?
    case Cancel => s.pc.Idle?
    case Commit(_) => s.pc.Idle?
    case Copy => s.pc.HeadSet?
    case Bump => s.pc.Copied?
    case Wake => s.pc.Bumped?
    case _ => true
  }

  predicate Enabled(s: State, a: Action)
    requires s.shared.Valid()
  {
    InTurn(s.shared, a) &&
    match a
    case Request(id, _, _) => id in s.readers ==> s.readers[id].wait.pc.Done?
    case Move(id, cause) => id in s.readers && ReaderStep(s.shared, s.readers[id], cause).Some?
    case _ => true
  }

  function SharedStep(s: Shared, a: Action): (s': Shared)
    requires s.Valid() && InTurn(s, a)
    ensures s'.Valid() && |s'.slots| == |s.slots|
  {
    match a
    case Open(index) =>
      var o := Slot(index, |s.slots|);
      s.(slots := s.slots[o := s.slots[o].(index := index)], open := index)
    case Cancel => s.(open := UNDEFINED_INDEX)
    case Commit(info) =>
      if info.index == s.open then s.(head := s.open, pc := HeadSet(info), made := s.made + [info]) else s
    case Copy =>
      s.(slots := s.slots[Slot(s.open, |s.slots|) := s.pc.info],
         held := s.held[Slot(s.open, |s.slots|) := Some(|s.made| - 1)],
         open := if s.pc.info.validSlices == s.pc.info.totalSlices then UNDEFINED_INDEX else s.open,
         pc := Copied)
    case Bump => s.(counter := (s.counter + 1) % Arith.TWO_TO_32, bumps := s.bumps + 1, pc := Bumped)
    case Wake => s.(pc := Idle)
    case Request(_, _, _) => s
    case Move(_, _) => s
  }

  function Roused(r: Reader): Reader {
    r.(wait := Woken(r.wait))
  }

  function ReadersStep(s: State, a: Action): map<nat, Reader>
    requires s.shared.Valid() && Enabled(s, a)
  {
    match a
    case Wake => map id | id in s.readers :: Roused(s.readers[id])
    case Request(id, index, minSlices) => s.readers[id := Reader(index, minSlices, Wait(Load, 0, 0, 0), None)]
    case Move(id, cause) => s.readers[id := ReaderStep(s.shared, s.readers[id], cause).value]
    case _ => s.readers
  }

  function Step(s: State, a: Action): (s': State)
    requires s.shared.Valid() && Enabled(s, a)
    ensures s'.shared.Valid()
  {
    State(SharedStep(s.shared, a), ReadersStep(s, a))
  }

  // --- The invariant -----------------------------------------------------------------------------

  /** Nothing a reader can see has changed since it loaded the counter. */
  predicate Quiet(s: Shared, r: Reader) {
    s.bumps == r.wait.loaded && !s.pc.Committing()
  }

  predicate ReaderValid(s: Shared, r: Reader)
    requires s.Valid()
  {
    && Remembers(s.bumps, r.wait)
    && (r.wait.pc.ReadSlot? ==> OldestIndex(r.wait.checked, |s.slots|) <= r.index <= r.wait.checked)
    && (r.wait.pc.ReadSlot? && Quiet(s, r) ==> r.wait.checked == s.head)
    && (r.wait.pc.FoundTooEarly() && Quiet(s, r) ==> Answer(s, r) == TooEarly)
    && (r.wait.pc.Asleep? ==> s.bumps == r.wait.loaded || s.pc.Bumped?)
  }

  predicate Valid(s: State) {
    s.shared.Valid() && forall id | id in s.readers :: ReaderValid(s.shared, s.readers[id])
  }

  predicate InTime(s: Shared, r: Reader) {
    OnTime(s.bumps, r.wait)
  }

  predicate AllInTime(s: State) {
    forall id | id in s.readers :: InTime(s.shared, s.readers[id])
  }

  /** A reader's own step. */
  lemma {:induction false} ReaderKeeps(s: Shared, r: Reader, cause: Cause)
    requires s.Valid() && ReaderValid(s, r) && InTime(s, r) && ReaderStep(s, r, cause).Some?
    ensures ReaderValid(s, ReaderStep(s, r, cause).value)
  {
    if r.wait.pc.Loaded() {
      SameCounter(s.bumps, r.wait);
    }
  }

  /** A step of the writer. */
  lemma {:induction false} WriterKeeps(s: State, a: Action, r: Reader)
    requires s.shared.Valid() && Enabled(s, a) && ReaderValid(s.shared, r)
    ensures ReaderValid(SharedStep(s.shared, a), if a.Wake? then Roused(r) else r)
  {
    var s' := SharedStep(s.shared, a);
    assert a.Open? ==> Answer(s', r) == Answer(s.shared, r);
  }

  lemma {:induction false} StepKeeps(s: State, a: Action)
    requires Valid(s) && AllInTime(s) && Enabled(s, a)
    ensures Valid(Step(s, a))
  {
    var s' := Step(s, a);
    forall id | id in s'.readers
      ensures ReaderValid(s'.shared, s'.readers[id])
    {
      if a.Move? && a.id == id {
        ReaderKeeps(s.shared, s.readers[id], a.cause);
      } else if !(a.Request? && a.id == id) {
        WriterKeeps(s, a, s.readers[id]);
      }
    }
  }

  // --- Whole runs --------------------------------------------------------------------------------

  /**
   The state after a run, if every step of it is enabled and, where the run has to be punctual, no reader is
   ever 2^32 bumps behind.
   */
  function After(s: State, run: seq<Action>, punctual: bool): (r: Option<State>)
    requires s.shared.Valid()
    ensures r.Some? ==> r.value.shared.Valid()
    decreases |run|, 1
  {
    if run == [] then Some(s) else AfterStep(s, run, punctual)
  }

  function AfterStep(s: State, run: seq<Action>, punctual: bool): (r: Option<State>)
    requires s.shared.Valid() && run != []
    ensures r.Some? ==> r.value.shared.Valid()
    decreases |run|, 0
  {
    var last := |run| - 1;
    match After(s, run[..last], punctual)
    case None => None
    case Some(t) => if (punctual ==> AllInTime(t)) && Enabled(t, run[last]) then Some(Step(t, run[last])) else None
  }

  lemma {:induction false} RunKeeps(s: State, run: seq<Action>)
    requires Valid(s) && After(s, run, true).Some?
    ensures Valid(After(s, run, true).value)
    decreases |run|
  {
    if run != [] {
      var last := |run| - 1;
      RunKeeps(s, run[..last]);
      StepKeeps(After(s, run[..last], true).value, run[last]);
    }
  }

  /** A flow whose writer is between commits and that nobody reads yet, with any counter. */
  predicate Initial(s: State) {
    && s.shared.Valid() && s.shared.pc.Idle? && s.readers == map[]
    && s.shared.made == [] && forall o | 0 <= o < |s.shared.held| :: s.shared.held[o] == None
  }

  /** No wake-up is lost: between commits, a reader is asleep only if its check would still be too early. */
  lemma {:induction false} NoLostWakeUp(s: State, run: seq<Action>, t: State, id: nat)
    requires Initial(s) && After(s, run, true) == Some(t)
    requires t.shared.pc.Idle? && id in t.readers && t.readers[id].wait.pc.Asleep?
    ensures Answer(t.shared, t.readers[id]) == TooEarly
  {
    RunKeeps(s, run);
  }

  /** A run of one reader while the writer stands still. */
  predicate Solo(s: Shared, rs: seq<Reader>, causes: seq<Cause>)
    requires s.Valid()
  {
    |rs| == |causes| + 1 && forall k | 0 <= k < |causes| :: ReaderStep(s, rs[k], causes[k]) == Some(rs[k + 1])
  }

  /** An upper bound on the steps that are left. */
  function Rank(s: Shared, r: Reader): nat {
    match r.wait.pc
    case Done(_) => 0
    case ReadSlot => if Quiet(s, r) then 1 else 5
    case ReadHead => if Quiet(s, r) then 2 else 6
    case Load => 3
    case Compare => 4
    case EnterWait => 5
    case Asleep => 7
  }

  /** The request can be answered, and the reader is awake and has not answered too early. */
  predicate OnItsWay(s: Shared, r: Reader)
    requires s.Valid()
  {
    && ReaderValid(s, r) && InTime(s, r) && s.pc.Idle? && Answer(s, r) != TooEarly
    && r.wait.pc != Asleep && r.wait.pc != Done(TooEarly)
  }

  /** The answer a reader is heading for: that of the slot if it is about to look there, else that of the check. */
  function Heading(s: Shared, r: Reader): Status
    requires s.Valid()
  {
    match r.wait.pc
    case Done(status) => status
    case ReadSlot => if s.slots[Slot(r.index, |s.slots|)].Served(r.minSlices) then StatusOk else Answer(s, r)
    case _ => Answer(s, r)
  }

  lemma {:induction false} SoloStep(s: Shared, r: Reader, cause: Cause)
    requires s.Valid() && OnItsWay(s, r)
    ensures ReaderStep(s, r, Next).Some? <==> !r.wait.pc.Done?
    ensures ReaderStep(s, r, cause).Some? ==>
      var r' := ReaderStep(s, r, cause).value;
      OnItsWay(s, r') && Rank(s, r') < Rank(s, r) && Heading(s, r') == Heading(s, r)
  {
    if r.wait.pc.Loaded() {
      SameCounter(s.bumps, r.wait);
    }
    if ReaderStep(s, r, cause).Some? {
      ReaderKeeps(s, r, cause);
    }
  }

  lemma {:induction false} SoloRun(s: Shared, rs: seq<Reader>, causes: seq<Cause>, k: nat)
    requires s.Valid() && Solo(s, rs, causes) && k < |rs| && OnItsWay(s, rs[0])
    ensures OnItsWay(s, rs[k]) && Rank(s, rs[k]) + k <= Rank(s, rs[0]) && Heading(s, rs[k]) == Heading(s, rs[0])
    decreases k
  {
    if k > 0 {
      SoloRun(s, rs, causes, k - 1);
      SoloStep(s, rs[k - 1], causes[k - 1]);
    }
  }

  /**
   After any run that leaves the writer between commits, a reader whose request can be answered gets its
   answer in at most six steps of its own, whatever its deadline, and without sleeping.
   */
  lemma {:induction false} Answered(s: State, run: seq<Action>, t: State, id: nat, rs: seq<Reader>,
                                    causes: seq<Cause>)
    requires Initial(s) && After(s, run, true) == Some(t) && t.shared.pc.Idle? && AllInTime(t)
    requires id in t.readers && !t.readers[id].wait.pc.Done? && Answer(t.shared, t.readers[id]) != TooEarly
    requires Solo(t.shared, rs, causes) && rs[0] == t.readers[id]
    ensures |causes| <= 6
    ensures forall k | 0 <= k < |rs| :: !rs[k].wait.pc.Asleep? && rs[k].wait.pc != Done(TooEarly)
    ensures var last := rs[|rs| - 1]; last.wait.pc.Done? ==>
      last.wait.pc == Done(if rs[0].wait.pc.ReadSlot? then Heading(t.shared, rs[0]) else Answer(t.shared, rs[0]))
    ensures var last := rs[|rs| - 1]; last.wait.pc.Done? || ReaderStep(t.shared, last, Next).Some?
  {
    RunKeeps(s, run);
    forall k | 0 <= k < |rs|
      ensures OnItsWay(t.shared, rs[k]) && k <= 6 && Heading(t.shared, rs[k]) == Heading(t.shared, rs[0])
    {
      SoloRun(t.shared, rs, causes, k);
    }
    SoloStep(t.shared, rs[|rs| - 1], Next);
  }

  function WholeCommit(s: Shared, info: GrainInfo): (t: Shared)
    requires s.Valid() && s.pc.Idle? && info.index == s.open
    ensures t.Valid() && t.pc.Idle? && |t.slots| == |s.slots|
  {
    var committed := SharedStep(s, Commit(info));
    var copied := SharedStep(committed, Copy);
    var bumped := SharedStep(copied, Bump);
    SharedStep(bumped, Wake)
  }

  /** Opening and cancelling are the ring model's, and only for the writer's own eyes. */
  lemma {:induction false} OpenAndCancel(s: Shared, index: nat)
    requires s.Valid() && s.pc.Idle?
    ensures var o := Slot(index, |s.slots|);
      SharedStep(s, Open(index)) == s.(slots := s.slots[o := s.slots[o].(index := index)], open := index)
    ensures SharedStep(s, Cancel) == s.(open := UNDEFINED_INDEX)
    ensures forall info: GrainInfo | info.index != UNDEFINED_INDEX ::
      SharedStep(SharedStep(s, Cancel), Commit(info)) == SharedStep(s, Cancel)
  {
  }

  /** Without interference the four steps of a commit are the writer's `Commit`. */
  lemma {:induction false} CommitInOneStep(s: Shared, info: GrainInfo)
    requires s.Valid() && s.pc.Idle? && info.index == s.open
    ensures var o := Slot(info.index, |s.slots|);
      var open := if info.validSlices == info.totalSlices then UNDEFINED_INDEX else s.open;
      WholeCommit(s, info) ==
      Shared(info.index, s.slots[o := info], (s.counter + 1) % Arith.TWO_TO_32, s.bumps + 1, open, Idle,
             s.made + [info], s.held[o := Some(|s.made|)])
  {
  }

  /** The same partial grain committed `n` times. */
  function CommitTimes(s: Shared, info: GrainInfo, n: nat): (t: Shared)
    requires s.Valid() && s.pc.Idle? && info.index == s.open && info.validSlices != info.totalSlices
    ensures t.Valid() && t.pc.Idle? && t.open == s.open && |t.slots| == |s.slots|
    decreases n, info.index
  {
    if n == 0 then s
    else WholeCommit(CommitTimes(s, info, n - 1), info)
  }

  lemma {:induction false} AfterCommits(s: Shared, info: GrainInfo, n: nat)
    requires s.Valid() && s.pc.Idle? && info.index == s.open && info.validSlices != info.totalSlices
    ensures var t := CommitTimes(s, info, n);
      t.bumps == s.bumps + n && (n > 0 ==> t.head == info.index && t.slots[Slot(info.index, |t.slots|)] == info)
    decreases n, info.index
  {
    if n > 0 {
      AfterCommits(s, info, n - 1);
    }
  }

  // --- What the answers mean ---------------------------------------------------------------------

  /** The check of the head, against a ring of `n` slots. */
  lemma {:induction false} HeadCheck(s: Shared, r: Reader)
    requires s.Valid() && r.wait.pc.ReadHead?
    ensures var r' := ReaderStep(s, r, Next);
      && r'.Some? && r'.value.wait.checked == s.head
      && (r'.value.wait.pc == Done(TooLate) <==> r.index + |s.slots| <= s.head)
      && (r'.value.wait.pc == Compare <==> r.index > s.head)
      && (r'.value.wait.pc == ReadSlot <==> r.index <= s.head < r.index + |s.slots|)
  {
  }

  /** The check of the slot. */
  lemma {:induction false} SlotCheck(s: Shared, r: Reader)
    requires s.Valid() && r.wait.pc.ReadSlot?
    ensures var r', info := ReaderStep(s, r, Next), s.slots[Slot(r.index, |s.slots|)];
      && r'.Some? && r'.value.wait.checked == r.wait.checked
      && (r'.value.wait.pc == Done(StatusOk) <==>
          info.validSlices >= r.minSlices || info.validSlices >= info.totalSlices || info.flags % 2 == 1)
      && (r'.value.wait.pc == Compare <==> r'.value.wait.pc != Done(StatusOk))
  {
  }

  /** What a reader has come to is what the head found by its last check, in a ring of `n` slots, allows. */
  predicate EndsAsChecked(n: nat, r: Reader) {
    && (r.wait.pc.Done? ==> r.wait.pc.status != InvalidArg)
    && (r.wait.pc == Done(TooLate) ==> r.index + n <= r.wait.checked)
    && (r.wait.pc == Done(StatusOk) || r.wait.pc == ReadSlot ==> r.index <= r.wait.checked < r.index + n)
    && (r.wait.pc == Done(TooEarly) || r.wait.pc.FoundTooEarly() ==> r.wait.checked < r.index + n)
  }

  lemma {:induction false} StepEndsAsChecked(s: Shared, r: Reader, cause: Cause)
    requires s.Valid() && EndsAsChecked(|s.slots|, r) && ReaderStep(s, r, cause).Some?
    ensures EndsAsChecked(|s.slots|, ReaderStep(s, r, cause).value)
  {
  }

  /**
   Over any run: a read ends too late only if the head it last found was a whole ring past its index, is
   granted only if the index was in the ring then, and is too early only if it was not too late.
   */
  lemma {:induction false} RunEndsAsChecked(s: State, run: seq<Action>, punctual: bool, t: State, id: nat)
    requires Initial(s) && After(s, run, punctual) == Some(t) && id in t.readers
    ensures |t.shared.slots| == |s.shared.slots| && EndsAsChecked(|t.shared.slots|, t.readers[id])
    decreases |run|
  {
    if run != [] {
      var last := |run| - 1;
      var u, a := After(s, run[..last], punctual).value, run[last];
      if id in u.readers {
        RunEndsAsChecked(s, run[..last], punctual, u, id);
        if a.Move? && a.id == id {
          StepEndsAsChecked(u.shared, u.readers[id], a.cause);
        }
      }
      SameRing(s, run, punctual);
    }
  }

  lemma {:induction false} SameRing(s: State, run: seq<Action>, punctual: bool)
    requires s.shared.Valid() && After(s, run, punctual).Some?
    ensures |After(s, run, punctual).value.shared.slots| == |s.shared.slots|
    decreases |run|
  {
    if run != [] {
      SameRing(s, run[..|run| - 1], punctual);
    }
  }

  // --- What a granted read hands out -------------------------------------------------------------

  /** None of the first `copied` commits from number `from` on belongs to the slot. */
  predicate NoneIn(made: seq<GrainInfo>, from: nat, copied: nat, n: nat, o: nat)
    requires copied <= |made| && n > 0
  {
    forall k | from <= k < copied :: Slot(made[k].index, n) != o
  }

  /** A slot has a copy of the last of these commits that belongs to it, under whatever index it has been opened for. */
  predicate Keeps(made: seq<GrainInfo>, copied: nat, n: nat, o: nat, held: Option<nat>, slot: GrainInfo)
    requires copied <= |made| && n > 0
  {
    match held
    case None => NoneIn(made, 0, copied, n, o)
    case Some(m) =>
      && m < copied && Slot(made[m].index, n) == o && NoneIn(made, m + 1, copied, n, o)
      && slot == made[m].(index := slot.index)
  }

  predicate SlotKept(s: Shared, o: nat)
    requires s.Valid() && o < |s.slots|
  {
    Keeps(s.made, s.CopiedCount(), |s.slots|, o, s.held[o], s.slots[o])
  }

  predicate AllKept(s: Shared)
    requires s.Valid()
  {
    forall o | 0 <= o < |s.slots| :: SlotKept(s, o)
  }

  lemma {:induction false} CopyKeeps(made: seq<GrainInfo>, copied: nat, n: nat, o: nat, held: Option<nat>,
                                     slot: GrainInfo)
    requires copied < |made| && n > 0 && Keeps(made, copied, n, o, held, slot)
    ensures if Slot(made[copied].index, n) == o then Keeps(made, copied + 1, n, o, Some(copied), made[copied])
            else Keeps(made, copied + 1, n, o, held, slot)
  {
    var info := made[copied];
    assert info == info.(index := info.index);
  }

  lemma {:induction false} MoreMade(made: seq<GrainInfo>, copied: nat, n: nat, o: nat, held: Option<nat>,
                                    slot: GrainInfo,
                                    info: GrainInfo)
    requires copied <= |made| && n > 0 && Keeps(made, copied, n, o, held, slot)
    ensures Keeps(made + [info], copied, n, o, held, slot)
  {
  }

  lemma {:induction false} CopyStaysKept(s: Shared, o: nat)
    requires s.Valid() && s.pc.HeadSet? && o < |s.slots| && SlotKept(s, o)
    ensures SlotKept(SharedStep(s, Copy), o)
  {
    var s' := SharedStep(s, Copy);
    CopyKeeps(s.made, s.CopiedCount(), |s.slots|, o, s.held[o], s.slots[o]);
    assert s'.made == s.made && s'.CopiedCount() == s.CopiedCount() + 1 && |s'.slots| == |s.slots|;
  }

  lemma {:induction false} CommitStaysKept(s: Shared, o: nat, info: GrainInfo)
    requires s.Valid() && s.pc.Idle? && o < |s.slots| && SlotKept(s, o)
    ensures SlotKept(SharedStep(s, Commit(info)), o)
  {
    var s' := SharedStep(s, Commit(info));
    MoreMade(s.made, s.CopiedCount(), |s.slots|, o, s.held[o], s.slots[o], info);
    assert s'.CopiedCount() == s.CopiedCount() && s'.slots == s.slots && s'.held == s.held;
  }

  lemma {:induction false} OtherStaysKept(s: Shared, a: Action, o: nat)
    requires s.Valid() && InTurn(s, a) && !a.Copy? && !a.Commit? && o < |s.slots| && SlotKept(s, o)
    ensures SlotKept(SharedStep(s, a), o)
  {
    var s' := SharedStep(s, a);
    assert s'.made == s.made && s'.CopiedCount() == s.CopiedCount() && s'.held == s.held && |s'.slots| == |s.slots|;
    assert s'.slots[o] == s.slots[o].(index := s'.slots[o].index);
  }

  lemma {:induction false} SlotStaysKept(s: Shared, a: Action, o: nat)
    requires s.Valid() && InTurn(s, a) && o < |s.slots| && SlotKept(s, o)
    ensures SlotKept(SharedStep(s, a), o)
  {
    match a
    case Copy => CopyStaysKept(s, o);
    case Commit(info) => CommitStaysKept(s, o, info);
    case _ => OtherStaysKept(s, a, o);
  }

  lemma {:induction false} RunKeepsSlots(s: State, run: seq<Action>, punctual: bool)
    requires Initial(s) && After(s, run, punctual).Some?
    ensures var t := After(s, run, punctual).value.shared; |t.slots| == |s.shared.slots| && AllKept(t)
    decreases |run|
  {
    if run != [] {
      var last := |run| - 1;
      RunKeepsSlots(s, run[..last], punctual);
      var t := After(s, run[..last], punctual).value;
      forall o | 0 <= o < |t.shared.slots|
        ensures SlotKept(SharedStep(t.shared, run[last]), o)
      {
        SlotStaysKept(t.shared, run[last], o);
      }
    }
  }

  /** Commit number `m` is the last one made of its index. */
  predicate LastOf(made: seq<GrainInfo>, m: nat, index: nat)
    requires m < |made|
  {
    made[m].index == index && forall k | m < k < |made| :: made[k].index != index
  }

  /**
   After any run, a granted read hands out a copy of a commit, under the index its slot has last been opened for.
   It is the last commit of the index asked for exactly if the commit is one of that index at all (no later lap
   has taken the slot, and the index has not been passed over) and the writer is not between setting the head
   and copying the info of another commit of it.
   */
  lemma {:induction false} ServedCommit(s: State, run: seq<Action>, punctual: bool, t: State, id: nat)
    requires Initial(s) && After(s, run, punctual) == Some(t) && id in t.readers && t.readers[id].wait.pc.ReadSlot?
    requires ReaderStep(t.shared, t.readers[id], Next).value.wait.pc == Done(StatusOk)
    ensures var g, index := ReaderStep(t.shared, t.readers[id], Next).value.served.value, t.readers[id].index;
      match g.commit
      case None =>
        NoneIn(t.shared.made, 0, t.shared.CopiedCount(), |t.shared.slots|, Slot(index, |t.shared.slots|))
      case Some(m) =>
        && m < |t.shared.made| && g.info == t.shared.made[m].(index := g.info.index)
        && (LastOf(t.shared.made, m, index)
            <==> t.shared.made[m].index == index && !(t.shared.pc.HeadSet? && t.shared.pc.info.index == index))
  {
    RunKeepsSlots(s, run, punctual);
    var sh, index := t.shared, t.readers[id].index;
    var o := Slot(index, |sh.slots|);
    assert SlotKept(sh, o);
    if sh.held[o].Some? && sh.made[sh.held[o].value].index == index {
      KeptIsLast(sh, sh.held[o].value, index);
    }
  }

  lemma {:induction false} KeptIsLast(s: Shared, m: nat, index: nat)
    requires s.Valid() && m < s.CopiedCount() && s.made[m].index == index
    requires NoneIn(s.made, m + 1, s.CopiedCount(), |s.slots|, Slot(index, |s.slots|))
    ensures LastOf(s.made, m, index) <==> !(s.pc.HeadSet? && s.pc.info.index == index)
  {
    if s.pc.HeadSet? && s.pc.info.index == index {
      assert s.made[|s.made| - 1].index == index;
    }
  }

  /**
   Between the head and the copy a reader can be told that a grain is there which the very next step takes back:
   whenever the slot's old grain would serve it and the new one does not.
   */
  lemma {:induction false} ServedTooSoon(s: Shared, r: Reader)
    requires s.Valid() && s.pc.HeadSet? && r.wait.pc == ReadHead && r.index == s.pc.info.index
    requires s.slots[Slot(r.index, |s.slots|)].Served(r.minSlices) && !s.pc.info.Served(r.minSlices)
    ensures var r1 := ReaderStep(s, r, Next);
      && r1.Some? && ReaderStep(s, r1.value, Next).Some?
      && ReaderStep(s, r1.value, Next).value.wait.pc == Done(StatusOk)
    ensures Answer(SharedStep(s, Copy), r) == TooEarly
  {
  }

  // --- Being 2^32 bumps late ---------------------------------------------------------------------

  /** Whatever has happened since its load, a reader is put to sleep exactly if the bumps are a multiple of 2^32. */
  lemma {:induction false} SleepsAtMultiples(s: Shared, r: Reader)
    requires s.Valid() && ReaderValid(s, r) && r.wait.pc.EnterWait?
    ensures ReaderStep(s, r, Next) == Some(r.At(Asleep)) <==> (s.bumps - r.wait.loaded) % Arith.TWO_TO_32 == 0
  {
  }

  /** One reader up to the point where it asks the kernel, and then `n` commits. */
  function LateRun(info: GrainInfo, minSlices: nat, n: nat): seq<Action> {
    [Open(info.index), Request(0, info.index, minSlices), Move(0, Next), Move(0, Next), Move(0, Next)] + Laps(info, n)
  }

  function Laps(info: GrainInfo, n: nat): seq<Action>
    decreases n, info.index
  {
    if n == 0 then [] else Laps(info, n - 1) + [Commit(info)] + [Copy] + [Bump] + [Wake]
  }

  lemma {:induction false} AfterSnoc(s: State, run: seq<Action>, a: Action, t: State)
    requires s.shared.Valid() && After(s, run, false) == Some(t) && Enabled(t, a)
    ensures After(s, run + [a], false) == Some(Step(t, a))
  {
    assert (run + [a])[..|run|] == run;
  }

  /** The writer at work does not touch a reader that is awake. */
  lemma {:induction false} CommitLap(s: State, run: seq<Action>, info: GrainInfo, t: State)
    requires s.shared.Valid() && After(s, run, false) == Some(t) && t.shared.pc.Idle? && t.shared.open == info.index
    requires forall id | id in t.readers :: !t.readers[id].wait.pc.Asleep?
    ensures After(s, run + [Commit(info)] + [Copy] + [Bump] + [Wake], false) ==
            Some(State(WholeCommit(t.shared, info), t.readers))
  {
    AfterSnoc(s, run, Commit(info), t);
    var t1 := Step(t, Commit(info));
    AfterSnoc(s, run + [Commit(info)], Copy, t1);
    var t2 := Step(t1, Copy);
    AfterSnoc(s, run + [Commit(info)] + [Copy], Bump, t2);
    var t3 := Step(t2, Bump);
    AfterSnoc(s, run + [Commit(info)] + [Copy] + [Bump], Wake, t3);
    assert Step(t3, Wake).readers == t.readers;
  }

  lemma {:induction false} LapsNext(run: seq<Action>, info: GrainInfo, n: nat)
    requires n > 0
    ensures run + Laps(info, n) == run + Laps(info, n - 1) + [Commit(info)] + [Copy] + [Bump] + [Wake]
  {
  }

  lemma {:induction false} AfterLaps(s: State, run: seq<Action>, info: GrainInfo, n: nat, t: State)
    requires s.shared.Valid() && After(s, run, false) == Some(t) && t.shared.pc.Idle? && t.shared.open == info.index
    requires info.validSlices != info.totalSlices && forall id | id in t.readers :: !t.readers[id].wait.pc.Asleep?
    ensures After(s, run + Laps(info, n), false) == Some(State(CommitTimes(t.shared, info, n), t.readers))
    decreases n, info.index
  {
    if n == 0 {
      assert run + [] == run;
    } else {
      AfterLaps(s, run, info, n - 1, t);
      CommitLap(s, run + Laps(info, n - 1), info, State(CommitTimes(t.shared, info, n - 1), t.readers));
      LapsNext(run, info, n);
    }
  }

  /** The reader has loaded the counter, found the index past the head, and is about to ask the kernel. */
  lemma {:induction false} AboutToWait(s: State, index: nat, minSlices: nat)
    requires Initial(s) && index > s.shared.head
    ensures After(s, [Open(index), Request(0, index, minSlices), Move(0, Next), Move(0, Next), Move(0, Next)], false) ==
            var r := Reader(index, minSlices, Wait(EnterWait, s.shared.counter, s.shared.bumps, s.shared.head), None);
            Some(State(SharedStep(s.shared, Open(index)), map[0 := r]))
  {
    var sh := SharedStep(s.shared, Open(index));
    var r := Reader(index, minSlices, Wait(Load, 0, 0, 0), None);
    var run := [Open(index), Request(0, index, minSlices), Move(0, Next), Move(0, Next), Move(0, Next)];
    assert run[..0] == [] && run[..1] == [] + [run[0]] && run[..2] == run[..1] + [run[1]];
    assert run[..3] == run[..2] + [run[2]] && run[..4] == run[..3] + [run[3]] && run == run[..4] + [run[4]];
    AfterSnoc(s, [], run[0], s);
    AfterSnoc(s, run[..1], run[1], State(sh, map[]));
    AfterSnoc(s, run[..2], run[2], State(sh, map[0 := r]));
    var r1 := r.(wait := Wait(ReadHead, sh.counter, sh.bumps, 0));
    var r2, r3 := r1.Finding(sh.head, Compare), r1.Finding(sh.head, EnterWait);
    assert map[0 := r][0 := r1] == map[0 := r1] && map[0 := r1][0 := r2] == map[0 := r2];
    assert map[0 := r2][0 := r3] == map[0 := r3];
    AfterSnoc(s, run[..3], run[3], State(sh, map[0 := r1]));
    AfterSnoc(s, run[..4], run[4], State(sh, map[0 := r2]));
  }

  /**
   The limit on bumps is exact: from every initial state there is a run in which a reader asks the kernel `n`
   commits late. Its slices are there, and it is put to sleep exactly if `n` is a multiple of 2^32.
   */
  lemma {:induction false} WrappedCounterSleeps(s: State, info: GrainInfo, minSlices: nat, n: nat)
    requires Initial(s) && info.index > s.shared.head && info.validSlices != info.totalSlices
    requires info.Served(minSlices) && n > 0
    ensures var t := After(s, LateRun(info, minSlices, n), false);
      && t.Some? && t.value.shared.pc.Idle? && 0 in t.value.readers
      && Answer(t.value.shared, t.value.readers[0]) == StatusOk
      && (ReaderStep(t.value.shared, t.value.readers[0], Next) == Some(t.value.readers[0].At(Asleep))
          <==> n % Arith.TWO_TO_32 == 0)
  {
    var sh := SharedStep(s.shared, Open(info.index));
    var r := Reader(info.index, minSlices, Wait(EnterWait, sh.counter, sh.bumps, sh.head), None);
    LateState(s, info, minSlices, n);
    LateStep(sh, info, r, n);
  }

  lemma {:induction false} LateState(s: State, info: GrainInfo, minSlices: nat, n: nat)
    requires Initial(s) && info.index > s.shared.head && info.validSlices != info.totalSlices
    ensures var sh := SharedStep(s.shared, Open(info.index));
      var r := Reader(info.index, minSlices, Wait(EnterWait, sh.counter, sh.bumps, sh.head), None);
      After(s, LateRun(info, minSlices, n), false) == Some(State(CommitTimes(sh, info, n), map[0 := r]))
  {
    var sh := SharedStep(s.shared, Open(info.index));
    var r := Reader(info.index, minSlices, Wait(EnterWait, sh.counter, sh.bumps, sh.head), None);
    AboutToWait(s, info.index, minSlices);
    AfterLaps(s, LateRun(info, minSlices, 0)[..5], info, n, State(sh, map[0 := r]));
  }

  lemma {:induction false} LateStep(s: Shared, info: GrainInfo, r: Reader, n: nat)
    requires s.Valid() && s.pc.Idle? && info.index == s.open == r.index && info.validSlices != info.totalSlices
    requires r.wait == Wait(EnterWait, s.counter, s.bumps, s.head) && info.Served(r.minSlices) && n > 0
    ensures var t := CommitTimes(s, info, n);
      && Answer(t, r) == StatusOk
      && (ReaderStep(t, r, Next) == Some(r.At(Asleep)) <==> n % Arith.TWO_TO_32 == 0)
  {
    var t := CommitTimes(s, info, n);
    AfterCommits(s, info, n);
    CountsAround(s.bumps, n);
    assert OldestIndex(t.head, |t.slots|) <= r.index;
    assert ReaderStep(t, r, Next) == Some(r.At(if t.counter == s.counter then Asleep else Compare));
  }

  lemma {:induction false} CountsAround(bumps: nat, n: nat)
    ensures (bumps + n) % Arith.TWO_TO_32 == bumps % Arith.TWO_TO_32 <==> n % Arith.TWO_TO_32 == 0
  {
  }
}
