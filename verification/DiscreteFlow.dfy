/** The discrete (grain) ring: one writer, any number of readers, and the log of commits it stands for. */
module DiscreteFlow {
  import Arith

  const UNDEFINED_INDEX: nat := 0xffff_ffff_ffff_ffff

  datatype Status = StatusOk | TooEarly | TooLate | InvalidArg

  datatype GrainInfo = GrainInfo(index: nat, flags: nat, grainSize: nat, totalSlices: nat, validSlices: nat) {
    predicate MarkedInvalid() {
      flags % 2 == 1
    }

    /** Enough slices for a reader that wants `minSlices`, or a grain that will never have them. */
    predicate Served(minSlices: nat) {
      validSlices >= (if minSlices < totalSlices then minSlices else totalSlices) || MarkedInvalid()
    }

    /** As created: nothing committed yet. */
    predicate Pristine() {
      totalSlices >= 1 && validSlices == 0 && !MarkedInvalid()
    }
  }

  type Log = map<nat, GrainInfo>

  /** The ring slot of an index. */
  function Slot(i: int, n: nat): (o: nat)
    requires n > 0
    ensures o < n
  {
    i % n
  }

  function OldestIndex(head: nat, grainCount: nat): nat {
    if head >= grainCount then head - grainCount + 1 else 0
  }

  /** The outcome of a non-blocking read, from the head and the slots. */
  function ReadStatus(head: nat, slots: seq<GrainInfo>, index: nat, minSlices: nat): Status
    requires |slots| > 0
  {
    if index > head then TooEarly
    else if index < OldestIndex(head, |slots|) then TooLate
    else if slots[Slot(index, |slots|)].Served(minSlices) then StatusOk
    else TooEarly
  }

  /** The slices asked for, or all there are, or a grain that will never have them. */
  lemma {:induction false} ServedMeans(info: GrainInfo, minSlices: nat)
    ensures info.Served(minSlices) <==>
            info.validSlices >= minSlices || info.validSlices >= info.totalSlices || info.flags % 2 == 1
  {
  }

  /** Too early past the head, too late a whole ring behind it, and in between as the slot's slices say. */
  lemma {:induction false} ReadAnswers(head: nat, slots: seq<GrainInfo>, index: nat, minSlices: nat)
    requires |slots| > 0
    ensures var status, info := ReadStatus(head, slots, index, minSlices), slots[Slot(index, |slots|)];
      && (status == TooLate <==> index + |slots| <= head)
      && (status == StatusOk <==>
          index <= head < index + |slots|
          && (info.validSlices >= minSlices || info.validSlices >= info.totalSlices || info.flags % 2 == 1))
      && (status == TooEarly <==>
          index > head
          || (head < index + |slots|
              && info.validSlices < minSlices && info.validSlices < info.totalSlices && info.flags % 2 == 0))
  {
  }

  /** The outcome of a non-blocking read, from the log of commits alone. */
  function LogStatus(head: nat, grainCount: nat, log: Log, index: nat, minSlices: nat): Status {
    if index > head then TooEarly
    else if index < OldestIndex(head, grainCount) then TooLate
    else if index in log && log[index].Served(minSlices) then StatusOk
    else TooEarly
  }

  // --- What the slots hold -----------------------------------------------------------------------

  lemma {:induction false} SlotsDiffer(i: int, j: int, n: nat)
    requires n > 0 && i < j < i + n
    ensures Slot(i, n) != Slot(j, n)
  {
    if i % n == j % n {
      Arith.DivMod(i, n);
      Arith.DivMod(j, n);
      Arith.MulDistr(n, j / n, i / n);
      assert n * (j / n - i / n) == j - i;
      Arith.MulBetween(n, j / n - i / n);
      assert false;
    }
  }

  lemma {:induction false} SameSlot(i: int, n: nat)
    requires n > 0
    ensures Slot(i - n, n) == Slot(i, n)
  {
    Arith.DivMod(i, n);
    Arith.MulDistr(n, i / n, 1);
    Arith.QuotientUnique(i - n, n, i / n - 1, i % n);
  }

  /**
   What the slot of `i` holds. `reopened` says that the slot of the oldest index has already been given
   the index after the head.
   */
  predicate SlotHolds(slots: seq<GrainInfo>, head: nat, log: Log, reopened: bool, i: int)
    requires |slots| > 0
  {
    var info := slots[Slot(i, |slots|)];
    if i in log then
      info == (if reopened && i == head - |slots| + 1 then log[i].(index := head + 1) else log[i])
    else
      info.Pristine()
  }

  /** Every index of the window that ends at the head finds its own last commit in its slot. */
  predicate WindowHolds(slots: seq<GrainInfo>, head: nat, log: Log, reopened: bool)
    requires |slots| > 0
  {
    forall i: int | head - |slots| < i <= head :: SlotHolds(slots, head, log, reopened, i)
  }

  predicate AllPristine(slots: seq<GrainInfo>) {
    forall o | 0 <= o < |slots| :: slots[o].Pristine()
  }

  /** The log is one run of indices that ends at the head, and each info carries its own index. */
  ghost predicate LogIsRun(log: Log, head: nat, first: nat) {
    && (forall i :: i in log <==> first <= i <= head)
    && (forall i | i in log :: log[i].index == i)
  }

  /** An index that continues the run: no head yet, or the head again, or the one after it. */
  predicate Continues(log: Log, head: nat, index: nat) {
    log == map[] || head <= index <= head + 1
  }

  ghost predicate Consistent(slots: seq<GrainInfo>, head: nat, log: Log, first: nat, reopened: bool)
    requires |slots| > 0
  {
    if log == map[] then AllPristine(slots)
    else LogIsRun(log, head, first) && WindowHolds(slots, head, log, reopened)
  }

  function Reopens(reopened: bool, head: nat, n: nat, index: nat): bool {
    if index == head + 1 then true else if index == head && n == 1 then false else reopened
  }

  /** Opening a grain changes no slot but that of the oldest index, and of that only the index. */
  lemma {:induction false} OpenKeeps(slots: seq<GrainInfo>, head: nat, log: Log, first: nat, reopened: bool,
                                     index: nat)
    requires |slots| > 0 && Consistent(slots, head, log, first, reopened) && Continues(log, head, index)
    ensures var o := Slot(index, |slots|);
      Consistent(slots[o := slots[o].(index := index)], head, log, first, Reopens(reopened, head, |slots|, index))
  {
    var n, o := |slots|, Slot(index, |slots|);
    var slots' := slots[o := slots[o].(index := index)];
    var reopened' := Reopens(reopened, head, n, index);
    if log != map[] {
      forall i: int | head - n < i <= head
        ensures SlotHolds(slots', head, log, reopened', i)
      {
        assert SlotHolds(slots, head, log, reopened, i);
        SameSlot(head + 1, n);
        if i < index < i + n {
          SlotsDiffer(i, index, n);
        }
      }
    }
  }

  /** Committing an info moves the window and puts the info in the slot of its newest index. */
  lemma {:induction false} CommitKeeps(slots: seq<GrainInfo>, head: nat, log: Log, first: nat, reopened: bool,
                                       info: GrainInfo)
    requires |slots| > 0 && Consistent(slots, head, log, first, reopened) && Continues(log, head, info.index)
    ensures Consistent(slots[Slot(info.index, |slots|) := info], info.index, log[info.index := info],
                       if log == map[] then info.index else first,
                       reopened && info.index == head && |slots| > 1)
  {
    var n, j := |slots|, info.index;
    var slots', log' := slots[Slot(j, n) := info], log[j := info];
    var reopened' := reopened && j == head && n > 1;
    assert j in log';
    forall i: int | j - n < i <= j
      ensures SlotHolds(slots', j, log', reopened', i)
    {
      if i < j {
        SlotsDiffer(i, j, n);
        if log != map[] {
          assert SlotHolds(slots, head, log, reopened, i);
        }
      }
    }
  }

  /** Reading the slots is reading the log, for a reader that wants at least one slice. */
  lemma {:induction false} ReadsLog(slots: seq<GrainInfo>, head: nat, log: Log, first: nat, reopened: bool,
                                    index: nat, minSlices: nat)
    requires |slots| > 0 && Consistent(slots, head, log, first, reopened) && minSlices >= 1
    ensures ReadStatus(head, slots, index, minSlices) == LogStatus(head, |slots|, log, index, minSlices)
  {
    if log != map[] && head - |slots| < index <= head {
      assert SlotHolds(slots, head, log, reopened, index);
    }
  }

  // --- Any opens and commits ---------------------------------------------------------------------

  /** An index that does not go back. */
  predicate Advances(log: Log, head: nat, index: nat) {
    log == map[] || head <= index
  }

  /**
   What has happened to a flow: the last commit of each index, the first index of the run, whether every
   commit has followed the one before, whether the slot of the oldest index has been opened again, whether no
   commit has gone back; and for each slot the index last committed into it and the index last opened in it.
   */
  datatype Account = Account(log: Log, first: nat, contiguous: bool, reopened: bool, forward: bool,
                             held: map<nat, nat>, named: map<nat, nat>)

  const NOTHING := Account(map[], 0, true, false, true, map[], map[])

  function AfterOpen(a: Account, head: nat, n: nat, index: nat): Account
    requires n > 0
  {
    a.(contiguous := a.contiguous && Continues(a.log, head, index), reopened := Reopens(a.reopened, head, n, index),
       named := a.named[Slot(index, n) := index])
  }

  function AfterCommit(a: Account, head: nat, n: nat, info: GrainInfo): Account
    requires n > 0
  {
    Account(a.log[info.index := info], if a.log == map[] then info.index else a.first,
            a.contiguous && Continues(a.log, head, info.index), a.reopened && info.index == head && n > 1,
            a.forward && Advances(a.log, head, info.index),
            a.held[Slot(info.index, n) := info.index], a.named[Slot(info.index, n) := info.index])
  }

  /** A slot holds the last commit of the index last committed into it, under the index last opened in it. */
  predicate SlotTold(slots: seq<GrainInfo>, a: Account, o: nat)
    requires o < |slots|
  {
    if o in a.held then
      && a.held[o] in a.log && Slot(a.held[o], |slots|) == o
      && o in a.named && slots[o] == a.log[a.held[o]].(index := a.named[o])
    else
      slots[o].Pristine() && (o in a.named ==> slots[o].index == a.named[o])
  }

  /** Commits that do not go back leave the newest index of each slot in it. */
  predicate IndexTold(a: Account, head: nat, n: nat, i: nat)
    requires n > 0
  {
    i in a.log ==> i <= head && Slot(i, n) in a.held && i <= a.held[Slot(i, n)]
  }

  ghost predicate Accounts(slots: seq<GrainInfo>, head: nat, a: Account)
    requires |slots| > 0
  {
    && (a.contiguous ==> a.forward && Consistent(slots, head, a.log, a.first, a.reopened))
    && (forall o | 0 <= o < |slots| :: SlotTold(slots, a, o))
    && (a.forward ==> forall i :: IndexTold(a, head, |slots|, i))
  }

  lemma {:induction false} OpenAccounted(slots: seq<GrainInfo>, head: nat, a: Account, index: nat)
    requires |slots| > 0 && Accounts(slots, head, a)
    ensures var o := Slot(index, |slots|);
      Accounts(slots[o := slots[o].(index := index)], head, AfterOpen(a, head, |slots|, index))
  {
    var n, at := |slots|, Slot(index, |slots|);
    var slots', a' := slots[at := slots[at].(index := index)], AfterOpen(a, head, n, index);
    if a'.contiguous {
      OpenKeeps(slots, head, a.log, a.first, a.reopened, index);
    }
    forall o | 0 <= o < n
      ensures SlotTold(slots', a', o)
    {
      assert SlotTold(slots, a, o);
    }
    forall i | a.forward
      ensures IndexTold(a', head, n, i)
    {
      assert IndexTold(a, head, n, i);
    }
  }

  lemma {:induction false} CommitAccounted(slots: seq<GrainInfo>, head: nat, a: Account, info: GrainInfo)
    requires |slots| > 0 && Accounts(slots, head, a)
    ensures Accounts(slots[Slot(info.index, |slots|) := info], info.index, AfterCommit(a, head, |slots|, info))
  {
    var n, j := |slots|, info.index;
    var slots', a' := slots[Slot(j, n) := info], AfterCommit(a, head, n, info);
    if a'.contiguous {
      CommitKeeps(slots, head, a.log, a.first, a.reopened, info);
    }
    forall o | 0 <= o < n
      ensures SlotTold(slots', a', o)
    {
      assert SlotTold(slots, a, o);
    }
    forall i | a'.forward
      ensures IndexTold(a', j, n, i)
    {
      assert IndexTold(a, head, n, i);
    }
  }

  /** After commits that do not go back, the slot of an index of the window holds it, or an older one of its slot. */
  lemma {:induction false} HeldInWindow(slots: seq<GrainInfo>, head: nat, a: Account, index: nat)
    requires |slots| > 0 && Accounts(slots, head, a) && a.forward && head - |slots| < index <= head
    ensures var o := Slot(index, |slots|);
      && (o in a.held ==> a.held[o] <= index)
      && (index in a.log <==> o in a.held && a.held[o] == index)
  {
    var n, o := |slots|, Slot(index, |slots|);
    assert SlotTold(slots, a, o) && IndexTold(a, head, n, index);
    if o in a.held && a.held[o] > index {
      assert IndexTold(a, head, n, a.held[o]);
      SlotsDiffer(index, a.held[o], n);
      assert false;
    }
  }

  // --- The objects -------------------------------------------------------------------------------

  /** The shared memory of a flow. */
  class Flow {
    const grains: array<GrainInfo>
    var headIndex: nat
    var syncCounter: nat

    /** What has been committed, and whether in one run, and whether always forward. */
    ghost var account: Account

    ghost predicate Valid()
      reads this, grains
    {
      grains.Length > 0 && Accounts(grains[..], headIndex, account)
    }

    constructor (grainCount: nat, grainSize: nat, totalSlices: nat)
      requires grainCount > 0 && totalSlices > 0
      ensures Valid() && account == NOTHING && headIndex == 0 && fresh(grains) && grains.Length == grainCount
      ensures forall o | 0 <= o < grainCount :: grains[o] == GrainInfo(0, 0, grainSize, totalSlices, 0)
    {
      grains := new GrainInfo[grainCount](_ => GrainInfo(0, 0, grainSize, totalSlices, 0));
      headIndex, syncCounter := 0, 0;
      account := NOTHING;
    }
  }

  class Writer {
    const flow: Flow
    var currentIndex: nat

    constructor (flow: Flow)
      ensures this.flow == flow && currentIndex == UNDEFINED_INDEX
    {
      this.flow := flow;
      currentIndex := UNDEFINED_INDEX;
    }

    /** Gives the slot the new index; everything else in it stays as the last commit left it. */
    method OpenGrain(index: nat) returns (info: GrainInfo)
      requires flow.Valid()
      modifies this, flow, flow.grains
      ensures flow.Valid() && currentIndex == index
      ensures flow.headIndex == old(flow.headIndex) && flow.syncCounter == old(flow.syncCounter)
      ensures flow.account == old(AfterOpen(flow.account, flow.headIndex, flow.grains.Length, index))
      ensures var o := Slot(index, flow.grains.Length);
        info == old(flow.grains[o]).(index := index) && flow.grains[..] == old(flow.grains[..])[o := info]
    {
      var offset := Slot(index, flow.grains.Length);
      ghost var slots := flow.grains[..];
      OpenAccounted(slots, flow.headIndex, flow.account, index);
      info := flow.grains[offset].(index := index);
      flow.grains[offset] := info;
      assert flow.grains[..] == slots[offset := info];
      flow.account := AfterOpen(flow.account, flow.headIndex, flow.grains.Length, index);
      currentIndex := index;
    }

    method Cancel()
      modifies this
      ensures currentIndex == UNDEFINED_INDEX
    {
      currentIndex := UNDEFINED_INDEX;
    }

    /** Accepts any info for the index that is open; a complete grain closes it. */
    method Commit(info: GrainInfo) returns (status: Status)
      requires flow.Valid()
      modifies this, flow, flow.grains
      ensures flow.Valid()
      ensures status == if info.index == old(currentIndex) then StatusOk else InvalidArg
      ensures status != StatusOk ==> unchanged(this) && unchanged(flow) && unchanged(flow.grains)
      ensures status == StatusOk ==>
        && flow.headIndex == info.index
        && flow.grains[..] == old(flow.grains[..])[Slot(info.index, flow.grains.Length) := info]
        && flow.account == old(AfterCommit(flow.account, flow.headIndex, flow.grains.Length, info))
        && flow.syncCounter == (old(flow.syncCounter) + 1) % Arith.TWO_TO_32
        && currentIndex == (if info.validSlices == info.totalSlices then UNDEFINED_INDEX else old(currentIndex))
    {
      if info.index != currentIndex {
        return InvalidArg;
      }
      ghost var slots := flow.grains[..];
      CommitAccounted(slots, flow.headIndex, flow.account, info);
      flow.account := AfterCommit(flow.account, flow.headIndex, flow.grains.Length, info);
      flow.headIndex := currentIndex;
      var offset := Slot(currentIndex, flow.grains.Length);
      flow.grains[offset] := info;
      assert flow.grains[..] == slots[offset := info];
      if info.validSlices == info.totalSlices {
        currentIndex := UNDEFINED_INDEX;
      }
      flow.syncCounter := (flow.syncCounter + 1) % Arith.TWO_TO_32;
      status := StatusOk;
    }
  }

  /**
   A non-blocking read. After contiguous commits, and asked for at least one slice, it is granted exactly
   when the log grants it, and hands out the info last committed for that very index; only the oldest
   index, once its slot has been opened for the index after the head, comes with that index instead. Whatever
   the opens and commits have been, what is handed out is the last commit of the index last committed into
   the slot, under the index last opened in it. If no commit has gone back, that is the index asked for if
   it has been committed, and an older one if it has been passed over.
   */
  method GetGrain(flow: Flow, index: nat, minSlices: nat) returns (status: Status, info: GrainInfo)
    requires flow.Valid()
    ensures status == ReadStatus(flow.headIndex, flow.grains[..], index, minSlices)
    ensures status == StatusOk ==>
      && index <= flow.headIndex < index + flow.grains.Length
      && (info.validSlices >= minSlices || info.validSlices >= info.totalSlices || info.flags % 2 == 1)
    ensures status == TooLate <==> index + flow.grains.Length <= flow.headIndex
    ensures flow.account.forward && index in flow.account.log && flow.headIndex < index + flow.grains.Length ==>
      var last := flow.account.log[index];
      (status == StatusOk <==>
       last.validSlices >= minSlices || last.validSlices >= last.totalSlices || last.flags % 2 == 1)
    ensures flow.account.contiguous && minSlices >= 1 ==>
      status == LogStatus(flow.headIndex, flow.grains.Length, flow.account.log, index, minSlices)
    ensures flow.account.contiguous && minSlices >= 1 && status == StatusOk ==>
      && index in flow.account.log && flow.account.log[index].index == index
      && info == (if flow.account.reopened && index == flow.headIndex - flow.grains.Length + 1
                  then flow.account.log[index].(index := flow.headIndex + 1) else flow.account.log[index])
    ensures status == StatusOk ==>
      var a, o := flow.account, Slot(index, flow.grains.Length);
      && (if o in a.held then a.held[o] in a.log && o in a.named && info == a.log[a.held[o]].(index := a.named[o])
          else info.Pristine())
      && (a.forward ==> (index in a.log <==> o in a.held && a.held[o] == index))
      && (a.forward && o in a.held ==> a.held[o] <= index)
  {
    ReadAnswers(flow.headIndex, flow.grains[..], index, minSlices);
    if flow.account.forward && index <= flow.headIndex < index + flow.grains.Length {
      HeldInWindow(flow.grains[..], flow.headIndex, flow.account, index);
      assert SlotTold(flow.grains[..], flow.account, Slot(index, flow.grains.Length));
    }
    if flow.account.forward {
      assert IndexTold(flow.account, flow.headIndex, flow.grains.Length, index);
    }
    if flow.account.contiguous && minSlices >= 1 {
      ghost var a := flow.account;
      ReadsLog(flow.grains[..], flow.headIndex, a.log, a.first, a.reopened, index, minSlices);
    }
    info := GrainInfo(0, 0, 0, 0, 0);
    if index <= flow.headIndex {
      var grainCount := flow.grains.Length;
      var minIndex := if flow.headIndex >= grainCount then flow.headIndex - grainCount + 1 else 0;
      if index >= minIndex {
        var grain := flow.grains[Slot(index, grainCount)];
        if grain.Served(minSlices) {
          info := grain;
          assert SlotTold(flow.grains[..], flow.account, Slot(index, grainCount));
          if flow.account.contiguous && minSlices >= 1 {
            assert SlotHolds(flow.grains[..], flow.headIndex, flow.account.log, flow.account.reopened, index);
          }
          return StatusOk, info;
        }
        return TooEarly, info;
      }
      return TooLate, info;
    }
    return TooEarly, info;
  }
}
