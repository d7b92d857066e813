/**
 The loop of a blocking read, whatever it reads: load a 32-bit counter, check, and unless the check has an
 answer compare the counter and have the kernel put the reader to sleep while it has not changed.
 */
module WaitLoop {
  import Arith
  import opened DiscreteFlow
  import opened Wrappers

  /** Where a reader is; a check reads the head and then perhaps a slot. */
  datatype Pc =
    | Load
    | ReadHead
    | ReadSlot
    | Compare
    | EnterWait
    | Asleep
    | Done(status: Status)
  {
    predicate FoundTooEarly() {
      Compare? || EnterWait? || Asleep?
    }

    predicate Loaded() {
      ReadHead? || ReadSlot? || FoundTooEarly()
    }
  }

  /**
   `loaded` is the number of bumps at the time of the load that set `expected`, and `checked` the head that the
   last check has found.
   */
  datatype Wait = Wait(pc: Pc, expected: nat, loaded: nat, checked: nat)

  /** What moves a reader on: its own next step, the deadline, or a signal or spurious wake-up. */
  datatype Cause = Next | Expire | Disturb

  /** The steps of the loop, those of the check excepted. */
  function WaitStep(counter: nat, bumps: nat, w: Wait, cause: Cause): Option<Wait> {
    match (w.pc, cause)
    case (Load, Next) => Some(w.(pc := ReadHead, expected := counter, loaded := bumps))
    case (Compare, Next) => Some(w.(pc := if counter == w.expected then EnterWait else Load))
    case (Compare, Expire) => if counter == w.expected then Some(w.(pc := Done(TooEarly))) else None
    case (EnterWait, Next) => Some(w.(pc := if counter == w.expected then Asleep else Compare))
    case (Asleep, Expire) => Some(w.(pc := Done(TooEarly)))
    case (Asleep, Disturb) => Some(w.(pc := Compare))
    case _ => None
  }

  function Woken(w: Wait): Wait {
    if w.pc.Asleep? then w.(pc := Compare) else w
  }

  /** The counter loaded is the number of bumps then, in 32 bits. */
  predicate Remembers(bumps: nat, w: Wait) {
    w.pc.Loaded() ==> w.loaded <= bumps && w.expected == w.loaded % Arith.TWO_TO_32
  }

  /** Fewer than 2^32 bumps between a reader's load and its compare. */
  predicate OnTime(bumps: nat, w: Wait) {
    w.pc.Loaded() ==> bumps < w.loaded + Arith.TWO_TO_32
  }

  /** In time, an unchanged counter means that there have been no bumps. */
  lemma {:induction false} SameCounter(bumps: nat, w: Wait)
    requires Remembers(bumps, w) && OnTime(bumps, w) && w.pc.Loaded()
    ensures bumps % Arith.TWO_TO_32 == w.expected <==> bumps == w.loaded
  {
  }
}
