/** Hybrid logical clocks: 48-bit physical milliseconds above a 16-bit counter. */
module Hlc {
  import opened Basics

  const LOGICAL_SPAN := 0x1_0000
  const MAX_LOGICAL := 0xFFFF
  const MAX_PHYSICAL := 0xFFFF_FFFF_FFFF
  const MAX_HLC := 0xFFFF_FFFF_FFFF_FFFF

  type Timestamp = n: int | 0 <= n <= MAX_HLC

  /** The counter register never leaves 16 bits: it is bumped only below the limit. */
  type Counter = n: int | 0 <= n <= MAX_LOGICAL

  datatype ClockError = PhysicalTooWide | LogicalExhausted

  function Pack(physical: nat, logical: nat): Result<Timestamp, ClockError> {
    if physical > MAX_PHYSICAL then Err(PhysicalTooWide)
    else if logical > MAX_LOGICAL then Err(LogicalExhausted)
    else Ok(physical * LOGICAL_SPAN + logical)
  }

  function Physical(hlc: Timestamp): nat { hlc / LOGICAL_SPAN }

  function Logical(hlc: Timestamp): nat { hlc % LOGICAL_SPAN }

  /** Packing and unpacking are inverse, and packed order is the lexicographic
      order of (physical, logical). */
  lemma PackOrder(p: nat, l: nat, hlc: Timestamp)
    requires p <= MAX_PHYSICAL && l <= MAX_LOGICAL
    ensures Pack(p, l).Ok?
    ensures Physical(Pack(p, l).value) == p && Logical(Pack(p, l).value) == l
    ensures Pack(Physical(hlc), Logical(hlc)) == Ok(hlc)
    ensures Pack(p, l).value < hlc
      <==> p < Physical(hlc) || (p == Physical(hlc) && l < Logical(hlc))
  {}

  /** One node's clock registers. */
  datatype ClockState = ClockState(lastMs: nat, logical: Counter) {
    /** The registers read as one number, which no operation ever lowers. */
    function Reading(): nat { lastMs * LOGICAL_SPAN + logical }
  }

  const INITIAL_CLOCK := ClockState(0, 0)

  datatype Tick = Tick(state: ClockState, hlc: Result<Timestamp, ClockError>)

  /** Bump the counter of the current millisecond, or fail with it exhausted. */
  function Bump(s: ClockState, logical: Counter): Tick {
    if logical >= MAX_LOGICAL then Tick(s, Err(LogicalExhausted))
    else
      var s' := s.(logical := logical + 1);
      Tick(s', Pack(s'.lastMs, s'.logical))
  }

  function NowStep(s: ClockState, phys: nat): Tick {
    if phys > s.lastMs then Tick(ClockState(phys, 0), Pack(phys, 0))
    else Bump(s, s.logical)
  }

  function ObserveStep(s: ClockState, phys: nat, remote: Timestamp): Tick {
    var rphys, rlog := Physical(remote), Logical(remote);
    if phys > s.lastMs && phys > rphys then Tick(ClockState(phys, 0), Pack(phys, 0))
    else if rphys > s.lastMs then Bump(s.(lastMs := rphys), rlog)
    else if s.lastMs > rphys then Bump(s, s.logical)
    else Bump(s, if s.logical > rlog then s.logical else rlog)
  }

  /** The timestamp lies beyond the registers and no earlier than the wall clock. */
  predicate Fits(s: ClockState, phys: nat, hlc: Timestamp) {
    hlc > s.Reading() && Physical(hlc) >= phys
  }

  /** The answer is the least timestamp that meets the demands; without one, no timestamp of
      that millisecond does. */
  ghost predicate Least(hlc: Result<Timestamp, ClockError>, demands: Timestamp -> bool, ms: nat) {
    match hlc
    case Ok(h) => demands(h) && forall other: Timestamp :: demands(other) ==> h <= other
    case Err(_) => forall other: Timestamp :: demands(other) ==> Physical(other) != ms
  }

  function Max(a: nat, b: nat): nat { if a > b then a else b }

  /** Each clock operation answers the least timestamp it may; it fails only if none is left
      in the millisecond the clock has come to. */
  lemma AnswersAreLeast(s: ClockState, phys: nat, remote: Timestamp)
    ensures Least(NowStep(s, phys).hlc, (h: Timestamp) => Fits(s, phys, h), Max(phys, s.lastMs))
    ensures Least(ObserveStep(s, phys, remote).hlc, (h: Timestamp) => Fits(s, phys, h) && h > remote,
                  Max(Max(phys, s.lastMs), Physical(remote)))
  {}

  /** A process-local clock; the wall clock's reading is passed in. */
  class Clock {
    var lastMs: nat
    var logical: Counter

    function State(): ClockState
      reads this
    {
      ClockState(lastMs, logical)
    }

    constructor ()
      ensures State() == INITIAL_CLOCK
    {
      lastMs, logical := 0, 0;
    }

    method Now(phys: nat) returns (hlc: Result<Timestamp, ClockError>)
      modifies this
      ensures Tick(State(), hlc) == NowStep(old(State()), phys)
      ensures hlc.Ok? ==> hlc.value == State().Reading() > old(State().Reading())
      ensures Least(hlc, (h: Timestamp) => Fits(old(State()), phys, h), Max(phys, old(lastMs)))
    {
      AnswersAreLeast(State(), phys, 0);
      if phys > lastMs {
        lastMs, logical := phys, 0;
      } else {
        if logical >= MAX_LOGICAL {
          return Err(LogicalExhausted);
        }
        logical := logical + 1;
      }
      hlc := Pack(lastMs, logical);
    }

    method Observe(phys: nat, remote: Timestamp) returns (hlc: Result<Timestamp, ClockError>)
      modifies this
      ensures Tick(State(), hlc) == ObserveStep(old(State()), phys, remote)
      ensures hlc.Ok? ==> hlc.value == State().Reading() > old(State().Reading())
      ensures hlc.Ok? ==> hlc.value > remote
      ensures Least(hlc, (h: Timestamp) => Fits(old(State()), phys, h) && h > remote,
                    Max(Max(phys, old(lastMs)), Physical(remote)))
    {
      AnswersAreLeast(State(), phys, remote);
      var rphys, rlog := Physical(remote), Logical(remote);
      if phys > lastMs && phys > rphys {
        lastMs, logical := phys, 0;
      } else if rphys > lastMs {
        lastMs := rphys;
        if rlog >= MAX_LOGICAL {
          return Err(LogicalExhausted);
        }
        logical := rlog + 1;
      } else if lastMs > rphys {
        if logical >= MAX_LOGICAL {
          return Err(LogicalExhausted);
        }
        logical := logical + 1;
      } else {
        var m := if logical > rlog then logical else rlog;
        if m >= MAX_LOGICAL {
          return Err(LogicalExhausted);
        }
        logical := m + 1;
      }
      hlc := Pack(lastMs, logical);
    }
  }
}
