/** Whole runs of a replica: pruning is invisible and replicas converge. */
module CrdtRuns {
  import opened Basics
  import opened Hlc
  import opened Policy
  import opened Crdt

  datatype Event =
    | Apply(op: Operation, now: int, maxFuture: Option<int>)
    | Prune(now: int)

  predicate Accepted(e: Event, horizon: int) {
    e.Apply? && Intake(e.op, e.now, e.maxFuture, horizon)
  }

  function Step(es: seq<Entry>, e: Event, horizon: int): seq<Entry> {
    match e
    case Apply(op, now, maxFuture) =>
      if Intake(op, now, maxFuture, horizon) then Applied(es, op) else es
    case Prune(now) => Without(es, now - horizon)
  }

  function Run(events: seq<Event>, horizon: int): seq<Entry> {
    if events == [] then []
    else Step(Run(events[..|events| - 1], horizon), events[|events| - 1], horizon)
  }

  /** A run continued from any state at all, a restored or merged one included. */
  function RunFrom(es: seq<Entry>, events: seq<Event>, horizon: int): seq<Entry> {
    if events == [] then es
    else Step(RunFrom(es, events[..|events| - 1], horizon), events[|events| - 1], horizon)
  }

  /** Continuing a run from its state is the longer run. */
  lemma {:induction false} RunContinues(history: seq<Event>, events: seq<Event>, horizon: int)
    ensures RunFrom(Run(history, horizon), events, horizon) == Run(history + events, horizon)
  {
    if events == [] {
      assert history + events == history;
    } else {
      hide Step;
      var before, e := events[..|events| - 1], events[|events| - 1];
      RunContinues(history, before, horizon);
      assert (history + events)[..|history + events| - 1] == history + before;
    }
  }

  /** The accept or reject answer of each apply, in order. */
  function Verdicts(events: seq<Event>, horizon: int): seq<bool> {
    if events == [] then []
    else
      var before, e := Verdicts(events[..|events| - 1], horizon), events[|events| - 1];
      if e.Apply? then before + [Accepted(e, horizon)] else before
  }

  function WithoutPrunes(events: seq<Event>): seq<Event> {
    if events == [] then []
    else
      var before, e := WithoutPrunes(events[..|events| - 1]), events[|events| - 1];
      if e.Apply? then before + [e] else before
  }

  /** No operation arrives at an earlier reading of the clock than a prune before it; a
      clock that never goes back always satisfies this. */
  ghost predicate PrunesInOrder(events: seq<Event>) {
    forall i, j :: 0 <= i < j < |events| && events[i].Prune? && events[j].Apply? ==>
      events[i].now <= events[j].now
  }

  lemma RunSnoc(before: seq<Event>, e: Event, horizon: int)
    ensures Run(before + [e], horizon) == Step(Run(before, horizon), e, horizon)
    ensures WithoutPrunes(before + [e]) == if e.Apply? then WithoutPrunes(before) + [e] else WithoutPrunes(before)
  {
    assert (before + [e])[..|before|] == before;
  }

  lemma {:induction false} RunUnique(events: seq<Event>, horizon: int)
    ensures Unique(Run(events, horizon))
  {
    if events != [] {
      var before, e := events[..|events| - 1], events[|events| - 1];
      RunUnique(before, horizon);
      if e.Apply? {
        AbsorbLookup(Run(before, horizon), e.op.tuple, Delta(e.op), []);
      } else {
        WithoutLookup(Run(before, horizon), e.now - horizon, []);
      }
    }
  }

  // ---- Pruning is invisible --------------------------------------------------------

  /** A slot of the pruned replica agrees, or was forgotten while already too old. */
  predicate Forgotten(pruned: Option<Timestamp>, full: Option<Timestamp>, cutoff: int) {
    pruned == full || (pruned.None? && full.Some? && Physical(full.value) < cutoff)
  }

  predicate Shadows(pruned: Slots, full: Slots, cutoff: int) {
    && Forgotten(pruned.add, full.add, cutoff)
    && Forgotten(pruned.remove, full.remove, cutoff)
    && pruned.Active() == full.Active()
  }

  /** An operation passing intake is later than anything forgotten. */
  lemma JoinShadows(p: Slots, f: Slots, op: Operation, cutoff: int)
    requires Shadows(p, f, cutoff) && Physical(op.hlc) >= cutoff
    ensures Shadows(Join(p, Delta(op)), Join(f, Delta(op)), cutoff)
  {}

  /** A step, applied to both replicas unless it is a prune, keeps the shadow. */
  lemma StepShadows(pruned: seq<Entry>, full: seq<Entry>, e: Event, horizon: int, key: Bytes, now: int)
    requires Unique(pruned)
    requires Shadows(Lookup(pruned, key), Lookup(full, key), now - horizon)
    requires if e.Prune? then e.now <= now else now <= e.now
    ensures Shadows(Lookup(Step(pruned, e, horizon), key),
                    Lookup(if e.Apply? then Step(full, e, horizon) else full, key), now - horizon)
  {
    hide Key, Lookup, Without, Absorb, Unique;
    if e.Prune? {
      WithoutLookup(pruned, e.now - horizon, key);
    } else if Accepted(e, horizon) {
      AbsorbLookup(pruned, e.op.tuple, Delta(e.op), key);
      AbsorbLookup(full, e.op.tuple, Delta(e.op), key);
      JoinShadows(Lookup(pruned, key), Lookup(full, key), e.op, now - horizon);
    }
  }

  lemma {:induction false} RunShadows(events: seq<Event>, horizon: int, key: Bytes, now: int)
    requires PrunesInOrder(events)
    requires forall i :: 0 <= i < |events| && events[i].Prune? ==> events[i].now <= now
    ensures Shadows(Lookup(Run(events, horizon), key),
                    Lookup(Run(WithoutPrunes(events), horizon), key), now - horizon)
  {
    if events != [] {
      var before, e := events[..|events| - 1], events[|events| - 1];
      var seen := if e.Apply? && e.now < now then e.now else now;
      RunShadows(before, horizon, key, seen);
      RunUnique(before, horizon);
      RunSnoc(WithoutPrunes(before), e, horizon);
      StepShadows(Run(before, horizon), Run(WithoutPrunes(before), horizon), e, horizon, key, seen);
    }
  }

  /** A reading no event of the run was later than. */
  function LastReading(events: seq<Event>): (now: int)
    ensures forall i :: 0 <= i < |events| ==> events[i].now <= now
  {
    if events == [] then 0
    else
      var before, last := LastReading(events[..|events| - 1]), events[|events| - 1].now;
      if last > before then last else before
  }

  lemma {:induction false} SameVerdicts(events: seq<Event>, horizon: int)
    ensures Verdicts(events, horizon) == Verdicts(WithoutPrunes(events), horizon)
  {
    if events != [] {
      var before, e := events[..|events| - 1], events[|events| - 1];
      SameVerdicts(before, horizon);
      assert e.Apply? ==> (WithoutPrunes(before) + [e])[..|WithoutPrunes(before)|] == WithoutPrunes(before);
    }
  }

  /** If prunes come in order, deleting every prune from a run changes neither an answer
      nor an active tuple: nothing pruned returns, no live grant is lost. */
  lemma PruningIsInvisible(events: seq<Event>, horizon: int, t: Tuple)
    requires PrunesInOrder(events)
    ensures Verdicts(events, horizon) == Verdicts(WithoutPrunes(events), horizon)
    ensures t in ActiveTuples(Run(events, horizon))
            <==> t in ActiveTuples(Run(WithoutPrunes(events), horizon))
  {
    SameVerdicts(events, horizon);
    RunShadows(events, horizon, Key(t), LastReading(events));
    RunUnique(events, horizon);
    RunUnique(WithoutPrunes(events), horizon);
    ActiveMeansActiveSlots(Run(events, horizon), t);
    ActiveMeansActiveSlots(Run(WithoutPrunes(events), horizon), t);
  }

  function GrantThenRevoke(t: Tuple, g: Timestamp, r: Timestamp, now: int): seq<Event> {
    [Apply(Operation(t, Grant, g, []), now, None), Apply(Operation(t, Revoke, r, []), now, None)]
  }

  /** The effect of one more accepted operation on its own tuple's timestamps. */
  lemma {:induction false} OneMore(before: seq<Event>, e: Event, horizon: int)
    requires Accepted(e, horizon)
    ensures Lookup(Run(before + [e], horizon), Key(e.op.tuple))
            == Join(Lookup(Run(before, horizon), Key(e.op.tuple)), Delta(e.op))
  {
    RunSnoc(before, e, horizon);
    AbsorbLookup(Run(before, horizon), e.op.tuple, Delta(e.op), Key(e.op.tuple));
  }

  lemma GrantRevoke(t: Tuple, horizon: int, g: Timestamp, r: Timestamp, now: int)
    requires g < r && Physical(g) >= now - horizon
    ensures var mine := GrantThenRevoke(t, g, r, now);
            Lookup(Run(mine, horizon), Key(t)) == Slots(Some(g), Some(r)) && WithoutPrunes(mine) == mine
  {
    var grant, revoke := GrantThenRevoke(t, g, r, now)[0], GrantThenRevoke(t, g, r, now)[1];
    assert [] + [grant] == [grant] && [grant] + [revoke] == GrantThenRevoke(t, g, r, now);
    RunSnoc([], grant, horizon);
    RunSnoc([grant], revoke, horizon);
    OneMore([], grant, horizon);
    OneMore([grant], revoke, horizon);
  }

  /** A tuple granted and then revoked, both accepted on arrival, is inactive; once both
      are beyond the horizon a prune forgets it completely. */
  lemma GrantRevokePrune(t: Tuple, horizon: int, g: Timestamp, r: Timestamp, now: int, pruneNow: int)
    requires g < r && Physical(g) >= now - horizon && Physical(r) < pruneNow - horizon
    ensures var mine := GrantThenRevoke(t, g, r, now);
            Lookup(Run(mine + [Prune(pruneNow)], horizon), Key(t)) == NO_SLOTS
  {
    var mine := GrantThenRevoke(t, g, r, now);
    GrantRevoke(t, horizon, g, r, now);
    RunSnoc(mine, Prune(pruneNow), horizon);
    RunUnique(mine, horizon);
    WithoutLookup(Run(mine, horizon), pruneNow - horizon, Key(t));
  }

  /** The same grant arriving once more, after its revocation was pruned. */
  function Regrant(t: Tuple, g: Timestamp, r: Timestamp, now: int, pruneNow: int): seq<Event> {
    GrantThenRevoke(t, g, r, now) + [Prune(pruneNow)] + [GrantThenRevoke(t, g, r, now)[0]]
  }

  lemma RegrantAfterPrune(t: Tuple, horizon: int, g: Timestamp, r: Timestamp, now: int, pruneNow: int)
    requires g < r && Physical(g) >= now - horizon && Physical(r) < pruneNow - horizon
    ensures t in ActiveTuples(Run(Regrant(t, g, r, now, pruneNow), horizon))
    ensures t !in ActiveTuples(Run(WithoutPrunes(Regrant(t, g, r, now, pruneNow)), horizon))
  {
    var mine := GrantThenRevoke(t, g, r, now);
    var pruned, again := mine + [Prune(pruneNow)], mine[0];
    GrantRevoke(t, horizon, g, r, now);
    GrantRevokePrune(t, horizon, g, r, now, pruneNow);
    RunSnoc(mine, Prune(pruneNow), horizon);
    RunSnoc(pruned, again, horizon);
    OneMore(pruned, again, horizon);
    OneMore(mine, again, horizon);
    RunUnique(pruned + [again], horizon);
    RunUnique(mine + [again], horizon);
    ActiveMeansActiveSlots(Run(pruned + [again], horizon), t);
    ActiveMeansActiveSlots(Run(mine + [again], horizon), t);
  }

  /** The order of prunes is exactly what is needed: for any two readings that break it
      there is a run, otherwise at one reading, in which a pruned tuple comes back. */
  lemma EarlierApplyResurrects(t: Tuple, horizon: int, pruneNow: int, applyNow: int)
    returns (g: Timestamp)
    requires 0 <= horizon <= applyNow < pruneNow && applyNow - horizon <= MAX_PHYSICAL
    ensures g < MAX_HLC
    ensures t in ActiveTuples(Run(Regrant(t, g, g + 1, applyNow, pruneNow), horizon))
    ensures t !in ActiveTuples(Run(WithoutPrunes(Regrant(t, g, g + 1, applyNow, pruneNow)), horizon))
  {
    hide Run, WithoutPrunes, ActiveTuples, Regrant;
    var physical: nat := applyNow - horizon;
    PackOrder(physical, 0, 0);
    PackOrder(physical, 1, 0);
    g := Pack(physical, 0).value;
    RegrantAfterPrune(t, horizon, g, g + 1, applyNow, pruneNow);
  }

  // ---- Convergence -----------------------------------------------------------------

  function AcceptedOps(events: seq<Event>, horizon: int): set<Operation> {
    set i | 0 <= i < |events| && Accepted(events[i], horizon) :: events[i].op
  }

  /** `latest` is the latest time of the given action on the tuple among `ops`. */
  ghost predicate IsLatest(ops: set<Operation>, key: Bytes, action: Action, latest: Option<Timestamp>) {
    && (latest.Some? ==>
          exists op :: op in ops && Key(op.tuple) == key && op.action == action && op.hlc == latest.value)
    && (forall op :: op in ops && Key(op.tuple) == key && op.action == action ==>
          latest.Some? && op.hlc <= latest.value)
  }

  function SlotOf(slots: Slots, action: Action): Option<Timestamp> {
    if action.Grant? then slots.add else slots.remove
  }

  lemma LatestStep(ops: set<Operation>, op: Operation, key: Bytes, action: Action, latest: Option<Timestamp>)
    requires IsLatest(ops, key, action, latest)
    ensures IsLatest(ops + {op}, key, action,
                     if Key(op.tuple) == key && op.action == action then Later(latest, Some(op.hlc)) else latest)
  {}

  lemma JoinSlot(slots: Slots, op: Operation, action: Action)
    ensures SlotOf(Join(slots, Delta(op)), action)
            == if op.action == action then Later(SlotOf(slots, action), Some(op.hlc)) else SlotOf(slots, action)
  {}

  lemma {:induction false} RunHoldsLatest(events: seq<Event>, horizon: int, key: Bytes, action: Action)
    requires WithoutPrunes(events) == events
    ensures IsLatest(AcceptedOps(events, horizon), key, action, SlotOf(Lookup(Run(events, horizon), key), action))
  {
    if events != [] {
      var before, e := events[..|events| - 1], events[|events| - 1];
      NoPrunesInPrefix(events);
      RunHoldsLatest(before, horizon, key, action);
      AcceptedExtend(before, e, horizon);
      assert before + [e] == events;
      RunSnoc(before, e, horizon);
      if Accepted(e, horizon) {
        var slots := Lookup(Run(before, horizon), key);
        AbsorbLookup(Run(before, horizon), e.op.tuple, Delta(e.op), key);
        LatestStep(AcceptedOps(before, horizon), e.op, key, action, SlotOf(slots, action));
        JoinSlot(slots, e.op, action);
      }
    }
  }

  lemma {:induction false} WithoutPrunesShort(events: seq<Event>)
    ensures |WithoutPrunes(events)| <= |events|
    ensures forall e :: e in WithoutPrunes(events) ==> e.Apply?
    ensures WithoutPrunes(WithoutPrunes(events)) == WithoutPrunes(events)
  {
    if events != [] {
      var before, e := events[..|events| - 1], events[|events| - 1];
      WithoutPrunesShort(before);
      assert e.Apply? ==> (WithoutPrunes(before) + [e])[..|WithoutPrunes(before)|] == WithoutPrunes(before);
    }
  }

  lemma NoPrunesInPrefix(events: seq<Event>)
    requires events != [] && WithoutPrunes(events) == events
    ensures events[|events| - 1].Apply?
    ensures WithoutPrunes(events[..|events| - 1]) == events[..|events| - 1]
  {
    WithoutPrunesShort(events[..|events| - 1]);
  }

  lemma {:induction false} PrunesAcceptNothing(events: seq<Event>, horizon: int)
    ensures AcceptedOps(WithoutPrunes(events), horizon) == AcceptedOps(events, horizon)
  {
    if events != [] {
      var before, e := events[..|events| - 1], events[|events| - 1];
      PrunesAcceptNothing(before, horizon);
      AcceptedExtend(before, e, horizon);
      assert events == before + [e];
      if e.Apply? {
        AcceptedExtend(WithoutPrunes(before), e, horizon);
      }
    }
  }

  lemma AcceptedExtend(before: seq<Event>, e: Event, horizon: int)
    ensures AcceptedOps(before + [e], horizon)
            == AcceptedOps(before, horizon) + if Accepted(e, horizon) then {e.op} else {}
  {
    var events := before + [e];
    assert forall i :: 0 <= i < |before| ==> events[i] == before[i];
    assert events[|before|] == e;
  }

  lemma LatestUnique(a: seq<Event>, b: seq<Event>, horizonA: int, horizonB: int, key: Bytes, action: Action)
    requires WithoutPrunes(a) == a && WithoutPrunes(b) == b
    requires AcceptedOps(a, horizonA) == AcceptedOps(b, horizonB)
    ensures SlotOf(Lookup(Run(a, horizonA), key), action) == SlotOf(Lookup(Run(b, horizonB), key), action)
  {
    RunHoldsLatest(a, horizonA, key, action);
    RunHoldsLatest(b, horizonB, key, action);
  }

  /** Without prunes, the stored timestamps are a function of the accepted set alone:
      order, repetition and the replicas' clocks leave no trace. */
  lemma TimestampsConverge(a: seq<Event>, b: seq<Event>, horizonA: int, horizonB: int)
    requires WithoutPrunes(a) == a && WithoutPrunes(b) == b
    requires AcceptedOps(a, horizonA) == AcceptedOps(b, horizonB)
    ensures SameTimestamps(Run(a, horizonA), Run(b, horizonB))
  {
    forall key
      ensures Lookup(Run(a, horizonA), key) == Lookup(Run(b, horizonB), key)
    {
      LatestUnique(a, b, horizonA, horizonB, key, Grant);
      LatestUnique(a, b, horizonA, horizonB, key, Revoke);
    }
  }

  /** Replicas that accepted the same operations agree on every active tuple, however
      each pruned under its own forward clock and its own horizon. */
  lemma {:induction false} ReplicasConverge(a: seq<Event>, b: seq<Event>, horizonA: int, horizonB: int, t: Tuple)
    requires PrunesInOrder(a) && PrunesInOrder(b)
    requires AcceptedOps(a, horizonA) == AcceptedOps(b, horizonB)
    ensures t in ActiveTuples(Run(a, horizonA)) <==> t in ActiveTuples(Run(b, horizonB))
  {
    var a', b' := WithoutPrunes(a), WithoutPrunes(b);
    PruningIsInvisible(a, horizonA, t);
    PruningIsInvisible(b, horizonB, t);
    PrunesAcceptNothing(a, horizonA);
    PrunesAcceptNothing(b, horizonB);
    WithoutPrunesShort(a);
    WithoutPrunesShort(b);
    TimestampsConverge(a', b', horizonA, horizonB);
    RunUnique(a', horizonA);
    RunUnique(b', horizonB);
    ActiveMeansActiveSlots(Run(a', horizonA), t);
    ActiveMeansActiveSlots(Run(b', horizonB), t);
  }

  /** The rule the state exists for, read off the accepted operations alone: a tuple is
      active exactly when some accepted grant of it is later than every accepted
      revocation of it. */
  lemma {:induction false} ActiveLaw(events: seq<Event>, horizon: int, t: Tuple)
    requires PrunesInOrder(events)
    ensures t in ActiveTuples(Run(events, horizon)) <==>
            exists g :: g in AcceptedOps(events, horizon) && g.tuple == t && g.action.Grant?
              && forall r :: r in AcceptedOps(events, horizon) && r.tuple == t && r.action.Revoke? ==> g.hlc > r.hlc
  {
    var full, ops := WithoutPrunes(events), AcceptedOps(events, horizon);
    PruningIsInvisible(events, horizon, t);
    PrunesAcceptNothing(events, horizon);
    WithoutPrunesShort(events);
    RunHoldsLatest(full, horizon, Key(t), Grant);
    RunHoldsLatest(full, horizon, Key(t), Revoke);
    RunUnique(full, horizon);
    ActiveMeansActiveSlots(Run(full, horizon), t);
    forall op | op in ops && Key(op.tuple) == Key(t)
      ensures op.tuple == t
    {
      KeyInjective(op.tuple, t);
    }
  }

  // ---- Merging ---------------------------------------------------------------------

  /** Merging the states of two prune-free runs equals making both runs on one replica. */
  lemma {:induction false} MergeIsBothRuns(a: seq<Event>, b: seq<Event>, horizon: int, key: Bytes)
    requires WithoutPrunes(b) == b
    ensures Lookup(AbsorbAll(Run(a, horizon), Run(b, horizon)), key) == Lookup(Run(a + b, horizon), key)
  {
    RunUnique(a, horizon);
    RunUnique(b, horizon);
    AbsorbAllLookup(Run(a, horizon), Run(b, horizon), key);
    if b == [] {
      assert a + b == a;
    } else {
      var before, e := b[..|b| - 1], b[|b| - 1];
      NoPrunesInPrefix(b);
      MergeIsBothRuns(a, before, horizon, key);
      RunUnique(before, horizon);
      AbsorbAllLookup(Run(a, horizon), Run(before, horizon), key);
      assert (a + b)[..|a + b| - 1] == a + before && (a + b)[|a + b| - 1] == e;
      AbsorbLookup(Run(before, horizon), e.op.tuple, Delta(e.op), key);
      AbsorbLookup(Run(a + before, horizon), e.op.tuple, Delta(e.op), key);
      JoinLaws(Lookup(Run(a, horizon), key), Lookup(Run(before, horizon), key), Delta(e.op));
    }
  }

  /** Merging makes no intake check, so pruning is not invisible to it: a peer that only
      ever saw the grant brings a pruned tuple back to life. */
  lemma MergeResurrects(t: Tuple, horizon: int, g: Timestamp, r: Timestamp, now: int, pruneNow: int)
    requires g < r && Physical(g) >= now - horizon && Physical(r) < pruneNow - horizon
    ensures var mine := GrantThenRevoke(t, g, r, now);
            var pruned := mine + [Prune(pruneNow)];
            && PrunesInOrder(pruned)
            && t in ActiveTuples(AbsorbAll(Run(pruned, horizon), Run([mine[0]], horizon)))
            && t !in ActiveTuples(AbsorbAll(Run(mine, horizon), Run([mine[0]], horizon)))
  {
    var mine := GrantThenRevoke(t, g, r, now);
    var pruned, peer := mine + [Prune(pruneNow)], [mine[0]];
    GrantRevoke(t, horizon, g, r, now);
    GrantRevokePrune(t, horizon, g, r, now, pruneNow);
    OneMore([], mine[0], horizon);
    assert [] + [mine[0]] == peer;
    RunUnique(pruned, horizon);
    RunUnique(mine, horizon);
    RunUnique(peer, horizon);
    AbsorbAllLookup(Run(pruned, horizon), Run(peer, horizon), Key(t));
    AbsorbAllLookup(Run(mine, horizon), Run(peer, horizon), Key(t));
    ActiveMeansActiveSlots(AbsorbAll(Run(pruned, horizon), Run(peer, horizon)), t);
    ActiveMeansActiveSlots(AbsorbAll(Run(mine, horizon), Run(peer, horizon)), t);
  }

  /** The pruned entry was revoked no earlier than the peer's grant that is still active. */
  predicate Revives(mine: Slots, theirs: Slots, cutoff: int) {
    mine.Dead(cutoff) && theirs.Active() && theirs.add.value <= mine.remove.value
  }

  /** Pruning before a merge changes whether a tuple is active after it exactly when the
      peer revives it. */
  lemma {:induction false} PruneThenMergeExactly(es: seq<Entry>, cutoff: int, peer: seq<Entry>, t: Tuple)
    requires Unique(es) && Unique(peer)
    ensures (t in ActiveTuples(AbsorbAll(Without(es, cutoff), peer)) <==> t in ActiveTuples(AbsorbAll(es, peer)))
            <==> !Revives(Lookup(es, Key(t)), Lookup(peer, Key(t)), cutoff)
  {
    WithoutLookup(es, cutoff, Key(t));
    AbsorbAllLookup(Without(es, cutoff), peer, Key(t));
    AbsorbAllLookup(es, peer, Key(t));
    ActiveMeansActiveSlots(AbsorbAll(Without(es, cutoff), peer), t);
    ActiveMeansActiveSlots(AbsorbAll(es, peer), t);
  }

  /** A peer whose active grants would all pass the intake check revives nothing. */
  lemma {:induction false} RecentPeerRevivesNothing(es: seq<Entry>, cutoff: int, peer: seq<Entry>, t: Tuple)
    requires Unique(es) && Unique(peer)
    requires forall e :: e in peer && e.slots.Active() ==> Physical(e.slots.add.value) >= cutoff
    ensures t in ActiveTuples(AbsorbAll(Without(es, cutoff), peer)) <==> t in ActiveTuples(AbsorbAll(es, peer))
  {
    PruneThenMergeExactly(es, cutoff, peer, t);
    var i := Position(peer, Key(t));
    if i < |peer| {
      assert peer[i] in peer;
    }
  }

  // ---- The future bound ------------------------------------------------------------

  predicate NoLater(hlc: Option<Timestamp>, bound: int) { hlc.Some? ==> Physical(hlc.value) <= bound }

  /** No stored timestamp lies beyond the bound. */
  ghost predicate StoredBy(es: seq<Entry>, bound: int) {
    forall e :: e in es ==> NoLater(e.slots.add, bound) && NoLater(e.slots.remove, bound)
  }

  /** Every apply names an allowance, and it ends by the bound. */
  ghost predicate AllowancesEndBy(events: seq<Event>, bound: int) {
    forall i :: 0 <= i < |events| && events[i].Apply? ==>
      events[i].maxFuture.Some? && events[i].now + events[i].maxFuture.value <= bound
  }

  /** No run stores a timestamp beyond what its allowances admit, whatever arrives. */
  lemma {:induction false} StoredWithinAllowances(es: seq<Entry>, events: seq<Event>, horizon: int, bound: int)
    requires StoredBy(es, bound) && AllowancesEndBy(events, bound)
    ensures StoredBy(RunFrom(es, events, horizon), bound)
  {
    if events != [] {
      var before, e := events[..|events| - 1], events[|events| - 1];
      StoredWithinAllowances(es, before, horizon, bound);
      var state := RunFrom(es, before, horizon);
      if e.Apply? {
        if Physical(e.op.hlc) <= bound {
          AbsorbStoredBy(state, e.op.tuple, Delta(e.op), bound);
        }
      } else {
        WithoutIn(state, e.now - horizon);
      }
    }
  }

  lemma AbsorbStoredBy(es: seq<Entry>, tuple: Tuple, slots: Slots, bound: int)
    requires StoredBy(es, bound) && NoLater(slots.add, bound) && NoLater(slots.remove, bound)
    ensures StoredBy(Absorb(es, tuple, slots), bound)
  {
    var i := Position(es, Key(tuple));
    if i < |es| {
      assert es[i] in es;
    }
  }

  lemma {:induction false} WithoutIn(es: seq<Entry>, cutoff: int)
    ensures forall e :: e in Without(es, cutoff) ==> e in es
  {
    if es != [] {
      WithoutIn(es[1..], cutoff);
    }
  }

  /** A revocation stamped beyond all earlier allowances, once applied, wins: no grant made so
      far keeps its tuple active. */
  lemma LateRevocationPrevails(events: seq<Event>, horizon: int, bound: int, op: Operation, now: int,
                               maxFuture: Option<int>)
    requires AllowancesEndBy(events, bound)
    requires op.action.Revoke? && Physical(op.hlc) > bound
    requires now - horizon <= Physical(op.hlc) && (maxFuture.Some? ==> Physical(op.hlc) <= now + maxFuture.value)
    ensures op.tuple !in ActiveTuples(Run(events + [Apply(op, now, maxFuture)], horizon))
  {
    hide Without, ActiveTuples;
    var state := Run(events, horizon);
    RunContinues([], events, horizon);
    assert [] + events == events && Run([], horizon) == [];
    StoredWithinAllowances([], events, horizon, bound);
    RunUnique(events, horizon);
    RunSnoc(events, Apply(op, now, maxFuture), horizon);
    AbsorbLookup(state, op.tuple, Delta(op), Key(op.tuple));
    ActiveMeansActiveSlots(Applied(state, op), op.tuple);
    var i := Position(state, Key(op.tuple));
    if i < |state| {
      assert state[i] in state;
    }
  }
}
