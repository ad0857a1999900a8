/** Pruning and the order of the active tuples, which the evaluation engine sees. */
module PruneOrder {
  import opened Basics
  import opened Hlc
  import opened Policy
  import opened Crdt
  import opened CrdtRuns

  /** The keys that the prunes of a run have forgotten. */
  function Gone(events: seq<Event>, horizon: int): set<Bytes> {
    if events == [] then {}
    else
      var before, e := events[..|events| - 1], events[|events| - 1];
      Gone(before, horizon) + if e.Prune? then DeadKeys(Run(before, horizon), e.now - horizon) else {}
  }

  function DeadKeys(es: seq<Entry>, cutoff: int): set<Bytes> {
    set e | e in es && e.slots.Dead(cutoff) :: Key(e.tuple)
  }

  /** No tuple is granted again after a prune has forgotten it. */
  ghost predicate NeverRegranted(events: seq<Event>, horizon: int) {
    forall i :: 0 <= i < |events| && Accepted(events[i], horizon) && events[i].op.action.Grant? ==>
      Key(events[i].op.tuple) !in Gone(events[..i], horizon)
  }

  /** The entries that have not been forgotten. */
  function Kept(es: seq<Entry>, gone: set<Bytes>): seq<Entry> {
    if es == [] then []
    else (if Key(es[0].tuple) in gone then [] else [es[0]]) + Kept(es[1..], gone)
  }

  ghost predicate Quiet(es: seq<Entry>, gone: set<Bytes>) {
    forall e :: e in es && Key(e.tuple) in gone ==> !e.slots.Active()
  }

  /** Two replicas that agree, order included, outside the forgotten keys, which are
      inactive in both. */
  ghost predicate Agree(pruned: seq<Entry>, full: seq<Entry>, gone: set<Bytes>) {
    Kept(pruned, gone) == Kept(full, gone) && Quiet(pruned, gone) && Quiet(full, gone)
  }

  lemma {:induction false} KeptPlus(a: seq<Entry>, b: seq<Entry>, gone: set<Bytes>)
    ensures Kept(a + b, gone) == Kept(a, gone) + Kept(b, gone)
  {
    if a == [] {
      assert a + b == b;
    } else {
      assert (a + b)[1..] == a[1..] + b;
      KeptPlus(a[1..], b, gone);
    }
  }

  lemma {:induction false} QuietKept(es: seq<Entry>, gone: set<Bytes>)
    requires Quiet(es, gone)
    ensures ActiveTuples(Kept(es, gone)) == ActiveTuples(es)
  {
    if es != [] {
      QuietKept(es[1..], gone);
      assert es[0] in es;
      var rest := Kept(es[1..], gone);
      assert ([es[0]] + rest)[1..] == rest && [] + rest == rest;
    }
  }

  /** What absorbing does around the entry's place. */
  lemma {:induction false} AbsorbSplits(es: seq<Entry>, tuple: Tuple, slots: Slots)
    ensures var i := Position(es, Key(tuple));
            Absorb(es, tuple, slots)
            == if i < |es| then es[..i] + [es[i].(slots := Join(es[i].slots, slots))] + es[i + 1..]
               else es + [Entry(tuple, slots)]
  {
    hide *;
    AbsorbIs(es, tuple, slots);
    var i := Position(es, Key(tuple));
    if i < |es| {
      UpdateSplits(es, i, es[i].(slots := Join(es[i].slots, slots)));
    }
  }

  lemma AbsorbIs(es: seq<Entry>, tuple: Tuple, slots: Slots)
    ensures var i := Position(es, Key(tuple));
            Absorb(es, tuple, slots)
            == if i < |es| then es[i := es[i].(slots := Join(es[i].slots, slots))] else es + [Entry(tuple, slots)]
  {
    hide Key, Join, Position;
  }

  lemma UpdateSplits<T>(s: seq<T>, i: nat, x: T)
    requires i < |s|
    ensures s[i := x] == s[..i] + [x] + s[i + 1..]
  {}

  lemma AbsorbForgotten(es: seq<Entry>, op: Operation, gone: set<Bytes>)
    requires Key(op.tuple) in gone && op.action.Revoke? && Quiet(es, gone)
    ensures Kept(Applied(es, op), gone) == Kept(es, gone) && Quiet(Applied(es, op), gone)
  {
    var i, key := Position(es, Key(op.tuple)), Key(op.tuple);
    AbsorbSplits(es, op.tuple, Delta(op));
    if i < |es| {
      var e := es[i].(slots := Join(es[i].slots, Delta(op)));
      assert es == es[..i] + [es[i]] + es[i + 1..] && es[i] in es;
      KeptAround(es[..i], es[i], es[i + 1..], gone);
      KeptAround(es[..i], e, es[i + 1..], gone);
    } else {
      KeptPlus(es, [Entry(op.tuple, Delta(op))], gone);
      KeptOne(Entry(op.tuple, Delta(op)), gone);
      assert Kept(es, gone) + [] == Kept(es, gone);
    }
  }

  lemma KeptOne(e: Entry, gone: set<Bytes>)
    ensures Kept([e], gone) == if Key(e.tuple) in gone then [] else [e]
  {
    assert [e][1..] == [];
  }

  lemma {:induction false} KeptAround(front: seq<Entry>, e: Entry, back: seq<Entry>, gone: set<Bytes>)
    ensures Kept(front + [e] + back, gone)
            == Kept(front, gone) + (if Key(e.tuple) in gone then [] else [e]) + Kept(back, gone)
  {
    KeptPlus(front + [e], back, gone);
    KeptPlus(front, [e], gone);
    KeptOne(e, gone);
  }

  /** Where the key is among the kept entries. */
  lemma {:induction false} KeptPosition(es: seq<Entry>, key: Bytes, gone: set<Bytes>)
    requires key !in gone
    ensures var i, k := Position(es, key), Position(Kept(es, gone), key);
            && (i < |es| <==> k < |Kept(es, gone)|)
            && (i < |es| ==> Kept(es, gone)[..k] == Kept(es[..i], gone) && Kept(es, gone)[k] == es[i]
                             && Kept(es, gone)[k + 1..] == Kept(es[i + 1..], gone))
  {
    var i := Position(es, key);
    if i < |es| {
      var front, back := es[..i], es[i + 1..];
      assert es == front + [es[i]] + back;
      KeptAround(front, es[i], back, gone);
      KeptIn(front, gone);
      var kept := Kept(es, gone);
      assert forall j :: 0 <= j < |Kept(front, gone)| ==> kept[j] == Kept(front, gone)[j];
      PositionIs(kept, key, |Kept(front, gone)|);
    } else {
      KeptIn(es, gone);
      PositionIs(Kept(es, gone), key, |Kept(es, gone)|);
    }
  }

  lemma {:induction false} KeptIn(es: seq<Entry>, gone: set<Bytes>)
    ensures forall e :: e in Kept(es, gone) <==> e in es && Key(e.tuple) !in gone
  {
    if es != [] {
      KeptIn(es[1..], gone);
    }
  }

  lemma AppliedAbsorbs(es: seq<Entry>, op: Operation)
    ensures Applied(es, op) == Absorb(es, op.tuple, Delta(op))
  {}

  /** Outside the forgotten keys absorbing and forgetting commute. */
  lemma AbsorbKept(es: seq<Entry>, op: Operation, gone: set<Bytes>)
    requires Key(op.tuple) !in gone
    ensures Kept(Applied(es, op), gone) == Applied(Kept(es, gone), op)
  {
    hide Key, Join, Delta, Position, Applied;
    var key, kept := Key(op.tuple), Kept(es, gone);
    AppliedAbsorbs(es, op);
    AppliedAbsorbs(kept, op);
    var i, k := Position(es, key), Position(kept, key);
    KeptPosition(es, key, gone);
    AbsorbSplits(es, op.tuple, Delta(op));
    AbsorbSplits(kept, op.tuple, Delta(op));
    if i < |es| {
      KeptAround(es[..i], es[i].(slots := Join(es[i].slots, Delta(op))), es[i + 1..], gone);
    } else {
      KeptPlus(es, [Entry(op.tuple, Delta(op))], gone);
      KeptOne(Entry(op.tuple, Delta(op)), gone);
    }
  }

  lemma AbsorbQuiet(es: seq<Entry>, op: Operation, gone: set<Bytes>)
    requires Key(op.tuple) !in gone && Quiet(es, gone)
    ensures Quiet(Applied(es, op), gone)
  {
    AbsorbSplits(es, op.tuple, Delta(op));
    var i := Position(es, Key(op.tuple));
    forall e | e in Applied(es, op) && Key(e.tuple) in gone
      ensures !e.slots.Active()
    {
      assert e in es;
    }
  }

  lemma StepAgrees(pruned: seq<Entry>, full: seq<Entry>, e: Event, horizon: int, gone: set<Bytes>)
    requires e.Apply? && Agree(pruned, full, gone)
    requires Accepted(e, horizon) && e.op.action.Grant? ==> Key(e.op.tuple) !in gone
    ensures Agree(Step(pruned, e, horizon), Step(full, e, horizon), gone)
  {
    hide Quiet, Kept, Applied;
    if Accepted(e, horizon) {
      if Key(e.op.tuple) in gone {
        AbsorbForgotten(pruned, e.op, gone);
        AbsorbForgotten(full, e.op, gone);
      } else {
        AbsorbKept(pruned, e.op, gone);
        AbsorbKept(full, e.op, gone);
        AbsorbQuiet(pruned, e.op, gone);
        AbsorbQuiet(full, e.op, gone);
      }
    }
  }

  lemma {:induction false} KeptTwice(es: seq<Entry>, gone: set<Bytes>, more: set<Bytes>)
    ensures Kept(es, gone + more) == Kept(Kept(es, gone), more)
  {
    if es != [] {
      KeptTwice(es[1..], gone, more);
      var rest := Kept(es[1..], gone);
      assert ([es[0]] + rest)[1..] == rest && [] + rest == rest;
    }
  }

  lemma {:induction false} WithoutKept(es: seq<Entry>, cutoff: int, gone: set<Bytes>)
    requires forall e :: e in es && e.slots.Dead(cutoff) ==> Key(e.tuple) in gone
    ensures Kept(Without(es, cutoff), gone) == Kept(es, gone)
  {
    if es != [] {
      WithoutKept(es[1..], cutoff, gone);
      assert es[0] in es;
      var rest := Without(es[1..], cutoff);
      assert ([es[0]] + rest)[1..] == rest;
      assert [] + Kept(es[1..], gone) == Kept(es[1..], gone);
    }
  }

  lemma {:induction false} PruneAgrees(pruned: seq<Entry>, full: seq<Entry>, cutoff: int, gone: set<Bytes>)
    requires Agree(pruned, full, gone) && Unique(pruned)
    ensures Agree(Without(pruned, cutoff), full, gone + DeadKeys(pruned, cutoff))
  {
    var dead := DeadKeys(pruned, cutoff);
    var all := gone + dead;
    KeptTwice(pruned, gone, dead);
    KeptTwice(full, gone, dead);
    WithoutKept(pruned, cutoff, all);
    WithoutKeeps(pruned, cutoff);
    forall e | e in pruned && Key(e.tuple) in all
      ensures !e.slots.Active()
    {
      if Key(e.tuple) in dead {
        DeadIsInactive(pruned, cutoff, e);
      }
    }
    forall e | e in full && Key(e.tuple) in all
      ensures !e.slots.Active()
    {
      if Key(e.tuple) !in gone {
        KeptIn(full, gone);
        KeptIn(pruned, gone);
        assert e in Kept(full, gone);
        DeadIsInactive(pruned, cutoff, e);
      }
    }
  }

  lemma DeadIsInactive(es: seq<Entry>, cutoff: int, e: Entry)
    requires Unique(es) && e in es && Key(e.tuple) in DeadKeys(es, cutoff)
    ensures !e.slots.Active()
  {
    var d :| d in es && d.slots.Dead(cutoff) && Key(d.tuple) == Key(e.tuple);
    assert d == e;
  }

  lemma {:induction false} RunAgrees(events: seq<Event>, horizon: int)
    requires NeverRegranted(events, horizon)
    ensures Agree(Run(events, horizon), Run(WithoutPrunes(events), horizon), Gone(events, horizon))
  {
    if events == [] {
      assert Agree([], [], {});
    } else {
      hide *;
      var before, e := events[..|events| - 1], events[|events| - 1];
      PrefixNeverRegranted(events, horizon);
      RunAgrees(before, horizon);
      OneMoreAgrees(before, e, horizon);
      assert events == before + [e];
    }
  }

  lemma OneMoreAgrees(before: seq<Event>, e: Event, horizon: int)
    requires Agree(Run(before, horizon), Run(WithoutPrunes(before), horizon), Gone(before, horizon))
    requires Accepted(e, horizon) && e.op.action.Grant? ==> Key(e.op.tuple) !in Gone(before, horizon)
    ensures Agree(Run(before + [e], horizon), Run(WithoutPrunes(before + [e]), horizon), Gone(before + [e], horizon))
  {
    hide *;
    RunUnique(before, horizon);
    RunSnoc(before, e, horizon);
    GoneSnoc(before, e, horizon);
    if e.Prune? {
      StepPrune(Run(before, horizon), e, horizon);
      PruneAgrees(Run(before, horizon), Run(WithoutPrunes(before), horizon), e.now - horizon, Gone(before, horizon));
    } else {
      RunSnoc(WithoutPrunes(before), e, horizon);
      StepAgrees(Run(before, horizon), Run(WithoutPrunes(before), horizon), e, horizon, Gone(before, horizon));
    }
  }

  lemma GoneSnoc(before: seq<Event>, e: Event, horizon: int)
    ensures Gone(before + [e], horizon)
            == if e.Prune? then Gone(before, horizon) + DeadKeys(Run(before, horizon), e.now - horizon)
               else Gone(before, horizon)
  {
    hide Run, DeadKeys;
    assert (before + [e])[..|before|] == before;
  }

  lemma StepPrune(es: seq<Entry>, e: Event, horizon: int)
    requires e.Prune?
    ensures Step(es, e, horizon) == Without(es, e.now - horizon)
  {}

  lemma PrefixNeverRegranted(events: seq<Event>, horizon: int)
    requires NeverRegranted(events, horizon) && events != []
    ensures NeverRegranted(events[..|events| - 1], horizon)
    ensures var before, e := events[..|events| - 1], events[|events| - 1];
            Accepted(e, horizon) && e.op.action.Grant? ==> Key(e.op.tuple) !in Gone(before, horizon)
  {
    hide Accepted, Gone;
    var before := events[..|events| - 1];
    assert forall i :: 0 <= i < |before| ==> before[..i] == events[..i] && before[i] == events[i];
  }

  /** If no forgotten tuple is granted again, deleting every prune leaves the list of active
      tuples as it is, order included, whatever the readings at which prunes were made. */
  lemma PruningKeepsOrder(events: seq<Event>, horizon: int)
    requires NeverRegranted(events, horizon)
    ensures ActiveTuples(Run(events, horizon)) == ActiveTuples(Run(WithoutPrunes(events), horizon))
  {
    hide Run;
    RunAgrees(events, horizon);
    QuietKept(Run(events, horizon), Gone(events, horizon));
    QuietKept(Run(WithoutPrunes(events), horizon), Gone(events, horizon));
  }

  // ---- A tuple granted again moves to the end --------------------------------------

  function Grants(ts: seq<Tuple>, g: Timestamp, now: int): (events: seq<Event>)
    ensures |events| == |ts|
    ensures forall i :: 0 <= i < |ts| ==> events[i] == Apply(Operation(ts[i], Grant, g, []), now, None)
  {
    seq(|ts|, i requires 0 <= i < |ts| => Apply(Operation(ts[i], Grant, g, []), now, None))
  }

  function Granted(ts: seq<Tuple>, g: Timestamp): (es: seq<Entry>)
    ensures |es| == |ts|
    ensures forall i :: 0 <= i < |ts| ==> es[i] == Entry(ts[i], Slots(Some(g), None))
  {
    seq(|ts|, i requires 0 <= i < |ts| => Entry(ts[i], Slots(Some(g), None)))
  }

  /** All of the tuples granted, the first one revoked, forgotten by a prune, and granted
      again; no clock goes back. */
  function RegrantRun(ts: seq<Tuple>, g: Timestamp, r: Timestamp, g': Timestamp, now: int, later: int): seq<Event>
    requires ts != []
  {
    Grants(ts, g, now) + [Apply(Operation(ts[0], Revoke, r, []), now, None)]
    + [Prune(later)] + [Apply(Operation(ts[0], Grant, g', []), later, None)]
  }

  lemma AppendNew(es: seq<Entry>, tuple: Tuple, slots: Slots)
    requires forall e :: e in es ==> e.tuple != tuple
    ensures Absorb(es, tuple, slots) == es + [Entry(tuple, slots)]
  {
    forall j | 0 <= j < |es|
      ensures Key(es[j].tuple) != Key(tuple)
    {
      assert es[j] in es;
      if Key(es[j].tuple) == Key(tuple) {
        KeyInjective(es[j].tuple, tuple);
      }
    }
    hide Key;
    PositionIs(es, Key(tuple), |es|);
  }

  lemma RaiseFirst(es: seq<Entry>, slots: Slots)
    requires es != []
    ensures Absorb(es, es[0].tuple, slots) == [es[0].(slots := Join(es[0].slots, slots))] + es[1..]
  {
    hide Key, Join;
    PositionIs(es, Key(es[0].tuple), 0);
  }

  lemma StepAccepted(es: seq<Entry>, op: Operation, now: int, horizon: int)
    requires Physical(op.hlc) >= now - horizon
    ensures Step(es, Apply(op, now, None), horizon) == Absorb(es, op.tuple, Delta(op))
  {}

  lemma OneGrantMore(ts: seq<Tuple>, t: Tuple, g: Timestamp, now: int)
    requires t !in ts
    ensures Grants(ts + [t], g, now) == Grants(ts, g, now) + [Apply(Operation(t, Grant, g, []), now, None)]
    ensures Absorb(Granted(ts, g), t, Slots(Some(g), None)) == Granted(ts + [t], g)
  {
    AppendNew(Granted(ts, g), t, Slots(Some(g), None));
  }

  lemma {:induction false} RunGrants(ts: seq<Tuple>, g: Timestamp, now: int, horizon: int)
    requires NoDuplicates(ts) && Physical(g) >= now - horizon
    ensures Run(Grants(ts, g, now), horizon) == Granted(ts, g)
    ensures WithoutPrunes(Grants(ts, g, now)) == Grants(ts, g, now)
  {
    if ts != [] {
      var before, last := ts[..|ts| - 1], ts[|ts| - 1];
      hide Run, WithoutPrunes, Step, Absorb, Grants, Granted, Physical;
      var op := Operation(last, Grant, g, []);
      assert ts == before + [last];
      RunGrants(before, g, now, horizon);
      OneGrantMore(before, last, g, now);
      RunSnoc(Grants(before, g, now), Apply(op, now, None), horizon);
      StepAccepted(Granted(before, g), op, now, horizon);
    }
  }

  lemma {:induction false} GrantedStay(ts: seq<Tuple>, g: Timestamp, cutoff: int)
    ensures Without(Granted(ts, g), cutoff) == Granted(ts, g)
    ensures ActiveTuples(Granted(ts, g)) == ts
  {
    if ts != [] {
      GrantedStay(ts[1..], g, cutoff);
      assert Granted(ts, g)[1..] == Granted(ts[1..], g);
    }
  }

  lemma {:induction false} ActivePlus(a: seq<Entry>, b: seq<Entry>)
    ensures ActiveTuples(a + b) == ActiveTuples(a) + ActiveTuples(b)
  {
    if a == [] {
      assert a + b == b;
    } else {
      assert (a + b)[1..] == a[1..] + b;
      ActivePlus(a[1..], b);
    }
  }

  /** The state after the first tuple was granted and revoked. */
  function Revoked(ts: seq<Tuple>, g: Timestamp, r: Timestamp): seq<Entry>
    requires ts != []
  {
    [Entry(ts[0], Slots(Some(g), Some(r)))] + Granted(ts[1..], g)
  }

  lemma RunRevoked(ts: seq<Tuple>, g: Timestamp, r: Timestamp, now: int, horizon: int)
    requires ts != [] && NoDuplicates(ts) && g < r && Physical(g) >= now - horizon
    ensures var events := Grants(ts, g, now) + [Apply(Operation(ts[0], Revoke, r, []), now, None)];
            Run(events, horizon) == Revoked(ts, g, r) && WithoutPrunes(events) == events
  {
    RunGrants(ts, g, now, horizon);
    RunSnoc(Grants(ts, g, now), Apply(Operation(ts[0], Revoke, r, []), now, None), horizon);
    RaiseFirst(Granted(ts, g), Slots(None, Some(r)));
    assert Granted(ts, g)[1..] == Granted(ts[1..], g);
  }

  /** A tuple that was pruned and is granted again is listed last, where without the prune
      it keeps its place. */
  lemma {:induction false} RegrantMovesToEnd(ts: seq<Tuple>, g: Timestamp, r: Timestamp, g': Timestamp, now: int, later: int, horizon: int)
    requires ts != [] && NoDuplicates(ts) && g < r < g'
    requires Physical(g) >= now - horizon && Physical(r) < later - horizon <= Physical(g')
    ensures var events := RegrantRun(ts, g, r, g', now, later);
            && PrunesInOrder(events)
            && ActiveTuples(Run(events, horizon)) == ts[1..] + [ts[0]]
            && ActiveTuples(Run(WithoutPrunes(events), horizon)) == ts
  {
    hide *;
    var revoked := Grants(ts, g, now) + [Apply(Operation(ts[0], Revoke, r, []), now, None)];
    var op, prune := Operation(ts[0], Grant, g', []), Prune(later);
    var again := Apply(op, later, None);
    RunRevoked(ts, g, r, now, horizon);
    RunSnoc(revoked, prune, horizon);
    RunSnoc(revoked + [prune], again, horizon);
    RunSnoc(revoked, again, horizon);
    StepPrune(Revoked(ts, g, r), prune, horizon);
    StepAccepted(Revoked(ts, g, r), op, later, horizon);
    StepAccepted(Without(Revoked(ts, g, r), later - horizon), op, later, horizon);
    AppliedAbsorbs(Revoked(ts, g, r), op);
    AppliedAbsorbs(Without(Revoked(ts, g, r), later - horizon), op);
    PrunedAgain(ts, g, r, g', later - horizon);
    RegrantIsInOrder(ts, g, r, g', now, later);
  }

  lemma RegrantIsInOrder(ts: seq<Tuple>, g: Timestamp, r: Timestamp, g': Timestamp, now: int, later: int)
    requires ts != []
    ensures var op := Operation(ts[0], Grant, g', []);
            RegrantRun(ts, g, r, g', now, later)
            == Grants(ts, g, now) + [Apply(Operation(ts[0], Revoke, r, []), now, None)] + [Prune(later)]
               + [Apply(op, later, None)]
    ensures PrunesInOrder(RegrantRun(ts, g, r, g', now, later))
  {
    var events := RegrantRun(ts, g, r, g', now, later);
    assert forall i :: 0 <= i < |ts| ==> events[i] == Grants(ts, g, now)[i];
  }

  lemma PrunedAgain(ts: seq<Tuple>, g: Timestamp, r: Timestamp, g': Timestamp, cutoff: int)
    requires ts != [] && NoDuplicates(ts) && g < r < g' && Physical(r) < cutoff
    ensures var op := Operation(ts[0], Grant, g', []);
            && ActiveTuples(Applied(Without(Revoked(ts, g, r), cutoff), op)) == ts[1..] + [ts[0]]
            && ActiveTuples(Applied(Revoked(ts, g, r), op)) == ts
  {
    var es, rest, slots := Revoked(ts, g, r), Granted(ts[1..], g), Slots(Some(g'), None);
    GrantedStay(ts[1..], g, cutoff);
    assert es[1..] == rest && es[0].slots.Dead(cutoff);
    assert Without(es, cutoff) == rest;
    AppendNew(rest, ts[0], slots);
    ActivePlus(rest, [Entry(ts[0], slots)]);
    OneActive(Entry(ts[0], slots));
    RaiseFirst(es, slots);
    var raised := Entry(ts[0], Slots(Some(g'), Some(r)));
    ActivePlus([raised], rest);
    OneActive(raised);
    assert [ts[0]] + ts[1..] == ts;
  }

  lemma OneActive(e: Entry)
    requires e.slots.Active()
    ensures ActiveTuples([e]) == [e.tuple]
  {
    assert [e][1..] == [];
  }
}
