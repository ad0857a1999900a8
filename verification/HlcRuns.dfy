/** Any number of nodes exchanging timestamps, with arbitrary wall clocks. */
module HlcRuns {
  import opened Basics
  import opened Hlc

  /** A local event, or the absorption of the timestamp issued by event `from`. */
  datatype Event =
    | Local(node: nat, phys: nat)
    | Receive(node: nat, phys: nat, from: nat)

  /** The clocks and, per event, the timestamp it returned (None if it failed). */
  datatype World = World(clocks: map<nat, ClockState>, out: seq<Option<Timestamp>>) {
    function Clock(node: nat): ClockState {
      if node in clocks then clocks[node] else INITIAL_CLOCK
    }
  }

  predicate Issued(w: World, i: nat) { i < |w.out| && w.out[i].Some? }

  /** The clock step that event e makes in world w. */
  function TickOf(w: World, e: Event): (t: Tick)
    requires e.Receive? ==> Issued(w, e.from)
  {
    match e
    case Local(node, phys) => NowStep(w.Clock(node), phys)
    case Receive(node, phys, from) => ObserveStep(w.Clock(node), phys, w.out[from].value)
  }

  function Step(w: World, e: Event): World {
    if e.Receive? && !Issued(w, e.from) then w.(out := w.out + [None])  // nothing to absorb
    else Record(w, e.node, TickOf(w, e))
  }

  function Record(w: World, node: nat, t: Tick): World {
    World(w.clocks[node := t.state],
          w.out + [if t.hlc.Ok? then Some(t.hlc.value) else None])
  }

  function Run(events: seq<Event>): (w: World)
    ensures |w.out| == |events|
  {
    if events == [] then World(map[], [])
    else Step(Run(events[..|events| - 1]), events[|events| - 1])
  }

  /** The largest wall-clock reading made so far by any node. */
  function MaxReading(events: seq<Event>): nat {
    if events == [] then 0
    else
      var before := MaxReading(events[..|events| - 1]);
      var phys := events[|events| - 1].phys;
      if phys > before then phys else before
  }

  /** One link of happens-before: program order, or a message. */
  ghost predicate Precedes(events: seq<Event>, i: nat, j: nat) {
    && i < j < |events| && Issued(Run(events), i) && Issued(Run(events), j)
    && (events[i].node == events[j].node || (events[j].Receive? && events[j].from == i))
  }

  ghost predicate HappensBefore(events: seq<Event>, path: seq<nat>) {
    |path| >= 2 && forall k :: 0 <= k < |path| - 1 ==> Precedes(events, path[k], path[k + 1])
  }

  ghost predicate Invariant(events: seq<Event>, w: World) {
    && |w.out| == |events|
    && (forall n :: w.Clock(n).lastMs <= MaxReading(events))
    && (forall i :: 0 <= i < |events| && w.out[i].Some? ==>
          && w.out[i].value <= w.Clock(events[i].node).Reading()
          && events[i].phys <= Physical(w.out[i].value) <= MaxReading(events))
  }

  lemma StepFacts(s: ClockState, phys: nat, remote: Timestamp)
    ensures var t := NowStep(s, phys);
            && t.state.Reading() >= s.Reading()
            && (t.state.lastMs == phys || t.state.lastMs == s.lastMs)
            && (t.hlc.Ok? ==> t.hlc.value == t.state.Reading() > s.Reading()
                              && Physical(t.hlc.value) == t.state.lastMs >= phys)
    ensures var t := ObserveStep(s, phys, remote);
            && t.state.Reading() >= s.Reading()
            && (t.state.lastMs == phys || t.state.lastMs == s.lastMs || t.state.lastMs == Physical(remote))
            && (t.hlc.Ok? ==> t.hlc.value == t.state.Reading() > s.Reading() && t.hlc.value > remote
                              && Physical(t.hlc.value) == t.state.lastMs >= phys)
  {}

  lemma RecordKeeps(before: seq<Event>, w: World, e: Event, t: Tick)
    requires Invariant(before, w)
    requires t.state.Reading() >= w.Clock(e.node).Reading()
    requires t.state.lastMs <= MaxReading(before + [e])
    requires t.hlc.Ok? ==> t.hlc.value == t.state.Reading() && Physical(t.hlc.value) == t.state.lastMs >= e.phys
    ensures Invariant(before + [e], Record(w, e.node, t))
  {
    var after, w' := before + [e], Record(w, e.node, t);
    assert after[..|after| - 1] == before;
    assert MaxReading(after) >= MaxReading(before);
    forall n
      ensures w'.Clock(n).lastMs <= MaxReading(after)
      ensures w'.Clock(n).Reading() >= w.Clock(n).Reading()
    {
      assert w.Clock(n).lastMs <= MaxReading(before);
    }
  }

  lemma {:induction false} InvariantHolds(events: seq<Event>)
    ensures Invariant(events, Run(events))
  {
    if events != [] {
      var before, e := events[..|events| - 1], events[|events| - 1];
      var w := Run(before);
      InvariantHolds(before);
      assert before + [e] == events;
      if e.Receive? && !Issued(w, e.from) {
        assert forall n :: Run(events).Clock(n) == w.Clock(n);
      } else {
        StepFacts(w.Clock(e.node), e.phys, if e.Receive? then w.out[e.from].value else 0);
        RecordKeeps(before, w, e, TickOf(w, e));
      }
    }
  }

  /** What the run has issued, later events never change. */
  lemma {:induction false} PrefixStable(events: seq<Event>, n: nat)
    requires n <= |events|
    ensures Run(events[..n]).out == Run(events).out[..n]
  {
    if n < |events| {
      var before := events[..|events| - 1];
      PrefixStable(before, n);
      assert before[..n] == events[..n];
    } else {
      assert events[..n] == events;
    }
  }

  lemma LinkIncreases(events: seq<Event>, i: nat, j: nat)
    requires Precedes(events, i, j)
    ensures Run(events).out[i].value < Run(events).out[j].value
  {
    var before, upTo := events[..j], events[..j + 1];
    PrefixStable(events, j);
    PrefixStable(events, j + 1);
    assert upTo[..|upTo| - 1] == before;
    InvariantHolds(before);
    var w := Run(before);
    assert w.out[i] == Run(events).out[i] && Run(upTo).out[j] == Run(events).out[j];
    StepFacts(w.Clock(events[j].node), events[j].phys,
              if events[j].Receive? && Issued(w, events[j].from) then w.out[events[j].from].value else 0);
  }

  /** Packed-integer order extends happens-before, whatever the wall clocks do. */
  lemma {:induction false} HappensBeforeIncreases(events: seq<Event>, path: seq<nat>)
    requires HappensBefore(events, path)
    ensures Precedes(events, path[0], path[1])
    ensures Precedes(events, path[|path| - 2], path[|path| - 1])
    ensures Run(events).out[path[0]].value < Run(events).out[path[|path| - 1]].value
  {
    LinkIncreases(events, path[0], path[1]);
    assert Precedes(events, path[|path| - 2], path[|path| - 1]);
    if |path| > 2 {
      var rest := path[1..];
      forall k | 0 <= k < |rest| - 1
        ensures Precedes(events, rest[k], rest[k + 1])
      {
        assert Precedes(events, path[k + 1], path[k + 2]);
      }
      HappensBeforeIncreases(events, rest);
    }
  }

  /** No clock runs ahead of the largest wall-clock reading made anywhere so far, and
      every timestamp lies between its own node's reading and that maximum. */
  lemma {:induction false} ClocksStayWithinReadings(events: seq<Event>, node: nat, i: nat)
    ensures Run(events).Clock(node).lastMs <= MaxReading(events)
    ensures Issued(Run(events), i) ==>
              events[i].phys <= Physical(Run(events).out[i].value) <= MaxReading(events[..i + 1])
  {
    InvariantHolds(events);
    if Issued(Run(events), i) {
      InvariantHolds(events[..i + 1]);
      PrefixStable(events, i + 1);
    }
  }
}
