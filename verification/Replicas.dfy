/** State and engine together: what pruning and replication mean for decisions. */
module Replicas {
  import opened Basics
  import opened Hlc
  import opened Policy
  import opened Crdt
  import opened CrdtRuns
  import opened PruneOrder
  import opened EngineSpec
  import opened EngineBudget
  import opened EngineExactness
  import opened EngineStrata
  import EngineOrders

  /** A policy on which the search decides the stratified rule: read off before the call. */
  ghost predicate Decidable(env: Env, hyps: seq<Hypothesis>, level: Ranking, height: Ranking, b: nat) {
    Stratified(env, AdminAll(hyps), level) && DeepEnough(env, hyps, height) && AmpleBudget(env, hyps, b)
  }

  function OnState(env: Env, es: seq<Entry>): Env {
    env.(tuples := ActiveTuples(es))
  }

  lemma OrderKeepsDecidable(env: Env, env': Env, hyps: seq<Hypothesis>, level: Ranking, height: Ranking, b: nat)
    requires Decidable(env, hyps, level, height, b) && env' == env.(tuples := env'.tuples)
    requires NoDuplicates(env'.tuples) && SameTuples(env, env')
    ensures Decidable(env', hyps, level, height, b)
  {
    OrderKeepsAmple(env, env', hyps, b);
    hide AmpleBudget, Involved;
  }

  /** Replicas that accepted the same operations reach the same decision on a decidable
      policy, although they may hold the tuples in different orders and have pruned
      differently. */
  lemma {:induction false} ReplicasDecideAlike(env: Env, a: seq<Event>, b: seq<Event>, horizonA: int, horizonB: int, g: Hash16,
                            hyps: seq<Hypothesis>, level: Ranking, height: Ranking, branches: nat)
    requires PrunesInOrder(a) && PrunesInOrder(b)
    requires AcceptedOps(a, horizonA) == AcceptedOps(b, horizonB)
    requires Decidable(OnState(env, Run(a, horizonA)), hyps, level, height, branches)
    ensures Evaluation(OnState(env, Run(a, horizonA)), g, hyps).0
            == Evaluation(OnState(env, Run(b, horizonB)), g, hyps).0
            == StratifiedDecision(OnState(env, Run(a, horizonA)), g, hyps, level)
  {
    hide Run, AcceptedOps, PrunesInOrder, Evaluation, StratifiedDecision, Stratified, DeepEnough, AmpleBudget;
    var ea, eb := OnState(env, Run(a, horizonA)), OnState(env, Run(b, horizonB));
    forall t
      ensures t in ea.tuples <==> t in eb.tuples
    {
      ReplicasConverge(a, b, horizonA, horizonB, t);
    }
    RunUnique(b, horizonB);
    ActiveOnce(Run(b, horizonB));
    OrderKeepsDecidable(ea, eb, hyps, level, height, branches);
    SearchIsStratified(ea, g, hyps, level, height, branches);
    SearchIsStratified(eb, g, hyps, level, height, branches);
    EngineStrata.RuleIgnoresOrder(ea, eb, g, hyps, level);
  }

  // ---- Pruning ---------------------------------------------------------------------

  /** One prune changes no evaluation at all: verdict, counter and every call stay the same,
      on any policy and at any depth and budget. */
  lemma PruneKeepsEvaluation(env: Env, es: seq<Entry>, cutoff: int, g: Hash16, hyps: seq<Hypothesis>)
    ensures Evaluation(OnState(env, Without(es, cutoff)), g, hyps) == Evaluation(OnState(env, es), g, hyps)
  {
    PruneKeepsActiveList(es, cutoff);
  }

  /** Nor do all the prunes of a run together, if no tuple is granted again after a prune has
      forgotten it. */
  lemma PrunesKeepEvaluation(env: Env, events: seq<Event>, horizon: int, g: Hash16, hyps: seq<Hypothesis>)
    requires NeverRegranted(events, horizon)
    ensures Evaluation(OnState(env, Run(events, horizon)), g, hyps)
            == Evaluation(OnState(env, Run(WithoutPrunes(events), horizon)), g, hyps)
  {
    hide Run, WithoutPrunes, NeverRegranted, Evaluation;
    PruningKeepsOrder(events, horizon);
  }

  /** A tuple granted again after a prune moves to the end of the list, and between admins
      who demote each other that flips the verdict: within the shipped depth and budget the
      pruned replica allows what it would otherwise deny. */
  lemma RegrantFlipsVerdict(s: EngineOrders.Pair, c: Timestamp, r: Timestamp, c': Timestamp, now: int, later: int,
                            horizon: int)
    requires s.Valid() && c < r < c'
    requires Physical(c) >= now - horizon && Physical(r) < later - horizon <= Physical(c')
    ensures var ts := [s.Answer(s.x, true)] + [s.Answer(s.y, false)] + s.Rivalry();
            var events := RegrantRun(ts, c, r, c', now, later);
            && PrunesInOrder(events)
            && Evaluation(OnState(s.Env([]), Run(events, horizon)), s.g, [s.h]).0 == Allow
            && Evaluation(OnState(s.Env([]), Run(WithoutPrunes(events), horizon)), s.g, [s.h]).0 == Deny
  {
    hide Run, WithoutPrunes, Evaluation, RegrantRun;
    var allow, deny := s.Answer(s.x, true), s.Answer(s.y, false);
    var ts := [allow] + [deny] + s.Rivalry();
    RivalsDiffer(s, ts);
    RegrantMovesToEnd(ts, c, r, c', now, later, horizon);
    assert ts == EngineOrders.Feud(s, allow, deny, false, false);
    assert ts[1..] + [ts[0]] == EngineOrders.Feud(s, deny, allow, false, true);
    EngineOrders.FeudHeld(s, allow, deny, false, false);
    EngineOrders.FeudHeld(s, deny, allow, false, true);
    EngineOrders.SecondStands(s, s.Env(ts), s.x, s.y, true);
    EngineOrders.SecondStands(s, s.Env(ts[1..] + [ts[0]]), s.y, s.x, false);
  }

  lemma RivalsDiffer(s: EngineOrders.Pair, ts: seq<Tuple>)
    requires s.Valid() && ts == [s.Answer(s.x, true)] + [s.Answer(s.y, false)] + s.Rivalry()
    ensures NoDuplicates(ts)
  {}

  /** On a decidable policy no pruning alters a decision, granted again or not. */
  lemma {:induction false} PruningKeepsDecisions(env: Env, events: seq<Event>, horizon: int, g: Hash16, hyps: seq<Hypothesis>,
                              level: Ranking, height: Ranking, branches: nat)
    requires PrunesInOrder(events)
    requires Decidable(OnState(env, Run(events, horizon)), hyps, level, height, branches)
    ensures Evaluation(OnState(env, Run(events, horizon)), g, hyps).0
            == Evaluation(OnState(env, Run(WithoutPrunes(events), horizon)), g, hyps).0
  {
    PrunesAcceptNothing(events, horizon);
    WithoutPrunesShort(events);
    assert PrunesInOrder(WithoutPrunes(events)) by {
      forall j | 0 <= j < |WithoutPrunes(events)|
        ensures WithoutPrunes(events)[j].Apply?
      {
        assert WithoutPrunes(events)[j] in WithoutPrunes(events);
      }
    }
    hide *;
    ReplicasDecideAlike(env, events, WithoutPrunes(events), horizon, horizon, g, hyps, level, height, branches);
  }
}
