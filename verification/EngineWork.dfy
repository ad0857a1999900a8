/** Termination made quantitative: how much work one evaluation can do. */
module EngineWork {
  import opened Basics
  import opened Policy
  import opened EngineSpec

  /** The calls among the first n that fall within the budget. */
  function WithinBudget(env: Env, n: nat): nat {
    if n <= env.maxVisited then n else if env.maxVisited > 0 then env.maxVisited else 0
  }

  /** Calls not yet paid for when every call within budget pays for k others. */
  function Unpaid(env: Env, k: nat, w: Work): int {
    w.counter - WithinBudget(env, w.counter) * k
  }

  ghost predicate CallsOk(env: Env, w: Work) {
    && |w.calls| == w.counter
    && forall i :: 0 <= i < |w.calls| ==>
         && (w.calls[i].scanned <==> i < env.maxVisited)
         && (w.calls[i].depth == 0 || w.calls[i].depth <= env.maxDepth)
  }

  ghost predicate AtMostHeld(env: Env, largest: nat) {
    forall g :: |Held(env.tuples, g)| <= largest
  }

  /** Pairs of candidate and hypothesis still to be weighed. */
  function PairsLeft(hyps: seq<Hypothesis>, cands: seq<Tuple>, j: nat): int {
    if cands == [] then 0 else |cands| * |hyps| - j
  }

  lemma {:induction false} AuthorityWork(env: Env, issuer: Hash16, hyps: seq<Hypothesis>, depth: nat,
                                         visited: set<Hash16>, w: Work, largest: nat)
    requires CallsOk(env, w) && AtMostHeld(env, largest)
    ensures var w' := Authority(env, issuer, hyps, depth, visited, w).1;
            CallsOk(env, w') && Unpaid(env, largest * |hyps|, w') <= Unpaid(env, largest * |hyps|, w) + 1
    decreases env.maxDepth - depth, 0, 0, 0
  {
    if issuer !in env.roots && (issuer, ObjectKeyOf(hyps)) !in w.memo
       && depth < env.maxDepth && issuer !in visited {
      ResolveWork(env, AdminAll(hyps), issuer, depth + 1, visited + {issuer}, w, largest);
    }
  }

  lemma {:induction false} ResolveWork(env: Env, hyps: seq<Hypothesis>, grantee: Hash16, depth: nat,
                                       visited: set<Hash16>, w: Work, largest: nat)
    requires CallsOk(env, w) && AtMostHeld(env, largest) && (depth == 0 || depth <= env.maxDepth)
    ensures var w' := Resolve(env, hyps, grantee, depth, visited, w).1;
            CallsOk(env, w') && Unpaid(env, largest * |hyps|, w') <= Unpaid(env, largest * |hyps|, w) + 1
    decreases env.maxDepth - depth, 2, 0, 0
  {
    var w' := w.(counter := w.counter + 1, calls := w.calls + [Call(depth, w.counter < env.maxVisited)]);
    var cands, k := Held(env.tuples, grantee), largest * |hyps|;
    if w'.counter <= env.maxVisited {
      ScanWork(env, hyps, cands, 0, depth, visited, w', Flags(false, false), largest);
      OneMorePaid(w.counter, k);
      Product(|cands|, largest, |hyps|);
    }
  }

  lemma OneMorePaid(n: nat, k: nat)
    ensures (n + 1) * k == n * k + k
  {}

  lemma Product(a: nat, b: nat, k: nat)
    requires a <= b
    ensures a * k <= b * k
  {}

  lemma {:induction false} ScanWork(env: Env, hyps: seq<Hypothesis>, cands: seq<Tuple>, j: nat, depth: nat,
                                    visited: set<Hash16>, w: Work, flags: Flags, largest: nat)
    requires j <= |hyps| && CallsOk(env, w) && AtMostHeld(env, largest)
    ensures var w' := Scan(env, hyps, cands, j, depth, visited, w, flags).1;
            && CallsOk(env, w')
            && Unpaid(env, largest * |hyps|, w') <= Unpaid(env, largest * |hyps|, w) + PairsLeft(hyps, cands, j)
    decreases env.maxDepth - depth, 1, |cands|, |hyps| - j
  {
    if cands == [] {
    } else if j == |hyps| {
      ScanWork(env, hyps, cands[1..], 0, depth, visited, w, flags, largest);
      OneMorePaid(|cands| - 1, |hyps|);
    } else {
      if hyps[j].Denies(cands[0]) || hyps[j].Allows(cands[0]) {
        AuthorityWork(env, cands[0].issuer, hyps, depth, visited, w, largest);
      }
      var (flags', w') := Consider(env, hyps, cands[0], j, depth, visited, w, flags);
      ScanWork(env, hyps, cands, j + 1, depth, visited, w', flags', largest);
    }
  }

  /** Evaluation ends on every delegation graph, cyclic ones included, within these
      bounds: at most maxVisited calls scan, calls nest at most maxDepth deep below the
      first, and each scanning call makes at most one call per candidate and hypothesis. */
  lemma WorkBounds(env: Env, grantee: Hash16, hyps: seq<Hypothesis>, largest: nat)
    requires AtMostHeld(env, largest)
    ensures var w := Evaluation(env, grantee, hyps).1;
            && |w.calls| == w.counter
            && (forall i :: 0 <= i < |w.calls| && w.calls[i].scanned ==> i < env.maxVisited)
            && (forall i :: 0 <= i < |w.calls| ==> w.calls[i].depth == 0 || w.calls[i].depth <= env.maxDepth)
            && w.counter <= 1 + WithinBudget(env, w.counter) * (largest * |hyps|)
            && (env.maxVisited >= 0 ==> w.counter <= 1 + env.maxVisited * (largest * |hyps|))
  {
    ResolveWork(env, hyps, grantee, 0, {}, FRESH, largest);
    var w := Evaluation(env, grantee, hyps).1;
    if env.maxVisited >= 0 {
      Product(WithinBudget(env, w.counter), env.maxVisited, largest * |hyps|);
    }
  }
}
