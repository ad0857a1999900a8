/** Unrelated policy is invisible: a two-run simulation with and without it. */
module EngineRelevance {
  import opened Basics
  import opened Policy
  import opened EngineSpec

  /** The tuple matches a request or admin hash of some hypothesis on its object. */
  predicate Relevant(hyps: seq<Hypothesis>, t: Tuple) {
    exists i :: 0 <= i < |hyps| && Related(hyps[i], t)
  }

  predicate Related(h: Hypothesis, t: Tuple) {
    h.Covering(t) && t.relationHash in {h.allowHash, h.denyHash, h.adminAllowHash, h.adminDenyHash}
  }

  function RelevantOnly(hyps: seq<Hypothesis>, tuples: seq<Tuple>): seq<Tuple> {
    if tuples == [] then []
    else
      var before, last := RelevantOnly(hyps, tuples[..|tuples| - 1]), tuples[|tuples| - 1];
      if Relevant(hyps, last) then before + [last] else before
  }

  lemma {:induction false} HeldRelevant(hyps: seq<Hypothesis>, tuples: seq<Tuple>, g: Hash16)
    ensures Held(RelevantOnly(hyps, tuples), g) == RelevantOnly(hyps, Held(tuples, g))
  {
    if tuples != [] {
      var before, last := tuples[..|tuples| - 1], tuples[|tuples| - 1];
      HeldRelevant(hyps, before, g);
      var kept, held := RelevantOnly(hyps, before), Held(before, g);
      assert (kept + [last])[..|kept|] == kept;
      assert (held + [last])[..|held|] == held;
    }
  }

  lemma {:induction false} RelevantCons(hyps: seq<Hypothesis>, t: Tuple, rest: seq<Tuple>)
    ensures RelevantOnly(hyps, [t] + rest) == (if Relevant(hyps, t) then [t] else []) + RelevantOnly(hyps, rest)
  {
    if rest == [] {
      assert ([t] + rest)[..0] == [];
    } else {
      RelevantCons(hyps, t, rest[..|rest| - 1]);
      assert ([t] + rest)[..|rest|] == [t] + rest[..|rest| - 1];
    }
  }

  /** Hypotheses that recursion can reach: the request's own, or their admin forms. */
  ghost predicate Derived(request: seq<Hypothesis>, hyps: seq<Hypothesis>) {
    hyps == request || hyps == AdminAll(request)
  }

  lemma IrrelevantMatchesNothing(request: seq<Hypothesis>, hyps: seq<Hypothesis>, t: Tuple)
    requires Derived(request, hyps) && !Relevant(request, t)
    ensures forall i :: 0 <= i < |hyps| ==> !hyps[i].Denies(t) && !hyps[i].Allows(t)
  {
    forall i | 0 <= i < |hyps|
      ensures !hyps[i].Denies(t) && !hyps[i].Allows(t)
    {
      assert !Related(request[i], t);
    }
  }

  lemma {:induction false} SkipCandidate(env: Env, hyps: seq<Hypothesis>, cands: seq<Tuple>, j: nat, depth: nat,
                                         visited: set<Hash16>, w: Work, flags: Flags)
    requires j <= |hyps| && cands != []
    requires forall i :: 0 <= i < |hyps| ==> !hyps[i].Denies(cands[0]) && !hyps[i].Allows(cands[0])
    ensures Scan(env, hyps, cands, j, depth, visited, w, flags)
            == Scan(env, hyps, cands[1..], 0, depth, visited, w, flags)
    decreases |hyps| - j
  {
    if j < |hyps| {
      SkipCandidate(env, hyps, cands, j + 1, depth, visited, w, flags);
    }
  }

  /** The same environment with the unrelated tuples removed. */
  function Trimmed(env: Env, request: seq<Hypothesis>): Env {
    env.(tuples := RelevantOnly(request, env.tuples))
  }

  lemma {:induction false} AuthoritySame(env: Env, request: seq<Hypothesis>, issuer: Hash16, hyps: seq<Hypothesis>,
                                         depth: nat, visited: set<Hash16>, w: Work)
    requires Derived(request, hyps)
    ensures Authority(Trimmed(env, request), issuer, hyps, depth, visited, w)
            == Authority(env, issuer, hyps, depth, visited, w)
    decreases env.maxDepth - depth, 0, 0, 0
  {
    if issuer !in env.roots && (issuer, ObjectKeyOf(hyps)) !in w.memo
       && depth < env.maxDepth && issuer !in visited {
      AdminStable(request);
      ResolveSame(env, request, AdminAll(hyps), issuer, depth + 1, visited + {issuer}, w);
    }
  }

  lemma {:induction false} ResolveSame(env: Env, request: seq<Hypothesis>, hyps: seq<Hypothesis>, g: Hash16,
                                       depth: nat, visited: set<Hash16>, w: Work)
    requires Derived(request, hyps)
    ensures Resolve(Trimmed(env, request), hyps, g, depth, visited, w)
            == Resolve(env, hyps, g, depth, visited, w)
    decreases env.maxDepth - depth, 2, 0, 0
  {
    var w' := w.(counter := w.counter + 1, calls := w.calls + [Call(depth, w.counter < env.maxVisited)]);
    if w'.counter <= env.maxVisited {
      HeldRelevant(request, env.tuples, g);
      ScanSame(env, request, hyps, Held(env.tuples, g), 0, depth, visited, w', Flags(false, false));
    }
  }

  /** Scanning only the relevant candidates, from the corresponding position, does the same. */
  lemma {:induction false} ScanSame(env: Env, request: seq<Hypothesis>, hyps: seq<Hypothesis>, cands: seq<Tuple>,
                                    j: nat, depth: nat, visited: set<Hash16>, w: Work, flags: Flags)
    requires Derived(request, hyps) && j <= |hyps|
    requires j > 0 ==> cands != [] && Relevant(request, cands[0])
    ensures Scan(Trimmed(env, request), hyps, RelevantOnly(request, cands), j, depth, visited, w, flags)
            == Scan(env, hyps, cands, j, depth, visited, w, flags)
    decreases env.maxDepth - depth, 1, |cands|, |hyps| - j
  {
    if cands == [] {
    } else {
      var kept := RelevantOnly(request, cands);
      hide Relevant, Derived, RelevantOnly;
      assert cands == [cands[0]] + cands[1..];
      RelevantCons(request, cands[0], cands[1..]);
      if !Relevant(request, cands[0]) {
        assert kept == RelevantOnly(request, cands[1..]);
        IrrelevantMatchesNothing(request, hyps, cands[0]);
        SkipCandidate(env, hyps, cands, 0, depth, visited, w, flags);
        ScanSame(env, request, hyps, cands[1..], 0, depth, visited, w, flags);
      } else if j == |hyps| {
        assert kept[1..] == RelevantOnly(request, cands[1..]);
        ScanSame(env, request, hyps, cands[1..], 0, depth, visited, w, flags);
      } else {
        if hyps[j].Denies(cands[0]) || hyps[j].Allows(cands[0]) {
          AuthoritySame(env, request, cands[0].issuer, hyps, depth, visited, w);
        }
        var (flags', w') := Consider(env, hyps, cands[0], j, depth, visited, w, flags);
        ScanSame(env, request, hyps, cands, j + 1, depth, visited, w', flags');
      }
    }
  }

  /** Removing every unrelated tuple changes neither the verdict, nor the counter, nor a
      single call of the search: unrelated policy never spends the shared budget. */
  lemma UnrelatedPolicyIsInvisible(env: Env, g: Hash16, hyps: seq<Hypothesis>)
    ensures Evaluation(Trimmed(env, hyps), g, hyps) == Evaluation(env, g, hyps)
  {
    ResolveSame(env, hyps, hyps, g, 0, {}, FRESH);
  }
}
