/** The engine as it runs: a recursive search over mutable index, memo and counter. */
module Engines {
  import opened Basics
  import opened Policy
  import opened Namespace
  import opened Crdt
  import opened StateVectors
  import opened EngineSpec
  import EngineText

  class Engine {
    const roots: set<Hash16>
    const hashers: seq<Hasher>
    const state: StateVector
    const maxDepth: int
    const maxVisited: int

    var index: map<Hash16, seq<Tuple>>
    var memo: map<(Hash16, ObjectKey), bool>
    var counter: nat
    ghost var calls: seq<Call>

    constructor (roots: set<Hash16>, hashers: seq<Hasher>, state: StateVector, maxDepth: int, maxVisited: int)
      ensures this.roots == roots && this.hashers == hashers && this.state == state
      ensures this.maxDepth == maxDepth && this.maxVisited == maxVisited
    {
      this.roots, this.hashers, this.state := roots, hashers, state;
      this.maxDepth, this.maxVisited := maxDepth, maxVisited;
      index, memo, counter, calls := map[], map[], 0, [];
    }

    function Env(tuples: seq<Tuple>): Env {
      EngineSpec.Env(roots, tuples, maxDepth, maxVisited)
    }

    ghost function Shared(): Work
      reads this
    {
      Work(memo, counter, calls)
    }

    /** The index lists, per grantee, the tuples it holds, in state order. */
    ghost predicate Indexed(tuples: seq<Tuple>)
      reads this
    {
      && (forall t :: t in tuples ==> t.grantee in index)
      && (forall g :: g in index ==> index[g] == Held(tuples, g))
    }

    method Evaluate(objectId: string, relation: string, grantee: Hash16) returns (allowed: bool)
      requires state.Valid()
      modifies this
      ensures allowed <==>
                Allowed(Env(ActiveTuples(state.entries)), grantee, HypothesesFor(hashers, objectId, relation))
      ensures forall rules :: var env, book := Env(ActiveTuples(state.entries)), EngineText.Book(roots, hashers, rules);
                EngineText.Keeps(env, book) && book.Clear(objectId, relation) ==>
                  EngineText.Answers(env, book, objectId, relation, grantee, allowed)
    {
      var hyps: seq<Hypothesis> := [];
      for n := 0 to |hashers|
        invariant state.Valid() && state.entries == old(state.entries)
        invariant hyps == HypothesesFor(hashers, objectId, relation)[..n]
      {
        hyps := hyps + [HypothesisFor(hashers[n], objectId, relation)];
      }
      assert hyps == HypothesesFor(hashers, objectId, relation);
      allowed := EvaluateHashes(grantee, hyps);
      ghost var env := Env(ActiveTuples(state.entries));
      forall rules | EngineText.Keeps(env, EngineText.Book(roots, hashers, rules))
                     && EngineText.Book(roots, hashers, rules).Clear(objectId, relation)
        ensures EngineText.Answers(env, EngineText.Book(roots, hashers, rules), objectId, relation, grantee, allowed)
      {
        EngineText.EvaluationAnswers(env, EngineText.Book(roots, hashers, rules), objectId, relation, grantee);
      }
    }

    method EvaluateHashes(grantee: Hash16, hyps: seq<Hypothesis>) returns (allowed: bool)
      requires state.Valid()
      modifies this
      ensures allowed <==> Allowed(Env(ActiveTuples(state.entries)), grantee, hyps)
      ensures Shared() == Evaluation(Env(ActiveTuples(state.entries)), grantee, hyps).1
    {
      var active := state.Active();
      IndexByGrantee(active);
      memo, counter, calls := map[], 0, [];
      var resolution := Resolve(active, hyps, grantee, 0, {});
      return resolution.Allow?;
    }

    method IndexByGrantee(tuples: seq<Tuple>)
      modifies this`index
      ensures Indexed(tuples)
    {
      index := map[];
      for n := 0 to |tuples|
        invariant Indexed(tuples[..n])
      {
        var t := tuples[n];
        assert tuples[..n + 1][..n] == tuples[..n] && tuples[..n + 1][n] == t;
        if t.grantee !in index {
          HeldNone(tuples[..n], t.grantee);
          index := index[t.grantee := [t]];
        } else {
          index := index[t.grantee := index[t.grantee] + [t]];
        }
      }
      assert tuples[..|tuples|] == tuples;
    }

    method Authority(ghost tuples: seq<Tuple>, issuer: Hash16, hyps: seq<Hypothesis>, depth: nat, visited: set<Hash16>)
      returns (ok: bool)
      requires Indexed(tuples)
      modifies this`memo, this`counter, this`calls
      ensures (ok, Shared()) == EngineSpec.Authority(Env(tuples), issuer, hyps, depth, visited, old(Shared()))
      decreases maxDepth - depth, 0
    {
      if issuer in roots {
        return true;
      }
      var key := (issuer, ObjectKeyOf(hyps));
      if key in memo {
        return memo[key];
      }
      if depth >= maxDepth {
        return false;
      }
      if issuer in visited {
        return false;
      }
      var res := Resolve(tuples, AdminAll(hyps), issuer, depth + 1, visited + {issuer});
      ok := res.Allow?;
      if ok {
        memo := memo[key := true];
      }
    }

    method Resolve(ghost tuples: seq<Tuple>, hyps: seq<Hypothesis>, grantee: Hash16, depth: nat, visited: set<Hash16>)
      returns (res: Resolution)
      requires Indexed(tuples)
      modifies this`memo, this`counter, this`calls
      ensures (res, Shared()) == EngineSpec.Resolve(Env(tuples), hyps, grantee, depth, visited, old(Shared()))
      decreases maxDepth - depth, 1
    {
      hide EngineSpec.Authority, Held, Position, ActiveTuples;
      calls := calls + [Call(depth, counter < maxVisited)];
      counter := counter + 1;
      if counter > maxVisited {
        return Unresolved;
      }
      var cands := if grantee in index then index[grantee] else [];
      if grantee !in index {
        HeldNone(tuples, grantee);
      }
      var denyValid, allowValid := false, false;
      label begin:
      for i := 0 to |cands|
        invariant Scan(Env(tuples), hyps, cands[i..], 0, depth, visited, Shared(), Flags(denyValid, allowValid))
                  == old@begin(Scan(Env(tuples), hyps, cands, 0, depth, visited, Shared(), Flags(false, false)))
      {
        var candidate := cands[i];
        assert cands[i..][0] == candidate && cands[i..][1..] == cands[i + 1..];
        for j := 0 to |hyps|
          invariant Scan(Env(tuples), hyps, cands[i..], j, depth, visited, Shared(), Flags(denyValid, allowValid))
                    == old@begin(Scan(Env(tuples), hyps, cands, 0, depth, visited, Shared(), Flags(false, false)))
        {
          if candidate.relationHash == hyps[j].denyHash {
            if Covers(candidate.objectHashes, candidate.wildcard, hyps[j].objectHashes) {
              var ok := Authority(tuples, candidate.issuer, hyps, depth, visited);
              if ok {
                denyValid := true;
              }
            }
          } else if candidate.relationHash == hyps[j].allowHash {
            if Covers(candidate.objectHashes, candidate.wildcard, hyps[j].objectHashes) {
              var ok := Authority(tuples, candidate.issuer, hyps, depth, visited);
              if ok {
                allowValid := true;
              }
            }
          }
        }
      }
      if denyValid {
        return Deny;
      }
      if allowValid {
        return Allow;
      }
      return Unresolved;
    }
  }
}
