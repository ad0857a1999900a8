/** The evaluation engine as functions: a depth-bounded, cycle-cut search through the
    delegation graph that threads one memo and one work counter through every branch. */
module EngineSpec {
  import opened Basics
  import opened Policy
  import opened Namespace

  /** One salt's view of the request, with that salt's hashes of the admin relation. */
  datatype Hypothesis = Hypothesis(
    saltTag: Hash16, objectHashes: seq<Hash16>,
    allowHash: Hash16, denyHash: Hash16, adminAllowHash: Hash16, adminDenyHash: Hash16)
  {
    function Admin(): Hypothesis {
      this.(allowHash := adminAllowHash, denyHash := adminDenyHash)
    }

    predicate Covering(t: Tuple) { Covers(t.objectHashes, t.wildcard, objectHashes) }

    predicate Denies(t: Tuple) { t.relationHash == denyHash && Covering(t) }

    predicate Allows(t: Tuple) {
      t.relationHash != denyHash && t.relationHash == allowHash && Covering(t)
    }
  }

  const ADMIN_RELATION := "admin"

  /** The hypothesis one salt's hasher makes of a plaintext request. */
  function HypothesisFor(hasher: Hasher, objectId: string, relation: string): Hypothesis {
    Hypothesis(hasher.IdTag(), hasher.HashObject(objectId).0,
               hasher.HashRelation(relation), hasher.HashRelation("-" + relation),
               hasher.HashRelation(ADMIN_RELATION), hasher.HashRelation("-" + ADMIN_RELATION))
  }

  function HypothesesFor(hashers: seq<Hasher>, objectId: string, relation: string): (hyps: seq<Hypothesis>)
    ensures |hyps| == |hashers|
    ensures forall i :: 0 <= i < |hashers| ==> hyps[i] == HypothesisFor(hashers[i], objectId, relation)
  {
    seq(|hashers|, i requires 0 <= i < |hashers| => HypothesisFor(hashers[i], objectId, relation))
  }

  /** The same object under the reserved admin relation. */
  function AdminAll(hyps: seq<Hypothesis>): (admin: seq<Hypothesis>)
    ensures |admin| == |hyps|
    ensures forall i :: 0 <= i < |hyps| ==> admin[i] == hyps[i].Admin()
  {
    seq(|hyps|, i requires 0 <= i < |hyps| => hyps[i].Admin())
  }

  type ObjectKey = seq<(Hash16, seq<Hash16>)>

  function ObjectKeyOf(hyps: seq<Hypothesis>): (key: ObjectKey)
    ensures |key| == |hyps|
    ensures forall i :: 0 <= i < |hyps| ==> key[i] == (hyps[i].saltTag, hyps[i].objectHashes)
  {
    seq(|hyps|, i requires 0 <= i < |hyps| => (hyps[i].saltTag, hyps[i].objectHashes))
  }

  /** Recursion keeps the object and stays within the admin relation. */
  lemma AdminStable(hyps: seq<Hypothesis>)
    ensures AdminAll(AdminAll(hyps)) == AdminAll(hyps)
    ensures ObjectKeyOf(AdminAll(hyps)) == ObjectKeyOf(hyps)
  {}

  datatype Env = Env(roots: set<Hash16>, tuples: seq<Tuple>, maxDepth: int, maxVisited: int)

  /** The active tuples held by one grantee, in state order. */
  function Held(tuples: seq<Tuple>, grantee: Hash16): seq<Tuple> {
    if tuples == [] then []
    else
      var before, last := Held(tuples[..|tuples| - 1], grantee), tuples[|tuples| - 1];
      if last.grantee == grantee then before + [last] else before
  }

  /** One resolve call: how deep it was, and whether it got to scan its candidates. */
  datatype Call = Call(depth: nat, scanned: bool)

  /** What one evaluation shares across branches.  `calls` records the resolve calls made
      so far, in order; the search never consults it. */
  datatype Work = Work(memo: map<(Hash16, ObjectKey), bool>, counter: nat, calls: seq<Call>)

  const FRESH := Work(map[], 0, [])

  /** Only positive answers are ever cached. */
  ghost predicate AllTrue(w: Work) {
    forall key :: key in w.memo ==> w.memo[key]
  }

  datatype Resolution = Deny | Allow | Unresolved

  datatype Flags = Flags(deny: bool, allow: bool) {
    function Resolve(): Resolution {
      if deny then Deny else if allow then Allow else Unresolved
    }
  }

  /** May the issuer delegate on the hypothesized object? */
  function Authority(env: Env, issuer: Hash16, hyps: seq<Hypothesis>, depth: nat, visited: set<Hash16>, w: Work)
    : (r: (bool, Work))
    ensures r.1.counter >= w.counter
    ensures AllTrue(w) ==> AllTrue(r.1)
    decreases env.maxDepth - depth, 0, 0, 0
  {
    if issuer in env.roots then (true, w)
    else
      var key := (issuer, ObjectKeyOf(hyps));
      if key in w.memo then (w.memo[key], w)
      else if depth >= env.maxDepth then (false, w)
      else if issuer in visited then (false, w)
      else
        var (res, w') := Resolve(env, AdminAll(hyps), issuer, depth + 1, visited + {issuer}, w);
        if res.Allow? then (true, w'.(memo := w'.memo[key := true])) else (false, w')
  }

  function Resolve(env: Env, hyps: seq<Hypothesis>, grantee: Hash16, depth: nat, visited: set<Hash16>, w: Work)
    : (r: (Resolution, Work))
    ensures r.1.counter > w.counter
    ensures AllTrue(w) ==> AllTrue(r.1)
    decreases env.maxDepth - depth, 2, 0, 0
  {
    var w' := w.(counter := w.counter + 1, calls := w.calls + [Call(depth, w.counter < env.maxVisited)]);
    if w'.counter > env.maxVisited then (Unresolved, w')
    else
      var (flags, w'') := Scan(env, hyps, Held(env.tuples, grantee), 0, depth, visited, w', Flags(false, false));
      (flags.Resolve(), w'')
  }

  /** Go through the candidates, for each through the hypotheses from j on. */
  function Scan(env: Env, hyps: seq<Hypothesis>, cands: seq<Tuple>, j: nat, depth: nat,
                visited: set<Hash16>, w: Work, flags: Flags)
    : (r: (Flags, Work))
    requires j <= |hyps|
    ensures r.1.counter >= w.counter
    ensures AllTrue(w) ==> AllTrue(r.1)
    decreases env.maxDepth - depth, 1, |cands|, |hyps| - j
  {
    if cands == [] then (flags, w)
    else if j == |hyps| then Scan(env, hyps, cands[1..], 0, depth, visited, w, flags)
    else
      var (flags', w') := Consider(env, hyps, cands[0], j, depth, visited, w, flags);
      Scan(env, hyps, cands, j + 1, depth, visited, w', flags')
  }

  /** Weigh one candidate under one hypothesis. */
  function Consider(env: Env, hyps: seq<Hypothesis>, cand: Tuple, j: nat, depth: nat,
                    visited: set<Hash16>, w: Work, flags: Flags)
    : (r: (Flags, Work))
    requires j < |hyps|
    ensures r.1.counter >= w.counter
    ensures AllTrue(w) ==> AllTrue(r.1)
    decreases env.maxDepth - depth, 1, 0, 0
  {
    if hyps[j].Denies(cand) then
      var (ok, w') := Authority(env, cand.issuer, hyps, depth, visited, w);
      (flags.(deny := flags.deny || ok), w')
    else if hyps[j].Allows(cand) then
      var (ok, w') := Authority(env, cand.issuer, hyps, depth, visited, w);
      (flags.(allow := flags.allow || ok), w')
    else (flags, w)
  }

  /** The outcome of a whole request. */
  function Evaluation(env: Env, grantee: Hash16, hyps: seq<Hypothesis>): (Resolution, Work) {
    Resolve(env, hyps, grantee, 0, {}, FRESH)
  }

  predicate Allowed(env: Env, grantee: Hash16, hyps: seq<Hypothesis>) {
    Evaluation(env, grantee, hyps).0.Allow?
  }

  lemma {:induction false} HeldMeans(tuples: seq<Tuple>, grantee: Hash16)
    ensures forall t :: t in Held(tuples, grantee) <==> t in tuples && t.grantee == grantee
    ensures |Held(tuples, grantee)| <= |tuples|
  {
    if tuples != [] {
      HeldMeans(tuples[..|tuples| - 1], grantee);
      assert tuples == tuples[..|tuples| - 1] + [tuples[|tuples| - 1]];
    }
  }

  lemma {:induction false} HeldNone(tuples: seq<Tuple>, grantee: Hash16)
    requires forall t :: t in tuples ==> t.grantee != grantee
    ensures Held(tuples, grantee) == []
  {
    if tuples != [] {
      HeldNone(tuples[..|tuples| - 1], grantee);
    }
  }
}
