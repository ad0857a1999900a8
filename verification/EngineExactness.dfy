/** Exactness: if only roots demote admins, and within depth and budget, the memoised
    cycle-cut search decides plain reachability, so the order of tuples does not matter. */
module EngineExactness {
  import opened Basics
  import opened Policy
  import opened EngineSpec
  import opened EnginePaths
  import opened EngineSoundness
  import opened EngineBudget

  /** The plain rule: deny if a covering deny's issuer reaches a root by admin edges, else
      allow if a covering allow's issuer does. */
  ghost function Decision(env: Env, g: Hash16, hyps: seq<Hypothesis>): Resolution {
    if exists t :: DenyEdge(env, hyps, g, t) && Reaches(env, AdminAll(hyps), t.issuer) then Deny
    else if exists t :: AllowEdge(env, hyps, g, t) && Reaches(env, AdminAll(hyps), t.issuer) then Allow
    else Unresolved
  }

  ghost predicate ReachesWithin(env: Env, admin: seq<Hypothesis>, x: Hash16, n: int) {
    exists c :: Path(env, admin, x, c) && |c| <= n
  }

  lemma {:induction false} ChainIsPath(env: Env, admin: seq<Hypothesis>, x: Hash16, c: seq<Tuple>)
    requires AdminAll(admin) == admin && Chain(env, admin, x, c)
    ensures Reaches(env, admin, x)
    decreases |c|
  {
    if x in env.roots {
      assert Path(env, admin, x, []);
    } else if c[0].issuer in env.roots {
      assert Path(env, admin, x, [c[0]]);
    } else {
      ChainIsPath(env, admin, c[0].issuer, c[1..]);
      var p: seq<Tuple> :| Path(env, admin, c[0].issuer, p);
      assert ([c[0]] + p)[1..] == p;
      assert Path(env, admin, x, [c[0]] + p);
    }
  }

  lemma GroundedReaches(env: Env, hyps: seq<Hypothesis>, x: Hash16, known: set<Hash16>)
    requires AllChained(env, AdminAll(hyps), known) && Grounded(env, x, known)
    ensures Reaches(env, AdminAll(hyps), x)
  {
    AdminStable(hyps);
    if x in env.roots {
      assert Path(env, AdminAll(hyps), x, []);
    } else {
      assert Chained(env, AdminAll(hyps), x, known);
      var c: seq<Tuple> :| GoodChain(env, AdminAll(hyps), x, known, c);
      ChainIsPath(env, AdminAll(hyps), x, c);
    }
  }

  lemma {:induction false} ShortestPath(env: Env, admin: seq<Hypothesis>, x: Hash16, c: seq<Tuple>)
    returns (s: seq<Tuple>)
    requires Path(env, admin, x, c)
    ensures Path(env, admin, x, s) && |s| <= |c| && Farther(env, admin, x, |s| - 1)
    decreases |c|
  {
    if d: seq<Tuple> :| Path(env, admin, x, d) && |d| < |c| {
      s := ShortestPath(env, admin, x, d);
    } else {
      s := c;
    }
  }

  /** The shared work once the request itself has been counted. */
  function FirstWork(env: Env): Work {
    FRESH.(counter := FRESH.counter + 1, calls := FRESH.calls + [Call(0, FRESH.counter < env.maxVisited)])
  }

  function TopScan(env: Env, g: Hash16, hyps: seq<Hypothesis>): (Flags, Work) {
    Scan(env, hyps, Held(env.tuples, g), 0, 0, {}, FirstWork(env), Flags(false, false))
  }

  function Raised(flags: Flags, deny: bool): bool { if deny then flags.deny else flags.allow }

  lemma TopScanDecides(env: Env, g: Hash16, hyps: seq<Hypothesis>)
    requires env.maxVisited >= 1
    ensures Evaluation(env, g, hyps) == (TopScan(env, g, hyps).0.Resolve(), TopScan(env, g, hyps).1)
  {}

  /** A raised flag is justified by a reachable issuer. */
  lemma RaisedIsReachable(env: Env, g: Hash16, hyps: seq<Hypothesis>, deny: bool)
    requires Raised(TopScan(env, g, hyps).0, deny)
    ensures exists t :: Edge(env, hyps, g, deny, t) && Reaches(env, AdminAll(hyps), t.issuer)
  {
    hide Scan, Chained, GoodChain;
    var known := ScanSound(env, hyps, Held(env.tuples, g), 0, 0, {}, FirstWork(env), Flags(false, false), {});
    AllowBacked(env, hyps, g, TopScan(env, g, hyps).0, known);
    var t :| Edge(env, hyps, g, deny, t) && Grounded(env, t.issuer, known);
    GroundedReaches(env, hyps, t.issuer, known);
  }

  /** An issuer within reach raises its flag. */
  lemma ReachableIsRaised(env: Env, g: Hash16, hyps: seq<Hypothesis>, deny: bool, t: Tuple)
    requires OnlyRootsDemote(env, AdminAll(hyps))
    requires Evaluation(env, g, hyps).1.counter <= env.maxVisited
    requires Edge(env, hyps, g, deny, t) && ReachesWithin(env, AdminAll(hyps), t.issuer, env.maxDepth)
    ensures Raised(TopScan(env, g, hyps).0, deny)
  {
    var cands := Held(env.tuples, g);
    AheadAtStart(env, g, hyps, deny, t);
    var c: seq<Tuple> :| Path(env, AdminAll(hyps), t.issuer, c) && |c| <= env.maxDepth;
    var s := ShortestPath(env, AdminAll(hyps), t.issuer, c);
    TopScanDecides(env, g, hyps);
    hide Scan, Resolve, Path, Farther, Ahead, Edge, OnlyRootsDemote;
    ScanFinds(env, hyps, cands, 0, 0, {}, FirstWork(env), Flags(false, false), deny, t, s);
  }

  lemma AheadAtStart(env: Env, g: Hash16, hyps: seq<Hypothesis>, deny: bool, t: Tuple)
    requires Edge(env, hyps, g, deny, t)
    ensures Ahead(hyps, Held(env.tuples, g), 0, deny, t)
  {
    HeldMeans(env.tuples, g);
  }

  /** Every issuer of a tuple that answers the request and reaches a root at all does so
      within the depth bound. */
  ghost predicate ShallowEnough(env: Env, g: Hash16, hyps: seq<Hypothesis>) {
    forall t :: (AllowEdge(env, hyps, g, t) || DenyEdge(env, hyps, g, t)) && Reaches(env, AdminAll(hyps), t.issuer)
      ==> ReachesWithin(env, AdminAll(hyps), t.issuer, env.maxDepth)
  }

  /** If only roots demote and neither depth nor budget cuts the search, it decides exactly
      as the plain rule does. */
  lemma AffordedSearchIsExact(env: Env, g: Hash16, hyps: seq<Hypothesis>)
    requires OnlyRootsDemote(env, AdminAll(hyps)) && ShallowEnough(env, g, hyps)
    requires Evaluation(env, g, hyps).1.counter <= env.maxVisited
    ensures Evaluation(env, g, hyps).0 == Decision(env, g, hyps)
  {
    TopScanDecides(env, g, hyps);
    forall deny: bool
      ensures Raised(TopScan(env, g, hyps).0, deny) <==>
                exists t :: Edge(env, hyps, g, deny, t) && Reaches(env, AdminAll(hyps), t.issuer)
    {
      if Raised(TopScan(env, g, hyps).0, deny) {
        RaisedIsReachable(env, g, hyps, deny);
      } else if t :| Edge(env, hyps, g, deny, t) && Reaches(env, AdminAll(hyps), t.issuer) {
        ReachableIsRaised(env, g, hyps, deny, t);
      }
    }
    assert forall t :: Edge(env, hyps, g, true, t) <==> DenyEdge(env, hyps, g, t);
    assert forall t :: Edge(env, hyps, g, false, t) <==> AllowEdge(env, hyps, g, t);
    var flags := TopScan(env, g, hyps).0;
    assert Raised(flags, true) == flags.deny && Raised(flags, false) == flags.allow;
  }

  // ---- A depth bound that is always enough ----------------------------------------

  /** A tuple bearing on the request: it matches the request or grants admin over it. */
  ghost predicate Bears(hyps: seq<Hypothesis>, t: Tuple) {
    SomeAllows(hyps, t) || SomeDenies(hyps, t) || SomeAllows(AdminAll(hyps), t)
  }

  ghost function NonRootIssuers(env: Env, hyps: seq<Hypothesis>): set<Hash16> {
    set t | t in env.tuples && t.issuer !in env.roots && Bears(hyps, t) :: t.issuer
  }

  /** The holders along a path. */
  function Holders(c: seq<Tuple>): set<Hash16> {
    if c == [] then {} else {c[0].grantee} + Holders(c[1..])
  }

  /** A shortest path visits distinct non-root issuers, each one nearer to its root. */
  lemma {:induction false} ShortestIsSimple(env: Env, hyps: seq<Hypothesis>, x: Hash16, c: seq<Tuple>)
    requires Path(env, AdminAll(hyps), x, c) && Farther(env, AdminAll(hyps), x, |c| - 1)
    requires c != [] ==> x in NonRootIssuers(env, hyps)
    ensures |Holders(c)| == |c| && Holders(c) <= NonRootIssuers(env, hyps)
    ensures forall v :: v in Holders(c) ==> !Farther(env, AdminAll(hyps), v, |c|)
    decreases |c|
  {
    if c != [] {
      hide Farther;
      var y, rest := c[0].issuer, c[1..];
      NextIsNearer(env, AdminAll(hyps), x, c);
      ShortestIsSimple(env, hyps, y, rest);
      FartherFacts(env, AdminAll(hyps), x, c);
      forall v | v in Holders(rest)
        ensures v != x && !Farther(env, AdminAll(hyps), v, |c|)
      {
        FartherLess(env, AdminAll(hyps), v, |rest|, |c|);
      }
    }
  }

  lemma FartherFacts(env: Env, admin: seq<Hypothesis>, x: Hash16, c: seq<Tuple>)
    requires Path(env, admin, x, c)
    ensures !Farther(env, admin, x, |c|)
  {}

  lemma FartherLess(env: Env, admin: seq<Hypothesis>, v: Hash16, n: int, m: int)
    requires n <= m
    ensures Farther(env, admin, v, m) ==> Farther(env, admin, v, n)
  {}

  /** A depth bound no smaller than the number of distinct non-root issuers never cuts. */
  lemma DepthIsEnough(env: Env, g: Hash16, hyps: seq<Hypothesis>)
    requires env.maxDepth >= |NonRootIssuers(env, hyps)|
    ensures ShallowEnough(env, g, hyps)
  {
    forall t | (AllowEdge(env, hyps, g, t) || DenyEdge(env, hyps, g, t)) && Reaches(env, AdminAll(hyps), t.issuer)
      ensures ReachesWithin(env, AdminAll(hyps), t.issuer, env.maxDepth)
    {
      var c: seq<Tuple> :| Path(env, AdminAll(hyps), t.issuer, c);
      var s := ShortestPath(env, AdminAll(hyps), t.issuer, c);
      if s != [] {
        assert Bears(hyps, t);
      }
      ShortestIsSimple(env, hyps, t.issuer, s);
      SubsetSmaller(Holders(s), NonRootIssuers(env, hyps));
    }
  }

  /** The same under conditions that are read off the policy before the call. */
  lemma SearchIsExact(env: Env, g: Hash16, hyps: seq<Hypothesis>, b: nat)
    requires OnlyRootsDemote(env, AdminAll(hyps)) && env.maxDepth >= |NonRootIssuers(env, hyps)|
    requires AmpleBudget(env, hyps, b)
    ensures Evaluation(env, g, hyps).0 == Decision(env, g, hyps)
  {
    hide Evaluation, AmpleBudget, NonRootIssuers, OnlyRootsDemote, Decision, ShallowEnough;
    DepthIsEnough(env, g, hyps);
    BudgetIsEnough(env, g, hyps, b);
    AffordedSearchIsExact(env, g, hyps);
  }

  // ---- What an ALLOW is worth at any depth and budget ------------------------------

  /** Whatever depth, budget and order, an ALLOW is right by the plain rule exactly when no
      appointed admin who reaches a root denies the request. */
  lemma AllowIsRightExactly(env: Env, g: Hash16, hyps: seq<Hypothesis>)
    requires Allowed(env, g, hyps)
    ensures Decision(env, g, hyps) == Allow
            <==> forall t :: DenyEdge(env, hyps, g, t) && t.issuer !in env.roots ==>
                   !Reaches(env, AdminAll(hyps), t.issuer)
  {
    hide Evaluation, Chained, GoodChain, Reaches;
    forall t | DenyEdge(env, hyps, g, t)
      ensures t.issuer !in env.roots
    {
      if t.issuer in env.roots {
        RootDenyVetoes(env, g, hyps, t);
      }
    }
    AllowReaches(env, g, hyps);
  }

  lemma AllowReaches(env: Env, g: Hash16, hyps: seq<Hypothesis>)
    requires Allowed(env, g, hyps)
    ensures exists t :: AllowEdge(env, hyps, g, t) && Reaches(env, AdminAll(hyps), t.issuer)
  {
    hide Chained, GoodChain;
    var known := ResolveSound(env, hyps, g, 0, {}, FRESH, {});
    var t :| AllowEdge(env, hyps, g, t) && Grounded(env, t.issuer, known);
    GroundedReaches(env, hyps, t.issuer, known);
  }

  /** If only roots deny the request, no spent budget, depth cut or order can wrongly allow
      it. */
  lemma AllowIsSafe(env: Env, g: Hash16, hyps: seq<Hypothesis>)
    requires forall t :: DenyEdge(env, hyps, g, t) ==> t.issuer in env.roots
    ensures Allowed(env, g, hyps) ==> Decision(env, g, hyps) == Allow
  {
    hide Evaluation, Reaches, Decision;
    if Allowed(env, g, hyps) {
      AllowIsRightExactly(env, g, hyps);
    }
  }

  // ---- Order independence ----------------------------------------------------------

  /** The same tuples, listed in another order or with repetitions. */
  ghost predicate SameTuples(env: Env, env': Env) {
    env'.roots == env.roots && forall t :: t in env.tuples <==> t in env'.tuples
  }

  lemma {:induction false} SamePaths(env: Env, env': Env, admin: seq<Hypothesis>, x: Hash16, c: seq<Tuple>)
    requires SameTuples(env, env') && Path(env, admin, x, c)
    ensures Path(env', admin, x, c)
    decreases |c|
  {
    if c != [] {
      SamePaths(env, env', admin, c[0].issuer, c[1..]);
    }
  }

  lemma SameReach(env: Env, env': Env, admin: seq<Hypothesis>, x: Hash16)
    requires SameTuples(env, env')
    ensures Reaches(env, admin, x) <==> Reaches(env', admin, x)
  {
    if c :| Path(env, admin, x, c) {
      SamePaths(env, env', admin, x, c);
    }
    if c :| Path(env', admin, x, c) {
      SamePaths(env', env, admin, x, c);
    }
  }

  lemma RuleIgnoresOrder(env: Env, env': Env, g: Hash16, hyps: seq<Hypothesis>)
    requires SameTuples(env, env')
    ensures Decision(env, g, hyps) == Decision(env', g, hyps)
    ensures NonRootIssuers(env', hyps) == NonRootIssuers(env, hyps)
    ensures OnlyRootsDemote(env', AdminAll(hyps)) <==> OnlyRootsDemote(env, AdminAll(hyps))
  {
    forall x
      ensures Reaches(env, AdminAll(hyps), x) <==> Reaches(env', AdminAll(hyps), x)
    {
      SameReach(env, env', AdminAll(hyps), x);
    }
    assert forall t :: DenyEdge(env, hyps, g, t) <==> DenyEdge(env', hyps, g, t);
    assert forall t :: AllowEdge(env, hyps, g, t) <==> AllowEdge(env', hyps, g, t);
  }

  /** Within the exact fragment the answer does not depend on the order of the tuples; every
      condition is read off the policy before the call. */
  lemma OrderIrrelevant(env: Env, env': Env, g: Hash16, hyps: seq<Hypothesis>, b: nat, b': nat)
    requires SameTuples(env, env') && OnlyRootsDemote(env, AdminAll(hyps))
    requires |NonRootIssuers(env, hyps)| <= env.maxDepth && |NonRootIssuers(env, hyps)| <= env'.maxDepth
    requires AmpleBudget(env, hyps, b) && AmpleBudget(env', hyps, b')
    ensures Evaluation(env, g, hyps).0 == Evaluation(env', g, hyps).0 == Decision(env, g, hyps)
  {
    hide *;
    RuleIgnoresOrder(env, env', g, hyps);
    SearchIsExact(env, g, hyps, b);
    SearchIsExact(env', g, hyps, b');
  }
}
