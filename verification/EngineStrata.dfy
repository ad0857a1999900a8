/** Demotions by appointed admins: if no one's demotion depends on itself, the memoised
    cycle-cut search decides the stratified rule, in which a demotion counts exactly when
    the demoter has authority. */
module EngineStrata {
  import opened Basics
  import opened Policy
  import opened EngineSpec
  import opened EngineWork
  import opened EnginePaths
  import opened EngineRelevance
  import opened EngineBudget
  import opened EngineExactness
  import EngineSoundness

  type Ranking = Hash16 -> nat

  /** Among those who are no roots, admins are appointed from their own level or below, and
      demoted from below. */
  ghost predicate Stratified(env: Env, admin: seq<Hypothesis>, level: Ranking) {
    forall t :: t in env.tuples && t.issuer !in env.roots && t.grantee !in env.roots ==>
      && (SomeAllows(admin, t) ==> level(t.issuer) <= level(t.grantee))
      && (SomeDenies(admin, t) ==> level(t.issuer) < level(t.grantee))
  }

  /** Admin edges from x to the first root, through holders whom no one with authority has
      demoted. */
  ghost predicate Leads(env: Env, admin: seq<Hypothesis>, level: Ranking, x: Hash16, c: seq<Tuple>)
    requires Stratified(env, admin, level)
    decreases level(x), 0, |c|
  {
    && c != [] && x !in env.roots && NotDemoted(env, admin, level, x) && AllowEdge(env, admin, x, c[0])
    && if c[0].issuer in env.roots then |c| == 1 else Leads(env, admin, level, c[0].issuer, c[1..])
  }

  ghost predicate NotDemoted(env: Env, admin: seq<Hypothesis>, level: Ranking, x: Hash16)
    requires Stratified(env, admin, level) && x !in env.roots
    decreases level(x), 0, 0
  {
    forall t :: DenyEdge(env, admin, x, t) ==>
      t.issuer !in env.roots && !Authorised(env, admin, level, t.issuer)
  }

  ghost predicate Authorised(env: Env, admin: seq<Hypothesis>, level: Ranking, x: Hash16)
    requires Stratified(env, admin, level)
    decreases level(x), 1, 0
  {
    x in env.roots || exists c :: Leads(env, admin, level, x, c)
  }

  /** The stratified rule for a request. */
  ghost function StratifiedDecision(env: Env, g: Hash16, hyps: seq<Hypothesis>, level: Ranking): Resolution
    requires Stratified(env, AdminAll(hyps), level)
  {
    if exists t :: DenyEdge(env, hyps, g, t) && Authorised(env, AdminAll(hyps), level, t.issuer) then Deny
    else if exists t :: AllowEdge(env, hyps, g, t) && Authorised(env, AdminAll(hyps), level, t.issuer) then Allow
    else Unresolved
  }

  /** Authority as the documents put it: a root has it, and so does whoever no one with
      authority has demoted and someone with authority has appointed. */
  lemma AuthorisedRule(env: Env, admin: seq<Hypothesis>, level: Ranking, x: Hash16)
    requires Stratified(env, admin, level)
    ensures Authorised(env, admin, level, x) <==>
              (x in env.roots ||
               (&& !(exists t :: DenyEdge(env, admin, x, t) && Authorised(env, admin, level, t.issuer))
                && exists t :: AllowEdge(env, admin, x, t) && Authorised(env, admin, level, t.issuer)))
  {
    if x !in env.roots {
      assert NotDemoted(env, admin, level, x) <==>
             !(exists t :: DenyEdge(env, admin, x, t) && Authorised(env, admin, level, t.issuer));
      if c: seq<Tuple> :| Leads(env, admin, level, x, c) {
        assert AllowEdge(env, admin, x, c[0]) && Authorised(env, admin, level, c[0].issuer);
      }
      if t :| AllowEdge(env, admin, x, t) && Authorised(env, admin, level, t.issuer) {
        if NotDemoted(env, admin, level, x) {
          Appointed(env, admin, level, x, t);
        }
      }
    }
  }

  lemma Appointed(env: Env, admin: seq<Hypothesis>, level: Ranking, x: Hash16, t: Tuple)
    requires Stratified(env, admin, level) && x !in env.roots && NotDemoted(env, admin, level, x)
    requires AllowEdge(env, admin, x, t) && Authorised(env, admin, level, t.issuer)
    ensures Authorised(env, admin, level, x)
  {
    if t.issuer in env.roots {
      assert Leads(env, admin, level, x, [t]);
    } else {
      var c: seq<Tuple> :| Leads(env, admin, level, t.issuer, c);
      assert ([t] + c)[1..] == c;
      assert Leads(env, admin, level, x, [t] + c);
    }
  }

  // ---- Who can be found while others are being resolved ----------------------------

  ghost predicate Beyond(env: Env, admin: seq<Hypothesis>, level: Ranking, x: Hash16, n: int)
    requires Stratified(env, admin, level)
  {
    forall c :: Leads(env, admin, level, x, c) ==> |c| > n
  }

  /** A shortest path from x, and everyone being resolved is above x or farther off. */
  ghost predicate Nearest(env: Env, admin: seq<Hypothesis>, level: Ranking, x: Hash16, c: seq<Tuple>,
                          visited: set<Hash16>)
    requires Stratified(env, admin, level)
  {
    && Leads(env, admin, level, x, c) && Beyond(env, admin, level, x, |c| - 1)
    && forall v :: v in visited ==> level(v) > level(x) || Beyond(env, admin, level, v, |c|)
  }

  ghost predicate Found(env: Env, admin: seq<Hypothesis>, level: Ranking, x: Hash16, visited: set<Hash16>)
    requires Stratified(env, admin, level)
  {
    x in env.roots || exists c :: Nearest(env, admin, level, x, c, visited)
  }

  lemma {:induction false} ShortestLead(env: Env, admin: seq<Hypothesis>, level: Ranking, x: Hash16, c: seq<Tuple>)
    returns (s: seq<Tuple>)
    requires Stratified(env, admin, level) && Leads(env, admin, level, x, c)
    ensures Leads(env, admin, level, x, s) && Beyond(env, admin, level, x, |s| - 1)
    decreases |c|
  {
    hide Leads, Stratified;
    if d: seq<Tuple> :| Leads(env, admin, level, x, d) && |d| < |c| {
      s := ShortestLead(env, admin, level, x, d);
    } else {
      s := c;
    }
  }

  /** Whoever has authority below everyone being resolved can be found. */
  lemma LowerIsFound(env: Env, admin: seq<Hypothesis>, level: Ranking, x: Hash16, visited: set<Hash16>)
    requires Stratified(env, admin, level) && Authorised(env, admin, level, x)
    requires x in env.roots || forall v :: v in visited ==> level(v) > level(x)
    ensures Found(env, admin, level, x, visited)
  {
    hide Leads, Stratified, Beyond;
    if x !in env.roots {
      var c: seq<Tuple> :| Leads(env, admin, level, x, c);
      var s := ShortestLead(env, admin, level, x, c);
      assert Nearest(env, admin, level, x, s, visited);
    }
  }

  /** Along a shortest path the next issuer can be found, too. */
  lemma {:induction false} NextIsFound(env: Env, admin: seq<Hypothesis>, level: Ranking, x: Hash16, c: seq<Tuple>, visited: set<Hash16>)
    requires Stratified(env, admin, level) && Nearest(env, admin, level, x, c, visited)
    ensures c != [] && x !in visited && x !in env.roots
    ensures NotDemoted(env, admin, level, x) && AllowEdge(env, admin, x, c[0])
    ensures Found(env, admin, level, c[0].issuer, visited + {x})
  {
    var y, rest := c[0].issuer, c[1..];
    if y !in env.roots {
      forall p | Leads(env, admin, level, y, p)
        ensures |p| > |rest| - 1
      {
        var longer := [c[0]] + p;
        assert longer[1..] == p;
        assert Leads(env, admin, level, x, longer);
      }
      assert Nearest(env, admin, level, y, rest, visited + {x});
    }
  }

  // ---- Depth -----------------------------------------------------------------------

  ghost predicate Descends(env: Env, admin: seq<Hypothesis>, height: Ranking) {
    forall t :: t in env.tuples && t.issuer !in env.roots && t.grantee !in env.roots ==>
      (SomeAllows(admin, t) || SomeDenies(admin, t)) ==> height(t.issuer) < height(t.grantee)
  }

  /** The depth bound cuts nothing: there are no more issuers than levels, or every chain of
      issuers is short enough. */
  ghost predicate DeepEnough(env: Env, request: seq<Hypothesis>, height: Ranking) {
    || |Involved(env, request)| <= env.maxDepth
    || (&& Descends(env, AdminAll(request), height)
        && forall x :: x in Involved(env, request) ==> height(x) < env.maxDepth)
  }

  ghost predicate DepthLeft(env: Env, request: seq<Hypothesis>, height: Ranking, depth: nat, visited: set<Hash16>,
                            x: Hash16)
  {
    || (|Involved(env, request)| <= env.maxDepth && visited <= Involved(env, request) && depth <= |visited|)
    || (Descends(env, AdminAll(request), height) && height(x) + depth < env.maxDepth)
  }

  lemma NotCut(env: Env, request: seq<Hypothesis>, height: Ranking, depth: nat, visited: set<Hash16>, x: Hash16)
    requires x in Involved(env, request) && x !in visited && DepthLeft(env, request, height, depth, visited, x)
    ensures depth < env.maxDepth
  {
    hide Descends, Involved;
    if visited <= Involved(env, request) && depth <= |visited| {
      EngineSoundness.SubsetSmaller(visited + {x}, Involved(env, request));
    }
  }

  lemma DepthLeftNext(env: Env, request: seq<Hypothesis>, height: Ranking, depth: nat, visited: set<Hash16>, x: Hash16,
                      t: Tuple)
    requires x in Involved(env, request) && x !in visited && DepthLeft(env, request, height, depth, visited, x)
    requires x !in env.roots && t.issuer !in env.roots
    requires AllowEdge(env, AdminAll(request), x, t) || DenyEdge(env, AdminAll(request), x, t)
    ensures DepthLeft(env, request, height, depth + 1, visited + {x}, t.issuer)
  {
    hide Involved;
  }

  // ---- The search ------------------------------------------------------------------

  /** What is remembered about this request's object is that someone has authority, and
      they do. */
  ghost predicate MemoRight(env: Env, admin: seq<Hypothesis>, level: Ranking, w: Work)
    requires Stratified(env, admin, level)
  {
    forall key :: key in w.memo ==>
      w.memo[key] && (key.1 == ObjectKeyOf(admin) ==> Authorised(env, admin, level, key.0))
  }

  /** The issuer of a candidate may be asked for at this point. */
  ghost predicate Askable(env: Env, request: seq<Hypothesis>, level: Ranking, height: Ranking, depth: nat,
                          visited: set<Hash16>, x: Hash16)
  {
    x in env.roots ||
    (&& x in Involved(env, request) && DepthLeft(env, request, height, depth, visited, x)
     && forall v :: v in visited ==> level(v) >= level(x))
  }

  ghost predicate AllAskable(env: Env, request: seq<Hypothesis>, hyps: seq<Hypothesis>, level: Ranking, height: Ranking,
                             cands: seq<Tuple>, depth: nat, visited: set<Hash16>)
  {
    forall t :: t in cands && (SomeAllows(hyps, t) || SomeDenies(hyps, t)) ==>
      Askable(env, request, level, height, depth, visited, t.issuer)
  }

  /** A raised flag rests on a candidate whose issuer has authority. */
  ghost predicate Backed(env: Env, admin: seq<Hypothesis>, hyps: seq<Hypothesis>, level: Ranking, cands: seq<Tuple>,
                         before: bool, after: bool, deny: bool)
    requires Stratified(env, admin, level)
  {
    after && !before ==>
      exists t :: t in cands && Hit(hyps, deny, t) && Authorised(env, admin, level, t.issuer)
  }

  ghost predicate Hit(hyps: seq<Hypothesis>, deny: bool, t: Tuple) {
    if deny then SomeDenies(hyps, t) else SomeAllows(hyps, t)
  }

  ghost predicate Complete(env: Env, admin: seq<Hypothesis>, hyps: seq<Hypothesis>, level: Ranking, cands: seq<Tuple>,
                           j: nat, visited: set<Hash16>, flags: Flags)
    requires Stratified(env, admin, level)
  {
    forall deny: bool, t :: Ahead(hyps, cands, j, deny, t) && Found(env, admin, level, t.issuer, visited) ==>
      Raised(flags, deny)
  }

  ghost predicate Setting(env: Env, request: seq<Hypothesis>, hyps: seq<Hypothesis>, level: Ranking) {
    Derived(request, hyps) && Stratified(env, AdminAll(request), level)
  }

  lemma {:induction false} AuthorityDecides(env: Env, request: seq<Hypothesis>, hyps: seq<Hypothesis>, level: Ranking,
                                            height: Ranking, x: Hash16, depth: nat, visited: set<Hash16>, w: Work)
    requires Setting(env, request, hyps, level) && MemoRight(env, AdminAll(request), level, w)
    requires Askable(env, request, level, height, depth, visited, x)
    requires Authority(env, x, hyps, depth, visited, w).1.counter <= env.maxVisited
    ensures var (ok, w') := Authority(env, x, hyps, depth, visited, w);
            && MemoRight(env, AdminAll(request), level, w')
            && (ok ==> Authorised(env, AdminAll(request), level, x))
            && (Found(env, AdminAll(request), level, x, visited) ==> ok)
    decreases env.maxDepth - depth, 0, 0, 0
  {
    var admin, key := AdminAll(request), (x, ObjectKeyOf(hyps));
    AdminStable(request);
    if x !in env.roots && key !in w.memo {
      if x in visited {
        VisitedNotFound(env, admin, level, x, visited);
      } else {
        NotCut(env, request, height, depth, visited, x);
        ResolveDecides(env, request, level, height, x, depth, visited, w);
      }
    }
  }

  lemma VisitedNotFound(env: Env, admin: seq<Hypothesis>, level: Ranking, x: Hash16, visited: set<Hash16>)
    requires Stratified(env, admin, level) && x in visited && x !in env.roots
    ensures !Found(env, admin, level, x, visited)
  {
    hide Leads;
  }

  /** Resolving an admin: the demotions are all heard, so the verdict is right. */
  lemma {:induction false} ResolveDecides(env: Env, request: seq<Hypothesis>, level: Ranking, height: Ranking,
                                          x: Hash16, depth: nat, visited: set<Hash16>, w: Work)
    requires Stratified(env, AdminAll(request), level) && MemoRight(env, AdminAll(request), level, w)
    requires x !in env.roots && x !in visited && Askable(env, request, level, height, depth, visited, x)
    requires depth < env.maxDepth
    requires Resolve(env, AdminAll(request), x, depth + 1, visited + {x}, w).1.counter <= env.maxVisited
    ensures var (res, w') := Resolve(env, AdminAll(request), x, depth + 1, visited + {x}, w);
            && MemoRight(env, AdminAll(request), level, w')
            && (res.Allow? ==> Authorised(env, AdminAll(request), level, x))
            && (Found(env, AdminAll(request), level, x, visited) ==> res.Allow?)
    decreases env.maxDepth - depth - 1, 2, 0, 0
  {
    hide *;
    var admin, vis, cands := AdminAll(request), visited + {x}, Held(env.tuples, x);
    var w1 := Counted(env, depth + 1, w);
    ResolveScans(env, admin, x, depth + 1, vis, w);
    SettingIs(env, request, level);
    MemoKept(env, admin, level, w, depth + 1);
    CandidatesAskable(env, request, level, height, x, depth, visited);
    ScanDecides(env, request, admin, level, height, cands, 0, depth + 1, vis, w1, Flags(false, false));
    FlagsDecide(env, request, level, height, x, depth, visited,
                Scan(env, admin, cands, 0, depth + 1, vis, w1, Flags(false, false)).0);
  }

  /** The shared work with one more call counted. */
  function Counted(env: Env, depth: nat, w: Work): Work {
    w.(counter := w.counter + 1, calls := w.calls + [Call(depth, w.counter < env.maxVisited)])
  }

  /** Within the budget, resolving is scanning what the holder holds. */
  lemma ResolveScans(env: Env, hyps: seq<Hypothesis>, x: Hash16, depth: nat, visited: set<Hash16>, w: Work)
    requires Resolve(env, hyps, x, depth, visited, w).1.counter <= env.maxVisited
    ensures var cands, w1 := Held(env.tuples, x), Counted(env, depth, w);
            var (flags, w') := Scan(env, hyps, cands, 0, depth, visited, w1, Flags(false, false));
            Resolve(env, hyps, x, depth, visited, w) == (flags.Resolve(), w')
  {}

  lemma SettingIs(env: Env, request: seq<Hypothesis>, level: Ranking)
    requires Stratified(env, AdminAll(request), level)
    ensures Setting(env, request, AdminAll(request), level) && Setting(env, request, request, level)
  {}

  lemma MemoKept(env: Env, admin: seq<Hypothesis>, level: Ranking, w: Work, depth: nat)
    requires Stratified(env, admin, level) && MemoRight(env, admin, level, w)
    ensures MemoRight(env, admin, level, Counted(env, depth, w))
  {
    hide Authorised, Stratified;
  }

  lemma CandidatesAskable(env: Env, request: seq<Hypothesis>, level: Ranking, height: Ranking, x: Hash16, depth: nat,
                          visited: set<Hash16>)
    requires Stratified(env, AdminAll(request), level)
    requires x !in env.roots && x !in visited && Askable(env, request, level, height, depth, visited, x)
    ensures AllAskable(env, request, AdminAll(request), level, height, Held(env.tuples, x), depth + 1, visited + {x})
  {
    var admin := AdminAll(request);
    HeldMeans(env.tuples, x);
    forall t | t in Held(env.tuples, x) && (SomeAllows(admin, t) || SomeDenies(admin, t))
      ensures Askable(env, request, level, height, depth + 1, visited + {x}, t.issuer)
    {
      if t.issuer !in env.roots {
        InvolvedIssuer(env, request, admin, t);
        DepthLeftNext(env, request, height, depth, visited, x, t);
      }
    }
  }

  lemma InvolvedIssuer(env: Env, request: seq<Hypothesis>, hyps: seq<Hypothesis>, t: Tuple)
    requires Derived(request, hyps) && t in env.tuples && t.issuer !in env.roots
    requires SomeAllows(hyps, t) || SomeDenies(hyps, t)
    ensures t.issuer in Involved(env, request)
  {
    var j :| 0 <= j < |hyps| && (hyps[j].Denies(t) || hyps[j].Allows(t));
    HitsAreRelevant(request, hyps, t, j);
  }

  /** From flags that are backed and complete to the admin's authority. */
  lemma FlagsDecide(env: Env, request: seq<Hypothesis>, level: Ranking, height: Ranking, x: Hash16, depth: nat,
                    visited: set<Hash16>, flags: Flags)
    requires Stratified(env, AdminAll(request), level) && x !in env.roots
    requires Askable(env, request, level, height, depth, visited, x)
    requires var admin, cands := AdminAll(request), Held(env.tuples, x);
             && Backed(env, admin, admin, level, cands, false, flags.deny, true)
             && Backed(env, admin, admin, level, cands, false, flags.allow, false)
             && Complete(env, admin, admin, level, cands, 0, visited + {x}, flags)
    ensures flags.Resolve().Allow? ==> Authorised(env, AdminAll(request), level, x)
    ensures Found(env, AdminAll(request), level, x, visited) ==> flags.Resolve().Allow?
  {
    var admin, cands := AdminAll(request), Held(env.tuples, x);
    HeldMeans(env.tuples, x);
    hide DepthLeft, Involved, Leads;
    DemotionsHeard(env, request, level, height, x, depth, visited, flags);
    if flags.Resolve().Allow? {
      var t :| t in cands && Hit(admin, false, t) && Authorised(env, admin, level, t.issuer);
      assert AllowEdge(env, admin, x, t);
      Appointed(env, admin, level, x, t);
    }
    if Found(env, admin, level, x, visited) {
      var c: seq<Tuple> :| Nearest(env, admin, level, x, c, visited);
      NextIsFound(env, admin, level, x, c, visited);
      AheadOf(env, admin, x, false, c[0]);
      assert Raised(flags, false);
    }
  }

  lemma AheadOf(env: Env, hyps: seq<Hypothesis>, x: Hash16, deny: bool, t: Tuple)
    requires Edge(env, hyps, x, deny, t)
    ensures Ahead(hyps, Held(env.tuples, x), 0, deny, t)
  {
    HeldMeans(env.tuples, x);
  }

  lemma DemotionsHeard(env: Env, request: seq<Hypothesis>, level: Ranking, height: Ranking, x: Hash16, depth: nat,
                       visited: set<Hash16>, flags: Flags)
    requires Stratified(env, AdminAll(request), level) && x !in env.roots
    requires Askable(env, request, level, height, depth, visited, x)
    requires var admin, cands := AdminAll(request), Held(env.tuples, x);
             && Backed(env, admin, admin, level, cands, false, flags.deny, true)
             && Complete(env, admin, admin, level, cands, 0, visited + {x}, flags)
    ensures flags.deny <==> !NotDemoted(env, AdminAll(request), level, x)
  {
    var admin, cands := AdminAll(request), Held(env.tuples, x);
    HeldMeans(env.tuples, x);
    hide DepthLeft, Involved, Found, Leads;
    if flags.deny {
      var t :| t in cands && Hit(admin, true, t) && Authorised(env, admin, level, t.issuer);
      assert DenyEdge(env, admin, x, t);
    }
    if t :| DenyEdge(env, admin, x, t) && Authorised(env, admin, level, t.issuer) {
      LowerIsFound(env, admin, level, t.issuer, visited + {x});
      AheadOf(env, admin, x, true, t);
      assert Raised(flags, true);
    }
  }

  lemma {:induction false} ScanDecides(env: Env, request: seq<Hypothesis>, hyps: seq<Hypothesis>, level: Ranking,
                                       height: Ranking, cands: seq<Tuple>, j: nat, depth: nat, visited: set<Hash16>,
                                       w: Work, flags: Flags)
    requires Setting(env, request, hyps, level) && MemoRight(env, AdminAll(request), level, w) && j <= |hyps|
    requires AllAskable(env, request, hyps, level, height, cands, depth, visited)
    requires Scan(env, hyps, cands, j, depth, visited, w, flags).1.counter <= env.maxVisited
    ensures var (flags', w') := Scan(env, hyps, cands, j, depth, visited, w, flags);
            var admin := AdminAll(request);
            && MemoRight(env, admin, level, w')
            && Backed(env, admin, hyps, level, cands, flags.deny, flags'.deny, true)
            && Backed(env, admin, hyps, level, cands, flags.allow, flags'.allow, false)
            && Complete(env, admin, hyps, level, cands, j, visited, flags')
    decreases env.maxDepth - depth, 1, |cands|, |hyps| - j
  {
    hide Setting, Stratified, MemoRight, Askable, Backed, Complete, Authorised, Found, Hit;
    var admin := AdminAll(request);
    if cands == [] {
      NothingLeft(env, request, hyps, level, j, visited, flags);
    } else if j == |hyps| {
      ScanDecides(env, request, hyps, level, height, cands[1..], 0, depth, visited, w, flags);
      var flags' := Scan(env, hyps, cands[1..], 0, depth, visited, w, flags).0;
      CandidateDone(env, request, hyps, level, cands, visited, flags, flags');
    } else {
      var (flags1, w1) := Consider(env, hyps, cands[0], j, depth, visited, w, flags);
      ConsiderDecides(env, request, hyps, level, height, cands, j, depth, visited, w, flags);
      ScanDecides(env, request, hyps, level, height, cands, j + 1, depth, visited, w1, flags1);
      var flags' := Scan(env, hyps, cands, j + 1, depth, visited, w1, flags1).0;
      FlagsStay(env, hyps, cands, j + 1, depth, visited, w1, flags1);
      HypothesisDone(env, request, hyps, level, cands, j, visited, flags, flags1, flags');
    }
  }

  lemma NothingLeft(env: Env, request: seq<Hypothesis>, hyps: seq<Hypothesis>, level: Ranking, j: nat,
                    visited: set<Hash16>, flags: Flags)
    requires Setting(env, request, hyps, level)
    ensures var admin := AdminAll(request);
            && Backed(env, admin, hyps, level, [], flags.deny, flags.deny, true)
            && Backed(env, admin, hyps, level, [], flags.allow, flags.allow, false)
            && Complete(env, admin, hyps, level, [], j, visited, flags)
  {}

  lemma CandidateDone(env: Env, request: seq<Hypothesis>, hyps: seq<Hypothesis>, level: Ranking, cands: seq<Tuple>,
                      visited: set<Hash16>, flags: Flags, flags': Flags)
    requires Setting(env, request, hyps, level) && cands != []
    requires var admin := AdminAll(request);
             && Backed(env, admin, hyps, level, cands[1..], flags.deny, flags'.deny, true)
             && Backed(env, admin, hyps, level, cands[1..], flags.allow, flags'.allow, false)
             && Complete(env, admin, hyps, level, cands[1..], 0, visited, flags')
    ensures var admin := AdminAll(request);
            && Backed(env, admin, hyps, level, cands, flags.deny, flags'.deny, true)
            && Backed(env, admin, hyps, level, cands, flags.allow, flags'.allow, false)
            && Complete(env, admin, hyps, level, cands, |hyps|, visited, flags')
  {
    hide Stratified, Authorised, Found, Hit;
    forall deny: bool, t | Ahead(hyps, cands, |hyps|, deny, t)
      ensures Ahead(hyps, cands[1..], 0, deny, t)
    {
      assert t in cands[1..];
    }
  }

  /** Weighing the candidate under hypothesis j: a flag newly raised is backed, and it is
      raised if the hypothesis hits and the issuer can be found. */
  lemma {:induction false} ConsiderDecides(env: Env, request: seq<Hypothesis>, hyps: seq<Hypothesis>, level: Ranking,
                                           height: Ranking, cands: seq<Tuple>, j: nat, depth: nat, visited: set<Hash16>,
                                           w: Work, flags: Flags)
    requires Setting(env, request, hyps, level) && MemoRight(env, AdminAll(request), level, w)
    requires j < |hyps| && cands != [] && AllAskable(env, request, hyps, level, height, cands, depth, visited)
    requires Consider(env, hyps, cands[0], j, depth, visited, w, flags).1.counter <= env.maxVisited
    ensures var (flags1, w1) := Consider(env, hyps, cands[0], j, depth, visited, w, flags);
            var admin, t := AdminAll(request), cands[0];
            && MemoRight(env, admin, level, w1)
            && Backed(env, admin, hyps, level, cands, flags.deny, flags1.deny, true)
            && Backed(env, admin, hyps, level, cands, flags.allow, flags1.allow, false)
            && (forall deny: bool :: Hits(hyps[j], deny, t) && Found(env, admin, level, t.issuer, visited) ==>
                  Raised(flags1, deny))
    decreases env.maxDepth - depth, 1, 0, 0
  {
    hide Stratified, MemoRight, Askable, Authorised, Found;
    var t := cands[0];
    if hyps[j].Denies(t) || hyps[j].Allows(t) {
      assert t in cands && (SomeAllows(hyps, t) || SomeDenies(hyps, t));
      AuthorityDecides(env, request, hyps, level, height, t.issuer, depth, visited, w);
    }
  }

  lemma HypothesisDone(env: Env, request: seq<Hypothesis>, hyps: seq<Hypothesis>, level: Ranking, cands: seq<Tuple>,
                       j: nat, visited: set<Hash16>, flags: Flags, flags1: Flags, flags': Flags)
    requires Setting(env, request, hyps, level) && cands != [] && j < |hyps|
    requires (flags1.deny ==> flags'.deny) && (flags1.allow ==> flags'.allow)
    requires var admin := AdminAll(request);
             && Backed(env, admin, hyps, level, cands, flags.deny, flags1.deny, true)
             && Backed(env, admin, hyps, level, cands, flags.allow, flags1.allow, false)
             && Backed(env, admin, hyps, level, cands, flags1.deny, flags'.deny, true)
             && Backed(env, admin, hyps, level, cands, flags1.allow, flags'.allow, false)
             && Complete(env, admin, hyps, level, cands, j + 1, visited, flags')
    requires forall deny: bool ::
               Hits(hyps[j], deny, cands[0]) && Found(env, AdminAll(request), level, cands[0].issuer, visited)
               ==> Raised(flags1, deny)
    ensures var admin := AdminAll(request);
            && Backed(env, admin, hyps, level, cands, flags.deny, flags'.deny, true)
            && Backed(env, admin, hyps, level, cands, flags.allow, flags'.allow, false)
            && Complete(env, admin, hyps, level, cands, j, visited, flags')
  {
    hide Stratified, Authorised, Found, Hit, Hits;
    forall deny: bool, t | Ahead(hyps, cands, j, deny, t) && Found(env, AdminAll(request), level, t.issuer, visited)
      ensures Raised(flags', deny)
    {
      if !Ahead(hyps, cands, j + 1, deny, t) {
        assert t == cands[0] && Hits(hyps[j], deny, t);
      }
    }
  }

  // ---- Theorems --------------------------------------------------------------------

  lemma TopAskable(env: Env, g: Hash16, hyps: seq<Hypothesis>, level: Ranking, height: Ranking)
    requires DeepEnough(env, hyps, height)
    ensures AllAskable(env, hyps, hyps, level, height, Held(env.tuples, g), 0, {})
  {
    HeldMeans(env.tuples, g);
    forall t | t in Held(env.tuples, g) && (SomeAllows(hyps, t) || SomeDenies(hyps, t))
      ensures Askable(env, hyps, level, height, 0, {}, t.issuer)
    {
      if t.issuer !in env.roots {
        InvolvedIssuer(env, hyps, hyps, t);
      }
    }
  }

  /** If demotions are stratified and neither depth nor budget cuts the search, the verdict
      is the stratified rule's. */
  lemma AffordedSearchIsStratified(env: Env, g: Hash16, hyps: seq<Hypothesis>, level: Ranking, height: Ranking)
    requires Stratified(env, AdminAll(hyps), level) && DeepEnough(env, hyps, height)
    requires Evaluation(env, g, hyps).1.counter <= env.maxVisited
    ensures Evaluation(env, g, hyps).0 == StratifiedDecision(env, g, hyps, level)
  {
    hide Scan, Resolve, Setting, Stratified, DeepEnough, AllAskable, MemoRight, Authorised, Found, Backed, Complete;
    var cands, w1 := Held(env.tuples, g), Counted(env, 0, FRESH);
    ResolveScans(env, hyps, g, 0, {}, FRESH);
    SettingIs(env, hyps, level);
    FreshMemo(env, AdminAll(hyps), level, w1);
    TopAskable(env, g, hyps, level, height);
    ScanDecides(env, hyps, hyps, level, height, cands, 0, 0, {}, w1, Flags(false, false));
    var flags := Scan(env, hyps, cands, 0, 0, {}, w1, Flags(false, false)).0;
    FlagIsRule(env, g, hyps, level, flags, true);
    FlagIsRule(env, g, hyps, level, flags, false);
    EdgeIs(env, hyps, g);
  }

  lemma FreshMemo(env: Env, admin: seq<Hypothesis>, level: Ranking, w: Work)
    requires Stratified(env, admin, level) && w.memo == map[]
    ensures MemoRight(env, admin, level, w)
  {}

  lemma EdgeIs(env: Env, hyps: seq<Hypothesis>, g: Hash16)
    ensures forall t :: (Edge(env, hyps, g, true, t) <==> DenyEdge(env, hyps, g, t))
                        && (Edge(env, hyps, g, false, t) <==> AllowEdge(env, hyps, g, t))
  {}

  lemma FlagIsRule(env: Env, g: Hash16, hyps: seq<Hypothesis>, level: Ranking, flags: Flags, deny: bool)
    requires Stratified(env, AdminAll(hyps), level)
    requires Backed(env, AdminAll(hyps), hyps, level, Held(env.tuples, g), false, Raised(flags, deny), deny)
    requires Complete(env, AdminAll(hyps), hyps, level, Held(env.tuples, g), 0, {}, flags)
    ensures Raised(flags, deny) <==>
              exists t :: Edge(env, hyps, g, deny, t) && Authorised(env, AdminAll(hyps), level, t.issuer)
  {
    hide Stratified, Authorised, Found;
    var admin, cands := AdminAll(hyps), Held(env.tuples, g);
    HeldMeans(env.tuples, g);
    if Raised(flags, deny) {
      var t :| t in cands && Hit(hyps, deny, t) && Authorised(env, admin, level, t.issuer);
      assert Edge(env, hyps, g, deny, t);
    }
    if t :| Edge(env, hyps, g, deny, t) && Authorised(env, admin, level, t.issuer) {
      LowerIsFound(env, admin, level, t.issuer, {});
      AheadOf(env, hyps, g, deny, t);
    }
  }

  /** The same under conditions that are read off the policy before the call. */
  lemma SearchIsStratified(env: Env, g: Hash16, hyps: seq<Hypothesis>, level: Ranking, height: Ranking, b: nat)
    requires Stratified(env, AdminAll(hyps), level) && DeepEnough(env, hyps, height) && AmpleBudget(env, hyps, b)
    ensures Evaluation(env, g, hyps).0 == StratifiedDecision(env, g, hyps, level)
  {
    hide Evaluation, Stratified, DeepEnough, AmpleBudget, StratifiedDecision;
    BudgetIsEnough(env, g, hyps, b);
    AffordedSearchIsStratified(env, g, hyps, level, height);
  }

  /** No cycles at all: a rank that falls along every appointment and every demotion serves
      as level and as height. */
  lemma AcyclicIsExact(env: Env, g: Hash16, hyps: seq<Hypothesis>, rank: Ranking)
    requires Descends(env, AdminAll(hyps), rank)
    requires forall x :: x in Involved(env, hyps) ==> rank(x) < env.maxDepth
    requires Evaluation(env, g, hyps).1.counter <= env.maxVisited
    ensures Stratified(env, AdminAll(hyps), rank)
    ensures Evaluation(env, g, hyps).0 == StratifiedDecision(env, g, hyps, rank)
  {
    hide Evaluation, StratifiedDecision, Involved;
    AffordedSearchIsStratified(env, g, hyps, rank, rank);
  }

  // ---- The plain rule, and the order of tuples -------------------------------------

  /** Everyone on one level. */
  function Flat(x: Hash16): nat { 0 }

  /** Where only roots demote, one level will do, and the stratified rule is plain
      reachability. */
  lemma PlainIsStratified(env: Env, g: Hash16, hyps: seq<Hypothesis>)
    requires OnlyRootsDemote(env, AdminAll(hyps))
    ensures Stratified(env, AdminAll(hyps), Flat)
    ensures StratifiedDecision(env, g, hyps, Flat) == Decision(env, g, hyps)
  {
    var admin := AdminAll(hyps);
    forall x
      ensures Authorised(env, admin, Flat, x) <==> Reaches(env, admin, x)
    {
      AuthorityIsReach(env, admin, x);
    }
  }

  lemma AuthorityIsReach(env: Env, admin: seq<Hypothesis>, x: Hash16)
    requires OnlyRootsDemote(env, admin) && Stratified(env, admin, Flat)
    ensures Authorised(env, admin, Flat, x) <==> Reaches(env, admin, x)
  {
    if x in env.roots {
      assert Path(env, admin, x, []);
    } else {
      if c: seq<Tuple> :| Leads(env, admin, Flat, x, c) {
        LeadIsPath(env, admin, x, c);
      }
      if c: seq<Tuple> :| Path(env, admin, x, c) {
        LeadIsPath(env, admin, x, c);
      }
    }
  }

  lemma {:induction false} LeadIsPath(env: Env, admin: seq<Hypothesis>, x: Hash16, c: seq<Tuple>)
    requires OnlyRootsDemote(env, admin) && Stratified(env, admin, Flat) && x !in env.roots
    ensures Leads(env, admin, Flat, x, c) <==> Path(env, admin, x, c)
    decreases |c|
  {
    if c != [] && c[0].issuer !in env.roots {
      LeadIsPath(env, admin, c[0].issuer, c[1..]);
    }
  }

  lemma {:induction false} SameLeads(env: Env, env': Env, admin: seq<Hypothesis>, level: Ranking, x: Hash16,
                                     c: seq<Tuple>)
    requires SameTuples(env, env') && Stratified(env, admin, level) && Stratified(env', admin, level)
    ensures Leads(env, admin, level, x, c) <==> Leads(env', admin, level, x, c)
    decreases level(x), 0, |c|
  {
    if c != [] && x !in env.roots && AllowEdge(env, admin, x, c[0]) {
      SameDemotions(env, env', admin, level, x);
      if c[0].issuer !in env.roots {
        SameLeads(env, env', admin, level, c[0].issuer, c[1..]);
      }
    }
  }

  lemma {:induction false} SameDemotions(env: Env, env': Env, admin: seq<Hypothesis>, level: Ranking, x: Hash16)
    requires SameTuples(env, env') && Stratified(env, admin, level) && Stratified(env', admin, level)
    requires x !in env.roots
    ensures NotDemoted(env, admin, level, x) <==> NotDemoted(env', admin, level, x)
    decreases level(x), 0, 0
  {
    forall t | DenyEdge(env, admin, x, t) && t.issuer !in env.roots
      ensures Authorised(env, admin, level, t.issuer) <==> Authorised(env', admin, level, t.issuer)
    {
      SameAuthority(env, env', admin, level, t.issuer);
    }
  }

  lemma {:induction false} SameAuthority(env: Env, env': Env, admin: seq<Hypothesis>, level: Ranking, x: Hash16)
    requires SameTuples(env, env') && Stratified(env, admin, level) && Stratified(env', admin, level)
    ensures Authorised(env, admin, level, x) <==> Authorised(env', admin, level, x)
    decreases level(x), 1, 0
  {
    forall c
      ensures Leads(env, admin, level, x, c) <==> Leads(env', admin, level, x, c)
    {
      SameLeads(env, env', admin, level, x, c);
    }
  }

  /** The stratified rule, and so the verdict of any search it decides, depends on which
      tuples there are and not on their order or repetition. */
  lemma RuleIgnoresOrder(env: Env, env': Env, g: Hash16, hyps: seq<Hypothesis>, level: Ranking)
    requires SameTuples(env, env') && Stratified(env, AdminAll(hyps), level)
    ensures Stratified(env', AdminAll(hyps), level)
    ensures StratifiedDecision(env, g, hyps, level) == StratifiedDecision(env', g, hyps, level)
  {
    var admin := AdminAll(hyps);
    forall x
      ensures Authorised(env, admin, level, x) <==> Authorised(env', admin, level, x)
    {
      SameAuthority(env, env', admin, level, x);
    }
    assert forall t :: DenyEdge(env, hyps, g, t) <==> DenyEdge(env', hyps, g, t);
    assert forall t :: AllowEdge(env, hyps, g, t) <==> AllowEdge(env', hyps, g, t);
  }
}
