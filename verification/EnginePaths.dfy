/** The delegation graph, and what the search is sure to find in it. */
module EnginePaths {
  import opened Basics
  import opened Policy
  import opened EngineSpec

  ghost predicate SomeAllows(hyps: seq<Hypothesis>, t: Tuple) {
    exists i :: 0 <= i < |hyps| && hyps[i].Allows(t)
  }

  ghost predicate SomeDenies(hyps: seq<Hypothesis>, t: Tuple) {
    exists i :: 0 <= i < |hyps| && hyps[i].Denies(t)
  }

  /** An active tuple granting, or denying, the hypothesized relation to g. */
  ghost predicate AllowEdge(env: Env, hyps: seq<Hypothesis>, g: Hash16, t: Tuple) {
    t in env.tuples && t.grantee == g && SomeAllows(hyps, t)
  }

  ghost predicate DenyEdge(env: Env, hyps: seq<Hypothesis>, g: Hash16, t: Tuple) {
    t in env.tuples && t.grantee == g && SomeDenies(hyps, t)
  }

  ghost predicate Edge(env: Env, hyps: seq<Hypothesis>, g: Hash16, deny: bool, t: Tuple) {
    if deny then DenyEdge(env, hyps, g, t) else AllowEdge(env, hyps, g, t)
  }

  ghost predicate NoRootDeny(env: Env, hyps: seq<Hypothesis>, g: Hash16) {
    forall t :: DenyEdge(env, hyps, g, t) ==> t.issuer !in env.roots
  }

  /** Admin edges leading from x to the first Root Trust Anchor, through holders that no
      Root Trust Anchor has demoted. */
  ghost predicate Path(env: Env, admin: seq<Hypothesis>, x: Hash16, c: seq<Tuple>)
    decreases |c|
  {
    if c == [] then x in env.roots
    else
      && x !in env.roots && NoRootDeny(env, admin, x)
      && AllowEdge(env, admin, x, c[0]) && Path(env, admin, c[0].issuer, c[1..])
  }

  ghost predicate Reaches(env: Env, admin: seq<Hypothesis>, x: Hash16) {
    exists c :: Path(env, admin, x, c)
  }

  /** Every path from x has more than n edges. */
  ghost predicate Farther(env: Env, admin: seq<Hypothesis>, x: Hash16, n: int) {
    forall c :: Path(env, admin, x, c) ==> |c| > n
  }

  /** Active covering tuples with the admin-deny relation, if any, come from roots. */
  ghost predicate OnlyRootsDemote(env: Env, admin: seq<Hypothesis>) {
    forall t :: t in env.tuples && SomeDenies(admin, t) ==> t.issuer in env.roots
  }

  /** c is a shortest path from x, shallow enough to be walked from this depth, and every
      issuer being resolved already is farther from a root than x. */
  ghost predicate Findable(env: Env, admin: seq<Hypothesis>, x: Hash16, c: seq<Tuple>, depth: nat,
                           visited: set<Hash16>) {
    && Path(env, admin, x, c)
    && (c != [] ==>
          && OnlyRootsDemote(env, admin)
          && depth + |c| <= env.maxDepth
          && Farther(env, admin, x, |c| - 1)
          && forall v :: v in visited ==> Farther(env, admin, v, |c|))
  }

  /** One edge along a shortest path is one edge nearer. */
  lemma {:induction false} NextIsNearer(env: Env, admin: seq<Hypothesis>, x: Hash16, c: seq<Tuple>)
    requires c != [] && Path(env, admin, x, c) && Farther(env, admin, x, |c| - 1)
    ensures Farther(env, admin, c[0].issuer, |c| - 2)
  {
    forall p | Path(env, admin, c[0].issuer, p)
      ensures |p| > |c| - 2
    {
      var longer := [c[0]] + p;
      assert longer[1..] == p;
      assert Path(env, admin, x, longer);
    }
  }

  lemma NextFindable(env: Env, admin: seq<Hypothesis>, x: Hash16, c: seq<Tuple>, depth: nat, visited: set<Hash16>)
    requires c != [] && Findable(env, admin, x, c, depth, visited)
    ensures x !in visited
    ensures Findable(env, admin, c[0].issuer, c[1..], depth + 1, visited + {x})
  {
    NextIsNearer(env, admin, x, c);
  }

  lemma {:induction false} FlagsStay(env: Env, hyps: seq<Hypothesis>, cands: seq<Tuple>, j: nat, depth: nat,
                                     visited: set<Hash16>, w: Work, flags: Flags)
    requires j <= |hyps|
    ensures var flags' := Scan(env, hyps, cands, j, depth, visited, w, flags).0;
            (flags.deny ==> flags'.deny) && (flags.allow ==> flags'.allow)
    decreases |cands|, |hyps| - j
  {
    if cands == [] {
    } else if j == |hyps| {
      FlagsStay(env, hyps, cands[1..], 0, depth, visited, w, flags);
    } else {
      var (flags1, w1) := Consider(env, hyps, cands[0], j, depth, visited, w, flags);
      FlagsStay(env, hyps, cands, j + 1, depth, visited, w1, flags1);
    }
  }

  lemma {:induction false} NoDenyRaised(env: Env, hyps: seq<Hypothesis>, cands: seq<Tuple>, j: nat, depth: nat,
                                        visited: set<Hash16>, w: Work, flags: Flags)
    requires j <= |hyps| && forall t :: t in cands ==> !SomeDenies(hyps, t)
    ensures Scan(env, hyps, cands, j, depth, visited, w, flags).0.deny == flags.deny
    decreases |cands|, |hyps| - j
  {
    if cands == [] {
    } else if j == |hyps| {
      NoDenyRaised(env, hyps, cands[1..], 0, depth, visited, w, flags);
    } else {
      assert cands[0] in cands && !hyps[j].Denies(cands[0]);
      var (flags1, w1) := Consider(env, hyps, cands[0], j, depth, visited, w, flags);
      NoDenyRaised(env, hyps, cands, j + 1, depth, visited, w1, flags1);
    }
  }

  /** The hypothesis makes the tuple a deny, or an allow, as asked. */
  predicate Hits(h: Hypothesis, deny: bool, t: Tuple) {
    if deny then h.Denies(t) else h.Allows(t)
  }

  /** Position j of the scan has not gone past every hit of t yet. */
  ghost predicate Ahead(hyps: seq<Hypothesis>, cands: seq<Tuple>, j: nat, deny: bool, t: Tuple) {
    && (exists i :: 0 <= i < |hyps| && Hits(hyps[i], deny, t))
    && cands != []
    && (t in cands[1..] || (t == cands[0] && exists i :: j <= i < |hyps| && Hits(hyps[i], deny, t)))
  }

  lemma {:induction false} AuthorityFinds(env: Env, x: Hash16, hyps: seq<Hypothesis>, depth: nat,
                                          visited: set<Hash16>, w: Work, c: seq<Tuple>)
    requires AllTrue(w) && Findable(env, AdminAll(hyps), x, c, depth, visited)
    requires c != [] ==> Authority(env, x, hyps, depth, visited, w).1.counter <= env.maxVisited
    ensures Authority(env, x, hyps, depth, visited, w).0
    decreases |c|, 0, 0, 0
  {
    var admin := AdminAll(hyps);
    AdminStable(hyps);
    if c != [] && (x, ObjectKeyOf(hyps)) !in w.memo {
      NextFindable(env, admin, x, c, depth, visited);
      var cands := Held(env.tuples, x);
      var w1 := w.(counter := w.counter + 1, calls := w.calls + [Call(depth + 1, w.counter < env.maxVisited)]);
      HeldMeans(env.tuples, x);
      assert forall t :: t in cands && SomeDenies(admin, t) ==> DenyEdge(env, admin, x, t);
      ScanFinds(env, admin, cands, 0, depth + 1, visited + {x}, w1, Flags(false, false), false, c[0], c[1..]);
      NoDenyRaised(env, admin, cands, 0, depth + 1, visited + {x}, w1, Flags(false, false));
    }
  }

  /** A candidate whose issuer is findable raises its flag, unless the budget runs out. */
  lemma {:induction false} ScanFinds(env: Env, hyps: seq<Hypothesis>, cands: seq<Tuple>, j: nat, depth: nat,
                                     visited: set<Hash16>, w: Work, flags: Flags,
                                     deny: bool, t: Tuple, rest: seq<Tuple>)
    requires j <= |hyps| && Ahead(hyps, cands, j, deny, t) && (rest != [] ==> AllTrue(w))
    requires Findable(env, AdminAll(hyps), t.issuer, rest, depth, visited)
    requires rest != [] ==> Scan(env, hyps, cands, j, depth, visited, w, flags).1.counter <= env.maxVisited
    ensures var flags' := Scan(env, hyps, cands, j, depth, visited, w, flags).0;
            if deny then flags'.deny else flags'.allow
    decreases |rest|, 1, |cands|, |hyps| - j
  {
    if j == |hyps| {
      assert t in cands[1..];
      ScanFinds(env, hyps, cands[1..], 0, depth, visited, w, flags, deny, t, rest);
    } else {
      var (flags1, w1) := Consider(env, hyps, cands[0], j, depth, visited, w, flags);
      if t == cands[0] && Hits(hyps[j], deny, t) {
        if rest != [] {
          AuthorityFinds(env, t.issuer, hyps, depth, visited, w, rest);
        }
        assert Authority(env, t.issuer, hyps, depth, visited, w).0;
        FlagsStay(env, hyps, cands, j + 1, depth, visited, w1, flags1);
      } else {
        ScanFinds(env, hyps, cands, j + 1, depth, visited, w1, flags1, deny, t, rest);
      }
    }
  }
}
