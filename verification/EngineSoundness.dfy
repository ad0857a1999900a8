/** Soundness: whatever the order, depth, budget and caching, ALLOW rests on a chain of
    delegations ending at a Root Trust Anchor. */
module EngineSoundness {
  import opened Basics
  import opened Policy
  import opened EngineSpec
  import opened EngineWork
  import opened EnginePaths

  /** A delegation chain for g: the first tuple grants the request, each later one grants
      admin to the issuer before it, only the last issuer is a root, and no Root Trust
      Anchor denies any holder on the way. */
  ghost predicate Chain(env: Env, hyps: seq<Hypothesis>, g: Hash16, c: seq<Tuple>)
    decreases |c|
  {
    && |c| >= 1
    && AllowEdge(env, hyps, g, c[0])
    && NoRootDeny(env, hyps, g)
    && if c[0].issuer in env.roots then |c| == 1 else Chain(env, AdminAll(hyps), c[0].issuer, c[1..])
  }

  /** The issuers a chain passes through before its root. */
  function Via(c: seq<Tuple>): set<Hash16> {
    if |c| <= 1 then {} else {c[0].issuer} + Via(c[1..])
  }

  /** A chain for x through known issuers other than x, none of them twice. */
  ghost predicate GoodChain(env: Env, admin: seq<Hypothesis>, x: Hash16, known: set<Hash16>, c: seq<Tuple>) {
    Chain(env, admin, x, c) && Via(c) <= known - {x} && |Via(c)| == |c| - 1
  }

  ghost predicate Chained(env: Env, admin: seq<Hypothesis>, x: Hash16, known: set<Hash16>) {
    exists c :: GoodChain(env, admin, x, known, c)
  }

  /** The memo holds exactly the known issuers, for this request's object, as true. */
  ghost predicate MemoIs(admin: seq<Hypothesis>, w: Work, known: set<Hash16>) {
    && (forall key :: key in w.memo ==> w.memo[key] && key.1 == ObjectKeyOf(admin) && key.0 in known)
    && (forall x :: x in known ==> (x, ObjectKeyOf(admin)) in w.memo)
  }

  /** Every known issuer has a chain resting on other known issuers. */
  ghost predicate AllChained(env: Env, admin: seq<Hypothesis>, known: set<Hash16>) {
    forall x :: x in known ==> Chained(env, admin, x, known)
  }

  ghost predicate Grounded(env: Env, x: Hash16, known: set<Hash16>) {
    x in env.roots || x in known
  }

  ghost predicate Sound(env: Env, admin: seq<Hypothesis>, visited: set<Hash16>, w: Work, known: set<Hash16>) {
    MemoIs(admin, w, known) && AllChained(env, admin, known) && visited !! known
  }

  /** Knowledge only grows, and each new issuer is paid for by a call within budget. */
  ghost predicate Grown(env: Env, w: Work, known: set<Hash16>, w': Work, known': set<Hash16>, unspent: nat) {
    && known <= known'
    && |known'| + WithinBudget(env, w.counter) + unspent <= |known| + WithinBudget(env, w'.counter)
  }

  lemma {:induction false} AuthoritySound(env: Env, issuer: Hash16, hyps: seq<Hypothesis>, depth: nat,
                                          visited: set<Hash16>, w: Work, known: set<Hash16>)
    returns (known': set<Hash16>)
    requires Sound(env, AdminAll(hyps), visited, w, known)
    ensures var (ok, w') := Authority(env, issuer, hyps, depth, visited, w);
            && Sound(env, AdminAll(hyps), visited, w', known') && Grown(env, w, known, w', known', 0)
            && (ok ==> Grounded(env, issuer, known'))
    decreases env.maxDepth - depth, 0, 0, 0
  {
    hide Sound, NoRootDeny, AllowEdge, AdminAll, ObjectKeyOf, WithinBudget;
    var admin, key := AdminAll(hyps), (issuer, ObjectKeyOf(hyps));
    AdminStable(hyps);
    known' := known;
    MemoAnswers(env, admin, visited, w, known, issuer);
    if issuer !in env.roots && key !in w.memo && depth < env.maxDepth && issuer !in visited {
      known' := ResolveSound(env, admin, issuer, depth + 1, visited + {issuer}, w, known);
      var (res, w') := Resolve(env, admin, issuer, depth + 1, visited + {issuer}, w);
      Leave(env, admin, visited, issuer, w', known');
      if res.Allow? {
        Remember(env, admin, visited, issuer, w', known');
        known' := known' + {issuer};
      }
    }
  }

  lemma MemoAnswers(env: Env, admin: seq<Hypothesis>, visited: set<Hash16>, w: Work, known: set<Hash16>, x: Hash16)
    requires Sound(env, admin, visited, w, known)
    ensures var key := (x, ObjectKeyOf(admin));
            && (key in w.memo <==> x in known) && (key in w.memo ==> w.memo[key])
            && (key !in w.memo ==> Sound(env, admin, visited + {x}, w, known))
  {}

  lemma Leave(env: Env, admin: seq<Hypothesis>, visited: set<Hash16>, x: Hash16, w: Work, known: set<Hash16>)
    requires Sound(env, admin, visited + {x}, w, known)
    ensures Sound(env, admin, visited, w, known) && x !in known
  {}

  /** An issuer with a grounded granting tuple may join the known ones. */
  lemma Remember(env: Env, admin: seq<Hypothesis>, visited: set<Hash16>, x: Hash16, w: Work, known: set<Hash16>)
    requires AdminAll(admin) == admin && Sound(env, admin, visited + {x}, w, known)
    requires NoRootDeny(env, admin, x)
    requires exists t :: AllowEdge(env, admin, x, t) && Grounded(env, t.issuer, known)
    requires x !in visited
    ensures Sound(env, admin, visited, w.(memo := w.memo[(x, ObjectKeyOf(admin)) := true]), known + {x})
  {
    hide AllChained, NoRootDeny, AllowEdge, AdminAll;
    var t :| AllowEdge(env, admin, x, t) && Grounded(env, t.issuer, known);
    NewcomerChained(env, admin, x, known, t);
  }

  lemma NewcomerChained(env: Env, admin: seq<Hypothesis>, x: Hash16, known: set<Hash16>, t: Tuple)
    requires AdminAll(admin) == admin && AllChained(env, admin, known) && x !in known
    requires NoRootDeny(env, admin, x) && AllowEdge(env, admin, x, t) && Grounded(env, t.issuer, known)
    ensures AllChained(env, admin, known + {x})
  {
    hide NoRootDeny, AllowEdge, Chain, AdminAll;
    var c := ExtendChain(env, admin, x, known, t);
    assert GoodChain(env, admin, x, known + {x}, c);
    forall y | y in known
      ensures Chained(env, admin, y, known + {x})
    {
      assert Chained(env, admin, y, known);
      var c :| GoodChain(env, admin, y, known, c);
      assert GoodChain(env, admin, y, known + {x}, c);
    }
  }

  /** Put the granting tuple in front of its issuer's chain. */
  lemma ExtendChain(env: Env, hyps: seq<Hypothesis>, g: Hash16, known: set<Hash16>, t: Tuple)
    returns (c: seq<Tuple>)
    requires AllChained(env, AdminAll(hyps), known) && NoRootDeny(env, hyps, g)
    requires AllowEdge(env, hyps, g, t) && Grounded(env, t.issuer, known)
    ensures Chain(env, hyps, g, c) && Via(c) <= known && |Via(c)| == |c| - 1
  {
    hide AllowEdge, NoRootDeny;
    if t.issuer in env.roots {
      c := [t];
    } else {
      assert Chained(env, AdminAll(hyps), t.issuer, known);
      var rest: seq<Tuple> :| GoodChain(env, AdminAll(hyps), t.issuer, known, rest);
      c := [t] + rest;
      ChainGrows(env, hyps, g, known, t, rest);
    }
  }

  lemma ChainGrows(env: Env, hyps: seq<Hypothesis>, g: Hash16, known: set<Hash16>, t: Tuple, rest: seq<Tuple>)
    requires NoRootDeny(env, hyps, g) && AllowEdge(env, hyps, g, t)
    requires t.issuer !in env.roots && t.issuer in known
    requires GoodChain(env, AdminAll(hyps), t.issuer, known, rest)
    ensures var c := [t] + rest; Chain(env, hyps, g, c) && Via(c) <= known && |Via(c)| == |c| - 1
  {
    hide NoRootDeny, AllowEdge;
    var c := [t] + rest;
    assert c[1..] == rest;
    assert Via(c) == {t.issuer} + Via(rest);
  }

  lemma {:induction false} ResolveSound(env: Env, hyps: seq<Hypothesis>, g: Hash16, depth: nat,
                                        visited: set<Hash16>, w: Work, known: set<Hash16>)
    returns (known': set<Hash16>)
    requires Sound(env, AdminAll(hyps), visited, w, known)
    ensures var (res, w') := Resolve(env, hyps, g, depth, visited, w);
            && Sound(env, AdminAll(hyps), visited, w', known')
            && Grown(env, w, known, w', known', if res.Allow? then 1 else 0)
            && (res.Allow? ==>
                  && NoRootDeny(env, hyps, g)
                  && exists t :: AllowEdge(env, hyps, g, t) && Grounded(env, t.issuer, known'))
    decreases env.maxDepth - depth, 2, 0, 0
  {
    hide Sound, NoRootDeny, AllowEdge, FlagsBacked, Grounded;
    known' := known;
    var w1 := w.(counter := w.counter + 1, calls := w.calls + [Call(depth, w.counter < env.maxVisited)]);
    SameMemo(env, AdminAll(hyps), visited, w, w1, known);
    if w1.counter <= env.maxVisited {
      var cands := Held(env.tuples, g);
      known' := ScanSound(env, hyps, cands, 0, depth, visited, w1, Flags(false, false), known);
      var (flags, w') := Scan(env, hyps, cands, 0, depth, visited, w1, Flags(false, false));
      if flags.Resolve().Allow? {
        NoDenyNoRootDeny(env, hyps, g, depth, visited, w1);
        AllowBacked(env, hyps, g, flags, known');
      }
    }
  }

  lemma SameMemo(env: Env, admin: seq<Hypothesis>, visited: set<Hash16>, w: Work, w1: Work, known: set<Hash16>)
    requires Sound(env, admin, visited, w, known) && w1.memo == w.memo
    ensures Sound(env, admin, visited, w1, known)
  {}

  lemma NoDenyNoRootDeny(env: Env, hyps: seq<Hypothesis>, g: Hash16, depth: nat, visited: set<Hash16>, w: Work)
    requires !Scan(env, hyps, Held(env.tuples, g), 0, depth, visited, w, Flags(false, false)).0.deny
    ensures NoRootDeny(env, hyps, g)
  {
    HeldMeans(env.tuples, g);
    forall t | DenyEdge(env, hyps, g, t)
      ensures t.issuer !in env.roots
    {
      if t.issuer in env.roots {
        ScanFinds(env, hyps, Held(env.tuples, g), 0, depth, visited, w, Flags(false, false), true, t, []);
      }
    }
  }

  lemma AllowBacked(env: Env, hyps: seq<Hypothesis>, g: Hash16, flags: Flags, known: set<Hash16>)
    requires FlagsBacked(env, hyps, Held(env.tuples, g), Flags(false, false), flags, known)
    ensures flags.allow ==> exists t :: AllowEdge(env, hyps, g, t) && Grounded(env, t.issuer, known)
    ensures flags.deny ==> exists t :: DenyEdge(env, hyps, g, t) && Grounded(env, t.issuer, known)
  {
    HeldMeans(env.tuples, g);
    if flags.allow {
      var t :| t in Held(env.tuples, g) && SomeAllows(hyps, t) && Grounded(env, t.issuer, known);
      assert AllowEdge(env, hyps, g, t);
    }
    if flags.deny {
      var t :| t in Held(env.tuples, g) && SomeDenies(hyps, t) && Grounded(env, t.issuer, known);
      assert DenyEdge(env, hyps, g, t);
    }
  }

  /** New flags come from candidates whose issuers are grounded. */
  ghost predicate FlagsBacked(env: Env, hyps: seq<Hypothesis>, cands: seq<Tuple>, flags: Flags, flags': Flags,
                              known: set<Hash16>) {
    && (flags'.allow && !flags.allow ==>
          exists t :: t in cands && SomeAllows(hyps, t) && Grounded(env, t.issuer, known))
    && (flags'.deny && !flags.deny ==>
          exists t :: t in cands && SomeDenies(hyps, t) && Grounded(env, t.issuer, known))
  }

  lemma {:induction false} ScanSound(env: Env, hyps: seq<Hypothesis>, cands: seq<Tuple>, j: nat, depth: nat,
                                     visited: set<Hash16>, w: Work, flags: Flags, known: set<Hash16>)
    returns (known': set<Hash16>)
    requires j <= |hyps| && Sound(env, AdminAll(hyps), visited, w, known)
    ensures var (flags', w') := Scan(env, hyps, cands, j, depth, visited, w, flags);
            && Sound(env, AdminAll(hyps), visited, w', known') && Grown(env, w, known, w', known', 0)
            && FlagsBacked(env, hyps, cands, flags, flags', known')
    decreases env.maxDepth - depth, 1, |cands|, |hyps| - j
  {
    hide Sound, Grown, FlagsBacked;
    if cands == [] {
      known' := known;
      NothingGrown(env, hyps, w, known, flags);
    } else if j == |hyps| {
      known' := ScanSound(env, hyps, cands[1..], 0, depth, visited, w, flags, known);
      var (flags', w') := Scan(env, hyps, cands[1..], 0, depth, visited, w, flags);
      BackedByRest(env, hyps, cands, flags, flags', known');
    } else {
      var known1 := ConsiderSound(env, hyps, cands, j, depth, visited, w, flags, known);
      var (flags1, w1) := Consider(env, hyps, cands[0], j, depth, visited, w, flags);
      known' := ScanSound(env, hyps, cands, j + 1, depth, visited, w1, flags1, known1);
      var (flags', w') := Scan(env, hyps, cands, j + 1, depth, visited, w1, flags1);
      GrownThenGrown(env, w, known, w1, known1, w', known');
      BackedThenBacked(env, hyps, cands, flags, flags1, flags', known1, known');
    }
  }

  lemma NothingGrown(env: Env, hyps: seq<Hypothesis>, w: Work, known: set<Hash16>, flags: Flags)
    ensures Grown(env, w, known, w, known, 0)
    ensures FlagsBacked(env, hyps, [], flags, flags, known)
  {}

  lemma GrownThenGrown(env: Env, w: Work, known: set<Hash16>, w1: Work, known1: set<Hash16>,
                       w': Work, known': set<Hash16>)
    requires Grown(env, w, known, w1, known1, 0) && Grown(env, w1, known1, w', known', 0)
    ensures Grown(env, w, known, w', known', 0) && known1 <= known'
  {}

  lemma BackedThenBacked(env: Env, hyps: seq<Hypothesis>, cands: seq<Tuple>, flags: Flags, flags1: Flags,
                         flags': Flags, known1: set<Hash16>, known': set<Hash16>)
    requires FlagsBacked(env, hyps, cands, flags, flags1, known1) && known1 <= known'
    requires FlagsBacked(env, hyps, cands, flags1, flags', known')
    ensures FlagsBacked(env, hyps, cands, flags, flags', known')
  {}

  lemma BackedByRest(env: Env, hyps: seq<Hypothesis>, cands: seq<Tuple>, flags: Flags, flags': Flags,
                     known: set<Hash16>)
    requires cands != [] && FlagsBacked(env, hyps, cands[1..], flags, flags', known)
    ensures FlagsBacked(env, hyps, cands, flags, flags', known)
  {}

  lemma {:induction false} ConsiderSound(env: Env, hyps: seq<Hypothesis>, cands: seq<Tuple>, j: nat, depth: nat,
                                         visited: set<Hash16>, w: Work, flags: Flags, known: set<Hash16>)
    returns (known': set<Hash16>)
    requires j < |hyps| && cands != [] && Sound(env, AdminAll(hyps), visited, w, known)
    ensures var (flags', w') := Consider(env, hyps, cands[0], j, depth, visited, w, flags);
            && Sound(env, AdminAll(hyps), visited, w', known') && Grown(env, w, known, w', known', 0)
            && FlagsBacked(env, hyps, cands, flags, flags', known')
    decreases env.maxDepth - depth, 1, 0, 0
  {
    known' := known;
    if hyps[j].Denies(cands[0]) || hyps[j].Allows(cands[0]) {
      known' := AuthoritySound(env, cands[0].issuer, hyps, depth, visited, w, known);
      assert cands[0] in cands;
    }
  }

  /** A chain that repeats no issuer and has at most maxVisited links. */
  ghost predicate BoundedChain(env: Env, hyps: seq<Hypothesis>, g: Hash16, c: seq<Tuple>) {
    Chain(env, hyps, g, c) && |Via(c)| == |c| - 1 && |c| <= env.maxVisited
  }

  /** ALLOW implies a delegation chain from the grantee to a Root Trust Anchor that
      repeats no issuer and has at most maxVisited links, even when parts of it were
      answered from the memo. */
  lemma AllowRestsOnChain(env: Env, g: Hash16, hyps: seq<Hypothesis>)
    requires Allowed(env, g, hyps)
    ensures exists c :: BoundedChain(env, hyps, g, c)
  {
    var known := ResolveSound(env, hyps, g, 0, {}, FRESH, {});
    var t :| AllowEdge(env, hyps, g, t) && Grounded(env, t.issuer, known);
    var c := ExtendChain(env, hyps, g, known, t);
    SubsetSmaller(Via(c), known);
    assert BoundedChain(env, hyps, g, c);
  }

  lemma {:induction false} SubsetSmaller<T>(a: set<T>, b: set<T>)
    requires a <= b
    ensures |a| <= |b|
  {
    if x :| x in a {
      SubsetSmaller(a - {x}, b - {x});
    }
  }

  /** A covering deny issued by a Root Trust Anchor vetoes the request unconditionally. */
  lemma RootDenyVetoes(env: Env, g: Hash16, hyps: seq<Hypothesis>, t: Tuple)
    requires DenyEdge(env, hyps, g, t) && t.issuer in env.roots
    ensures !Allowed(env, g, hyps)
  {
    var known := ResolveSound(env, hyps, g, 0, {}, FRESH, {});
  }
}
