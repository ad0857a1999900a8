/** Departures from the plain rule within an ample budget: what the depth bound and
    demotions by appointed admins do. */
module EngineOrders {
  import opened Basics
  import opened Policy
  import opened EngineSpec
  import opened EnginePaths
  import opened EngineExactness
  import opened EngineLimits
  import EngineSoundness

  /** The four relations of a request are told apart. */
  predicate Distinct(h: Hypothesis) {
    && h.allowHash != h.denyHash && h.adminAllowHash != h.adminDenyHash
    && h.allowHash != h.adminDenyHash && h.denyHash != h.adminDenyHash
  }

  function Give(relation: Hash16, grantee: Hash16, issuer: Hash16): Tuple {
    Tuple(relation, [], true, grantee, issuer)
  }

  function Begin(env: Env, w: Work, depth: nat): Work {
    w.(counter := w.counter + 1, calls := w.calls + [Call(depth, w.counter < env.maxVisited)])
  }

  lemma BeginFacts(env: Env, w: Work, depth: nat)
    ensures Begin(env, w, depth).counter == w.counter + 1 && Begin(env, w, depth).memo == w.memo
    ensures FRESH.counter == 0 && FRESH.memo == map[]
  {}

  lemma SameKey(h: Hypothesis)
    ensures AdminAll([h]) == [h.Admin()] && AdminAll([h.Admin()]) == [h.Admin()]
    ensures ObjectKeyOf([h.Admin()]) == ObjectKeyOf([h])
  {}

  /** Resolving a holder of one tuple, or of two. */
  lemma ResolveOne(env: Env, h: Hypothesis, who: Hash16, a: Tuple, depth: nat, visited: set<Hash16>, w: Work)
    requires w.counter < env.maxVisited && Held(env.tuples, who) == [a]
    ensures var (f, w') := Consider(env, [h], a, 0, depth, visited, Begin(env, w, depth), Flags(false, false));
            Resolve(env, [h], who, depth, visited, w) == (f.Resolve(), w')
  {
    hide Consider;
    var (f, w') := Consider(env, [h], a, 0, depth, visited, Begin(env, w, depth), Flags(false, false));
    ScanStep(env, h, a, [], depth, visited, Begin(env, w, depth), Flags(false, false));
    ScanStep(env, h, a, [], depth, visited, w', f);
    assert [a] + [] == [a];
  }

  lemma ResolveTwo(env: Env, h: Hypothesis, who: Hash16, a: Tuple, b: Tuple, depth: nat, visited: set<Hash16>, w: Work)
    requires w.counter < env.maxVisited && Held(env.tuples, who) == [a, b]
    ensures var (f1, w1) := Consider(env, [h], a, 0, depth, visited, Begin(env, w, depth), Flags(false, false));
            var (f2, w2) := Consider(env, [h], b, 0, depth, visited, w1, f1);
            Resolve(env, [h], who, depth, visited, w) == (f2.Resolve(), w2)
  {
    hide Consider;
    var (f1, w1) := Consider(env, [h], a, 0, depth, visited, Begin(env, w, depth), Flags(false, false));
    var (f2, w2) := Consider(env, [h], b, 0, depth, visited, w1, f1);
    ScanStep(env, h, a, [b], depth, visited, Begin(env, w, depth), Flags(false, false));
    ScanStep(env, h, b, [], depth, visited, w1, f1);
    ScanStep(env, h, b, [], depth, visited, w2, f2);
    assert [a] + [b] == [a, b] && [b] + [] == [b];
  }

  // ---- What holders hold -----------------------------------------------------------

  lemma HeldOne(t: Tuple, x: Hash16)
    ensures Held([t], x) == if t.grantee == x then [t] else []
  {
    assert [t] == [] + [t];
    HeldSnoc([], t, x);
  }

  lemma HeldPair(a: Tuple, b: Tuple, x: Hash16)
    ensures Held([a, b], x) == (if a.grantee == x then [a] else []) + if b.grantee == x then [b] else []
  {
    assert [a, b] == [] + [a] + [b];
    HeldSnoc([], a, x);
    HeldSnoc([] + [a], b, x);
  }

  lemma {:induction false} HeldPlus(a: seq<Tuple>, b: seq<Tuple>, x: Hash16)
    ensures Held(a + b, x) == Held(a, x) + Held(b, x)
  {
    if b == [] {
      assert a + b == a;
    } else {
      HeldPlus(a, b[..|b| - 1], x);
      HeldSnoc(a + b[..|b| - 1], b[|b| - 1], x);
      assert a + b == a + b[..|b| - 1] + [b[|b| - 1]];
    }
  }

  // ---- The depth bound -------------------------------------------------------------

  /** A ladder of admins, each appointed by the one below and the lowest by the root; one
      rung more than the depth bound. */
  datatype Ladder = Ladder(h: Hypothesis, g: Hash16, root: Hash16, rungs: seq<Hash16>, cap: int) {
    ghost predicate Valid() {
      && Distinct(h) && |rungs| >= 2 && NoDuplicates(rungs)
      && g !in rungs && root !in rungs && cap >= |rungs| + 1
    }

    function Appoint(k: nat): Tuple
      requires k < |rungs|
    {
      Give(h.adminAllowHash, rungs[k], if k == 0 then root else rungs[k - 1])
    }

    function Steps(n: nat): (steps: seq<Tuple>)
      requires n <= |rungs|
      ensures |steps| == n
      ensures forall k :: 0 <= k < n ==> steps[k] == Appoint(k)
    {
      seq(n, k requires 0 <= k < n => Appoint(k))
    }

    function Allow(): Tuple
      requires |rungs| >= 2
    {
      Give(h.allowHash, g, rungs[0])
    }

    function Deny(): Tuple
      requires |rungs| >= 2
    {
      Give(h.denyHash, g, rungs[|rungs| - 1])
    }

    function Env(first: Tuple, second: Tuple): Env
      requires |rungs| >= 2
    {
      EngineSpec.Env({root}, [first, second] + Steps(|rungs|), |rungs| - 1, cap)
    }

    function MemoKey(k: nat): (Hash16, ObjectKey)
      requires k < |rungs|
    {
      (rungs[k], ObjectKeyOf([h]))
    }
  }

  lemma {:induction false} HeldSingle(tuples: seq<Tuple>, x: Hash16, i: nat)
    requires i < |tuples| && tuples[i].grantee == x
    requires forall j :: 0 <= j < |tuples| && j != i ==> tuples[j].grantee != x
    ensures Held(tuples, x) == [tuples[i]]
  {
    var before := tuples[..|tuples| - 1];
    if i < |before| {
      HeldSingle(before, x, i);
    } else {
      HeldNone(before, x);
    }
  }

  lemma LadderHeld(s: Ladder, first: Tuple, second: Tuple)
    requires s.Valid() && first.grantee == s.g == second.grantee
    ensures Held(s.Env(first, second).tuples, s.g) == [first, second]
    ensures forall k :: 0 <= k < |s.rungs| ==> Held(s.Env(first, second).tuples, s.rungs[k]) == [s.Appoint(k)]
  {
    hide Held;
    var steps := s.Steps(|s.rungs|);
    HeldPlus([first, second], steps, s.g);
    HeldPair(first, second, s.g);
    HeldNone(steps, s.g);
    assert [first, second] + [] == [first, second];
    forall k | 0 <= k < |s.rungs|
      ensures Held(s.Env(first, second).tuples, s.rungs[k]) == [s.Appoint(k)]
    {
      HeldPlus([first, second], steps, s.rungs[k]);
      HeldPair(first, second, s.rungs[k]);
      HeldSingle(steps, s.rungs[k], k);
    }
  }

  ghost predicate OnLadder(s: Ladder, env: Env) {
    && s.Valid() && env.roots == {s.root} && env.maxDepth == |s.rungs| - 1 && env.maxVisited == s.cap
    && forall k :: 0 <= k < |s.rungs| ==> Held(env.tuples, s.rungs[k]) == [s.Appoint(k)]
  }

  /** An issuer that nothing settles beforehand is settled by resolving it. */
  lemma AskAnew(env: Env, h: Hypothesis, x: Hash16, depth: nat, visited: set<Hash16>, w: Work)
    requires x !in env.roots && (x, ObjectKeyOf([h])) !in w.memo && depth < env.maxDepth && x !in visited
    ensures var (res, w') := Resolve(env, [h.Admin()], x, depth + 1, visited + {x}, w);
            Authority(env, x, [h], depth, visited, w)
            == if res.Allow? then (true, w'.(memo := w'.memo[(x, ObjectKeyOf([h])) := true])) else (false, w')
  {
    SameKey(h);
  }

  /** An admin with a single appointment has its appointer's authority. */
  lemma AskAppointer(env: Env, h: Hypothesis, x: Hash16, issuer: Hash16, depth: nat, visited: set<Hash16>, w: Work)
    requires h.adminAllowHash != h.adminDenyHash && w.counter < env.maxVisited
    requires x !in env.roots && (x, ObjectKeyOf([h])) !in w.memo && depth < env.maxDepth && x !in visited
    requires Held(env.tuples, x) == [Give(h.adminAllowHash, x, issuer)]
    ensures var (ok, w') := Authority(env, issuer, [h.Admin()], depth + 1, visited + {x}, Begin(env, w, depth + 1));
            Authority(env, x, [h], depth, visited, w)
            == if ok then (true, w'.(memo := w'.memo[(x, ObjectKeyOf([h])) := true])) else (false, w')
  {
    hide Resolve, Authority, Held;
    var t := Give(h.adminAllowHash, x, issuer);
    assert h.Admin().Allows(t) && !h.Admin().Denies(t);
    AskAnew(env, h, x, depth, visited, w);
    ResolveOne(env, h.Admin(), x, t, depth + 1, visited + {x}, w);
  }

  /** At the depth bound only the memo can answer. */
  lemma AtTheBound(env: Env, h: Hypothesis, x: Hash16, visited: set<Hash16>, w: Work)
    requires x !in env.roots && env.maxDepth >= 0
    requires (x, ObjectKeyOf([h])) in w.memo ==> w.memo[(x, ObjectKeyOf([h]))]
    ensures Authority(env, x, [h], env.maxDepth, visited, w) == ((x, ObjectKeyOf([h])) in w.memo, w)
  {}

  /** None of the rungs up to k is being resolved, and of these only the lowest may be
      remembered, as having authority. */
  ghost predicate Climbable(s: Ladder, k: nat, visited: set<Hash16>, w: Work)
    requires s.Valid() && k < |s.rungs|
  {
    && (forall j :: 0 <= j <= k ==> s.rungs[j] !in visited)
    && (forall j :: 1 <= j <= k ==> s.MemoKey(j) !in w.memo)
    && (s.MemoKey(0) in w.memo ==> w.memo[s.MemoKey(0)])
  }

  lemma RungBelow(s: Ladder, k: nat, visited: set<Hash16>, w: Work, depth: nat, env: Env)
    requires s.Valid() && 0 < k < |s.rungs| && Climbable(s, k, visited, w)
    ensures s.rungs[k] !in visited && s.MemoKey(k) !in w.memo
    ensures Climbable(s, k - 1, visited + {s.rungs[k]}, Begin(env, w, depth))
  {}

  /** The request's hypothesis, or its admin form. */
  predicate Akin(s: Ladder, h: Hypothesis) { h == s.h || h == s.h.Admin() }

  lemma AkinFacts(s: Ladder, h: Hypothesis)
    requires Akin(s, h)
    ensures h.Admin() == s.h.Admin() && Akin(s, h.Admin())
    ensures h.adminAllowHash == s.h.adminAllowHash && h.adminDenyHash == s.h.adminDenyHash
    ensures forall k :: 0 <= k < |s.rungs| ==> (s.rungs[k], ObjectKeyOf([h])) == s.MemoKey(k)
  {
    assert ObjectKeyOf([h]) == ObjectKeyOf([s.h]);
  }

  lemma RungHolds(s: Ladder, env: Env, k: nat, h: Hypothesis)
    requires OnLadder(s, env) && 0 < k < |s.rungs| && Akin(s, h)
    ensures Held(env.tuples, s.rungs[k]) == [Give(h.adminAllowHash, s.rungs[k], s.rungs[k - 1])]
    ensures h.adminAllowHash != h.adminDenyHash && s.rungs[k] !in env.roots
    ensures env.maxDepth == |s.rungs| - 1 && env.maxVisited == s.cap
  {
    hide Held;
  }

  /** One rung above the lowest has the authority of the rung below it. */
  lemma {:induction false} AskRung(s: Ladder, env: Env, k: nat, h: Hypothesis, visited: set<Hash16>, w: Work)
    requires s.Valid() && OnLadder(s, env) && 0 < k < |s.rungs| && Akin(s, h)
    requires Climbable(s, k, visited, w) && w.counter < s.cap
    ensures var depth := |s.rungs| - 1 - k + 1;
            var below := visited + {s.rungs[k]};
            var (ok, w') := Authority(env, s.rungs[k - 1], [s.h.Admin()], depth, below, Begin(env, w, depth));
            Authority(env, s.rungs[k], [h], |s.rungs| - 1 - k, visited, w)
            == if ok then (true, w'.(memo := w'.memo[s.MemoKey(k) := true])) else (false, w')
  {
    hide *;
    RungHolds(s, env, k, h);
    AkinFacts(s, h);
    RungBelow(s, k, visited, w, 0, env);
    AskAppointer(env, h, s.rungs[k], s.rungs[k - 1], |s.rungs| - 1 - k, visited, w);
  }

  /** Coming down from rung k the search reaches the lowest rung at the depth bound, where
      only the memo can answer for it. */
  lemma {:induction false} Climb(s: Ladder, env: Env, k: nat, h: Hypothesis, visited: set<Hash16>, w: Work)
    requires s.Valid() && OnLadder(s, env) && k < |s.rungs| && Akin(s, h)
    requires Climbable(s, k, visited, w) && w.counter + k <= s.cap
    ensures var (ok, w') := Authority(env, s.rungs[k], [h], |s.rungs| - 1 - k, visited, w);
            && (ok <==> s.MemoKey(0) in w.memo)
            && w'.counter == w.counter + k
            && (!ok ==> w'.memo == w.memo)
    decreases k
  {
    hide *;
    AkinFacts(s, h);
    if k == 0 {
      BottomRung(s, env, h, visited, w);
    } else {
      var depth := |s.rungs| - 1 - k;
      RungBelow(s, k, visited, w, depth + 1, env);
      AskRung(s, env, k, h, visited, w);
      BeginFacts(env, w, depth + 1);
      Climb(s, env, k - 1, s.h.Admin(), visited + {s.rungs[k]}, Begin(env, w, depth + 1));
    }
  }

  lemma BottomRung(s: Ladder, env: Env, h: Hypothesis, visited: set<Hash16>, w: Work)
    requires OnLadder(s, env) && Akin(s, h) && Climbable(s, 0, visited, w)
    ensures Authority(env, s.rungs[0], [h], |s.rungs| - 1, visited, w) == (s.MemoKey(0) in w.memo, w)
  {
    hide Authority, Held, ObjectKeyOf, Akin;
    AkinFacts(s, h);
    AtTheBound(env, h, s.rungs[0], visited, w);
  }

  /** The lowest rung's own authority is always found, and remembered. */
  lemma {:induction false} LowestRung(s: Ladder, env: Env, w: Work)
    requires OnLadder(s, env) && w.memo == map[] && w.counter < s.cap
    ensures var (ok, w') := Authority(env, s.rungs[0], [s.h], 0, {}, w);
            ok && w'.counter == w.counter + 1 && w'.memo == map[s.MemoKey(0) := true]
  {
    AskAppointer(env, s.h, s.rungs[0], s.root, 0, {}, w);
    AskRoot(env, s.h.Admin(), s.root, 1, {} + {s.rungs[0]}, Begin(env, w, 1));
    hide Authority;
  }

  lemma AskRoot(env: Env, h: Hypothesis, root: Hash16, depth: nat, visited: set<Hash16>, w: Work)
    requires root in env.roots
    ensures Authority(env, root, [h], depth, visited, w) == (true, w)
  {}

  /** A request answered by two candidates, one after the other. */
  lemma Answered(env: Env, h: Hypothesis, g: Hash16, a: Tuple, b: Tuple)
    requires Held(env.tuples, g) == [a, b] && env.maxVisited >= 1
    requires (h.Denies(a) || h.Allows(a)) && (h.Denies(b) || h.Allows(b))
    ensures var (ok1, w1) := Authority(env, a.issuer, [h], 0, {}, Begin(env, FRESH, 0));
            var (ok2, w2) := Authority(env, b.issuer, [h], 0, {}, w1);
            Evaluation(env, g, [h])
            == (Flags((h.Denies(a) && ok1) || (h.Denies(b) && ok2),
                      (h.Allows(a) && ok1) || (h.Allows(b) && ok2)).Resolve(), w2)
  {
    hide Authority, Scan, Resolve, Held;
    ResolveTwo(env, h, g, a, b, 0, {}, FRESH);
  }

  lemma LadderAnswers(s: Ladder)
    requires s.Valid()
    ensures |s.rungs| >= 2
    ensures s.h.Denies(s.Deny()) && s.h.Allows(s.Allow()) && !s.h.Denies(s.Allow()) && !s.h.Allows(s.Deny())
    ensures s.Allow().issuer == s.rungs[0] && s.Deny().issuer == s.rungs[|s.rungs| - 1]
    ensures s.Allow().grantee == s.g == s.Deny().grantee && s.cap >= |s.rungs| + 1 && Akin(s, s.h)
  {}

  lemma LadderStands(s: Ladder, first: Tuple, second: Tuple)
    requires s.Valid() && first.grantee == s.g == second.grantee
    ensures var env := s.Env(first, second);
            OnLadder(s, env) && Held(env.tuples, s.g) == [first, second] && env.maxVisited == s.cap
  {
    hide Held;
    LadderHeld(s, first, second);
  }

  lemma ReadyToClimb(s: Ladder, w: Work)
    requires s.Valid() && (w.memo == map[] || w.memo == map[s.MemoKey(0) := true])
    ensures Climbable(s, |s.rungs| - 1, {}, w)
    ensures s.MemoKey(0) in w.memo <==> w.memo != map[]
  {}

  lemma Verdicts(deny: bool)
    ensures Flags(deny, true).Resolve() == if deny then Deny else Allow
  {}

  lemma LadderDenied(s: Ladder)
    requires s.Valid()
    ensures var (res, w) := Evaluation(s.Env(s.Allow(), s.Deny()), s.g, [s.h]);
            res == Deny && w.counter == |s.rungs| + 1
  {
    hide *;
    LadderAnswers(s);
    LadderStands(s, s.Allow(), s.Deny());
    var env := s.Env(s.Allow(), s.Deny());
    BeginFacts(env, FRESH, 0);
    LowestRung(s, env, Begin(env, FRESH, 0));
    var w1 := Authority(env, s.rungs[0], [s.h], 0, {}, Begin(env, FRESH, 0)).1;
    ReadyToClimb(s, w1);
    Climb(s, env, |s.rungs| - 1, s.h, {}, w1);
    Answered(env, s.h, s.g, s.Allow(), s.Deny());
    Verdicts(true);
  }

  lemma LadderAllowed(s: Ladder)
    requires s.Valid()
    ensures var (res, w) := Evaluation(s.Env(s.Deny(), s.Allow()), s.g, [s.h]);
            res == Allow && w.counter == |s.rungs| + 1
  {
    hide *;
    LadderAnswers(s);
    LadderStands(s, s.Deny(), s.Allow());
    var env := s.Env(s.Deny(), s.Allow());
    BeginFacts(env, FRESH, 0);
    ReadyToClimb(s, Begin(env, FRESH, 0));
    Climb(s, env, |s.rungs| - 1, s.h, {}, Begin(env, FRESH, 0));
    LowestRung(s, env, Authority(env, s.rungs[|s.rungs| - 1], [s.h], 0, {}, Begin(env, FRESH, 0)).1);
    Answered(env, s.h, s.g, s.Deny(), s.Allow());
    Verdicts(false);
  }

  /** The memo is read before the depth bound: for every bound, an issuer beyond it counts
      once another candidate has had its appointer remembered, so with no demotion at all
      and budget to spare the order of the tuples decides the request. */
  lemma DepthMakesOrderMatter(s: Ladder)
    requires s.Valid()
    ensures var one, two := s.Env(s.Allow(), s.Deny()), s.Env(s.Deny(), s.Allow());
            && one.maxDepth == two.maxDepth == |s.rungs| - 1
            && SameTuples(one, two) && OnlyRootsDemote(one, AdminAll([s.h]))
            && Evaluation(one, s.g, [s.h]).1.counter <= one.maxVisited
            && Evaluation(two, s.g, [s.h]).1.counter <= two.maxVisited
            && Evaluation(one, s.g, [s.h]).0 == Deny && Evaluation(two, s.g, [s.h]).0 == Allow
  {
    LadderDenied(s);
    LadderAllowed(s);
    hide Evaluation;
    SameKey(s.h);
    var one, two := s.Env(s.Allow(), s.Deny()), s.Env(s.Deny(), s.Allow());
    assert one.tuples == [s.Allow()] + ([s.Deny()] + s.Steps(|s.rungs|));
    assert two.tuples == [s.Deny()] + ([s.Allow()] + s.Steps(|s.rungs|));
  }

  // ---- Demotion by appointed admins ------------------------------------------------

  /** A root and two admins x and y. */
  datatype Pair = Pair(h: Hypothesis, g: Hash16, root: Hash16, x: Hash16, y: Hash16) {
    predicate Valid() {
      && Distinct(h) && g != x && g != y && x != y && root != x && root != y
    }

    function Answer(issuer: Hash16, allow: bool): Tuple {
      Give(if allow then h.allowHash else h.denyHash, g, issuer)
    }

    function Appoint(who: Hash16): Tuple { Give(h.adminAllowHash, who, root) }

    function Demote(who: Hash16, issuer: Hash16): Tuple { Give(h.adminDenyHash, who, issuer) }

    /** The depth bound and the budget that the program runs with. */
    function Env(tuples: seq<Tuple>): Env {
      EngineSpec.Env({root}, tuples, 10, 50)
    }

    function MemoKey(who: Hash16): (Hash16, ObjectKey) { (who, ObjectKeyOf([h])) }

    /** The root appoints x and y, who demote each other. */
    function Rivalry(): seq<Tuple> {
      [Appoint(x), Demote(x, y), Appoint(y), Demote(y, x)]
    }
  }

  lemma RivalryHeld(s: Pair)
    requires s.Valid()
    ensures Held(s.Rivalry(), s.g) == []
    ensures Held(s.Rivalry(), s.x) == [s.Appoint(s.x), s.Demote(s.x, s.y)]
    ensures Held(s.Rivalry(), s.y) == [s.Appoint(s.y), s.Demote(s.y, s.x)]
  {
    assert s.Rivalry() == [s.Appoint(s.x), s.Demote(s.x, s.y)] + [s.Appoint(s.y), s.Demote(s.y, s.x)];
    forall who | who in {s.g, s.x, s.y}
      ensures Held(s.Rivalry(), who)
              == Held([s.Appoint(s.x), s.Demote(s.x, s.y)], who) + Held([s.Appoint(s.y), s.Demote(s.y, s.x)], who)
    {
      HeldPlus([s.Appoint(s.x), s.Demote(s.x, s.y)], [s.Appoint(s.y), s.Demote(s.y, s.x)], who);
    }
    HeldPair(s.Appoint(s.x), s.Demote(s.x, s.y), s.g);
    HeldPair(s.Appoint(s.y), s.Demote(s.y, s.x), s.g);
    HeldPair(s.Appoint(s.x), s.Demote(s.x, s.y), s.x);
    HeldPair(s.Appoint(s.y), s.Demote(s.y, s.x), s.x);
    HeldPair(s.Appoint(s.x), s.Demote(s.x, s.y), s.y);
    HeldPair(s.Appoint(s.y), s.Demote(s.y, s.x), s.y);
  }

  /** The two answers in this order, with the rivalry before, between or after them. */
  lemma FeudHeld(s: Pair, first: Tuple, second: Tuple, before: bool, between: bool)
    requires s.Valid() && first.grantee == s.g == second.grantee
    ensures var env := s.Env(Feud(s, first, second, before, between));
            && Held(env.tuples, s.g) == [first, second]
            && Held(env.tuples, s.x) == [s.Appoint(s.x), s.Demote(s.x, s.y)]
            && Held(env.tuples, s.y) == [s.Appoint(s.y), s.Demote(s.y, s.x)]
  {
    hide Held, Feud;
    RivalryHeld(s);
    FeudParts(s, first, second, before, between, s.g);
    FeudParts(s, first, second, before, between, s.x);
    FeudParts(s, first, second, before, between, s.y);
  }

  lemma FeudParts(s: Pair, first: Tuple, second: Tuple, before: bool, between: bool, who: Hash16)
    requires first.grantee == second.grantee
    ensures first.grantee == who && Held(s.Rivalry(), who) == [] ==>
              Held(Feud(s, first, second, before, between), who) == [first, second]
    ensures first.grantee != who ==> Held(Feud(s, first, second, before, between), who) == Held(s.Rivalry(), who)
  {
    hide Held;
    HeldOne(first, who);
    HeldOne(second, who);
    HeldPlus([first], [second], who);
    if before {
      HeldPlus(s.Rivalry(), [first] + [second], who);
    } else if between {
      HeldPlus([first] + s.Rivalry(), [second], who);
      HeldPlus([first], s.Rivalry(), who);
    } else {
      HeldPlus([first] + [second], s.Rivalry(), who);
    }
  }

  function Feud(s: Pair, first: Tuple, second: Tuple, before: bool, between: bool): seq<Tuple> {
    if before then s.Rivalry() + ([first] + [second])
    else if between then [first] + s.Rivalry() + [second]
    else [first] + [second] + s.Rivalry()
  }

  /** The candidates of two admins who demote each other, whichever of the two is meant. */
  ghost predicate Rivals(s: Pair, env: Env, p: Hash16, q: Hash16) {
    && s.Valid() && env == s.Env(env.tuples)
    && ((p == s.x && q == s.y) || (p == s.y && q == s.x))
    && Held(env.tuples, p) == [s.Appoint(p), s.Demote(p, q)]
    && Held(env.tuples, q) == [s.Appoint(q), s.Demote(q, p)]
  }

  /** While p is being resolved, q's demotion by p is cut, so q keeps its authority. */
  lemma SecondKept(s: Pair, env: Env, p: Hash16, q: Hash16, w: Work)
    requires Rivals(s, env, p, q) && w.memo == map[] && w.counter < 10
    ensures var (ok, w') := Authority(env, q, [s.h.Admin()], 1, {p}, w);
            ok && w'.counter == w.counter + 1 && w'.memo == map[s.MemoKey(q) := true]
  {
    SameKey(s.h);
    ResolveTwo(env, s.h.Admin(), q, s.Appoint(q), s.Demote(q, p), 2, {p} + {q}, w);
  }

  /** The one asked first is demoted by the other, which is remembered. */
  lemma FirstDemoted(s: Pair, env: Env, p: Hash16, q: Hash16, w: Work)
    requires Rivals(s, env, p, q) && w.memo == map[] && w.counter < 9
    ensures var (ok, w') := Authority(env, p, [s.h], 0, {}, w);
            !ok && w'.counter == w.counter + 2 && w'.memo == map[s.MemoKey(q) := true]
  {
    SameKey(s.h);
    assert {} + {p} == {p};
    SecondKept(s, env, p, q, Begin(env, w, 1));
    ResolveTwo(env, s.h.Admin(), p, s.Appoint(p), s.Demote(p, q), 1, {p}, w);
  }

  /** Of two answers by rivals the second one's stands. */
  lemma SecondStands(s: Pair, env: Env, p: Hash16, q: Hash16, allowP: bool)
    requires Rivals(s, env, p, q)
    requires Held(env.tuples, s.g) == [s.Answer(p, allowP), s.Answer(q, !allowP)]
    ensures var (res, w) := Evaluation(env, s.g, [s.h]);
            res == (if allowP then Deny else Allow) && w.counter == 3
  {
    FirstDemoted(s, env, p, q, Begin(env, FRESH, 0));
    Answered(env, s.h, s.g, s.Answer(p, allowP), s.Answer(q, !allowP));
  }

  /** Admins below the roots who demote each other: whichever the search meets first loses,
      so with depth and budget to spare the order of the tuples decides the request. */
  lemma DemotionMakesOrderMatter(s: Pair)
    requires s.Valid()
    ensures var allow, deny := s.Answer(s.x, true), s.Answer(s.y, false);
            var one, two := s.Env(Feud(s, allow, deny, false, false)), s.Env(Feud(s, deny, allow, false, false));
            && SameTuples(one, two) && |NonRootIssuers(one, [s.h])| <= one.maxDepth
            && Evaluation(one, s.g, [s.h]).1.counter <= one.maxVisited
            && Evaluation(two, s.g, [s.h]).1.counter <= two.maxVisited
            && Evaluation(one, s.g, [s.h]).0 == Deny && Evaluation(two, s.g, [s.h]).0 == Allow
  {
    var allow, deny := s.Answer(s.x, true), s.Answer(s.y, false);
    FeudHeld(s, allow, deny, false, false);
    FeudHeld(s, deny, allow, false, false);
    SecondStands(s, s.Env(Feud(s, allow, deny, false, false)), s.x, s.y, true);
    SecondStands(s, s.Env(Feud(s, deny, allow, false, false)), s.y, s.x, false);
    hide Evaluation;
    var issuers := NonRootIssuers(s.Env(Feud(s, allow, deny, false, false)), [s.h]);
    assert issuers <= {s.x, s.y};
    EngineSoundness.SubsetSmaller(issuers, {s.x, s.y});
  }

  /** The root appoints x and y, x demotes y, and y answers the request. */
  function OneSided(s: Pair): seq<Tuple> {
    [s.Answer(s.y, true), s.Appoint(s.x)] + [s.Appoint(s.y), s.Demote(s.y, s.x)]
  }

  /** A demotion by an appointed admin is heeded by the search and ignored by the plain
      reachability rule, even with no rivalry, no depth cut and budget to spare. */
  lemma OneSidedDemotion(s: Pair)
    requires s.Valid()
    ensures var env := s.Env(OneSided(s));
            && Evaluation(env, s.g, [s.h]).0 == Unresolved && Evaluation(env, s.g, [s.h]).1.counter <= env.maxVisited
            && Decision(env, s.g, [s.h]) == Allow
  {
    var env := s.Env(OneSided(s));
    OneSidedHeld(s);
    OneSidedSearch(s, env);
    OneSidedPlain(s, env);
  }

  lemma OneSidedHeld(s: Pair)
    requires s.Valid()
    ensures var tuples := OneSided(s);
            && Held(tuples, s.g) == [s.Answer(s.y, true)]
            && Held(tuples, s.x) == [s.Appoint(s.x)]
            && Held(tuples, s.y) == [s.Appoint(s.y), s.Demote(s.y, s.x)]
  {
    forall who | who in {s.g, s.x, s.y}
      ensures Held(OneSided(s), who)
              == Held([s.Answer(s.y, true), s.Appoint(s.x)], who) + Held([s.Appoint(s.y), s.Demote(s.y, s.x)], who)
    {
      HeldPlus([s.Answer(s.y, true), s.Appoint(s.x)], [s.Appoint(s.y), s.Demote(s.y, s.x)], who);
    }
    HeldPair(s.Answer(s.y, true), s.Appoint(s.x), s.g);
    HeldPair(s.Appoint(s.y), s.Demote(s.y, s.x), s.g);
    HeldPair(s.Answer(s.y, true), s.Appoint(s.x), s.x);
    HeldPair(s.Appoint(s.y), s.Demote(s.y, s.x), s.x);
    HeldPair(s.Answer(s.y, true), s.Appoint(s.x), s.y);
    HeldPair(s.Appoint(s.y), s.Demote(s.y, s.x), s.y);
  }

  lemma OneSidedSearch(s: Pair, env: Env)
    requires s.Valid() && env == s.Env(env.tuples)
    requires Held(env.tuples, s.g) == [s.Answer(s.y, true)] && Held(env.tuples, s.x) == [s.Appoint(s.x)]
    requires Held(env.tuples, s.y) == [s.Appoint(s.y), s.Demote(s.y, s.x)]
    ensures Evaluation(env, s.g, [s.h]).0 == Unresolved && Evaluation(env, s.g, [s.h]).1.counter == 3
  {
    SameKey(s.h);
    var admin, w0 := s.h.Admin(), Begin(env, FRESH, 0);
    assert {} + {s.y} == {s.y};
    ResolveOne(env, admin, s.x, s.Appoint(s.x), 2, {s.y} + {s.x}, Begin(env, w0, 1));
    ResolveTwo(env, admin, s.y, s.Appoint(s.y), s.Demote(s.y, s.x), 1, {s.y}, w0);
    ResolveOne(env, s.h, s.g, s.Answer(s.y, true), 0, {}, FRESH);
  }

  lemma OneSidedPlain(s: Pair, env: Env)
    requires s.Valid() && env == s.Env(OneSided(s))
    ensures Decision(env, s.g, [s.h]) == Allow
  {
    SameKey(s.h);
    var admin, answer, path := AdminAll([s.h]), s.Answer(s.y, true), [s.Appoint(s.y)];
    assert admin[0] == s.h.Admin() && admin[0].Allows(s.Appoint(s.y));
    assert SomeAllows(admin, s.Appoint(s.y));
    assert env.tuples[0] == answer && env.tuples[2] == s.Appoint(s.y);
    assert path[1..] == [] && Path(env, admin, s.root, []);
    assert Path(env, admin, s.y, path);
    assert [s.h][0].Allows(answer) && AllowEdge(env, [s.h], s.g, answer);
    assert Reaches(env, admin, answer.issuer);
    assert forall t :: !DenyEdge(env, [s.h], s.g, t);
  }
}
