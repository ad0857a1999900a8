/** How much budget a request can need, read off the policy before the call. */
module EngineBudget {
  import opened Basics
  import opened Policy
  import opened EngineSpec
  import opened EngineRelevance

  /** Calls of a tree of the given branching and height. */
  function Tree(b: nat, height: nat): (calls: nat)
    ensures calls >= 1
  {
    if height == 0 then 1 else 1 + b * Tree(b, height - 1)
  }

  /** Pairs of candidate and hypothesis, from position j on, that ask for the authority of
      an issuer who is no root. */
  function Questions(roots: set<Hash16>, hyps: seq<Hypothesis>, cands: seq<Tuple>, j: nat): nat
    requires j <= |hyps|
    decreases |cands|, |hyps| - j
  {
    if cands == [] then 0
    else if j == |hyps| then Questions(roots, hyps, cands[1..], 0)
    else
      (if (hyps[j].Denies(cands[0]) || hyps[j].Allows(cands[0])) && cands[0].issuer !in roots then 1 else 0)
      + Questions(roots, hyps, cands, j + 1)
  }

  /** No holder's tuples ask more than b such questions, about the request or about admin. */
  ghost predicate BranchesAtMost(env: Env, request: seq<Hypothesis>, b: nat) {
    forall g ::
      && Questions(env.roots, request, Held(env.tuples, g), 0) <= b
      && Questions(env.roots, AdminAll(request), Held(env.tuples, g), 0) <= b
  }

  /** The issuers, other than roots, of the tuples that bear on the request. */
  function Involved(env: Env, request: seq<Hypothesis>): set<Hash16> {
    set t | t in env.tuples && t.issuer !in env.roots && Relevant(request, t) :: t.issuer
  }

  /** The search nests no deeper than the depth bound and than the issuers there are. */
  function Levels(env: Env, request: seq<Hypothesis>): nat {
    var issuers := |Involved(env, request)|;
    if env.maxDepth <= 0 then 0 else if env.maxDepth <= issuers then env.maxDepth else issuers
  }

  /** A budget no request over these tuples can spend: a condition on the policy alone. */
  ghost predicate AmpleBudget(env: Env, request: seq<Hypothesis>, b: nat) {
    BranchesAtMost(env, request, b) && Tree(b, Levels(env, request)) <= env.maxVisited
  }

  /** The search can go at most `left` levels further. */
  ghost predicate Room(env: Env, request: seq<Hypothesis>, depth: nat, visited: set<Hash16>, left: nat) {
    env.maxDepth - depth <= left || |Involved(env, request) - visited| <= left
  }

  function Below(b: nat, left: nat): nat { if left == 0 then 0 else Tree(b, left - 1) }

  ghost predicate AllInvolved(env: Env, request: seq<Hypothesis>, cands: seq<Tuple>) {
    forall t :: t in cands && t.issuer !in env.roots && Relevant(request, t) ==> t.issuer in Involved(env, request)
  }

  lemma {:induction false} AuthorityCalls(env: Env, request: seq<Hypothesis>, issuer: Hash16, hyps: seq<Hypothesis>,
                                          depth: nat, visited: set<Hash16>, w: Work, b: nat, left: nat)
    requires Derived(request, hyps) && BranchesAtMost(env, request, b) && Room(env, request, depth, visited, left)
    requires issuer in env.roots || issuer in Involved(env, request)
    ensures var w' := Authority(env, issuer, hyps, depth, visited, w).1;
            w'.counter <= w.counter + if issuer in env.roots then 0 else Below(b, left)
    decreases left, 0, 0, 0
  {
    hide BranchesAtMost, Involved, Resolve;
    if issuer !in env.roots && (issuer, ObjectKeyOf(hyps)) !in w.memo
       && depth < env.maxDepth && issuer !in visited {
      var all := Involved(env, request);
      assert all - (visited + {issuer}) == (all - visited) - {issuer};
      AdminStable(request);
      ResolveCalls(env, request, AdminAll(hyps), issuer, depth + 1, visited + {issuer}, w, b, left - 1);
    }
  }

  lemma {:induction false} ResolveCalls(env: Env, request: seq<Hypothesis>, hyps: seq<Hypothesis>, g: Hash16,
                                        depth: nat, visited: set<Hash16>, w: Work, b: nat, left: nat)
    requires Derived(request, hyps) && BranchesAtMost(env, request, b) && Room(env, request, depth, visited, left)
    ensures Resolve(env, hyps, g, depth, visited, w).1.counter <= w.counter + Tree(b, left)
    decreases left, 2, 0, 0
  {
    hide Room, Relevant;
    var w' := w.(counter := w.counter + 1, calls := w.calls + [Call(depth, w.counter < env.maxVisited)]);
    if w'.counter <= env.maxVisited {
      var cands := Held(env.tuples, g);
      HeldMeans(env.tuples, g);
      ScanCalls(env, request, hyps, cands, 0, depth, visited, w', Flags(false, false), b, left);
      AtMost(Questions(env.roots, hyps, cands, 0), b, Below(b, left));
    }
  }

  lemma AtMost(a: nat, b: nat, k: nat)
    requires a <= b
    ensures a * k <= b * k
  {}

  lemma OneMore(n: nat, k: nat)
    ensures (1 + n) * k == k + n * k
  {}

  lemma {:induction false} ScanCalls(env: Env, request: seq<Hypothesis>, hyps: seq<Hypothesis>, cands: seq<Tuple>,
                                     j: nat, depth: nat, visited: set<Hash16>, w: Work, flags: Flags, b: nat, left: nat)
    requires Derived(request, hyps) && BranchesAtMost(env, request, b) && Room(env, request, depth, visited, left)
    requires j <= |hyps| && AllInvolved(env, request, cands)
    ensures Scan(env, hyps, cands, j, depth, visited, w, flags).1.counter
            <= w.counter + Questions(env.roots, hyps, cands, j) * Below(b, left)
    decreases left, 1, |cands|, |hyps| - j
  {
    hide BranchesAtMost, Room, Involved, Relevant, Derived, Below, Authority, Resolve;
    if cands == [] {
    } else if j == |hyps| {
      ScanCalls(env, request, hyps, cands[1..], 0, depth, visited, w, flags, b, left);
    } else {
      if hyps[j].Denies(cands[0]) || hyps[j].Allows(cands[0]) {
        HitsAreRelevant(request, hyps, cands[0], j);
        assert cands[0] in cands;
        AuthorityCalls(env, request, cands[0].issuer, hyps, depth, visited, w, b, left);
      }
      var (flags', w') := Consider(env, hyps, cands[0], j, depth, visited, w, flags);
      ScanCalls(env, request, hyps, cands, j + 1, depth, visited, w', flags', b, left);
      OneMore(Questions(env.roots, hyps, cands, j + 1), Below(b, left));
    }
  }

  lemma HitsAreRelevant(request: seq<Hypothesis>, hyps: seq<Hypothesis>, t: Tuple, j: nat)
    requires Derived(request, hyps) && j < |hyps| && (hyps[j].Denies(t) || hyps[j].Allows(t))
    ensures Relevant(request, t)
  {
    if !Relevant(request, t) {
      IrrelevantMatchesNothing(request, hyps, t);
    }
  }

  /** Whatever the budget, a request makes no more calls than a tree of its policy's
      branching and height has. */
  lemma CallsWithinTree(env: Env, g: Hash16, request: seq<Hypothesis>, b: nat)
    requires BranchesAtMost(env, request, b)
    ensures Evaluation(env, g, request).1.counter <= Tree(b, Levels(env, request))
  {
    assert Involved(env, request) - {} == Involved(env, request);
    ResolveCalls(env, request, request, g, 0, {}, FRESH, b, Levels(env, request));
  }

  /** An ample budget is never spent. */
  lemma BudgetIsEnough(env: Env, g: Hash16, request: seq<Hypothesis>, b: nat)
    requires AmpleBudget(env, request, b)
    ensures Evaluation(env, g, request).1.counter <= env.maxVisited
  {
    CallsWithinTree(env, g, request, b);
  }

  // ---- The same tuples in another order --------------------------------------------

  lemma {:induction false} QuestionsHead(roots: set<Hash16>, hyps: seq<Hypothesis>, t: Tuple, rest: seq<Tuple>, j: nat)
    requires j <= |hyps|
    ensures Questions(roots, hyps, [t] + rest, j) == Questions(roots, hyps, [t], j) + Questions(roots, hyps, rest, 0)
    decreases |hyps| - j
  {
    if j < |hyps| {
      QuestionsHead(roots, hyps, t, rest, j + 1);
    } else {
      assert ([t] + rest)[1..] == rest && [t][1..] == [];
    }
  }

  lemma {:induction false} QuestionsPlus(roots: set<Hash16>, hyps: seq<Hypothesis>, a: seq<Tuple>, b: seq<Tuple>)
    ensures Questions(roots, hyps, a + b, 0) == Questions(roots, hyps, a, 0) + Questions(roots, hyps, b, 0)
  {
    if a == [] {
      assert a + b == b;
    } else {
      hide Questions;
      QuestionsPlus(roots, hyps, a[1..], b);
      QuestionsHead(roots, hyps, a[0], a[1..], 0);
      QuestionsHead(roots, hyps, a[0], a[1..] + b, 0);
      assert a == [a[0]] + a[1..] && a + b == [a[0]] + (a[1..] + b);
    }
  }

  /** Distinct candidates drawn from a list ask no more than the list does. */
  lemma {:induction false} QuestionsFit(roots: set<Hash16>, hyps: seq<Hypothesis>, a: seq<Tuple>, b: seq<Tuple>)
    requires NoDuplicates(a) && forall t :: t in a ==> t in b
    ensures Questions(roots, hyps, a, 0) <= Questions(roots, hyps, b, 0)
  {
    if a != [] {
      var t, rest := a[0], a[1..];
      assert t in b;
      var i :| 0 <= i < |b| && b[i] == t;
      var others := b[..i] + b[i + 1..];
      forall u | u in rest
        ensures u in others
      {
        assert u in a && u in b && u != t;
        var k :| 0 <= k < |b| && b[k] == u;
        assert others[if k < i then k else k - 1] == u;
      }
      QuestionsFit(roots, hyps, rest, others);
      hide Questions;
      assert a == [t] + rest && b == b[..i] + ([t] + b[i + 1..]);
      QuestionsPlus(roots, hyps, [t], rest);
      QuestionsPlus(roots, hyps, b[..i], [t] + b[i + 1..]);
      QuestionsPlus(roots, hyps, [t], b[i + 1..]);
      QuestionsPlus(roots, hyps, b[..i], b[i + 1..]);
    }
  }

  lemma {:induction false} HeldOnce(tuples: seq<Tuple>, g: Hash16)
    requires NoDuplicates(tuples)
    ensures NoDuplicates(Held(tuples, g))
  {
    if tuples != [] {
      var before := tuples[..|tuples| - 1];
      HeldOnce(before, g);
      HeldMeans(before, g);
    }
  }

  /** A budget ample for some tuples is ample for them in any other order. */
  lemma OrderKeepsAmple(env: Env, env': Env, request: seq<Hypothesis>, b: nat)
    requires AmpleBudget(env, request, b) && env' == env.(tuples := env'.tuples)
    requires NoDuplicates(env'.tuples) && forall t :: t in env.tuples <==> t in env'.tuples
    ensures AmpleBudget(env', request, b) && Involved(env', request) == Involved(env, request)
  {
    forall g
      ensures Questions(env'.roots, request, Held(env'.tuples, g), 0) <= b
      ensures Questions(env'.roots, AdminAll(request), Held(env'.tuples, g), 0) <= b
    {
      hide Questions, Held;
      HeldOnce(env'.tuples, g);
      HeldMeans(env.tuples, g);
      HeldMeans(env'.tuples, g);
      QuestionsFit(env.roots, request, Held(env'.tuples, g), Held(env.tuples, g));
      QuestionsFit(env.roots, AdminAll(request), Held(env'.tuples, g), Held(env.tuples, g));
    }
    assert Involved(env', request) == Involved(env, request);
  }
}
