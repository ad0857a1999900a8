/** What the engine decides, in plaintext: rules about patterns and relations, as they were
    before hashing. */
module EngineText {
  import opened Basics
  import opened Policy
  import opened Namespace
  import opened EngineSpec
  import opened EnginePaths
  import opened EngineSoundness
  import opened EngineExactness
  import opened EngineBudget
  import opened EngineStrata
  import EngineRelevance

  /** A permission before hashing, with the salt it is hashed under. */
  datatype Rule = Rule(salt: Hasher, pattern: string, relation: string, grantee: Hash16, issuer: Hash16)

  /** The tuple is the rule, hashed. */
  ghost predicate Hashes(r: Rule, t: Tuple) {
    && t.relationHash == r.salt.mac(r.relation)
    && (t.objectHashes, t.wildcard) == r.salt.HashObject(r.pattern)
    && t.grantee == r.grantee && t.issuer == r.issuer
  }

  /** A node's roots and salts, and the rules it holds. */
  datatype Book = Book(roots: set<Hash16>, salts: seq<Hasher>, rules: seq<Rule>) {
    /** The tuples are these rules, hashed, in the same order. */
    ghost predicate Written(tuples: seq<Tuple>) {
      |tuples| == |rules| && forall i :: 0 <= i < |rules| ==> Hashes(rules[i], tuples[i])
    }

    /** No two labels that an evaluation compares share a hash. */
    ghost predicate Clear(objectId: string, relation: string) {
      forall r, h :: r in rules && h in salts ==>
        && (forall l :: l in Labels(relation) && r.salt.mac(r.relation) == h.mac(l) ==> r.salt == h && r.relation == l)
        && Apart(h, ParseObject(r.pattern).0, ParseObject(objectId).0)
    }

    /** The rule gives g the relation on the object. */
    ghost predicate Says(objectId: string, relation: string, g: Hash16, r: Rule) {
      && r in rules && r.salt in salts
      && r.grantee == g && r.relation == relation && CoversText(r.pattern, objectId)
    }

    /** A root has taken the relation on the object from g. */
    ghost predicate RootRefuses(objectId: string, relation: string, g: Hash16) {
      exists r :: Says(objectId, "-" + relation, g, r) && r.issuer in roots
    }

    /** A chain of rules for g: the first gives the relation, each later one makes the issuer
        before it an admin of the object, only the last issuer is a root, and no root refuses
        a holder on the way. */
    ghost predicate Backs(objectId: string, relation: string, g: Hash16, c: seq<Rule>)
      decreases |c|
    {
      && c != [] && Says(objectId, relation, g, c[0]) && !RootRefuses(objectId, relation, g)
      && if c[0].issuer in roots then |c| == 1 else Backs(objectId, "admin", c[0].issuer, c[1..])
    }

    /** Someone with authority over the object by plain reachability. */
    ghost predicate Trusts(objectId: string, x: Hash16) {
      x in roots || exists c :: Backs(objectId, "admin", x, c)
    }

    /** Only roots take the admin relation away. */
    ghost predicate OnlyRootsTakeAdmin(objectId: string) {
      forall x, r :: Says(objectId, "-admin", x, r) ==> r.issuer in roots
    }

    /** The issuers, other than roots, of the rules that bear on the request. */
    ghost function Issuers(objectId: string, relation: string): set<Hash16> {
      set r | r in rules && r.issuer !in roots && Bears(objectId, relation, r) :: r.issuer
    }

    /** The rule bears on the request, or on who is an admin of its object. */
    ghost predicate Bears(objectId: string, relation: string, r: Rule) {
      r.salt in salts && r.relation in Labels(relation) && CoversText(r.pattern, objectId)
    }
  }

  function Labels(relation: string): set<string> {
    {relation, "-" + relation, "admin", "-admin"}
  }

  /** The number of rules about one grantee. */
  function About(rules: seq<Rule>, g: Hash16): nat {
    if rules == [] then 0
    else About(rules[..|rules| - 1], g) + if rules[|rules| - 1].grantee == g then 1 else 0
  }

  // ---- Matching ----------------------------------------------------------------------

  lemma AdminIs(salts: seq<Hasher>, objectId: string, relation: string)
    ensures AdminAll(HypothesesFor(salts, objectId, relation)) == HypothesesFor(salts, objectId, "admin")
  {}

  lemma AdminClear(book: Book, objectId: string, relation: string)
    requires book.Clear(objectId, relation)
    ensures book.Clear(objectId, "admin")
  {
    assert "-" + "admin" == "-admin";
    assert Labels("admin") <= Labels(relation);
  }

  /** A tuple matches a request's hashes exactly when its rule matches the request's words. */
  lemma MatchIsTextual(book: Book, objectId: string, relation: string, r: Rule, t: Tuple)
    requires book.Clear(objectId, relation) && r in book.rules && Hashes(r, t)
    ensures var hyps := HypothesesFor(book.salts, objectId, relation);
            && (SomeAllows(hyps, t) <==> book.Says(objectId, relation, r.grantee, r))
            && (SomeDenies(hyps, t) <==> book.Says(objectId, "-" + relation, r.grantee, r))
  {
    var hyps := HypothesesFor(book.salts, objectId, relation);
    assert relation in Labels(relation) && "-" + relation in Labels(relation);
    assert |"-" + relation| > |relation|;
    forall j | 0 <= j < |hyps|
      ensures hyps[j].Denies(t) <==>
                book.salts[j] == r.salt && r.relation == "-" + relation && CoversText(r.pattern, objectId)
      ensures hyps[j].Allows(t) <==>
                book.salts[j] == r.salt && r.relation == relation && CoversText(r.pattern, objectId)
    {
      var h := book.salts[j];
      assert h in book.salts;
      HashCoverageIsTextual(h, r.pattern, objectId);
    }
    if r.salt in book.salts {
      var j :| 0 <= j < |book.salts| && book.salts[j] == r.salt;
      assert hyps[j].Denies(t) || hyps[j].Allows(t) || !CoversText(r.pattern, objectId)
             || (r.relation != relation && r.relation != "-" + relation);
    }
  }

  // ---- The two graphs ----------------------------------------------------------------

  /** The environment's tuples are the book's rules, hashed. */
  ghost predicate Keeps(env: Env, book: Book) {
    env.roots == book.roots && book.Written(env.tuples)
  }

  /** The relation as a rule words it. */
  function Word(deny: bool, relation: string): string { if deny then "-" + relation else relation }

  lemma RuleBehind(env: Env, book: Book, objectId: string, relation: string, g: Hash16, deny: bool, t: Tuple)
    returns (r: Rule)
    requires Keeps(env, book) && book.Clear(objectId, relation)
    requires Edge(env, HypothesesFor(book.salts, objectId, relation), g, deny, t)
    ensures book.Says(objectId, Word(deny, relation), g, r) && Hashes(r, t)
  {
    hide SomeAllows, SomeDenies;
    var i :| 0 <= i < |env.tuples| && env.tuples[i] == t;
    r := book.rules[i];
    MatchIsTextual(book, objectId, relation, r, t);
  }

  lemma TupleBehind(env: Env, book: Book, objectId: string, relation: string, g: Hash16, deny: bool, r: Rule)
    returns (t: Tuple)
    requires Keeps(env, book) && book.Clear(objectId, relation)
    requires book.Says(objectId, Word(deny, relation), g, r)
    ensures Edge(env, HypothesesFor(book.salts, objectId, relation), g, deny, t) && Hashes(r, t)
  {
    hide SomeAllows, SomeDenies;
    var i :| 0 <= i < |book.rules| && book.rules[i] == r;
    t := env.tuples[i];
    MatchIsTextual(book, objectId, relation, r, t);
  }

  lemma SameRoots(env: Env, book: Book)
    requires Keeps(env, book)
    ensures env.roots == book.roots
  {}

  /** A root's textual refusal is a root's deny. */
  lemma RefusalIsRootDeny(env: Env, book: Book, objectId: string, relation: string, g: Hash16)
    requires Keeps(env, book) && book.Clear(objectId, relation)
    ensures NoRootDeny(env, HypothesesFor(book.salts, objectId, relation), g)
            <==> !book.RootRefuses(objectId, relation, g)
  {
    hide DenyEdge;
    var hyps := HypothesesFor(book.salts, objectId, relation);
    if t :| DenyEdge(env, hyps, g, t) && t.issuer in env.roots {
      var r := RuleBehind(env, book, objectId, relation, g, true, t);
    }
    if r :| book.Says(objectId, "-" + relation, g, r) && r.issuer in book.roots {
      var t := TupleBehind(env, book, objectId, relation, g, true, r);
    }
  }

  /** Delegation chains of tuples are chains of rules. */
  lemma {:induction false} ChainIsTextual(env: Env, book: Book, objectId: string, relation: string, g: Hash16,
                                          c: seq<Tuple>)
    returns (d: seq<Rule>)
    requires Keeps(env, book) && book.Clear(objectId, relation)
    requires Chain(env, HypothesesFor(book.salts, objectId, relation), g, c)
    ensures book.Backs(objectId, relation, g, d)
    ensures |d| == |c| && forall i :: 0 <= i < |c| ==> d[i].issuer == c[i].issuer
    decreases |c|
  {
    hide AllowEdge, NoRootDeny, Book.Clear, Book.Says, Book.RootRefuses, Keeps;
    RefusalIsRootDeny(env, book, objectId, relation, g);
    SameRoots(env, book);
    var r := RuleBehind(env, book, objectId, relation, g, false, c[0]);
    if c[0].issuer in env.roots {
      d := [r];
    } else {
      AdminIs(book.salts, objectId, relation);
      AdminClear(book, objectId, relation);
      var rest := ChainIsTextual(env, book, objectId, "admin", c[0].issuer, c[1..]);
      d := [r] + rest;
      assert d[1..] == rest;
    }
  }

  // ---- What an evaluation decides ----------------------------------------------------

  function IssuersAlong(c: seq<Rule>): seq<Hash16> {
    seq(|c|, i requires 0 <= i < |c| => c[i].issuer)
  }

  /** Issuers counted without repetition are pairwise different. */
  lemma {:induction false} ViaOnce(env: Env, hyps: seq<Hypothesis>, g: Hash16, c: seq<Tuple>)
    requires Chain(env, hyps, g, c)
    ensures |Via(c)| <= |c| - 1
    ensures forall i :: 0 <= i < |c| - 1 ==> c[i].issuer in Via(c) && c[i].issuer !in env.roots
    ensures c[|c| - 1].issuer in env.roots
    ensures |Via(c)| == |c| - 1 ==> forall i, j :: 0 <= i < j < |c| ==> c[i].issuer != c[j].issuer
    decreases |c|
  {
    hide AllowEdge, NoRootDeny;
    if |c| > 1 {
      ViaOnce(env, AdminAll(hyps), c[0].issuer, c[1..]);
      var rest := Via(c[1..]);
      assert Via(c) == {c[0].issuer} + rest;
      if c[0].issuer in rest {
        assert Via(c) == rest;
      } else {
        assert |Via(c)| == 1 + |rest|;
      }
      forall i | 1 <= i < |c|
        ensures c[i] == c[1..][i - 1]
      {}
    }
  }

  /** Every ALLOW is backed by a chain of rules from the grantee to a root, each of them in
      force and covering the object in its own words, that repeats no issuer. */
  lemma AllowIsBacked(env: Env, book: Book, objectId: string, relation: string, g: Hash16)
    requires Keeps(env, book) && book.Clear(objectId, relation)
    requires Allowed(env, g, HypothesesFor(book.salts, objectId, relation))
    ensures exists d :: book.Backs(objectId, relation, g, d) && |d| <= env.maxVisited && NoDuplicates(IssuersAlong(d))
  {
    hide Allowed, Keeps, Chain;
    var hyps := HypothesesFor(book.salts, objectId, relation);
    AllowRestsOnChain(env, g, hyps);
    var c: seq<Tuple> :| BoundedChain(env, hyps, g, c);
    ViaOnce(env, hyps, g, c);
    var d := ChainIsTextual(env, book, objectId, relation, g, c);
    assert NoDuplicates(IssuersAlong(d));
  }

  /** A root that has taken the relation from the grantee is always heeded. */
  lemma RefusalIsHeeded(env: Env, book: Book, objectId: string, relation: string, g: Hash16)
    requires Keeps(env, book) && book.Clear(objectId, relation) && book.RootRefuses(objectId, relation, g)
    ensures !Allowed(env, g, HypothesesFor(book.salts, objectId, relation))
  {
    hide Allowed;
    var hyps := HypothesesFor(book.salts, objectId, relation);
    RefusalIsRootDeny(env, book, objectId, relation, g);
    var t :| DenyEdge(env, hyps, g, t) && t.issuer in env.roots;
    RootDenyVetoes(env, g, hyps, t);
  }

  /** The rules decide for the grantee, given who has authority over the object: no one who
      has takes the relation away, and someone who has gives it. */
  ghost predicate Grants(book: Book, objectId: string, relation: string, g: Hash16, authority: Hash16 -> bool) {
    && !(exists r :: book.Says(objectId, "-" + relation, g, r) && authority(r.issuer))
    && exists r :: book.Says(objectId, relation, g, r) && authority(r.issuer)
  }

  /** Nothing cuts the evaluation of the request: read off the rules and the bounds. */
  ghost predicate Affordable(env: Env, book: Book, objectId: string, relation: string, b: nat) {
    var issuers := |book.Issuers(objectId, relation)|;
    && issuers <= env.maxDepth && Tree(b, issuers) <= env.maxVisited
    && forall x :: About(book.rules, x) * |book.salts| <= b
  }

  lemma {:induction false} AboutIsHeld(rules: seq<Rule>, tuples: seq<Tuple>, g: Hash16)
    requires |tuples| == |rules| && forall i :: 0 <= i < |rules| ==> Hashes(rules[i], tuples[i])
    ensures |Held(tuples, g)| == About(rules, g)
  {
    if rules != [] {
      AboutIsHeld(rules[..|rules| - 1], tuples[..|tuples| - 1], g);
    }
  }

  lemma {:induction false} QuestionsFit(roots: set<Hash16>, hyps: seq<Hypothesis>, cands: seq<Tuple>, j: nat)
    requires j <= |hyps|
    ensures Questions(roots, hyps, cands, j) <= if cands == [] then 0 else |cands| * |hyps| - j
    decreases |cands|, |hyps| - j
  {
    if cands != [] {
      if j == |hyps| {
        QuestionsFit(roots, hyps, cands[1..], 0);
        assert |cands| * |hyps| == (|cands| - 1) * |hyps| + |hyps|;
      } else {
        QuestionsFit(roots, hyps, cands, j + 1);
      }
    }
  }

  lemma RelatedIsBearing(book: Book, objectId: string, relation: string, r: Rule, t: Tuple, h: Hasher)
    requires book.Clear(objectId, relation) && r in book.rules && h in book.salts && Hashes(r, t)
    ensures EngineRelevance.Related(HypothesisFor(h, objectId, relation), t)
            <==> h == r.salt && r.relation in Labels(relation) && CoversText(r.pattern, objectId)
  {
    hide CoversText;
    assert "-" + "admin" == "-admin";
    HashCoverageIsTextual(h, r.pattern, objectId);
  }

  lemma RelevantIsBearing(book: Book, objectId: string, relation: string, r: Rule, t: Tuple)
    requires book.Clear(objectId, relation) && r in book.rules && Hashes(r, t)
    ensures EngineRelevance.Relevant(HypothesesFor(book.salts, objectId, relation), t)
            <==> book.Bears(objectId, relation, r)
  {
    hide CoversText, Labels, EngineRelevance.Related, HypothesisFor, Book.Clear, Hashes;
    var hyps := HypothesesFor(book.salts, objectId, relation);
    forall j | 0 <= j < |hyps|
      ensures EngineRelevance.Related(hyps[j], t) <==>
                book.salts[j] == r.salt && r.relation in Labels(relation) && CoversText(r.pattern, objectId)
    {
      RelatedIsBearing(book, objectId, relation, r, t, book.salts[j]);
    }
    if book.Bears(objectId, relation, r) {
      var j :| 0 <= j < |book.salts| && book.salts[j] == r.salt;
      assert EngineRelevance.Related(hyps[j], t);
    }
  }

  /** The rule at a position bears on the request exactly when its tuple is relevant to it. */
  lemma BearingAt(env: Env, book: Book, objectId: string, relation: string, i: nat)
    requires Keeps(env, book) && book.Clear(objectId, relation) && i < |book.rules|
    ensures i < |env.tuples| && env.tuples[i].issuer == book.rules[i].issuer
    ensures EngineRelevance.Relevant(HypothesesFor(book.salts, objectId, relation), env.tuples[i])
            <==> book.Bears(objectId, relation, book.rules[i])
  {
    hide EngineRelevance.Relevant, Book.Clear, Book.Bears, HypothesesFor;
    RelevantIsBearing(book, objectId, relation, book.rules[i], env.tuples[i]);
  }

  lemma InvolvedAreIssuers(env: Env, book: Book, objectId: string, relation: string)
    requires Keeps(env, book) && book.Clear(objectId, relation)
    ensures Involved(env, HypothesesFor(book.salts, objectId, relation)) == book.Issuers(objectId, relation)
  {
    hide EngineRelevance.Relevant, Book.Clear, Book.Bears, HypothesesFor, Hashes;
    var hyps := HypothesesFor(book.salts, objectId, relation);
    forall i | 0 <= i < |book.rules|
      ensures env.tuples[i].issuer == book.rules[i].issuer
      ensures EngineRelevance.Relevant(hyps, env.tuples[i]) <==> book.Bears(objectId, relation, book.rules[i])
    {
      BearingAt(env, book, objectId, relation, i);
    }
  }

  /** The environment is affordable for the search as well. */
  lemma AffordableIsAmple(env: Env, book: Book, objectId: string, relation: string, b: nat)
    requires Keeps(env, book) && book.Clear(objectId, relation) && Affordable(env, book, objectId, relation, b)
    ensures AmpleBudget(env, HypothesesFor(book.salts, objectId, relation), b)
    ensures |Involved(env, HypothesesFor(book.salts, objectId, relation))| <= env.maxDepth
  {
    hide Book.Clear, Hashes, Involved, Book.Issuers, Questions;
    var hyps := HypothesesFor(book.salts, objectId, relation);
    InvolvedAreIssuers(env, book, objectId, relation);
    forall x
      ensures Questions(env.roots, hyps, Held(env.tuples, x), 0) <= b
      ensures Questions(env.roots, AdminAll(hyps), Held(env.tuples, x), 0) <= b
    {
      AboutIsHeld(book.rules, env.tuples, x);
      QuestionsFit(env.roots, hyps, Held(env.tuples, x), 0);
      QuestionsFit(env.roots, AdminAll(hyps), Held(env.tuples, x), 0);
      assert About(book.rules, x) * |book.salts| <= b;
    }
  }

  /** Someone with authority stands behind an edge exactly when behind a rule. */
  lemma IssuersAgree(env: Env, book: Book, objectId: string, relation: string, g: Hash16, deny: bool,
                     authority: Hash16 -> bool)
    requires Keeps(env, book) && book.Clear(objectId, relation)
    ensures (exists t :: Edge(env, HypothesesFor(book.salts, objectId, relation), g, deny, t) && authority(t.issuer))
            <==> exists r :: book.Says(objectId, Word(deny, relation), g, r) && authority(r.issuer)
  {
    hide Edge, Book.Clear, Book.Says, Keeps;
    if t :| Edge(env, HypothesesFor(book.salts, objectId, relation), g, deny, t) && authority(t.issuer) {
      var r := RuleBehind(env, book, objectId, relation, g, deny, t);
    }
    if r :| book.Says(objectId, Word(deny, relation), g, r) && authority(r.issuer) {
      var t := TupleBehind(env, book, objectId, relation, g, deny, r);
    }
  }

  /** Decisions by edges are decisions by rules, when both go by the same authority. */
  lemma EdgesDecideAsRules(env: Env, book: Book, objectId: string, relation: string, g: Hash16, authority: Hash16 -> bool)
    requires Keeps(env, book) && book.Clear(objectId, relation)
    ensures var hyps := HypothesesFor(book.salts, objectId, relation);
            Grants(book, objectId, relation, g, authority) <==>
              && !(exists t :: DenyEdge(env, hyps, g, t) && authority(t.issuer))
              && exists t :: AllowEdge(env, hyps, g, t) && authority(t.issuer)
  {
    hide AllowEdge, DenyEdge, Book.Clear, Book.Says, Keeps;
    IssuersAgree(env, book, objectId, relation, g, true, authority);
    IssuersAgree(env, book, objectId, relation, g, false, authority);
    EdgeIs(env, HypothesesFor(book.salts, objectId, relation), g);
  }

  // ---- Who has authority, in the rules' own words --------------------------------------

  /** Someone with authority takes admin from x. */
  ghost predicate Demoted(book: Book, objectId: string, authority: Hash16 -> bool, x: Hash16) {
    exists r :: book.Says(objectId, "-admin", x, r) && authority(r.issuer)
  }

  /** Appointments from x to the first root, through holders no one with authority demotes. */
  ghost predicate Upholds(book: Book, objectId: string, authority: Hash16 -> bool, x: Hash16, c: seq<Rule>)
    decreases |c|
  {
    && c != [] && x !in book.roots && book.Says(objectId, "admin", x, c[0]) && !Demoted(book, objectId, authority, x)
    && if c[0].issuer in book.roots then |c| == 1 else Upholds(book, objectId, authority, c[0].issuer, c[1..])
  }

  /** Authority over the object: roots have it, and whoever such a chain upholds. */
  ghost predicate IsAuthority(book: Book, objectId: string, authority: Hash16 -> bool) {
    forall x :: authority(x) <==> x in book.roots || exists c :: Upholds(book, objectId, authority, x, c)
  }

  /** Among those who are no roots, the rules appoint from the same level or below, and
      demote from below. */
  ghost predicate Layered(book: Book, objectId: string, level: Ranking) {
    forall x: Hash16, r: Rule | x !in book.roots && r.issuer !in book.roots ::
      && (book.Says(objectId, "admin", x, r) ==> level(r.issuer) <= level(x))
      && (book.Says(objectId, "-admin", x, r) ==> level(r.issuer) < level(x))
  }

  /** The book's tuples for this object, and the hypotheses asking about its admins. */
  ghost predicate Setting(env: Env, book: Book, objectId: string, admin: seq<Hypothesis>, level: Ranking) {
    && Keeps(env, book) && book.Clear(objectId, "admin") && admin == HypothesesFor(book.salts, objectId, "admin")
    && Stratified(env, admin, level) && Layered(book, objectId, level)
  }

  lemma LayeredIsSetting(env: Env, book: Book, objectId: string, relation: string, level: Ranking)
    requires Keeps(env, book) && book.Clear(objectId, relation) && Layered(book, objectId, level)
    ensures Setting(env, book, objectId, AdminAll(HypothesesFor(book.salts, objectId, relation)), level)
  {
    hide SomeDenies, SomeAllows, Book.Clear;
    var admin := HypothesesFor(book.salts, objectId, "admin");
    AdminIs(book.salts, objectId, relation);
    AdminClear(book, objectId, relation);
    forall t | t in env.tuples && t.issuer !in env.roots && t.grantee !in env.roots
      ensures SomeAllows(admin, t) ==> level(t.issuer) <= level(t.grantee)
      ensures SomeDenies(admin, t) ==> level(t.issuer) < level(t.grantee)
    {
      assert "-" + "admin" == "-admin";
      if SomeDenies(admin, t) {
        assert Edge(env, admin, t.grantee, true, t);
        var r := RuleBehind(env, book, objectId, "admin", t.grantee, true, t);
      }
      if SomeAllows(admin, t) {
        assert Edge(env, admin, t.grantee, false, t);
        var r := RuleBehind(env, book, objectId, "admin", t.grantee, false, t);
      }
    }
  }

  /** Below a level, the two notions of authority agree. */
  ghost predicate AgreeBelow(env: Env, admin: seq<Hypothesis>, level: Ranking, authority: Hash16 -> bool, n: nat)
    requires Stratified(env, admin, level)
  {
    forall y :: y in env.roots || level(y) < n ==> (Authorised(env, admin, level, y) <==> authority(y))
  }

  lemma DemotionsAgree(env: Env, book: Book, objectId: string, admin: seq<Hypothesis>, level: Ranking,
                       authority: Hash16 -> bool, x: Hash16)
    requires Setting(env, book, objectId, admin, level) && x !in env.roots
    requires AgreeBelow(env, admin, level, authority, level(x)) && forall y :: y in env.roots ==> authority(y)
    ensures NotDemoted(env, admin, level, x) <==> !Demoted(book, objectId, authority, x)
  {
    hide Stratified, Book.Clear, Authorised, SomeDenies, HypothesesFor;
    assert "-" + "admin" == "-admin";
    if t :| DenyEdge(env, admin, x, t) && (t.issuer in env.roots || Authorised(env, admin, level, t.issuer)) {
      var r := RuleBehind(env, book, objectId, "admin", x, true, t);
    }
    if r :| book.Says(objectId, "-admin", x, r) && authority(r.issuer) {
      var t := TupleBehind(env, book, objectId, "admin", x, true, r);
    }
  }

  lemma {:induction false} LeadIsUpheld(env: Env, book: Book, objectId: string, admin: seq<Hypothesis>, level: Ranking,
                                        authority: Hash16 -> bool, x: Hash16, n: nat, c: seq<Tuple>)
    returns (d: seq<Rule>)
    requires Setting(env, book, objectId, admin, level) && level(x) <= n && Leads(env, admin, level, x, c)
    requires AgreeBelow(env, admin, level, authority, n) && forall y :: y in env.roots ==> authority(y)
    ensures Upholds(book, objectId, authority, x, d)
    decreases |c|
  {
    hide Book.Clear, Authorised, NotDemoted, Demoted, SomeAllows, SomeDenies;
    DemotionsAgree(env, book, objectId, admin, level, authority, x);
    var r := RuleBehind(env, book, objectId, "admin", x, false, c[0]);
    if c[0].issuer in env.roots {
      d := [r];
    } else {
      var rest := LeadIsUpheld(env, book, objectId, admin, level, authority, c[0].issuer, n, c[1..]);
      d := [r] + rest;
      assert d[1..] == rest;
    }
  }

  lemma {:induction false} UpheldLeads(env: Env, book: Book, objectId: string, admin: seq<Hypothesis>, level: Ranking,
                                       authority: Hash16 -> bool, x: Hash16, n: nat, d: seq<Rule>)
    returns (c: seq<Tuple>)
    requires Setting(env, book, objectId, admin, level) && level(x) <= n && Upholds(book, objectId, authority, x, d)
    requires AgreeBelow(env, admin, level, authority, n) && forall y :: y in env.roots ==> authority(y)
    ensures Leads(env, admin, level, x, c)
    decreases |d|
  {
    hide Book.Clear, Authorised, NotDemoted, Demoted, SomeAllows, SomeDenies, Stratified;
    DemotionsAgree(env, book, objectId, admin, level, authority, x);
    var t := TupleBehind(env, book, objectId, "admin", x, false, d[0]);
    if t.issuer in env.roots {
      c := [t];
    } else {
      var rest := UpheldLeads(env, book, objectId, admin, level, authority, d[0].issuer, n, d[1..]);
      c := [t] + rest;
      assert c[1..] == rest;
    }
  }

  /** What the rules word as authority is what the stratified rule calls so. */
  lemma {:induction false} AuthoritiesAgree(env: Env, book: Book, objectId: string, admin: seq<Hypothesis>, level: Ranking,
                                            authority: Hash16 -> bool, x: Hash16)
    requires Setting(env, book, objectId, admin, level) && IsAuthority(book, objectId, authority)
    ensures Authorised(env, admin, level, x) <==> authority(x)
    decreases level(x)
  {
    hide Stratified, Leads, Upholds, Layered, Book.Clear;
    if x !in env.roots {
      forall y | level(y) < level(x)
        ensures Authorised(env, admin, level, y) <==> authority(y)
      {
        AuthoritiesAgree(env, book, objectId, admin, level, authority, y);
      }
      if c: seq<Tuple> :| Leads(env, admin, level, x, c) {
        var d := LeadIsUpheld(env, book, objectId, admin, level, authority, x, level(x), c);
      }
      if d: seq<Rule> :| Upholds(book, objectId, authority, x, d) {
        var c := UpheldLeads(env, book, objectId, admin, level, authority, x, level(x), d);
      }
    }
  }

  /** Layered rules do settle an authority. */
  lemma AuthorityExists(env: Env, book: Book, objectId: string, admin: seq<Hypothesis>, level: Ranking,
                        authority: Hash16 -> bool)
    requires Setting(env, book, objectId, admin, level)
    requires forall x :: authority(x) <==> Authorised(env, admin, level, x)
    ensures IsAuthority(book, objectId, authority)
  {
    hide Stratified, Leads, Upholds, Layered, Book.Clear;
    forall x: Hash16
      ensures authority(x) <==> x in book.roots || exists c :: Upholds(book, objectId, authority, x, c)
    {
      assert authority(x) <==> Authorised(env, admin, level, x);
      if c: seq<Tuple> :| Leads(env, admin, level, x, c) {
        var d := LeadIsUpheld(env, book, objectId, admin, level, authority, x, level(x), c);
      }
      if d: seq<Rule> :| Upholds(book, objectId, authority, x, d) {
        var c := UpheldLeads(env, book, objectId, admin, level, authority, x, level(x), d);
      }
    }
  }

  /** Where the rules are layered and nothing cuts the search, it grants exactly what the
      rules do: hashing, memo, counter and cycle cut leave no trace. */
  lemma DecidesInWords(env: Env, book: Book, objectId: string, relation: string, g: Hash16, b: nat, level: Ranking,
                       authority: Hash16 -> bool)
    requires Keeps(env, book) && book.Clear(objectId, relation) && Affordable(env, book, objectId, relation, b)
    requires Layered(book, objectId, level) && IsAuthority(book, objectId, authority)
    ensures Allowed(env, g, HypothesesFor(book.salts, objectId, relation))
            <==> Grants(book, objectId, relation, g, authority)
  {
    hide Evaluation, Book.Clear, Affordable, AmpleBudget, AllowEdge, DenyEdge, Grants, Authorised, Stratified,
         Involved, Layered, IsAuthority, Book.Says, Book.Written;
    var hyps := HypothesesFor(book.salts, objectId, relation);
    LayeredIsSetting(env, book, objectId, relation, level);
    AffordableIsAmple(env, book, objectId, relation, b);
    SearchIsStratified(env, g, hyps, level, level, b);
    forall x
      ensures Authorised(env, AdminAll(hyps), level, x) <==> authority(x)
    {
      AuthoritiesAgree(env, book, objectId, AdminAll(hyps), level, authority, x);
    }
    EdgesDecideAsRules(env, book, objectId, relation, g, authority);
  }

  lemma {:induction false} UpheldIsBacked(book: Book, objectId: string, authority: Hash16 -> bool, x: Hash16,
                                          c: seq<Rule>)
    requires book.OnlyRootsTakeAdmin(objectId) && forall y :: y in book.roots ==> authority(y)
    ensures Upholds(book, objectId, authority, x, c) <==> x !in book.roots && book.Backs(objectId, "admin", x, c)
    decreases |c|
  {
    assert "-" + "admin" == "-admin";
    assert Demoted(book, objectId, authority, x) <==> book.RootRefuses(objectId, "admin", x);
    if c != [] && c[0].issuer !in book.roots {
      UpheldIsBacked(book, objectId, authority, c[0].issuer, c[1..]);
    }
  }

  /** Where only roots take admin away, that authority is plain reachability. */
  lemma TrustIsAuthority(book: Book, objectId: string, authority: Hash16 -> bool)
    requires book.OnlyRootsTakeAdmin(objectId) && forall x :: authority(x) <==> book.Trusts(objectId, x)
    ensures Layered(book, objectId, Flat) && IsAuthority(book, objectId, authority)
  {
    hide Book.Says, Book.Backs, Upholds;
    forall x: Hash16
      ensures authority(x) <==> x in book.roots || exists c :: Upholds(book, objectId, authority, x, c)
    {
      if c: seq<Rule> :| Upholds(book, objectId, authority, x, c) {
        UpheldIsBacked(book, objectId, authority, x, c);
      }
      if c: seq<Rule> :| book.Backs(objectId, "admin", x, c) {
        UpheldIsBacked(book, objectId, authority, x, c);
      }
    }
  }

  /** There the search decides plain reachability over the rules. */
  lemma DecidesByReach(env: Env, book: Book, objectId: string, relation: string, g: Hash16, b: nat)
    requires Keeps(env, book) && book.Clear(objectId, relation) && Affordable(env, book, objectId, relation, b)
    requires book.OnlyRootsTakeAdmin(objectId)
    ensures Allowed(env, g, HypothesesFor(book.salts, objectId, relation)) <==>
              && !(exists r :: book.Says(objectId, "-" + relation, g, r) && book.Trusts(objectId, r.issuer))
              && exists r :: book.Says(objectId, relation, g, r) && book.Trusts(objectId, r.issuer)
  {
    hide Allowed, Keeps, Book.Clear, Affordable, Book.Says, Book.Trusts, Layered, IsAuthority, Book.OnlyRootsTakeAdmin;
    var authority := (x: Hash16) => book.Trusts(objectId, x);
    TrustIsAuthority(book, objectId, authority);
    DecidesInWords(env, book, objectId, relation, g, b, Flat, authority);
  }

  /** The answer to a request, as the rules behind the tuples have it: an ALLOW is backed by a
      chain to a root, a root's refusal is heeded, and where the rules are layered and nothing
      cuts the search it is what the rules grant. */
  ghost predicate Answers(env: Env, book: Book, objectId: string, relation: string, g: Hash16, allowed: bool) {
    && (allowed ==>
          exists d :: book.Backs(objectId, relation, g, d) && |d| <= env.maxVisited && NoDuplicates(IssuersAlong(d)))
    && (book.RootRefuses(objectId, relation, g) ==> !allowed)
    && (forall b: nat, level: Ranking, authority: Hash16 -> bool ::
          Affordable(env, book, objectId, relation, b) && Layered(book, objectId, level)
          && IsAuthority(book, objectId, authority) ==>
            (allowed <==> Grants(book, objectId, relation, g, authority)))
  }

  lemma EvaluationAnswers(env: Env, book: Book, objectId: string, relation: string, g: Hash16)
    requires Keeps(env, book) && book.Clear(objectId, relation)
    ensures Answers(env, book, objectId, relation, g, Allowed(env, g, HypothesesFor(book.salts, objectId, relation)))
  {
    hide Allowed, Keeps, Book.Clear, Affordable, Layered, IsAuthority, Grants, Book.Backs, Book.RootRefuses;
    var allowed := Allowed(env, g, HypothesesFor(book.salts, objectId, relation));
    if allowed {
      AllowIsBacked(env, book, objectId, relation, g);
    }
    if book.RootRefuses(objectId, relation, g) {
      RefusalIsHeeded(env, book, objectId, relation, g);
    }
    forall b: nat, level: Ranking, authority: Hash16 -> bool
      | Affordable(env, book, objectId, relation, b) && Layered(book, objectId, level)
        && IsAuthority(book, objectId, authority)
      ensures allowed <==> Grants(book, objectId, relation, g, authority)
    {
      DecidesInWords(env, book, objectId, relation, g, b, level, authority);
    }
  }
}
