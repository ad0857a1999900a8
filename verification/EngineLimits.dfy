/** What a spent budget does, at every cap: the issuers it did not get to are silenced. */
module EngineLimits {
  import opened Basics
  import opened Policy
  import opened EngineSpec
  import opened EnginePaths
  import opened EngineExactness

  /** A root, an admin it appointed, and any number of strangers nobody appointed. */
  datatype Cast = Cast(h: Hypothesis, g: Hash16, root: Hash16, admin: Hash16, strangers: seq<Hash16>, maxDepth: int) {
    predicate Valid() {
      && maxDepth >= 1
      && h.allowHash != h.denyHash && h.adminAllowHash != h.adminDenyHash
      && g != admin && root != admin
      && forall x :: x in strangers ==> x != g && x != admin && x != root
    }

    function Give(relation: Hash16, grantee: Hash16, issuer: Hash16): (t: Tuple)
      ensures h.Covering(t)
    {
      Tuple(relation, [], true, grantee, issuer)
    }

    function Appointment(): Tuple { Give(h.adminAllowHash, admin, root) }

    /** One grant of the request from each stranger. */
    function Crowd(): (crowd: seq<Tuple>)
      ensures |crowd| == |strangers|
      ensures forall i :: 0 <= i < |crowd| ==> crowd[i] == Give(h.allowHash, g, strangers[i])
    {
      seq(|strangers|, i requires 0 <= i < |strangers| => Give(h.allowHash, g, strangers[i]))
    }

    function Env(held: seq<Tuple>, maxVisited: int): Env {
      EngineSpec.Env({root}, held + [Appointment()], maxDepth, maxVisited)
    }
  }

  // ---- What holders hold -----------------------------------------------------------

  lemma HeldSnoc(tuples: seq<Tuple>, t: Tuple, x: Hash16)
    ensures Held(tuples + [t], x) == Held(tuples, x) + if t.grantee == x then [t] else []
  {
    assert (tuples + [t])[..|tuples|] == tuples;
  }

  lemma {:induction false} HeldAll(tuples: seq<Tuple>, x: Hash16)
    requires forall t :: t in tuples ==> t.grantee == x
    ensures Held(tuples, x) == tuples
  {
    if tuples != [] {
      HeldAll(tuples[..|tuples| - 1], x);
      assert tuples == tuples[..|tuples| - 1] + [tuples[|tuples| - 1]];
    }
  }

  lemma HeldOfCast(s: Cast, held: seq<Tuple>)
    requires s.Valid() && forall t :: t in held ==> t.grantee == s.g
    ensures Held(held + [s.Appointment()], s.g) == held
    ensures Held(held + [s.Appointment()], s.admin) == [s.Appointment()]
    ensures forall x :: x in s.strangers ==> Held(held + [s.Appointment()], x) == []
  {
    HeldAll(held, s.g);
    HeldSnoc(held, s.Appointment(), s.g);
    HeldNone(held, s.admin);
    HeldSnoc(held, s.Appointment(), s.admin);
    forall x | x in s.strangers
      ensures Held(held + [s.Appointment()], x) == []
    {
      HeldNone(held, x);
      HeldSnoc(held, s.Appointment(), x);
    }
  }

  // ---- Scanning under one hypothesis -----------------------------------------------

  lemma ScanStep(env: Env, h: Hypothesis, a: Tuple, rest: seq<Tuple>, depth: nat, visited: set<Hash16>, w: Work,
                 f: Flags)
    ensures var (f1, w1) := Consider(env, [h], a, 0, depth, visited, w, f);
            Scan(env, [h], [a] + rest, 0, depth, visited, w, f) == Scan(env, [h], rest, 0, depth, visited, w1, f1)
    ensures Scan(env, [h], [], 0, depth, visited, w, f) == (f, w)
  {
    var (f1, w1) := Consider(env, [h], a, 0, depth, visited, w, f);
    assert Scan(env, [h], [a] + rest, 0, depth, visited, w, f) == Scan(env, [h], [a] + rest, 1, depth, visited, w1, f1);
    assert ([a] + rest)[1..] == rest;
  }

  /** The appointed admin's authority, decided by one call if the budget has one left. */
  lemma AdminAuthority(s: Cast, env: Env, w: Work)
    requires s.Valid() && env.roots == {s.root} && env.maxDepth == s.maxDepth && w.memo == map[]
    requires Held(env.tuples, s.admin) == [s.Appointment()]
    ensures var (ok, w') := Authority(env, s.admin, [s.h], 0, {}, w);
            && w'.counter == w.counter + 1
            && (ok <==> w.counter < env.maxVisited)
  {
    var adm, h := AdminAll([s.h]), s.h.Admin();
    assert adm == [h];
    var w1 := w.(counter := w.counter + 1, calls := w.calls + [Call(1, w.counter < env.maxVisited)]);
    ScanStep(env, h, s.Appointment(), [], 1, {} + {s.admin}, w1, Flags(false, false));
    assert [s.Appointment()] + [] == [s.Appointment()];
    assert h.Allows(s.Appointment());
  }

  /** A stranger has no authority, which takes one call to find out. */
  lemma {:induction false} StrangerAuthority(s: Cast, env: Env, x: Hash16, w: Work)
    requires s.Valid() && env.roots == {s.root} && env.maxDepth == s.maxDepth && w.memo == map[]
    requires x in s.strangers && Held(env.tuples, x) == []
    ensures var (ok, w') := Authority(env, x, [s.h], 0, {}, w);
            !ok && w'.counter == w.counter + 1 && w'.memo == map[]
  {
    var adm, h := AdminAll([s.h]), s.h.Admin();
    assert adm == [h];
    var w1 := w.(counter := w.counter + 1, calls := w.calls + [Call(1, w.counter < env.maxVisited)]);
    ScanStep(env, h, s.Appointment(), [], 1, {} + {x}, w1, Flags(false, false));
  }

  /** A crowd of strangers spends one call each and changes nothing else. */
  lemma {:induction false} CrowdSpends(s: Cast, env: Env, crowd: seq<Tuple>, rest: seq<Tuple>, w: Work, f: Flags)
    returns (w': Work)
    requires s.Valid() && env.roots == {s.root} && env.maxDepth == s.maxDepth && w.memo == map[]
    requires forall t :: t in crowd ==> t in s.Crowd()
    requires forall x :: x in s.strangers ==> Held(env.tuples, x) == []
    ensures w'.memo == map[] && w'.counter == w.counter + |crowd|
    ensures Scan(env, [s.h], crowd + rest, 0, 0, {}, w, f) == Scan(env, [s.h], rest, 0, 0, {}, w', f)
    decreases |crowd|
  {
    if crowd == [] {
      w' := w;
      assert crowd + rest == rest;
    } else {
      hide Authority, Scan;
      var t, more := crowd[0], crowd[1..];
      assert t in s.Crowd() && t.issuer in s.strangers && s.h.Allows(t);
      ScanStep(env, s.h, t, more + rest, 0, {}, w, f);
      StrangerAuthority(s, env, t.issuer, w);
      var (f1, w1) := Consider(env, [s.h], t, 0, 0, {}, w, f);
      assert f1 == f;
      w' := CrowdSpends(s, env, more, rest, w1, f);
      assert crowd + rest == [t] + (more + rest);
    }
  }

  // ---- The two effects -------------------------------------------------------------

  /** The request is granted by a root, by the crowd, and denied by the appointed admin. */
  function Denied(s: Cast): seq<Tuple> {
    [s.Give(s.h.allowHash, s.g, s.root)] + (s.Crowd() + [s.Give(s.h.denyHash, s.g, s.admin)])
  }

  lemma DeniedVerdict(s: Cast, cap: int)
    requires s.Valid() && cap > |s.strangers|
    ensures var (res, w) := Evaluation(s.Env(Denied(s), cap), s.g, [s.h]);
            && w.counter == |s.strangers| + 2
            && res == if |s.strangers| + 2 <= cap then Deny else Allow
  {
    var env, a, d := s.Env(Denied(s), cap), s.Give(s.h.allowHash, s.g, s.root), s.Give(s.h.denyHash, s.g, s.admin);
    HeldOfCast(s, Denied(s));
    hide Authority, Scan, Resolve;
    ScanStep(env, s.h, a, s.Crowd() + [d], 0, {}, FirstWork(env), Flags(false, false));
    assert Consider(env, [s.h], a, 0, 0, {}, FirstWork(env), Flags(false, false))
           == (Flags(false, true), FirstWork(env))
    by { RootAuthority(s, env, FirstWork(env)); }
    var w := CrowdSpends(s, env, s.Crowd(), [d], FirstWork(env), Flags(false, true));
    ScanStep(env, s.h, d, [], 0, {}, w, Flags(false, true));
    assert [d] + [] == [d];
    AdminAuthority(s, env, w);
    ScanStep(env, s.h, d, [], 0, {}, Consider(env, [s.h], d, 0, 0, {}, w, Flags(false, true)).1,
             Consider(env, [s.h], d, 0, 0, {}, w, Flags(false, true)).0);
    TopScanDecides(env, s.g, [s.h]);
  }

  lemma RootAuthority(s: Cast, env: Env, w: Work)
    requires env.roots == {s.root}
    ensures Authority(env, s.root, [s.h], 0, {}, w) == (true, w)
  {}

  /** At every cap, reaching it does not fail the request: with n - 1 strangers before it, a
      deny by an appointed admin goes unheard at cap n, and a root's allow stands.  With
      budget for one more call the same request is denied. */
  lemma SpentBudgetHidesDeny(s: Cast)
    requires s.Valid()
    ensures var n := |s.strangers| + 1;
            && Evaluation(s.Env(Denied(s), n), s.g, [s.h]).1.counter > n
            && Evaluation(s.Env(Denied(s), n), s.g, [s.h]).0 == Allow
            && Evaluation(s.Env(Denied(s), n + 1), s.g, [s.h]).0 == Deny
  {
    DeniedVerdict(s, |s.strangers| + 1);
    DeniedVerdict(s, |s.strangers| + 2);
  }

  /** At every cap n above one, with n - 1 strangers, the order of the tuples can decide the
      request: the appointed admin's grant counts before the crowd and not after it. */
  lemma SpentBudgetMakesOrderMatter(s: Cast)
    requires s.Valid() && s.strangers != []
    ensures var n, good := |s.strangers| + 1, s.Give(s.h.allowHash, s.g, s.admin);
            && Evaluation(s.Env([good] + s.Crowd(), n), s.g, [s.h]).0 == Allow
            && Evaluation(s.Env(s.Crowd() + [good], n), s.g, [s.h]).0 == Unresolved
  {
    var good := s.Give(s.h.allowHash, s.g, s.admin);
    GoodFirst(s, good);
    GoodLast(s, good);
  }

  lemma GoodFirst(s: Cast, good: Tuple)
    requires s.Valid() && s.strangers != [] && good == s.Give(s.h.allowHash, s.g, s.admin)
    ensures Evaluation(s.Env([good] + s.Crowd(), |s.strangers| + 1), s.g, [s.h]).0 == Allow
  {
    var env, f := s.Env([good] + s.Crowd(), |s.strangers| + 1), Flags(false, false);
    HeldOfCast(s, [good] + s.Crowd());
    hide Authority, Scan, Resolve;
    ScanStep(env, s.h, good, s.Crowd(), 0, {}, FirstWork(env), f);
    AdminAuthority(s, env, FirstWork(env));
    var (f1, w1) := Consider(env, [s.h], good, 0, 0, {}, FirstWork(env), f);
    FlagsStay(env, [s.h], s.Crowd(), 0, 0, {}, w1, f1);
    NoneDenies(s);
    NoDenyRaised(env, [s.h], s.Crowd(), 0, 0, {}, w1, f1);
    TopScanDecides(env, s.g, [s.h]);
  }

  lemma NoneDenies(s: Cast)
    requires s.Valid()
    ensures forall t :: t in s.Crowd() ==> !SomeDenies([s.h], t)
  {}

  lemma GoodLast(s: Cast, good: Tuple)
    requires s.Valid() && s.strangers != [] && good == s.Give(s.h.allowHash, s.g, s.admin)
    ensures Evaluation(s.Env(s.Crowd() + [good], |s.strangers| + 1), s.g, [s.h]).0 == Unresolved
  {
    var env, f := s.Env(s.Crowd() + [good], |s.strangers| + 1), Flags(false, false);
    HeldOfCast(s, s.Crowd() + [good]);
    hide Authority, Scan, Resolve;
    var w := CrowdSpends(s, env, s.Crowd(), [good], FirstWork(env), f);
    ScanStep(env, s.h, good, [], 0, {}, w, f);
    assert [good] + [] == [good];
    AdminAuthority(s, env, w);
    var (f1, w1) := Consider(env, [s.h], good, 0, 0, {}, w, f);
    ScanStep(env, s.h, good, [], 0, {}, w1, f1);
    TopScanDecides(env, s.g, [s.h]);
  }
}
