/** N-of-M signature matching: each signature is given to the first member key, not yet
    used, that verifies it. */
module Threshold {
  import opened Basics

  /** Whether a key verifies a signature over the operation at hand. */
  type Oracle = (Bytes, Bytes) -> bool

  /** `who` names, for each signature, a member key that verifies it, no key twice. */
  ghost predicate Signers(valid: Oracle, sigs: seq<Bytes>, members: seq<Bytes>, who: seq<Bytes>) {
    && |who| == |sigs|
    && (forall i :: 0 <= i < |who| ==> who[i] in members && valid(who[i], sigs[i]))
    && (forall i, j :: 0 <= i < j < |who| ==> who[i] != who[j])
  }

  ghost predicate DistinctSigners(valid: Oracle, sigs: seq<Bytes>, members: seq<Bytes>) {
    exists who :: Signers(valid, sigs, members, who)
  }

  /** No signature verifies under two different member keys. */
  ghost predicate OneKeyPerSignature(valid: Oracle, sigs: seq<Bytes>, members: seq<Bytes>) {
    forall s, k, l :: s in sigs && k in members && l in members && valid(k, s) && valid(l, s) ==> k == l
  }

  // ---- Used keys remembered by value ----------------------------------------------

  /** First position, from i on, whose key is unused and verifies the signature. */
  function FirstFree(valid: Oracle, sig: Bytes, members: seq<Bytes>, used: set<Bytes>, i: nat): (p: nat)
    requires i <= |members|
    ensures i <= p <= |members|
    ensures p < |members| ==> members[p] !in used && valid(members[p], sig)
    ensures forall j :: i <= j < p ==> members[j] in used || !valid(members[j], sig)
    decreases |members| - i
  {
    if i == |members| || (members[i] !in used && valid(members[i], sig)) then i
    else FirstFree(valid, sig, members, used, i + 1)
  }

  function MatchByKey(valid: Oracle, sigs: seq<Bytes>, members: seq<Bytes>, used: set<Bytes>): bool {
    if sigs == [] then true
    else
      var p := FirstFree(valid, sigs[0], members, used, 0);
      p < |members| && MatchByKey(valid, sigs[1..], members, used + {members[p]})
  }

  predicate Accepts(valid: Oracle, sigs: seq<Bytes>, members: seq<Bytes>, threshold: int) {
    |sigs| == threshold >= 1 && |members| >= threshold && MatchByKey(valid, sigs, members, {})
  }

  method VerifyThreshold(valid: Oracle, sigs: seq<Bytes>, members: seq<Bytes>, threshold: int)
    returns (ok: bool)
    ensures ok <==> Accepts(valid, sigs, members, threshold)
    ensures ok ==> DistinctSigners(valid, sigs, members)
    ensures OneKeyPerSignature(valid, sigs, members) ==>
              (ok <==> |sigs| == threshold >= 1 && DistinctSigners(valid, sigs, members))
  {
    ThresholdExact(valid, sigs, members, threshold);
    if threshold < 1 || |sigs| != threshold {
      return false;
    }
    if |members| < threshold {
      return false;
    }
    var used: set<Bytes> := {};
    for n := 0 to |sigs|
      invariant |used| == n
      invariant MatchByKey(valid, sigs[n..], members, used) == MatchByKey(valid, sigs, members, {})
    {
      var matched: Option<Bytes> := None;
      var i := 0;
      while i < |members|
        invariant 0 <= i <= |members| && matched == None
        invariant FirstFree(valid, sigs[n], members, used, i) == FirstFree(valid, sigs[n], members, used, 0)
      {
        if members[i] !in used && valid(members[i], sigs[n]) {
          matched := Some(members[i]);
          break;
        }
        i := i + 1;
      }
      assert sigs[n..][0] == sigs[n] && sigs[n..][1..] == sigs[n + 1..];
      if matched == None {
        return false;
      }
      used := used + {matched.value};
    }
    return |used| == threshold;
  }

  lemma {:induction false} KeysAreDistinct(valid: Oracle, sigs: seq<Bytes>, members: seq<Bytes>, used: set<Bytes>)
    returns (who: seq<Bytes>)
    requires MatchByKey(valid, sigs, members, used)
    ensures Signers(valid, sigs, members, who)
    ensures forall k :: k in who ==> k !in used
  {
    if sigs == [] {
      who := [];
    } else {
      var p := FirstFree(valid, sigs[0], members, used, 0);
      var rest := KeysAreDistinct(valid, sigs[1..], members, used + {members[p]});
      who := [members[p]] + rest;
    }
  }

  lemma {:induction false} MatchIsFound(
      valid: Oracle, sigs: seq<Bytes>, members: seq<Bytes>, used: set<Bytes>, who: seq<Bytes>)
    requires OneKeyPerSignature(valid, sigs, members)
    requires Signers(valid, sigs, members, who)
    requires forall k :: k in who ==> k !in used
    ensures MatchByKey(valid, sigs, members, used)
  {
    if sigs != [] {
      var p := FirstFree(valid, sigs[0], members, used, 0);
      assert who[0] in who && sigs[0] in sigs;
      assert p < |members| && members[p] in members;
      MatchIsFound(valid, sigs[1..], members, used + {members[p]}, who[1..]);
    }
  }

  /** Acceptance always means N distinct members signed; if no signature verifies under
      two member keys it is also complete, so the verdict is exact. */
  lemma ThresholdExact(valid: Oracle, sigs: seq<Bytes>, members: seq<Bytes>, threshold: int)
    ensures Accepts(valid, sigs, members, threshold) ==>
              |sigs| == threshold >= 1 && DistinctSigners(valid, sigs, members)
    ensures OneKeyPerSignature(valid, sigs, members) ==>
              (Accepts(valid, sigs, members, threshold) <==>
               |sigs| == threshold >= 1 && DistinctSigners(valid, sigs, members))
  {
    if Accepts(valid, sigs, members, threshold) {
      var who := KeysAreDistinct(valid, sigs, members, {});
    }
    if OneKeyPerSignature(valid, sigs, members) {
      if who :| Signers(valid, sigs, members, who) {
        MatchIsFound(valid, sigs, members, {}, who);
        DistinctFit(who, members);
      }
    }
  }

  /** Greedy first-match is incomplete once a signature verifies under two keys: the
      first signature takes the only key the second one has. */
  lemma GreedyNeedsOneKey(valid: Oracle, s: Bytes, t: Bytes, k: Bytes, l: Bytes)
    requires k != l && valid(k, s) && valid(l, s) && valid(k, t) && !valid(l, t)
    ensures DistinctSigners(valid, [s, t], [k, l]) && !Accepts(valid, [s, t], [k, l], 2)
  {
    var sigs, members := [s, t], [k, l];
    assert Signers(valid, sigs, members, [l, k]);
    assert FirstFree(valid, s, members, {}, 0) == 0;
    assert {} + {members[0]} == {k} && sigs[1..] == [t];
    assert FirstFree(valid, t, members, {k}, 0) == 2;
    assert !MatchByKey(valid, [t], members, {k});
  }

  /** With one key per signature the verdict depends on neither order. */
  lemma OrderIrrelevant(valid: Oracle, sigs: seq<Bytes>, sigs': seq<Bytes>,
                        members: seq<Bytes>, members': seq<Bytes>, threshold: int)
    requires multiset(sigs) == multiset(sigs')
    requires forall k :: k in members <==> k in members'
    requires OneKeyPerSignature(valid, sigs, members)
    ensures Accepts(valid, sigs, members, threshold) <==> Accepts(valid, sigs', members', threshold)
  {
    forall s
      ensures s in sigs <==> s in sigs'
    {
      assert s in sigs <==> s in multiset(sigs);
      assert s in sigs' <==> s in multiset(sigs');
    }
    assert |sigs| == |multiset(sigs)| == |multiset(sigs')| == |sigs'|;
    OrderFreeForm(valid, sigs, members);
    OrderFreeForm(valid, sigs', members');
    ThresholdExact(valid, sigs, members, threshold);
    ThresholdExact(valid, sigs', members', threshold);
  }

  /** The matching condition without any order: every signature occurs once, verifies
      under a member key, and shares that key with no other signature. */
  ghost predicate OwnKeyEach(valid: Oracle, sigs: multiset<Bytes>, members: seq<Bytes>) {
    && (forall s :: s in sigs ==> sigs[s] == 1 && exists k :: k in members && valid(k, s))
    && (forall s, t, k :: s in sigs && t in sigs && k in members && valid(k, s) && valid(k, t) ==> s == t)
  }

  lemma OrderFreeForm(valid: Oracle, sigs: seq<Bytes>, members: seq<Bytes>)
    requires OneKeyPerSignature(valid, sigs, members)
    ensures DistinctSigners(valid, sigs, members) <==> OwnKeyEach(valid, multiset(sigs), members)
  {
    if who :| Signers(valid, sigs, members, who) {
      forall i, j | 0 <= i < j < |sigs|
        ensures sigs[i] != sigs[j]
      {
        assert valid(who[i], sigs[i]) && valid(who[j], sigs[j]);
      }
      CountOnce(sigs);
      forall s | s in multiset(sigs)
        ensures exists k :: k in members && valid(k, s)
      {
        var i :| 0 <= i < |sigs| && sigs[i] == s;
        assert who[i] in members && valid(who[i], s);
      }
      forall s, t, k | s in sigs && t in sigs && k in members && valid(k, s) && valid(k, t)
        ensures s == t
      {
        var i :| 0 <= i < |sigs| && sigs[i] == s;
        var j :| 0 <= j < |sigs| && sigs[j] == t;
        assert who[i] == k == who[j];
      }
    }
    if OwnKeyEach(valid, multiset(sigs), members) {
      forall i | 0 <= i < |sigs|
        ensures exists k :: k in members && valid(k, sigs[i])
      {
        assert sigs[i] in multiset(sigs);
      }
      var who := seq(|sigs|, i requires 0 <= i < |sigs| =>
        var k :| k in members && valid(k, sigs[i]); k);
      CountOnce(sigs);
      forall i, j | 0 <= i < j < |who|
        ensures who[i] != who[j]
      {
        assert sigs[i] in multiset(sigs) && sigs[j] in multiset(sigs);
      }
      assert Signers(valid, sigs, members, who);
    }
  }

  lemma {:induction false} CountOnce(sigs: seq<Bytes>)
    ensures NoDuplicates(sigs) <==> forall s :: s in multiset(sigs) ==> multiset(sigs)[s] == 1
  {
    if sigs != [] {
      var last, rest := sigs[|sigs| - 1], sigs[..|sigs| - 1];
      assert sigs == rest + [last];
      CountOnce(rest);
      if NoDuplicates(sigs) {
        assert NoDuplicates(rest) && last !in rest;
      }
      if forall s :: s in multiset(sigs) ==> multiset(sigs)[s] == 1 {
        assert multiset(sigs)[last] == multiset(rest)[last] + 1;
        assert last !in multiset(rest);
        forall s | s in multiset(rest)
          ensures multiset(rest)[s] == 1
        {
          assert s in multiset(sigs);
        }
      }
    }
  }

  // ---- The variant that remembers used members by position ------------------------

  /** First unused position, from i on, whose key verifies the signature. */
  function FirstUnused(valid: Oracle, sig: Bytes, members: seq<Bytes>, used: set<nat>, i: nat): (p: nat)
    requires i <= |members|
    ensures i <= p <= |members|
    ensures p < |members| ==> p !in used && valid(members[p], sig)
    ensures forall j :: i <= j < p ==> j in used || !valid(members[j], sig)
    decreases |members| - i
  {
    if i == |members| || (i !in used && valid(members[i], sig)) then i
    else FirstUnused(valid, sig, members, used, i + 1)
  }

  function MatchByPosition(valid: Oracle, sigs: seq<Bytes>, members: seq<Bytes>, used: set<nat>): bool {
    if sigs == [] then true
    else
      var p := FirstUnused(valid, sigs[0], members, used, 0);
      p < |members| && MatchByPosition(valid, sigs[1..], members, used + {p})
  }

  predicate AcceptsByPosition(valid: Oracle, sigs: seq<Bytes>, members: seq<Bytes>, threshold: int) {
    |sigs| == threshold >= 1 && |members| >= threshold && MatchByPosition(valid, sigs, members, {})
  }

  /** With distinct members, remembering positions is remembering keys. */
  lemma {:induction false} SameFirst(valid: Oracle, sig: Bytes, members: seq<Bytes>, at: set<nat>, used: set<Bytes>,
                                     i: nat)
    requires i <= |members| && forall j :: 0 <= j < |members| ==> (j in at <==> members[j] in used)
    ensures FirstUnused(valid, sig, members, at, i) == FirstFree(valid, sig, members, used, i)
    decreases |members| - i
  {
    if i < |members| {
      SameFirst(valid, sig, members, at, used, i + 1);
    }
  }

  lemma {:induction false} SameMatch(valid: Oracle, sigs: seq<Bytes>, members: seq<Bytes>, at: set<nat>,
                                     used: set<Bytes>)
    requires NoDuplicates(members) && forall j :: 0 <= j < |members| ==> (j in at <==> members[j] in used)
    ensures MatchByPosition(valid, sigs, members, at) == MatchByKey(valid, sigs, members, used)
  {
    if sigs != [] {
      SameFirst(valid, sigs[0], members, at, used, 0);
      var p := FirstFree(valid, sigs[0], members, used, 0);
      if p < |members| {
        SameMatch(valid, sigs[1..], members, at + {p}, used + {members[p]});
      }
    }
  }

  /** With distinct members the two variants give the same verdict, on any signatures; with
      one key per signature it is that N distinct members signed. */
  lemma PositionsExact(valid: Oracle, sigs: seq<Bytes>, members: seq<Bytes>, threshold: int)
    requires NoDuplicates(members)
    ensures AcceptsByPosition(valid, sigs, members, threshold) <==> Accepts(valid, sigs, members, threshold)
    ensures AcceptsByPosition(valid, sigs, members, threshold) ==>
              |sigs| == threshold >= 1 && DistinctSigners(valid, sigs, members)
    ensures OneKeyPerSignature(valid, sigs, members) ==>
              (AcceptsByPosition(valid, sigs, members, threshold) <==>
               |sigs| == threshold >= 1 && DistinctSigners(valid, sigs, members))
  {
    SameMatch(valid, sigs, members, {}, {});
    ThresholdExact(valid, sigs, members, threshold);
  }

  /** One signature against one key, the check of every solo-signed operation. */
  lemma SoloIsChecked(valid: Oracle, sigs: seq<Bytes>, k: Bytes)
    ensures AcceptsByPosition(valid, sigs, [k], 1) <==> |sigs| == 1 && valid(k, sigs[0])
    ensures Accepts(valid, sigs, [k], 1) <==> |sigs| == 1 && valid(k, sigs[0])
  {
    if |sigs| == 1 {
      assert sigs[1..] == [];
      SameMatch(valid, sigs, [k], {}, {});
    }
  }

  method VerifyThresholdByPosition(valid: Oracle, sigs: seq<Bytes>, members: seq<Bytes>, threshold: int)
    returns (ok: bool)
    ensures ok <==> AcceptsByPosition(valid, sigs, members, threshold)
    ensures NoDuplicates(members) ==> (ok <==> Accepts(valid, sigs, members, threshold))
    ensures NoDuplicates(members) && OneKeyPerSignature(valid, sigs, members) ==>
              (ok <==> |sigs| == threshold >= 1 && DistinctSigners(valid, sigs, members))
  {
    if NoDuplicates(members) {
      PositionsExact(valid, sigs, members, threshold);
    }
    if threshold < 1 || |sigs| != threshold {
      return false;
    }
    if |members| < threshold {
      return false;
    }
    var used := new bool[|members|](_ => false);
    ghost var taken: set<nat> := {};
    var usedCount := 0;
    for n := 0 to |sigs|
      invariant forall j :: 0 <= j < |members| ==> (used[j] <==> j in taken)
      invariant usedCount == n
      invariant MatchByPosition(valid, sigs[n..], members, taken)
                == MatchByPosition(valid, sigs, members, {})
    {
      var matched := false;
      var i := 0;
      while i < |members|
        invariant 0 <= i <= |members| && !matched
        invariant FirstUnused(valid, sigs[n], members, taken, i)
                  == FirstUnused(valid, sigs[n], members, taken, 0)
        invariant forall j :: 0 <= j < |members| ==> (used[j] <==> j in taken)
      {
        if !used[i] && valid(members[i], sigs[n]) {
          used[i] := true;
          usedCount := usedCount + 1;
          matched := true;
          break;
        }
        i := i + 1;
      }
      assert sigs[n..][0] == sigs[n] && sigs[n..][1..] == sigs[n + 1..];
      if !matched {
        return false;
      }
      taken := taken + {i};
    }
    return usedCount == threshold;
  }

  ghost predicate SignedAlone(valid: Oracle, members: seq<Bytes>, k: Bytes, s: Bytes) {
    valid(k, s) && forall l :: l in members && valid(l, s) ==> l == k
  }

  /** Every member key has a signature that verifies under that key alone. */
  ghost predicate AllCanSign(valid: Oracle, members: seq<Bytes>) {
    forall k :: k in members ==> exists s :: SignedAlone(valid, members, k, s)
  }

  /** Counting a member twice is ruled out exactly when the member list repeats no key. */
  lemma PositionsNeedDistinctMembers(valid: Oracle, members: seq<Bytes>)
    requires AllCanSign(valid, members)
    ensures NoDuplicates(members) <==>
            forall sigs :: AcceptsByPosition(valid, sigs, members, |sigs|) ==> DistinctSigners(valid, sigs, members)
  {
    if NoDuplicates(members) {
      forall sigs | AcceptsByPosition(valid, sigs, members, |sigs|)
        ensures DistinctSigners(valid, sigs, members)
      {
        PositionsExact(valid, sigs, members, |sigs|);
      }
    } else {
      var i, j :| 0 <= i < j < |members| && members[i] == members[j];
      var sigs := OneMemberTwice(valid, members, i, j);
    }
  }

  /** A repeated key is accepted for two signatures that only it can have made. */
  lemma OneMemberTwice(valid: Oracle, members: seq<Bytes>, i: nat, j: nat) returns (sigs: seq<Bytes>)
    requires i < j < |members| && members[i] == members[j]
    requires AllCanSign(valid, members)
    ensures AcceptsByPosition(valid, sigs, members, |sigs|)
    ensures !DistinctSigners(valid, sigs, members)
  {
    var k := members[i];
    assert k in members;
    var s :| SignedAlone(valid, members, k, s);
    sigs := [s, s];
    var p := FirstUnused(valid, s, members, {}, 0);
    var q := FirstUnused(valid, s, members, {p}, 0);
    assert i !in {p} || j !in {p};
    assert p < |members| && q < |members| && q !in {p};
    assert sigs[1..] == [s] && [s][1..] == [] && MatchByPosition(valid, [s], members, {p});
    assert sigs[0] == s && sigs[1] == s;
  }
}
