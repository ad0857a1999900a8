/** The challenge over an unreliable network: messages may be dropped, delayed,
    duplicated, reordered and replayed, but signatures are not forged and challenges are
    not rewritten. */
module ChallengeRuns {
  import opened Basics
  import opened Hlc
  import opened Policy
  import opened Namespace
  import opened EngineSpec
  import opened Engines
  import opened Challenges
  import HlcRuns

  /** Fixed configuration of the server, and the signature scheme. */
  datatype Server = Server(
    roots: set<Hash16>, hashers: seq<Hasher>, sign: Bytes -> Signature, verify: (Bytes, Signature) -> bool)
  {
    function Env(policy: seq<Tuple>): Env {
      EngineSpec.Env(roots, policy, DEFAULT_MAX_DEPTH, DEFAULT_MAX_VISITED)
    }
  }

  /** A client's configuration and its local policy at the time of a call. */
  datatype Client = Client(roots: set<Hash16>, hashers: seq<Hasher>, policy: seq<Tuple>) {
    predicate Prechecks(objectId: string, relation: string, grantee: Hash16) {
      Allowed(EngineSpec.Env(roots, policy, DEFAULT_MAX_DEPTH, DEFAULT_MAX_VISITED), grantee,
              HypothesesFor(hashers, objectId, relation))
    }
  }

  /** A call that passed its pre-check and put its challenge on the network. */
  datatype Request = Request(client: Client, challenge: Challenge)

  /** A challenge the server evaluated, on which policy, and the receipt it signed;
      `created` counts the calls made before. */
  datatype Served = Served(request: Decoded, policy: seq<Tuple>, receipt: Receipt, created: nat)

  /** What a call returned; `served` counts the evaluations made before. */
  datatype Return = Return(call: nat, result: Result<bool, WireError>, served: nat)

  datatype World = World(
    calls: seq<Request>, served: seq<Served>, returned: seq<Return>, policy: seq<Tuple>, clock: ClockState)

  const START := World([], [], [], [], INITIAL_CLOCK)

  datatype Action =
    | Authorize(client: Client, objectId: string, relation: string, grantee: Hash16, nonce: Nonce)
    | ChangePolicy(policy: seq<Tuple>)
    | Serve(request: Decoded, phys: nat)
    | Reply(call: nat, reply: Option<Wire>)

  /** Nonces are unique; a served challenge that bears a caller's nonce is that caller's
      challenge; a receipt whose signature verifies was signed by the server. */
  ghost predicate Enabled(s: Server, w: World, a: Action) {
    match a
    case Authorize(client, objectId, relation, grantee, nonce) =>
      && client.hashers != []
      && (forall i :: 0 <= i < |w.calls| ==> w.calls[i].challenge.nonce != nonce)
      && (forall k :: 0 <= k < |w.served| ==> w.served[k].request.nonce != nonce)
    case ChangePolicy(_) => true
    case Serve(request, _) =>
      && WellFormed(request)
      && forall i :: 0 <= i < |w.calls| && w.calls[i].challenge.nonce == request.nonce ==>
           Decodes(ToPayload(w.calls[i].challenge), request)
    case Reply(call, reply) =>
      && call < |w.calls|
      && (reply.Some? && ParseReceipt(reply.value).Ok? ==>
            var (receipt, signature) := ParseReceipt(reply.value).value;
            s.verify(ReceiptBytes(receipt), signature) ==>
              exists k :: 0 <= k < |w.served| && ReceiptBytes(w.served[k].receipt) == ReceiptBytes(receipt))
  }

  function Step(s: Server, w: World, a: Action): World {
    match a
    case Authorize(client, objectId, relation, grantee, nonce) =>
      if client.Prechecks(objectId, relation, grantee)
      then w.(calls := w.calls + [Request(client, Challenge(objectId, relation, grantee, nonce, client.hashers))])
      else w
    case ChangePolicy(policy) => w.(policy := policy)
    case Serve(request, phys) =>
      var tick := NowStep(w.clock, phys);
      if tick.hlc.Err? then w.(clock := tick.state)
      else
        var receipt := ReceiptFor(s.Env(w.policy), s.hashers, request, tick.hlc.value);
        w.(clock := tick.state, served := w.served + [Served(request, w.policy, receipt, |w.calls|)])
    case Reply(call, reply) =>
      if call < |w.calls| then
        var result := Conclude(w.calls[call].challenge.nonce, s.verify, reply);
        w.(returned := w.returned + [Return(call, result, |w.served|)])
      else w
  }

  function Run(s: Server, actions: seq<Action>): World {
    if actions == [] then START
    else Step(s, Run(s, actions[..|actions| - 1]), actions[|actions| - 1])
  }

  ghost predicate Legal(s: Server, actions: seq<Action>) {
    actions == []
    || (Legal(s, actions[..|actions| - 1])
        && Enabled(s, Run(s, actions[..|actions| - 1]), actions[|actions| - 1]))
  }

  // ---- Invariants ------------------------------------------------------------------

  ghost predicate CallsOk(w: World) {
    && (forall i :: 0 <= i < |w.calls| ==>
          var c := w.calls[i].challenge;
          c.hashers == w.calls[i].client.hashers != [] && w.calls[i].client.Prechecks(c.objectId, c.relation, c.grantee))
    && (forall i, j :: 0 <= i < j < |w.calls| ==> w.calls[i].challenge.nonce != w.calls[j].challenge.nonce)
  }

  /** An evaluation bearing a caller's nonce is of that call's challenge, made after the
      call. */
  ghost predicate ServedOk(s: Server, w: World) {
    && (forall k :: 0 <= k < |w.served| ==>
          && w.served[k].created <= |w.calls|
          && w.served[k].receipt.nonce == w.served[k].request.nonce
          && w.served[k].receipt.allow == ServerAllows(s.Env(w.served[k].policy), s.hashers, w.served[k].request))
    && (forall k, i :: 0 <= k < |w.served| && 0 <= i < |w.calls|
                       && w.calls[i].challenge.nonce == w.served[k].request.nonce ==>
          i < w.served[k].created && Decodes(ToPayload(w.calls[i].challenge), w.served[k].request))
  }

  ghost predicate ClockOk(w: World) {
    && (forall k :: 0 <= k < |w.served| ==> w.served[k].receipt.hlc <= w.clock.Reading())
    && (forall k, l :: 0 <= k < l < |w.served| ==> w.served[k].receipt.hlc < w.served[l].receipt.hlc)
  }

  ghost predicate ReturnsOk(w: World) {
    forall r :: 0 <= r < |w.returned| && w.returned[r].result == Ok(true) ==>
      && w.returned[r].call < |w.calls|
      && exists k :: Answers(w, w.returned[r], k)
  }

  /** Evaluation k allowed the returning call's own nonce, before the call returned. */
  ghost predicate Answers(w: World, r: Return, k: nat) {
    && k < r.served && k < |w.served| && r.call < |w.calls|
    && w.served[k].receipt.allow
    && w.served[k].receipt.nonce == w.calls[r.call].challenge.nonce
  }

  lemma ReplyAnswers(s: Server, w: World, a: Action)
    requires a.Reply? && Enabled(s, w, a)
    requires Conclude(w.calls[a.call].challenge.nonce, s.verify, a.reply) == Ok(true)
    ensures exists k :: Answers(Step(s, w, a), Return(a.call, Ok(true), |w.served|), k)
  {
    var (receipt, signature) := ParseReceipt(a.reply.value).value;
    var k :| 0 <= k < |w.served| && ReceiptBytes(w.served[k].receipt) == ReceiptBytes(receipt);
    ReceiptBytesInjective(w.served[k].receipt, receipt);
    assert Answers(Step(s, w, a), Return(a.call, Ok(true), |w.served|), k);
  }

  lemma ReturnsKept(w: World, w': World)
    requires ReturnsOk(w) && w.calls <= w'.calls && w.served <= w'.served && w.returned == w'.returned
    ensures ReturnsOk(w')
  {
    forall r | 0 <= r < |w'.returned| && w'.returned[r].result == Ok(true)
      ensures exists k :: Answers(w', w'.returned[r], k)
    {
      var k :| Answers(w, w.returned[r], k);
      assert Answers(w', w'.returned[r], k);
    }
  }

  lemma StepKeepsReturns(s: Server, w: World, a: Action)
    requires ReturnsOk(w) && Enabled(s, w, a)
    ensures ReturnsOk(Step(s, w, a))
  {
    var w' := Step(s, w, a);
    if a.Reply? {
      var last := w'.returned[|w.returned|];
      if last.result == Ok(true) {
        ReplyAnswers(s, w, a);
      }
      forall r | 0 <= r < |w.returned| && w.returned[r].result == Ok(true)
        ensures exists k :: Answers(w', w'.returned[r], k)
      {
        var k :| Answers(w, w.returned[r], k);
        assert Answers(w', w'.returned[r], k);
      }
    } else {
      ReturnsKept(w, w');
    }
  }

  lemma {:induction false} InvariantHolds(s: Server, actions: seq<Action>)
    requires Legal(s, actions)
    ensures var w := Run(s, actions); CallsOk(w) && ServedOk(s, w) && ClockOk(w) && ReturnsOk(w)
  {
    if actions != [] {
      var before, a := actions[..|actions| - 1], actions[|actions| - 1];
      InvariantHolds(s, before);
      var w := Run(s, before);
      StepKeepsReturns(s, w, a);
      StepKeepsCalls(s, w, a);
      StepKeepsServed(s, w, a);
      StepKeepsClock(s, w, a);
    }
  }

  lemma StepKeepsCalls(s: Server, w: World, a: Action)
    requires CallsOk(w) && Enabled(s, w, a)
    ensures CallsOk(Step(s, w, a))
  {}

  lemma StepKeepsServed(s: Server, w: World, a: Action)
    requires ServedOk(s, w) && Enabled(s, w, a)
    ensures ServedOk(s, Step(s, w, a))
  {}

  lemma StepKeepsClock(s: Server, w: World, a: Action)
    requires ClockOk(w)
    ensures ClockOk(Step(s, w, a))
  {
    if a.Serve? {
      HlcRuns.StepFacts(w.clock, a.phys, 0);
    }
  }

  // ---- Theorems --------------------------------------------------------------------

  /** The server's answer to a challenge is its own engine's answer to the plaintext
      request under the salts both sides share; with none shared it is DENY. */
  lemma WireChangesNothing(s: Server, policy: seq<Tuple>, c: Challenge, d: Decoded)
    requires TagsIdentify(c.hashers, s.hashers) && Decodes(ToPayload(c), d)
    ensures d.nonce == c.nonce && d.grantee == c.grantee
    ensures var shared := SharedSalts(c.hashers, s.hashers);
            ServerAllows(s.Env(policy), s.hashers, d) <==>
              shared != [] && Allowed(s.Env(policy), c.grantee, HypothesesFor(shared, c.objectId, c.relation))
    ensures c.hashers == s.hashers ==>
              (ServerAllows(s.Env(policy), s.hashers, d) <==>
               Allowed(s.Env(policy), c.grantee, HypothesesFor(s.hashers, c.objectId, c.relation)))
  {
    PlaintextVerdict(s.Env(policy), s.hashers, c, d);
    if c.hashers == s.hashers {
      SameSaltsAllShared(c.hashers, s.hashers);
    }
  }

  /** Evaluation k justifies a return of true: it was of the returning call's own
      challenge, which had passed its pre-check; it came after the call and before the
      return; and the server's engine allowed it on the policy it then held. */
  ghost predicate Justifies(s: Server, w: World, ret: Return, k: nat) {
    && ret.call < |w.calls| && k < |w.served|
    && var c, served := w.calls[ret.call].challenge, w.served[k];
       && w.calls[ret.call].client.Prechecks(c.objectId, c.relation, c.grantee)
       && ret.call < served.created && k < ret.served
       && Decodes(ToPayload(c), served.request)
       && ServerAllows(s.Env(served.policy), s.hashers, served.request)
       && (TagsIdentify(c.hashers, s.hashers) ==>
             Allowed(s.Env(served.policy), c.grantee,
                     HypothesesFor(SharedSalts(c.hashers, s.hashers), c.objectId, c.relation)))
  }

  lemma AnswerJustifies(s: Server, w: World, ret: Return, k: nat)
    requires CallsOk(w) && ServedOk(s, w) && Answers(w, ret, k)
    ensures Justifies(s, w, ret, k)
  {
    hide Allowed, ToPayload, Encode, WellFormed, Hypotheses;
    var c := w.calls[ret.call].challenge;
    if TagsIdentify(c.hashers, s.hashers) {
      WireChangesNothing(s, w.served[k].policy, c, w.served[k].request);
    }
  }

  /** In every run a call returns true only if some evaluation by the server justifies it. */
  lemma {:induction false} TrueMeansServerAllowed(s: Server, actions: seq<Action>, r: nat)
    requires Legal(s, actions)
    requires r < |Run(s, actions).returned| && Run(s, actions).returned[r].result == Ok(true)
    ensures exists k :: Justifies(s, Run(s, actions), Run(s, actions).returned[r], k)
  {
    hide Answers, Justifies, CallsOk, ServedOk, ClockOk, Legal, Run;
    InvariantHolds(s, actions);
    var w := Run(s, actions);
    var k :| Answers(w, w.returned[r], k);
    AnswerJustifies(s, w, w.returned[r], k);
  }

  /** Delivering the receipt of an evaluation that bears a call's nonce is always possible,
      and makes the call return exactly the server's verdict on the plaintext request, on the
      policy the server held when it evaluated. */
  lemma {:induction false} DeliveredIsReturned(s: Server, actions: seq<Action>, call: nat, k: nat)
    requires Legal(s, actions) && Matching(s.sign, s.verify)
    requires call < |Run(s, actions).calls| && k < |Run(s, actions).served|
    requires var w := Run(s, actions);
             && w.served[k].request.nonce == w.calls[call].challenge.nonce
             && TagsIdentify(w.calls[call].challenge.hashers, s.hashers)
    ensures var w := Run(s, actions);
            var after := actions + [Reply(call, Some(Signed(s.sign, w.served[k].receipt)))];
            && Legal(s, after)
            && Run(s, after).returned
               == var verdict := DecidesShared(s.Env(w.served[k].policy), s.hashers, w.calls[call].challenge);
                  w.returned + [Return(call, Ok(verdict), |w.served|)]
  {
    hide Conclude, Signed, ServerAllows, DecidesShared, Decodes, ToPayload, Matching, TagsIdentify, ReceiptBytes;
    InvariantHolds(s, actions);
    var w := Run(s, actions);
    var c, served := w.calls[call].challenge, w.served[k];
    var reply := Reply(call, Some(Signed(s.sign, served.receipt)));
    assert (actions + [reply])[..|actions|] == actions;
    PlaintextVerdict(s.Env(served.policy), s.hashers, c, served.request);
    SignedIsBelieved(s.sign, s.verify, served.receipt);
    SignedReads(s.sign, served.receipt);
  }

  lemma SignedReads(sign: Bytes -> Signature, r: Receipt)
    ensures ParseReceipt(Signed(sign, r)) == Ok((r, sign(ReceiptBytes(r))))
  {
    assert Reads(Signed(sign, r), r, sign(ReceiptBytes(r)));
  }

  /** A call that has passed its pre-check can always be served and answered: if the server's
      clock ticks, evaluating its challenge and delivering the receipt is a legal run, and the
      call returns the verdict of the server's engine on the plaintext request. */
  lemma {:induction false} HonestExchange(s: Server, actions: seq<Action>, call: nat, phys: nat)
    requires Legal(s, actions) && Matching(s.sign, s.verify) && call < |Run(s, actions).calls|
    requires var w := Run(s, actions);
             && NowStep(w.clock, phys).hlc.Ok?
             && TagsIdentify(w.calls[call].challenge.hashers, s.hashers)
    ensures var w := Run(s, actions);
            var c := w.calls[call].challenge;
            var receipt := ReceiptFor(s.Env(w.policy), s.hashers, Sent(c), NowStep(w.clock, phys).hlc.value);
            var after := actions + [Serve(Sent(c), phys)] + [Reply(call, Some(Signed(s.sign, receipt)))];
            && Legal(s, after)
            && Run(s, after).returned
               == w.returned + [Return(call, Ok(DecidesShared(s.Env(w.policy), s.hashers, c)), |w.served| + 1)]
  {
    hide Signed, DecidesShared, Matching, TagsIdentify, NowStep, Step, Legal, Run, ReceiptFor;
    var w := Run(s, actions);
    var c := w.calls[call].challenge;
    ServeIsLegal(s, actions, call, phys);
    ServeAppends(s, w, Sent(c), phys);
    RunSnoc(s, actions, Serve(Sent(c), phys));
    DeliveredIsReturned(s, actions + [Serve(Sent(c), phys)], call, |w.served|);
  }

  lemma RunSnoc(s: Server, actions: seq<Action>, a: Action)
    ensures Run(s, actions + [a]) == Step(s, Run(s, actions), a)
  {
    hide Step;
    assert (actions + [a])[..|actions|] == actions;
  }

  lemma ServeAppends(s: Server, w: World, d: Decoded, phys: nat)
    requires NowStep(w.clock, phys).hlc.Ok?
    ensures var receipt := ReceiptFor(s.Env(w.policy), s.hashers, d, NowStep(w.clock, phys).hlc.value);
            Step(s, w, Serve(d, phys))
            == w.(clock := NowStep(w.clock, phys).state,
                  served := w.served + [Served(d, w.policy, receipt, |w.calls|)])
  {}

  lemma {:induction false} ServeIsLegal(s: Server, actions: seq<Action>, call: nat, phys: nat)
    requires Legal(s, actions) && call < |Run(s, actions).calls|
    ensures Legal(s, actions + [Serve(Sent(Run(s, actions).calls[call].challenge), phys)])
  {
    hide ToPayload, Step;
    InvariantHolds(s, actions);
    var w := Run(s, actions);
    var c := w.calls[call].challenge;
    ChallengeRoundTrip(c);
    assert (actions + [Serve(Sent(c), phys)])[..|actions|] == actions;
  }

  /** The server's receipts carry strictly increasing timestamps. */
  lemma ReceiptsIncrease(s: Server, actions: seq<Action>, k: nat, l: nat)
    requires Legal(s, actions) && k < l < |Run(s, actions).served|
    ensures Run(s, actions).served[k].receipt.hlc < Run(s, actions).served[l].receipt.hlc
  {
    InvariantHolds(s, actions);
  }
}
