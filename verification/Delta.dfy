/** The receive boundary: decode, authenticate, apply, one delta or a batch at a time. */
module Delta {
  import opened Basics
  import opened Hlc
  import opened Policy
  import opened Crdt
  import opened CrdtRuns
  import opened StateVectors
  import Threshold

  datatype Keyset = Keyset(members: seq<Bytes>, threshold: int)

  /** What the receiver relies on: the payload codec, the key resolver, the signature check. */
  datatype Trust = Trust(
    decode: Bytes -> Option<Operation>,
    resolve: Hash16 -> Option<Keyset>,
    verify: (Bytes, Bytes, Bytes) -> bool)
  {
    function Checks(op: Operation): Threshold.Oracle {
      (key, sig) => verify(key, SigningBytes(op), sig)
    }

    /** The operation's issuer is known and its keyset signed it. */
    predicate Authentic(op: Operation) {
      var keyset := resolve(op.tuple.issuer);
      keyset.Some?
      && Threshold.Accepts(Checks(op), op.signatures, keyset.value.members, keyset.value.threshold)
    }

    /** The event a payload amounts to: none if it is malformed or unauthenticated. */
    function Received(payload: Bytes, now: int, maxFuture: Option<int>): seq<Event> {
      var op := decode(payload);
      if op.Some? && Authentic(op.value) then [Apply(op.value, now, maxFuture)] else []
    }

    function ReceivedAll(batch: seq<Element>, now: int, maxFuture: Option<int>): seq<Event> {
      if batch == [] then []
      else
        var before, last := ReceivedAll(batch[..|batch| - 1], now, maxFuture), batch[|batch| - 1];
        if last.Blob? then before + Received(last.payload, now, maxFuture) else before
    }
  }

  /** One element of a decoded batch array. */
  datatype Element = Blob(payload: Bytes) | NotBinary

  function AcceptedCount(events: seq<Event>, horizon: int): nat {
    if events == [] then 0
    else AcceptedCount(events[..|events| - 1], horizon)
         + if Accepted(events[|events| - 1], horizon) then 1 else 0
  }

  /** The count is the number of accepted events. */
  lemma {:induction false} AcceptedCountIs(events: seq<Event>, horizon: int)
    ensures AcceptedCount(events, horizon) == |set n | 0 <= n < |events| && Accepted(events[n], horizon)|
  {
    if events != [] {
      var before, k := events[..|events| - 1], |events| - 1;
      AcceptedCountIs(before, horizon);
      var all, some := set n | 0 <= n < |events| && Accepted(events[n], horizon),
                       set n | 0 <= n < |before| && Accepted(before[n], horizon);
      assert all == if Accepted(events[k], horizon) then some + {k} else some;
    }
  }

  lemma ReceivedStep(trust: Trust, items: seq<Element>, n: nat, now: int, maxFuture: Option<int>)
    requires n < |items|
    ensures trust.ReceivedAll(items[..n + 1], now, maxFuture)
            == trust.ReceivedAll(items[..n], now, maxFuture)
               + if items[n].Blob? then trust.Received(items[n].payload, now, maxFuture) else []
  {
    assert items[..n + 1][..n] == items[..n] && items[..n + 1][n] == items[n];
  }

  /** One payload amounts to at most one event, which moves the state and is counted. */
  lemma {:induction false} OneReceived(trust: Trust, es: seq<Entry>, before: seq<Event>, payload: Bytes, now: int,
                                       maxFuture: Option<int>, horizon: int)
    ensures var event := trust.Received(payload, now, maxFuture);
            && RunFrom(es, before + event, horizon) == RunFrom(RunFrom(es, before, horizon), event, horizon)
            && AcceptedCount(before + event, horizon) == AcceptedCount(before, horizon) + AcceptedCount(event, horizon)
  {
    hide Threshold.Accepts, Step;
    var event := trust.Received(payload, now, maxFuture);
    if event == [] {
      assert before + event == before;
    } else {
      assert event[..0] == [] && (before + event)[..|before|] == before;
    }
  }

  class DeltaReceiver {
    const state: StateVector
    const trust: Trust

    constructor (state: StateVector, trust: Trust)
      ensures this.state == state && this.trust == trust
    {
      this.state, this.trust := state, trust;
    }

    /** The operation is stamped within the deletion horizon and the future allowance. */
    predicate InWindow(op: Operation, now: nat, maxFuture: Option<nat>) {
      && now - state.horizonMs <= Physical(op.hlc)
      && (maxFuture.Some? ==> Physical(op.hlc) <= now + maxFuture.value)
    }

    /** The state, however it came about, moves on by exactly the received event. */
    method ApplyPayload(payload: Bytes, now: nat, maxFuture: Option<nat>) returns (applied: bool)
      requires state.Valid()
      modifies state
      ensures state.Valid()
      ensures var events := trust.Received(payload, now, maxFuture);
              && state.entries == RunFrom(old(state.entries), events, state.horizonMs)
              && AcceptedCount(events, state.horizonMs) == if applied then 1 else 0
      ensures OneKeyEach(trust) ==>
                (applied <==> WellSigned(trust, Blob(payload)) && InWindow(trust.decode(payload).value, now, maxFuture))
    {
      if OneKeyEach(trust) {
        WellSignedIsReceived(trust, Blob(payload), now, maxFuture);
      }
      hide Threshold.Accepts, Threshold.DistinctSigners, SigningBytes, Key, Applied;
      var op := trust.decode(payload);
      if op.None? {
        return false;
      }
      var keyset := trust.resolve(op.value.tuple.issuer);
      if keyset.None? {
        return false;
      }
      var authentic := Threshold.VerifyThreshold(
        trust.Checks(op.value), op.value.signatures, keyset.value.members, keyset.value.threshold);
      if !authentic {
        return false;
      }
      ghost var e := Apply(op.value, now, maxFuture);
      assert [e][..0] == [];
      applied := state.Apply(op.value, now, maxFuture);
    }

    /** A batch counts and applies its good elements; the others leave no trace. */
    method ApplyPayloads(batch: Option<seq<Element>>, now: nat, maxFuture: Option<nat>) returns (applied: nat)
      requires state.Valid()
      modifies state
      ensures state.Valid()
      ensures batch.None? ==> applied == 0 && state.entries == old(state.entries)
      ensures batch.Some? ==>
                var events := trust.ReceivedAll(batch.value, now, maxFuture);
                && state.entries == RunFrom(old(state.entries), events, state.horizonMs)
                && applied == AcceptedCount(events, state.horizonMs)
    {
      applied := 0;
      if batch.None? {
        return;
      }
      var items := batch.value;
      assert trust.ReceivedAll(items[..0], now, maxFuture) == [];
      assert AcceptedCount([], state.horizonMs) == 0 && RunFrom(state.entries, [], state.horizonMs) == state.entries;
      hide *;
      for n := 0 to |items|
        invariant state.Valid()
        invariant state.entries
               == RunFrom(old(state.entries), trust.ReceivedAll(items[..n], now, maxFuture), state.horizonMs)
        invariant applied == AcceptedCount(trust.ReceivedAll(items[..n], now, maxFuture), state.horizonMs)
      {
        ghost var soFar := trust.ReceivedAll(items[..n], now, maxFuture);
        ReceivedStep(trust, items, n, now, maxFuture);
        assert soFar + [] == soFar;
        match items[n]
        case NotBinary =>
        case Blob(payload) =>
          OneReceived(trust, old(state.entries), soFar, payload, now, maxFuture, state.horizonMs);
          var ok := ApplyPayload(payload, now, maxFuture);
          if ok {
            applied := applied + 1;
          }
      }
      assert items[..|items|] == items;
    }
  }

  /** Every event of the run came through the receive boundary. */
  ghost predicate AllAuthentic(trust: Trust, events: seq<Event>) {
    forall e :: e in events && e.Apply? ==> trust.Authentic(e.op)
  }

  lemma {:induction false} ReceivedAreAuthentic(trust: Trust, batch: seq<Element>, now: int, maxFuture: Option<int>)
    ensures AllAuthentic(trust, trust.ReceivedAll(batch, now, maxFuture))
  {
    if batch != [] {
      ReceivedAreAuthentic(trust, batch[..|batch| - 1], now, maxFuture);
    }
  }

  /** The required number of distinct keys of the keyset signed the operation's bytes. */
  ghost predicate SignedBy(trust: Trust, op: Operation, keyset: Keyset, who: seq<Bytes>) {
    && |who| == |op.signatures| == keyset.threshold >= 1 && NoDuplicates(who)
    && forall i :: 0 <= i < |who| ==> who[i] in keyset.members && trust.verify(who[i], SigningBytes(op), op.signatures[i])
  }

  lemma SignedMeans(trust: Trust, op: Operation, keyset: Keyset)
    ensures (exists who :: SignedBy(trust, op, keyset, who)) <==>
              && |op.signatures| == keyset.threshold >= 1
              && Threshold.DistinctSigners(trust.Checks(op), op.signatures, keyset.members)
  {
    hide SigningBytes;
    if who :| SignedBy(trust, op, keyset, who) {
      assert Threshold.Signers(trust.Checks(op), op.signatures, keyset.members, who);
    }
    if |op.signatures| == keyset.threshold >= 1
       && Threshold.DistinctSigners(trust.Checks(op), op.signatures, keyset.members) {
      var who :| Threshold.Signers(trust.Checks(op), op.signatures, keyset.members, who);
      assert SignedBy(trust, op, keyset, who);
    }
  }

  /** What the receiver should take: a payload that decodes to an operation whose issuer is
      known and whose signatures are the required number, by distinct keys of its keyset. */
  ghost predicate WellSigned(trust: Trust, item: Element) {
    && item.Blob? && trust.decode(item.payload).Some?
    && var op := trust.decode(item.payload).value;
       && trust.resolve(op.tuple.issuer).Some?
       && exists who :: SignedBy(trust, op, trust.resolve(op.tuple.issuer).value, who)
  }

  /** No signature of a received operation verifies under two keys of its issuer. */
  ghost predicate OneKeyEach(trust: Trust) {
    forall payload | trust.decode(payload).Some? ::
      var op := trust.decode(payload).value;
      trust.resolve(op.tuple.issuer).Some? ==>
        Threshold.OneKeyPerSignature(trust.Checks(op), op.signatures, trust.resolve(op.tuple.issuer).value.members)
  }

  /** A payload becomes an event exactly when it is well signed. */
  lemma WellSignedIsReceived(trust: Trust, item: Element, now: int, maxFuture: Option<int>)
    requires OneKeyEach(trust) && item.Blob?
    ensures trust.Received(item.payload, now, maxFuture)
            == if WellSigned(trust, item) then [Apply(trust.decode(item.payload).value, now, maxFuture)] else []
  {
    var op := trust.decode(item.payload);
    if op.Some? && trust.resolve(op.value.tuple.issuer).Some? {
      var keyset := trust.resolve(op.value.tuple.issuer).value;
      hide Threshold.Accepts, SignedBy;
      SignedMeans(trust, op.value, keyset);
      Threshold.ThresholdExact(trust.Checks(op.value), op.value.signatures, keyset.members, keyset.threshold);
    }
  }

  /** The elements a batch amounts to: exactly the well-signed ones, each in its turn. */
  lemma {:induction false} ReceivedExactly(trust: Trust, batch: seq<Element>, now: int, maxFuture: Option<int>)
    returns (good: seq<Element>)
    requires OneKeyEach(trust)
    ensures Filters(batch, item => WellSigned(trust, item), good)
    ensures var events := trust.ReceivedAll(batch, now, maxFuture);
            && |events| == |good|
            && forall i :: 0 <= i < |good| ==>
                 WellSigned(trust, good[i]) && events[i] == Apply(trust.decode(good[i].payload).value, now, maxFuture)
  {
    hide Filters, WellSigned, OneKeyEach, Trust.Received;
    var keep := item => WellSigned(trust, item);
    if batch == [] {
      FiltersNothing(keep);
      good := [];
    } else {
      var before, last := batch[..|batch| - 1], batch[|batch| - 1];
      var some := ReceivedExactly(trust, before, now, maxFuture);
      FiltersNext(before, keep, some, last);
      assert before + [last] == batch;
      good := if keep(last) then some + [last] else some;
      if last.Blob? {
        WellSignedIsReceived(trust, last, now, maxFuture);
      } else {
        NotSigned(trust, last);
      }
    }
  }

  lemma NotSigned(trust: Trust, item: Element)
    requires !item.Blob?
    ensures !WellSigned(trust, item)
  {}

  /** Nothing becomes active without the issuer's signatures: behind every active tuple
      stands an accepted grant of it, signed by the required number of distinct keys of
      that issuer's keyset, and later than every accepted revocation. */
  lemma ActiveTuplesAreSigned(trust: Trust, events: seq<Event>, horizon: int, t: Tuple) returns (grant: Operation)
    requires PrunesInOrder(events) && AllAuthentic(trust, events)
    requires t in ActiveTuples(Run(events, horizon))
    ensures grant in AcceptedOps(events, horizon) && grant.tuple == t && grant.action.Grant?
    ensures forall r :: r in AcceptedOps(events, horizon) && r.tuple == t && r.action.Revoke? ==> grant.hlc > r.hlc
    ensures trust.resolve(t.issuer).Some?
    ensures exists who :: SignedBy(trust, grant, trust.resolve(t.issuer).value, who)
  {
    ActiveLaw(events, horizon, t);
    grant :| grant in AcceptedOps(events, horizon) && grant.tuple == t && grant.action.Grant?
             && forall r :: r in AcceptedOps(events, horizon) && r.tuple == t && r.action.Revoke? ==> grant.hlc > r.hlc;
    var keyset := trust.resolve(t.issuer);
    assert trust.Authentic(grant);
    Threshold.ThresholdExact(trust.Checks(grant), grant.signatures, keyset.value.members, keyset.value.threshold);
    SignedMeans(trust, grant, keyset.value);
  }
}
