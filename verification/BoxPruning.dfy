/** Pruning the outbox and the sent box by age, and why no receiver of the same horizon can
    tell. */
module BoxPruning {
  import opened Basics
  import opened Hlc
  import opened Policy
  import opened Crdt
  import opened CrdtRuns
  import opened Delta
  import Threshold

  type Decoder = Bytes -> Option<Operation>

  /** Decodable, and stamped before the cutoff. */
  predicate Stale(decode: Decoder, payload: Bytes, cutoff: int) {
    var op := decode(payload);
    op.Some? && Physical(op.value.hlc) < cutoff
  }

  /** The payloads that are kept, in order; what cannot be decoded is never dropped. */
  function Fresh(decode: Decoder, box: seq<Bytes>, cutoff: int): seq<Bytes> {
    if box == [] then []
    else
      var before, last := Fresh(decode, box[..|box| - 1], cutoff), box[|box| - 1];
      if Stale(decode, last, cutoff) then before else before + [last]
  }

  /** Kept, in order, is exactly what cannot be decoded or is stamped no earlier than the
      cutoff. */
  lemma {:induction false} FreshFilters(decode: Decoder, box: seq<Bytes>, cutoff: int)
    ensures Filters(box, p => decode(p).Some? ==> Physical(decode(p).value.hlc) >= cutoff, Fresh(decode, box, cutoff))
  {
    hide Filters;
    var keep := (p: Bytes) => decode(p).Some? ==> Physical(decode(p).value.hlc) >= cutoff;
    if box == [] {
      FiltersNothing(keep);
    } else {
      var before, last := box[..|box| - 1], box[|box| - 1];
      FreshFilters(decode, before, cutoff);
      FiltersNext(before, keep, Fresh(decode, before, cutoff), last);
      assert before + [last] == box;
    }
  }

  method PrunePayloads(decode: Decoder, payloads: seq<Bytes>, horizon: int, now: int)
    returns (kept: seq<Bytes>, dropped: nat)
    ensures kept == Fresh(decode, payloads, now - horizon)
    ensures |kept| + dropped == |payloads|
    ensures Filters(payloads, p => decode(p).Some? ==> Physical(decode(p).value.hlc) >= now - horizon, kept)
  {
    FreshFilters(decode, payloads, now - horizon);
    var cutoff := now - horizon;
    kept, dropped := [], 0;
    for n := 0 to |payloads|
      invariant kept == Fresh(decode, payloads[..n], cutoff)
      invariant |kept| + dropped == n
    {
      assert payloads[..n + 1][..n] == payloads[..n] && payloads[..n + 1][n] == payloads[n];
      var op := decode(payloads[n]);
      if op.None? {
        kept := kept + [payloads[n]];
      } else if Physical(op.value.hlc) < cutoff {
        dropped := dropped + 1;
      } else {
        kept := kept + [payloads[n]];
      }
    }
    assert payloads[..|payloads|] == payloads;
  }

  function Blobs(box: seq<Bytes>): (items: seq<Element>)
    ensures |items| == |box|
    ensures forall i :: 0 <= i < |box| ==> items[i] == Blob(box[i])
  {
    seq(|box|, i requires 0 <= i < |box| => Blob(box[i]))
  }

  /** The state a receiver comes to when a box is replayed to it. */
  function Replayed(trust: Trust, box: seq<Bytes>, now: int, maxFuture: Option<int>, es: seq<Entry>, horizon: int)
    : seq<Entry>
  {
    RunFrom(es, trust.ReceivedAll(Blobs(box), now, maxFuture), horizon)
  }

  lemma ReplayedSnoc(trust: Trust, box: seq<Bytes>, last: Bytes, now: int, maxFuture: Option<int>, es: seq<Entry>,
                     horizon: int)
    ensures Replayed(trust, box + [last], now, maxFuture, es, horizon)
            == RunFrom(Replayed(trust, box, now, maxFuture, es, horizon), trust.Received(last, now, maxFuture), horizon)
  {
    var items := Blobs(box + [last]);
    assert items[..|box|] == Blobs(box) && items[|box|] == Blob(last);
    OneReceived(trust, es, trust.ReceivedAll(Blobs(box), now, maxFuture), last, now, maxFuture, horizon);
  }

  /** Receiving a stale payload changes nothing. */
  lemma StaleIsRejected(trust: Trust, es: seq<Entry>, p: Bytes, later: int, maxFuture: Option<int>, horizon: int,
                        cutoff: int)
    requires Stale(trust.decode, p, cutoff) && cutoff <= later - horizon
    ensures RunFrom(es, trust.Received(p, later, maxFuture), horizon) == es
  {
    hide Threshold.Accepts, Applied;
    var event := trust.Received(p, later, maxFuture);
    if event != [] {
      assert event[..0] == [];
    }
  }

  /** If two boxes replay alike, they still do when the one gets a payload and the other
      gets it only if it is not stale. */
  lemma ReplayStep(trust: Trust, whole: seq<Bytes>, part: seq<Bytes>, last: Bytes, later: int, maxFuture: Option<int>,
                   es: seq<Entry>, horizon: int, cutoff: int)
    requires cutoff <= later - horizon
    requires Replayed(trust, part, later, maxFuture, es, horizon)
          == Replayed(trust, whole, later, maxFuture, es, horizon)
    ensures var part' := if Stale(trust.decode, last, cutoff) then part else part + [last];
            Replayed(trust, part', later, maxFuture, es, horizon)
            == Replayed(trust, whole + [last], later, maxFuture, es, horizon)
  {
    hide Stale, Replayed, RunFrom;
    ReplayedSnoc(trust, whole, last, later, maxFuture, es, horizon);
    if Stale(trust.decode, last, cutoff) {
      StaleIsRejected(trust, Replayed(trust, whole, later, maxFuture, es, horizon), last, later, maxFuture, horizon,
                      cutoff);
    } else {
      ReplayedSnoc(trust, part, last, later, maxFuture, es, horizon);
    }
  }

  /** Replaying a pruned box takes a receiver of any state with the same horizon, whose
      clock is no earlier, to exactly the state that replaying the whole box would. */
  lemma {:induction false} PrunedReplayIsTheSame(trust: Trust, box: seq<Bytes>, horizon: int, now: int, later: int,
                                                 maxFuture: Option<int>, es: seq<Entry>)
    requires now <= later
    ensures Replayed(trust, Fresh(trust.decode, box, now - horizon), later, maxFuture, es, horizon)
            == Replayed(trust, box, later, maxFuture, es, horizon)
  {
    if box != [] {
      hide Stale, Replayed;
      var before, last, cutoff := box[..|box| - 1], box[|box| - 1], now - horizon;
      PrunedReplayIsTheSame(trust, before, horizon, now, later, maxFuture, es);
      assert before + [last] == box;
      ReplayStep(trust, before, Fresh(trust.decode, before, cutoff), last, later, maxFuture, es, horizon, cutoff);
    }
  }
}
