/** The replica's container: entries in insertion order beside a key-to-position index. */
module StateVectors {
  import opened Basics
  import opened Hlc
  import opened Policy
  import opened Crdt

  class StateVector {
    const horizonMs: nat
    var entries: seq<Entry>
    var index: map<Bytes, nat>

    /** The index and the entries agree position by position. */
    ghost predicate Valid()
      reads this
    {
      && (forall i :: 0 <= i < |entries| ==>
            Key(entries[i].tuple) in index && index[Key(entries[i].tuple)] == i)
      && (forall k :: k in index ==> index[k] < |entries| && Key(entries[index[k]].tuple) == k)
    }

    constructor (horizonMs: nat)
      ensures Valid() && entries == [] && this.horizonMs == horizonMs
    {
      this.horizonMs := horizonMs;
      entries, index := [], map[];
    }

    /** The index finds exactly the position a search of the entries would. */
    lemma IndexFinds(key: Bytes)
      requires Valid()
      ensures Unique(entries)
      ensures Position(entries, key) == if key in index then index[key] else |entries|
    {
      forall i, j | 0 <= i < j < |entries|
        ensures Key(entries[i].tuple) != Key(entries[j].tuple)
      {
        assert index[Key(entries[i].tuple)] == i && index[Key(entries[j].tuple)] == j;
      }
      forall j | 0 <= j < (if key in index then index[key] else |entries|)
        ensures Key(entries[j].tuple) != key
      {
        assert index[Key(entries[j].tuple)] == j;
      }
      PositionIs(entries, key, if key in index then index[key] else |entries|);
    }

    /** Position of the tuple's entry, appending an empty one if there is none. */
    method EntryFor(tuple: Tuple) returns (i: nat)
      requires Valid()
      modifies this
      ensures Valid()
      ensures i == Position(old(entries), Key(tuple)) < |entries|
      ensures entries == if i < |old(entries)| then old(entries) else old(entries) + [Entry(tuple, NO_SLOTS)]
    {
      var key := Key(tuple);
      IndexFinds(key);
      if key in index {
        return index[key];
      }
      entries := entries + [Entry(tuple, NO_SLOTS)];
      index := index[key := |entries| - 1];
      return |entries| - 1;
    }

    /** Raise the tuple's timestamps in place to at least the given ones. */
    method Raise(tuple: Tuple, slots: Slots)
      requires Valid()
      modifies this
      ensures Valid()
      ensures entries == Absorb(old(entries), tuple, slots)
    {
      hide Key, Position, Unique;
      var i := EntryFor(tuple);
      var raised := entries[i].slots;
      if slots.add.Some? {
        raised := raised.(add := Later(raised.add, slots.add));
      }
      if slots.remove.Some? {
        raised := raised.(remove := Later(raised.remove, slots.remove));
      }
      assert raised == Join(entries[i].slots, slots);
      Put(i, raised);
    }

    /** Overwrite the timestamps of the entry at a position. */
    method Put(i: nat, slots: Slots)
      requires Valid() && i < |entries|
      modifies this`entries
      ensures Valid()
      ensures entries == old(entries)[i := old(entries)[i].(slots := slots)]
    {
      entries := entries[i := entries[i].(slots := slots)];
      assert forall j :: 0 <= j < |entries| ==> entries[j].tuple == old(entries[j].tuple);
    }

    method Apply(op: Operation, now: nat, maxFuture: Option<nat>) returns (applied: bool)
      requires Valid()
      modifies this
      ensures Valid()
      ensures applied <==> now - horizonMs <= Physical(op.hlc)
                           && (maxFuture.Some? ==> Physical(op.hlc) <= now + maxFuture.value)
      ensures applied <==> Intake(op, now, maxFuture, horizonMs)
      ensures entries == if applied then Applied(old(entries), op) else old(entries)
    {
      var physical := Physical(op.hlc);
      if maxFuture.Some? && physical > now + maxFuture.value {
        return false;
      }
      if physical < (if now > horizonMs then now - horizonMs else 0) {
        return false;
      }
      if op.action.Grant? {
        Raise(op.tuple, Slots(Some(op.hlc), None));
      } else {
        Raise(op.tuple, Slots(None, Some(op.hlc)));
      }
      return true;
    }

    method Merge(other: StateVector)
      requires Valid() && other.Valid()
      modifies this
      ensures Valid()
      ensures entries == AbsorbAll(old(entries), old(other.entries))
    {
      var rows := other.entries;
      for n := 0 to |rows|
        invariant Valid()
        invariant AbsorbAll(entries, rows[n..]) == AbsorbAll(old(entries), rows)
      {
        assert rows[n..][0] == rows[n] && rows[n..][1..] == rows[n + 1..];
        Raise(rows[n].tuple, rows[n].slots);
      }
    }

    /** Drop the dead entries; if any went, rebuild the index over the shorter vector. */
    method Prune(now: nat) returns (pruned: nat)
      requires Valid()
      modifies this
      ensures Valid()
      ensures entries == Without(old(entries), now - horizonMs)
      ensures pruned == |old(entries)| - |entries|
      ensures Filters(old(entries), (e: Entry) => !Settled(e.slots, now - horizonMs), entries)
    {
      hide Without, Position, Slots.Dead, Filters, Settled;
      WithoutFilters(entries, now - horizonMs);
      IndexFinds([]);
      WithoutKeeps(entries, now - horizonMs);
      NothingPruned(entries, now - horizonMs);
      var kept := Survivors(now);
      pruned := |entries| - |kept|;
      if pruned > 0 {
        entries := kept;
        Reindex();
      }
    }

    method Survivors(now: nat) returns (kept: seq<Entry>)
      ensures kept == Without(entries, now - horizonMs)
    {
      hide Without;
      var cutoff := if now > horizonMs then now - horizonMs else 0;
      kept := [];
      NothingLeft(now - horizonMs);
      assert entries[0..] == entries && [] + Without(entries, now - horizonMs) == Without(entries, now - horizonMs);
      for n := 0 to |entries|
        invariant kept + Without(entries[n..], now - horizonMs) == Without(entries, now - horizonMs)
      {
        WithoutStep(entries, n, now - horizonMs);
        var slots := entries[n].slots;
        if slots.Active() || slots.add.None? || slots.remove.None? {
          kept := kept + [entries[n]];
        } else if !(Physical(slots.add.value) < cutoff && Physical(slots.remove.value) < cutoff) {
          kept := kept + [entries[n]];
        }
      }
      assert entries[|entries|..] == [] && kept + [] == kept;
    }

    method Reindex()
      requires Unique(entries)
      modifies this`index
      ensures Valid()
    {
      index := map[];
      for i := 0 to |entries|
        invariant forall j :: 0 <= j < i ==> Key(entries[j].tuple) in index && index[Key(entries[j].tuple)] == j
        invariant forall k :: k in index ==> index[k] < i && Key(entries[index[k]].tuple) == k
      {
        index := index[Key(entries[i].tuple) := i];
      }
    }

    method Get(key: Bytes) returns (found: Option<Entry>)
      requires Valid()
      ensures found.None? ==> forall i :: 0 <= i < |entries| ==> Key(entries[i].tuple) != key
      ensures found.Some? ==> found.value in entries && Key(found.value.tuple) == key
      ensures Lookup(entries, key) == if found.Some? then found.value.slots else NO_SLOTS
    {
      IndexFinds(key);
      if key !in index {
        return None;
      }
      return Some(entries[index[key]]);
    }

    method IsActive(key: Bytes) returns (active: bool)
      requires Valid()
      ensures active <==> Lookup(entries, key).Active()
    {
      var found := Get(key);
      return found.Some? && found.value.slots.Active();
    }

    method Active() returns (tuples: seq<Tuple>)
      requires Valid()
      ensures tuples == ActiveTuples(entries)
      ensures forall t :: t in tuples <==> Lookup(entries, Key(t)).Active()
    {
      tuples := [];
      for n := 0 to |entries|
        invariant tuples + ActiveTuples(entries[n..]) == ActiveTuples(entries)
      {
        assert entries[n..][0] == entries[n] && entries[n..][1..] == entries[n + 1..];
        if entries[n].slots.Active() {
          tuples := tuples + [entries[n].tuple];
        }
      }
      IndexFinds([]);
      forall t
        ensures t in ActiveTuples(entries) <==> Lookup(entries, Key(t)).Active()
      {
        ActiveMeansActiveSlots(entries, t);
      }
    }
  }

  lemma NothingLeft(cutoff: int)
    ensures Without([], cutoff) == []
  {}

  lemma WithoutStep(es: seq<Entry>, n: nat, cutoff: int)
    requires n < |es|
    ensures Without(es[n..], cutoff)
            == (if es[n].slots.Dead(cutoff) then [] else [es[n]]) + Without(es[n + 1..], cutoff)
  {
    assert es[n..][0] == es[n] && es[n..][1..] == es[n + 1..];
  }

  lemma {:induction false} NothingPruned(es: seq<Entry>, cutoff: int)
    ensures |Without(es, cutoff)| <= |es|
    ensures |Without(es, cutoff)| == |es| ==> Without(es, cutoff) == es
  {
    if es != [] {
      NothingPruned(es[1..], cutoff);
    }
  }
}
