/** The authorization state as an insertion-ordered list of entries: a last-writer-wins
    element set with a deletion horizon. */
module Crdt {
  import opened Basics
  import opened Hlc
  import opened Policy

  /** The latest grant and the latest revocation of one tuple. */
  datatype Slots = Slots(add: Option<Timestamp>, remove: Option<Timestamp>) {
    /** Remove wins ties. */
    predicate Active() {
      add.Some? && (remove.None? || add.value > remove.value)
    }

    /** Resolved inactive, with both timestamps before the cutoff. */
    predicate Dead(cutoff: int) {
      !Active() && add.Some? && remove.Some?
      && Physical(add.value) < cutoff && Physical(remove.value) < cutoff
    }
  }

  const NO_SLOTS := Slots(None, None)

  function Later(a: Option<Timestamp>, b: Option<Timestamp>): Option<Timestamp> {
    if a.None? then b
    else if b.None? then a
    else if a.value > b.value then a else b
  }

  function Join(a: Slots, b: Slots): Slots {
    Slots(Later(a.add, b.add), Later(a.remove, b.remove))
  }

  datatype Entry = Entry(tuple: Tuple, slots: Slots)

  /** Position of the entry stored under a key, or |es|. */
  function Position(es: seq<Entry>, key: Bytes): (i: nat)
    ensures i <= |es|
    ensures i < |es| ==> Key(es[i].tuple) == key
    ensures forall j :: 0 <= j < i ==> Key(es[j].tuple) != key
  {
    if es == [] || Key(es[0].tuple) == key then 0 else 1 + Position(es[1..], key)
  }

  function Lookup(es: seq<Entry>, key: Bytes): Slots {
    var i := Position(es, key);
    if i < |es| then es[i].slots else NO_SLOTS
  }

  /** Take the later timestamp in each slot; a new tuple goes to the end. */
  function Absorb(es: seq<Entry>, tuple: Tuple, slots: Slots): seq<Entry> {
    var i := Position(es, Key(tuple));
    if i < |es| then es[i := es[i].(slots := Join(es[i].slots, slots))]
    else es + [Entry(tuple, slots)]
  }

  function AbsorbAll(es: seq<Entry>, others: seq<Entry>): seq<Entry>
    decreases |others|
  {
    if others == [] then es
    else AbsorbAll(Absorb(es, others[0].tuple, others[0].slots), others[1..])
  }

  function Without(es: seq<Entry>, cutoff: int): seq<Entry> {
    if es == [] then []
    else if es[0].slots.Dead(cutoff) then Without(es[1..], cutoff)
    else [es[0]] + Without(es[1..], cutoff)
  }

  function ActiveTuples(es: seq<Entry>): seq<Tuple> {
    if es == [] then []
    else if es[0].slots.Active() then [es[0].tuple] + ActiveTuples(es[1..])
    else ActiveTuples(es[1..])
  }

  // ---- The operations --------------------------------------------------------------

  /** Intake checks: not too far ahead of `now`, not older than the horizon. */
  predicate Intake(op: Operation, now: int, maxFuture: Option<int>, horizon: int) {
    && !(maxFuture.Some? && Physical(op.hlc) > now + maxFuture.value)
    && !(Physical(op.hlc) < now - horizon)
  }

  function Delta(op: Operation): Slots {
    if op.action.Grant? then Slots(Some(op.hlc), None) else Slots(None, Some(op.hlc))
  }

  function Applied(es: seq<Entry>, op: Operation): seq<Entry> {
    Absorb(es, op.tuple, Delta(op))
  }

  // ---- Facts about the list --------------------------------------------------------

  /** Each tuple is stored once. */
  ghost predicate Unique(es: seq<Entry>) {
    forall i, j :: 0 <= i < j < |es| ==> Key(es[i].tuple) != Key(es[j].tuple)
  }

  lemma PositionIs(es: seq<Entry>, key: Bytes, i: nat)
    requires i <= |es| && (i < |es| ==> Key(es[i].tuple) == key)
    requires forall j :: 0 <= j < i ==> Key(es[j].tuple) != key
    ensures Position(es, key) == i
  {}

  lemma AbsorbLookup(es: seq<Entry>, tuple: Tuple, slots: Slots, key: Bytes)
    ensures Lookup(Absorb(es, tuple, slots), key)
            == if key == Key(tuple) then Join(Lookup(es, key), slots) else Lookup(es, key)
    ensures Unique(es) ==> Unique(Absorb(es, tuple, slots))
  {
    var after, p := Absorb(es, tuple, slots), Position(es, key);
    forall j | 0 <= j < |es|
      ensures Key(after[j].tuple) == Key(es[j].tuple)
    {}
    PositionIs(after, key, if p < |es| || key == Key(tuple) then p else |after|);
  }

  lemma {:induction false} WithoutKeeps(es: seq<Entry>, cutoff: int)
    requires Unique(es)
    ensures Unique(Without(es, cutoff))
    ensures forall e :: e in Without(es, cutoff) <==> e in es && !e.slots.Dead(cutoff)
  {
    if es != [] {
      WithoutKeeps(es[1..], cutoff);
      var rest := Without(es[1..], cutoff);
      forall j | 0 <= j < |rest|
        ensures Key(rest[j].tuple) != Key(es[0].tuple)
      {
        assert rest[j] in es[1..];
      }
    }
  }

  /** Pruning forgets the dead entries and nothing else. */
  lemma {:induction false} WithoutLookup(es: seq<Entry>, cutoff: int, key: Bytes)
    requires Unique(es)
    ensures Unique(Without(es, cutoff))
    ensures Lookup(Without(es, cutoff), key)
            == if Lookup(es, key).Dead(cutoff) then NO_SLOTS else Lookup(es, key)
  {
    WithoutKeeps(es, cutoff);
    var after := Without(es, cutoff);
    var p, q := Position(es, key), Position(after, key);
    if q < |after| {
      assert after[q] in es;
      var i :| 0 <= i < |es| && es[i] == after[q];
      PositionIs(es, key, i);
    }
  }

  /** Nothing more can come of the entry: its revocation is no earlier than its grant, and
      both lie before the cutoff. */
  predicate Settled(slots: Slots, cutoff: int) {
    && slots.add.Some? && slots.remove.Some? && slots.add.value <= slots.remove.value
    && Physical(slots.add.value) < cutoff && Physical(slots.remove.value) < cutoff
  }

  /** Pruning keeps, in order, every entry that is not settled, and collects every one that is. */
  lemma {:induction false} WithoutFilters(es: seq<Entry>, cutoff: int)
    ensures Filters(es, (e: Entry) => !Settled(e.slots, cutoff), Without(es, cutoff))
  {
    hide Filters;
    var keep := (e: Entry) => !Settled(e.slots, cutoff);
    if es == [] {
      FiltersNothing(keep);
    } else {
      var before, last := es[..|es| - 1], es[|es| - 1];
      WithoutFilters(before, cutoff);
      FiltersNext(before, keep, Without(before, cutoff), last);
      WithoutLast(before, last, cutoff);
      assert before + [last] == es;
    }
  }

  lemma {:induction false} WithoutLast(es: seq<Entry>, e: Entry, cutoff: int)
    ensures Without(es + [e], cutoff)
            == if e.slots.Dead(cutoff) then Without(es, cutoff) else Without(es, cutoff) + [e]
  {
    if es == [] {
      assert es + [e] == [e] && [e][1..] == [];
    } else {
      assert (es + [e])[1..] == es[1..] + [e];
      WithoutLast(es[1..], e, cutoff);
    }
  }

  lemma {:induction false} ActiveMeansActiveSlots(es: seq<Entry>, t: Tuple)
    requires Unique(es)
    ensures t in ActiveTuples(es) <==> Lookup(es, Key(t)).Active()
  {
    if es != [] {
      ActiveMeansActiveSlots(es[1..], t);
      if Key(es[0].tuple) == Key(t) {
        KeyInjective(es[0].tuple, t);
        assert Position(es[1..], Key(t)) == |es| - 1;
      }
    }
  }

  lemma {:induction false} ActiveAreStored(es: seq<Entry>)
    ensures forall t :: t in ActiveTuples(es) ==> exists e :: e in es && e.tuple == t
  {
    if es != [] {
      ActiveAreStored(es[1..]);
      assert es[0] in es && forall e :: e in es[1..] ==> e in es;
    }
  }

  /** Each active tuple is listed once. */
  lemma {:induction false} ActiveOnce(es: seq<Entry>)
    requires Unique(es)
    ensures NoDuplicates(ActiveTuples(es))
  {
    if es != [] {
      ActiveOnce(es[1..]);
      ActiveAreStored(es[1..]);
      var rest := ActiveTuples(es[1..]);
      assert es[0].tuple !in rest;
      assert forall j :: 0 <= j < |rest| ==> ([es[0].tuple] + rest)[j + 1] == rest[j];
    }
  }

  /** A prune leaves the list of active tuples as it is, order included. */
  lemma {:induction false} PruneKeepsActiveList(es: seq<Entry>, cutoff: int)
    ensures ActiveTuples(Without(es, cutoff)) == ActiveTuples(es)
  {
    if es != [] {
      PruneKeepsActiveList(es[1..], cutoff);
      var rest := Without(es[1..], cutoff);
      assert ([es[0]] + rest)[1..] == rest;
    }
  }

  lemma {:induction false} AbsorbAllLookup(es: seq<Entry>, others: seq<Entry>, key: Bytes)
    requires Unique(es) && Unique(others)
    ensures Unique(AbsorbAll(es, others))
    ensures Lookup(AbsorbAll(es, others), key) == Join(Lookup(es, key), Lookup(others, key))
    decreases |others|
  {
    if others != [] {
      var e := others[0];
      AbsorbLookup(es, e.tuple, e.slots, key);
      AbsorbAllLookup(Absorb(es, e.tuple, e.slots), others[1..], key);
      if Key(e.tuple) == key {
        assert Position(others[1..], key) == |others| - 1;
      }
    }
  }

  /** Two states that hold the same timestamps for every key. */
  ghost predicate SameTimestamps(a: seq<Entry>, b: seq<Entry>) {
    forall key :: Lookup(a, key) == Lookup(b, key)
  }

  /** Merging is a join: commutative, associative and idempotent on timestamps. */
  lemma MergeIsJoin(a: seq<Entry>, b: seq<Entry>, c: seq<Entry>)
    requires Unique(a) && Unique(b) && Unique(c)
    ensures Unique(AbsorbAll(a, b)) && Unique(AbsorbAll(b, c))
    ensures SameTimestamps(AbsorbAll(a, b), AbsorbAll(b, a))
    ensures SameTimestamps(AbsorbAll(AbsorbAll(a, b), c), AbsorbAll(a, AbsorbAll(b, c)))
    ensures SameTimestamps(AbsorbAll(a, a), a)
  {
    AbsorbAllLookup(a, b, []);
    AbsorbAllLookup(b, c, []);
    forall key
      ensures Lookup(AbsorbAll(a, b), key) == Lookup(AbsorbAll(b, a), key)
      ensures Lookup(AbsorbAll(AbsorbAll(a, b), c), key) == Lookup(AbsorbAll(a, AbsorbAll(b, c)), key)
      ensures Lookup(AbsorbAll(a, a), key) == Lookup(a, key)
    {
      AbsorbAllLookup(a, b, key);
      AbsorbAllLookup(b, a, key);
      AbsorbAllLookup(b, c, key);
      AbsorbAllLookup(AbsorbAll(a, b), c, key);
      AbsorbAllLookup(a, AbsorbAll(b, c), key);
      AbsorbAllLookup(a, a, key);
      JoinLaws(Lookup(a, key), Lookup(b, key), Lookup(c, key));
    }
  }

  lemma JoinLaws(x: Slots, y: Slots, z: Slots)
    ensures Join(x, y) == Join(y, x) && Join(x, x) == x
    ensures Join(Join(x, y), z) == Join(x, Join(y, z))
  {}
}
