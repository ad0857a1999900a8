/** The outbox of issued deltas and the sent box that logs published ones. */
module Outbox {
  import opened Basics

  datatype Boxes = Boxes(outbox: seq<Bytes>, sent: seq<Bytes>) {
    ghost predicate Holds(p: Bytes) { p in outbox || p in sent }
  }

  /** The payloads the transport accepted; a missing answer is a refusal. */
  function Taken(payloads: seq<Bytes>, accepted: seq<bool>): seq<Bytes> {
    if payloads == [] || accepted == [] then []
    else (if accepted[0] then [payloads[0]] else []) + Taken(payloads[1..], accepted[1..])
  }

  function Remaining(outbox: seq<Bytes>, taken: seq<Bytes>): seq<Bytes> {
    if outbox == [] then []
    else
      var before, last := Remaining(outbox[..|outbox| - 1], taken), outbox[|outbox| - 1];
      if last in taken then before else before + [last]
  }

  /** Append what is new, in order. */
  function Appended(log: seq<Bytes>, more: seq<Bytes>): seq<Bytes> {
    if more == [] then log
    else
      var before, last := Appended(log, more[..|more| - 1]), more[|more| - 1];
      if last in before then before else before + [last]
  }

  function Recorded(b: Boxes, payloads: seq<Bytes>, accepted: seq<bool>, toSent: bool): Boxes {
    var taken := Taken(payloads, accepted);
    Boxes(Remaining(b.outbox, taken), if toSent then Appended(b.sent, taken) else b.sent)
  }

  /** A completed command.  Issuing may try any number of transports at once; publishing
      sends one or both boxes, or files from outside.  `accepted` is the transport's answer. */
  datatype Command =
    | Issue(payload: Bytes, attempts: seq<bool>)
    | Publish(fromOutbox: bool, fromSent: bool, accepted: seq<bool>)
    | PublishFiles(files: seq<Bytes>, accepted: seq<bool>)

  function Attempts(b: Boxes, payload: Bytes, attempts: seq<bool>): Boxes {
    if attempts == [] then b
    else Recorded(Attempts(b, payload, attempts[..|attempts| - 1]), [payload], [attempts[|attempts| - 1]], true)
  }

  /** What a publish from the boxes sends; with no box named, the outbox. */
  function ToPublish(b: Boxes, fromOutbox: bool, fromSent: bool): seq<Bytes> {
    Appended([], (if fromOutbox || !fromSent then b.outbox else []) + (if fromSent then b.sent else []))
  }

  function Step(b: Boxes, c: Command): Boxes {
    match c
    case Issue(payload, attempts) => Attempts(b.(outbox := b.outbox + [payload]), payload, attempts)
    case Publish(fromOutbox, fromSent, accepted) =>
      Recorded(b, ToPublish(b, fromOutbox, fromSent), accepted, true)
    case PublishFiles(files, accepted) => Recorded(b, Appended([], files), accepted, false)
  }

  function Run(commands: seq<Command>): Boxes {
    if commands == [] then Boxes([], []) else Step(Run(commands[..|commands| - 1]), commands[|commands| - 1])
  }

  class Store {
    var outbox: seq<Bytes>
    var sent: seq<Bytes>

    function State(): Boxes
      reads this
    {
      Boxes(outbox, sent)
    }

    method RecordPublish(payloads: seq<Bytes>, accepted: seq<bool>, toSent: bool) returns (count: nat)
      modifies this
      ensures State() == Recorded(old(State()), payloads, accepted, toSent)
      ensures count == |Taken(payloads, accepted)|
    {
      var taken: seq<Bytes> := [];
      var n := 0;
      while n < |payloads| && n < |accepted|
        invariant n <= |payloads| && n <= |accepted|
        invariant taken + Taken(payloads[n..], accepted[n..]) == Taken(payloads, accepted)
      {
        assert payloads[n..][1..] == payloads[n + 1..] && accepted[n..][1..] == accepted[n + 1..];
        if accepted[n] {
          taken := taken + [payloads[n]];
        }
        n := n + 1;
      }
      assert taken == Taken(payloads, accepted);
      if taken == [] {
        NothingTaken(outbox);
        return 0;
      }
      var kept: seq<Bytes> := [];
      for i := 0 to |outbox|
        invariant outbox == old(outbox) && sent == old(sent)
        invariant kept == Remaining(outbox[..i], taken)
      {
        assert outbox[..i + 1][..i] == outbox[..i] && outbox[..i + 1][i] == outbox[i];
        if outbox[i] !in taken {
          kept := kept + [outbox[i]];
        }
      }
      assert outbox[..|outbox|] == outbox;
      outbox := kept;
      if toSent {
        sent := Extend(sent, taken);
      }
      return |taken|;
    }

    /** Deduplicate by exact bytes, keeping first-seen order. */
    method Extend(log: seq<Bytes>, more: seq<Bytes>) returns (longer: seq<Bytes>)
      ensures longer == Appended(log, more)
    {
      longer := log;
      var seen := set p | p in log;
      for i := 0 to |more|
        invariant longer == Appended(log, more[..i])
        invariant forall p :: p in seen <==> p in longer
      {
        assert more[..i + 1][..i] == more[..i] && more[..i + 1][i] == more[i];
        if more[i] !in seen {
          longer := longer + [more[i]];
          seen := seen + {more[i]};
        }
      }
      assert more[..|more|] == more;
    }

    method IssueDelta(payload: Bytes, attempts: seq<bool>)
      modifies this
      ensures State() == Step(old(State()), Issue(payload, attempts))
      ensures (forall i :: 0 <= i < |attempts| ==> !attempts[i]) ==>
                outbox == old(outbox) + [payload] && sent == old(sent)
      ensures (exists i :: 0 <= i < |attempts| && attempts[i]) ==>
                && Filters(old(outbox), p => p != payload, outbox)
                && sent == old(sent) + if payload in old(sent) then [] else [payload]
    {
      IssueEffect(State(), payload, attempts);
      outbox := outbox + [payload];
      ghost var queued := State();
      for i := 0 to |attempts|
        invariant State() == Attempts(queued, payload, attempts[..i])
      {
        assert attempts[..i + 1][..i] == attempts[..i] && attempts[..i + 1][i] == attempts[i];
        var _ := RecordPublish([payload], [attempts[i]], true);
      }
      assert attempts[..|attempts|] == attempts;
    }

    method PublishBoxes(fromOutbox: bool, fromSent: bool, transport: seq<Bytes> -> seq<bool>)
      returns (accepted: seq<bool>)
      modifies this
      ensures State() == Step(old(State()), Publish(fromOutbox, fromSent, accepted))
      ensures accepted == transport(ToPublish(old(State()), fromOutbox, fromSent))
      ensures forall list :: Selects(old(State()), fromOutbox, fromSent, list) ==> accepted == transport(list)
    {
      ToPublishSelects(State(), fromOutbox, fromSent);
      var both := (if fromOutbox || !fromSent then outbox else []) + (if fromSent then sent else []);
      var payloads := Extend([], both);
      accepted := transport(payloads);
      var _ := RecordPublish(payloads, accepted, true);
    }

    method PublishExternal(files: seq<Bytes>, transport: seq<Bytes> -> seq<bool>) returns (accepted: seq<bool>)
      modifies this
      ensures State() == Step(old(State()), PublishFiles(files, accepted))
      ensures accepted == transport(Appended([], files))
    {
      var payloads := Extend([], files);
      accepted := transport(payloads);
      var _ := RecordPublish(payloads, accepted, false);
    }
  }

  lemma {:induction false} NothingTaken(outbox: seq<Bytes>)
    ensures Remaining(outbox, []) == outbox
  {
    if outbox != [] {
      NothingTaken(outbox[..|outbox| - 1]);
    }
  }

  // ---- What every command keeps ----------------------------------------------------

  lemma {:induction false} RemainingMeans(outbox: seq<Bytes>, taken: seq<Bytes>)
    ensures forall p :: p in Remaining(outbox, taken) <==> p in outbox && p !in taken
  {
    if outbox != [] {
      RemainingMeans(outbox[..|outbox| - 1], taken);
      assert outbox == outbox[..|outbox| - 1] + [outbox[|outbox| - 1]];
    }
  }

  lemma {:induction false} AppendedMeans(log: seq<Bytes>, more: seq<Bytes>)
    ensures log <= Appended(log, more)
    ensures forall p :: p in Appended(log, more) <==> p in log || p in more
    ensures NoDuplicates(log) ==> NoDuplicates(Appended(log, more))
  {
    if more != [] {
      AppendedMeans(log, more[..|more| - 1]);
      assert more == more[..|more| - 1] + [more[|more| - 1]];
    }
  }

  /** The transport took the payload at some position. */
  ghost predicate WasTaken(payloads: seq<Bytes>, accepted: seq<bool>, p: Bytes) {
    exists i :: 0 <= i < |payloads| && i < |accepted| && payloads[i] == p && accepted[i]
  }

  lemma {:induction false} TakenMeans(payloads: seq<Bytes>, accepted: seq<bool>)
    ensures forall p :: p in Taken(payloads, accepted) <==> WasTaken(payloads, accepted, p)
  {
    if payloads != [] && accepted != [] {
      TakenMeans(payloads[1..], accepted[1..]);
      forall p
        ensures WasTaken(payloads, accepted, p) <==>
                  (accepted[0] && payloads[0] == p) || WasTaken(payloads[1..], accepted[1..], p)
      {
        if i :| 0 <= i < |payloads| - 1 && i < |accepted| - 1 && payloads[1..][i] == p && accepted[1..][i] {
          assert payloads[i + 1] == p && accepted[i + 1];
        }
        if i :| 0 < i < |payloads| && i < |accepted| && payloads[i] == p && accepted[i] {
          assert payloads[1..][i - 1] == p && accepted[1..][i - 1];
        }
      }
    }
  }

  lemma {:induction false} RemainingFilters(outbox: seq<Bytes>, taken: seq<Bytes>)
    ensures Filters(outbox, p => p !in taken, Remaining(outbox, taken))
  {
    hide Filters;
    var keep := (p: Bytes) => p !in taken;
    if outbox == [] {
      FiltersNothing(keep);
    } else {
      var before, last := outbox[..|outbox| - 1], outbox[|outbox| - 1];
      RemainingFilters(before, taken);
      FiltersNext(before, keep, Remaining(before, taken), last);
      assert before + [last] == outbox;
    }
  }

  // ---- What a publish sends ----------------------------------------------------------

  function FirstAt(s: seq<Bytes>, p: Bytes): (i: nat)
    ensures i <= |s| && (i < |s| <==> p in s)
    ensures i < |s| ==> s[i] == p
    ensures forall j :: 0 <= j < i ==> s[j] != p
  {
    if s == [] || s[0] == p then 0 else 1 + FirstAt(s[1..], p)
  }

  /** A payload is chosen from the outbox if that box is named, or none is; from the sent box
      if that one is. */
  predicate Chosen(b: Boxes, fromOutbox: bool, fromSent: bool, p: Bytes) {
    (p in b.outbox && (fromOutbox || !fromSent)) || (p in b.sent && fromSent)
  }

  /** Where a chosen payload comes: the outbox before the sent box, each in its own order. */
  function Place(b: Boxes, fromOutbox: bool, fromSent: bool, p: Bytes): nat {
    if p in b.outbox && (fromOutbox || !fromSent) then FirstAt(b.outbox, p) else |b.outbox| + FirstAt(b.sent, p)
  }

  /** The list holds exactly the chosen payloads, once each, in their places. */
  ghost predicate Selects(b: Boxes, fromOutbox: bool, fromSent: bool, list: seq<Bytes>) {
    && (forall p :: p in list <==> Chosen(b, fromOutbox, fromSent, p))
    && (forall i, j :: 0 <= i < j < |list| ==>
          Place(b, fromOutbox, fromSent, list[i]) < Place(b, fromOutbox, fromSent, list[j]))
  }

  /** The list's payloads occur in s, first each after the other. */
  ghost predicate InOrderOf(s: seq<Bytes>, list: seq<Bytes>) {
    && (forall i :: 0 <= i < |list| ==> list[i] in s)
    && (forall i, j :: 0 <= i < j < |list| ==> FirstAt(s, list[i]) < FirstAt(s, list[j]))
  }

  lemma OrderLonger(s: seq<Bytes>, list: seq<Bytes>, last: Bytes)
    requires InOrderOf(s, list)
    ensures InOrderOf(s + [last], list)
    ensures last !in s ==> InOrderOf(s + [last], list + [last])
  {
    hide FirstAt;
    forall p
      ensures FirstAt(s + [last], p) == if p in s then FirstAt(s, p) else if p == last then |s| else |s| + 1
    {
      FirstAtLonger(s, last, p);
    }
  }

  /** First-seen deduplication keeps payloads in the order of their first occurrences. */
  lemma {:induction false} FirstSeenOrder(more: seq<Bytes>)
    ensures InOrderOf(more, Appended([], more))
  {
    if more != [] {
      var before, last := more[..|more| - 1], more[|more| - 1];
      FirstSeenOrder(before);
      AppendedMeans([], before);
      OrderLonger(before, Appended([], before), last);
      assert before + [last] == more;
    }
  }

  lemma {:induction false} FirstAtLonger(s: seq<Bytes>, last: Bytes, p: Bytes)
    ensures FirstAt(s + [last], p) == if p in s then FirstAt(s, p) else if p == last then |s| else |s| + 1
  {
    FirstIs(s + [last], p, if p in s then FirstAt(s, p) else if p == last then |s| else |s| + 1);
  }

  lemma FirstIs(s: seq<Bytes>, p: Bytes, i: nat)
    requires i <= |s| && (i < |s| ==> s[i] == p) && forall j :: 0 <= j < i ==> s[j] != p
    ensures FirstAt(s, p) == i
  {}

  lemma {:induction false} InPlaceUnique(place: Bytes -> nat, a: seq<Bytes>, b: seq<Bytes>)
    requires forall p :: p in a <==> p in b
    requires forall i, j :: 0 <= i < j < |a| ==> place(a[i]) < place(a[j])
    requires forall i, j :: 0 <= i < j < |b| ==> place(b[i]) < place(b[j])
    ensures a == b
  {
    assert b == [] || b[0] in b;
    if a != [] {
      assert a[0] in b && b[0] in a;
      var k :| 0 <= k < |b| && b[k] == a[0];
      var m :| 0 <= m < |a| && a[m] == b[0];
      assert a[0] == b[0];
      forall p
        ensures p in a[1..] <==> p in b[1..]
      {
        assert p in a <==> p == a[0] || p in a[1..];
        assert p in b <==> p == b[0] || p in b[1..];
        assert a[0] !in a[1..] && b[0] !in b[1..];
      }
      InPlaceUnique(place, a[1..], b[1..]);
    }
  }

  /** A publish sends that list, and no other meets the description. */
  lemma ToPublishSelects(b: Boxes, fromOutbox: bool, fromSent: bool)
    ensures forall list :: Selects(b, fromOutbox, fromSent, list) <==> list == ToPublish(b, fromOutbox, fromSent)
  {
    var list := ToPublish(b, fromOutbox, fromSent);
    ToPublishInPlace(b, fromOutbox, fromSent);
    forall other | Selects(b, fromOutbox, fromSent, other)
      ensures other == list
    {
      InPlaceUnique(p => Place(b, fromOutbox, fromSent, p), other, list);
    }
  }

  lemma PlaceIsFirst(b: Boxes, fromOutbox: bool, fromSent: bool, p: Bytes)
    requires Chosen(b, fromOutbox, fromSent, p)
    ensures var out, log := if fromOutbox || !fromSent then b.outbox else [], if fromSent then b.sent else [];
            Place(b, fromOutbox, fromSent, p) == FirstAt(out + log, p) + |b.outbox| - |out|
  {
    hide FirstAt;
    var out, log := if fromOutbox || !fromSent then b.outbox else [], if fromSent then b.sent else [];
    FirstIs(out + log, p, if p in out then FirstAt(out, p) else |out| + FirstAt(log, p));
  }

  lemma ToPublishInPlace(b: Boxes, fromOutbox: bool, fromSent: bool)
    ensures Selects(b, fromOutbox, fromSent, ToPublish(b, fromOutbox, fromSent))
  {
    var out, log := if fromOutbox || !fromSent then b.outbox else [], if fromSent then b.sent else [];
    AppendedMeans([], out + log);
    FirstSeenOrder(out + log);
    hide Appended, FirstAt, Place;
    forall p | Chosen(b, fromOutbox, fromSent, p)
      ensures Place(b, fromOutbox, fromSent, p) == FirstAt(out + log, p) + |b.outbox| - |out|
    {
      PlaceIsFirst(b, fromOutbox, fromSent, p);
    }
    forall p
      ensures p in out + log <==> Chosen(b, fromOutbox, fromSent, p)
    {}
  }

  /** If the transport takes everything, publishing the outbox empties it into the log, and
      publishing the sent box alone only drains what was logged already. */
  lemma PublishAllAccepted(b: Boxes, fromOutbox: bool, fromSent: bool, accepted: seq<bool>)
    requires forall p :: Chosen(b, fromOutbox, fromSent, p) ==>
               WasTaken(ToPublish(b, fromOutbox, fromSent), accepted, p)
    ensures var after := Step(b, Publish(fromOutbox, fromSent, accepted));
            if fromOutbox || !fromSent then after.outbox == [] && forall p :: p in after.sent <==> b.Holds(p)
            else after.sent == b.sent && forall p :: p in after.outbox <==> p in b.outbox && p !in b.sent
  {
    var list := ToPublish(b, fromOutbox, fromSent);
    var taken := Taken(list, accepted);
    ToPublishSelects(b, fromOutbox, fromSent);
    TakenMeans(list, accepted);
    forall p
      ensures p in taken <==> Chosen(b, fromOutbox, fromSent, p)
    {
      assert Selects(b, fromOutbox, fromSent, list);
      assert p in list <==> Chosen(b, fromOutbox, fromSent, p);
    }
    RemainingMeans(b.outbox, taken);
    AppendedMeans(b.sent, taken);
    var after := Step(b, Publish(fromOutbox, fromSent, accepted));
    if fromOutbox || !fromSent {
      RemainingNothing(b.outbox, taken);
    } else {
      AppendedNothing(b.sent, taken);
    }
  }

  lemma {:induction false} RemainingNothing(outbox: seq<Bytes>, taken: seq<Bytes>)
    requires forall p :: p in outbox ==> p in taken
    ensures Remaining(outbox, taken) == []
  {
    if outbox != [] {
      RemainingNothing(outbox[..|outbox| - 1], taken);
    }
  }

  lemma {:induction false} AppendedNothing(log: seq<Bytes>, more: seq<Bytes>)
    requires forall p :: p in more ==> p in log
    ensures Appended(log, more) == log
  {
    if more != [] {
      AppendedNothing(log, more[..|more| - 1]);
    }
  }

  // ---- What moves ---------------------------------------------------------------------

  /** Recording a publish to the log moves the accepted payloads and nothing else. */
  lemma {:induction false} RecordMoves(b: Boxes, payloads: seq<Bytes>, accepted: seq<bool>)
    ensures var after := Recorded(b, payloads, accepted, true);
            && (forall p :: WasTaken(payloads, accepted, p) ==> p !in after.outbox && p in after.sent)
            && (forall p :: !WasTaken(payloads, accepted, p) ==>
                  (p in after.outbox <==> p in b.outbox) && (p in after.sent <==> p in b.sent))
            && Filters(b.outbox, p => !WasTaken(payloads, accepted, p), after.outbox)
            && b.sent <= after.sent
            && (NoDuplicates(b.sent) ==> NoDuplicates(after.sent))
  {
    TakenMeans(payloads, accepted);
    RemainingFilters(b.outbox, Taken(payloads, accepted));
    hide WasTaken;
    RemainingMeans(b.outbox, Taken(payloads, accepted));
    AppendedMeans(b.sent, Taken(payloads, accepted));
  }

  lemma OneTaken(payload: Bytes, ok: bool)
    ensures forall p :: WasTaken([payload], [ok], p) <==> ok && p == payload
  {
    assert [payload][0] == payload && [ok][0] == ok;
  }

  lemma {:induction false} AttemptsKeep(b: Boxes, payload: Bytes, attempts: seq<bool>)
    ensures var after := Attempts(b, payload, attempts);
            && b.sent <= after.sent
            && (NoDuplicates(b.sent) ==> NoDuplicates(after.sent))
            && (forall p :: b.Holds(p) ==> after.Holds(p))
            && (forall p :: p != payload ==> (p in after.outbox <==> p in b.outbox))
            && ((exists i :: 0 <= i < |attempts| && attempts[i]) ==> payload !in after.outbox && payload in after.sent)
            && (!(exists i :: 0 <= i < |attempts| && attempts[i]) ==>
                  (payload in after.outbox <==> payload in b.outbox))
  {
    hide Filters, WasTaken, Recorded;
    if attempts != [] {
      var before, last := attempts[..|attempts| - 1], attempts[|attempts| - 1];
      AttemptsKeep(b, payload, before);
      RecordMoves(Attempts(b, payload, before), [payload], [last]);
      OneTaken(payload, last);
    }
  }

  lemma {:induction false} RemainingAgain(outbox: seq<Bytes>, taken: seq<Bytes>)
    ensures Remaining(Remaining(outbox, taken), taken) == Remaining(outbox, taken)
  {
    if outbox != [] {
      var before := Remaining(outbox[..|outbox| - 1], taken);
      RemainingAgain(outbox[..|outbox| - 1], taken);
      var last := outbox[|outbox| - 1];
      assert (before + [last])[..|before|] == before;
    }
  }

  /** One accepted attempt is enough, and more change nothing. */
  lemma {:induction false} AttemptsAre(b: Boxes, payload: Bytes, attempts: seq<bool>)
    ensures Attempts(b, payload, attempts)
            == if true in attempts then Boxes(Remaining(b.outbox, [payload]), Appended(b.sent, [payload])) else b
  {
    if attempts != [] {
      var before, last := attempts[..|attempts| - 1], attempts[|attempts| - 1];
      AttemptsAre(b, payload, before);
      assert true in attempts <==> true in before || last;
      assert Taken([payload], [last]) == if last then [payload] else [] by { assert [payload][1..] == []; }
      NothingTaken(Attempts(b, payload, before).outbox);
      RemainingAgain(b.outbox, [payload]);
      AppendedMeans(b.sent, [payload]);
      AppendedNothing(Attempts(b, payload, before).sent, []);
      if true in before {
        AppendedNothing(Attempts(b, payload, before).sent, [payload]);
      }
    }
  }

  /** An issued payload waits at the end of the outbox until an attempt is accepted; then it
      is gone from there, and the log ends with it unless it held it already. */
  lemma IssueEffect(b: Boxes, payload: Bytes, attempts: seq<bool>)
    ensures var after := Step(b, Issue(payload, attempts));
            if true in attempts
            then && Filters(b.outbox, p => p != payload, after.outbox)
                 && after.sent == b.sent + if payload in b.sent then [] else [payload]
            else after.outbox == b.outbox + [payload] && after.sent == b.sent
  {
    var queued := b.(outbox := b.outbox + [payload]);
    AttemptsAre(queued, payload, attempts);
    RemainingFilters(b.outbox, [payload]);
    assert queued.outbox[..|b.outbox|] == b.outbox && queued.outbox[|b.outbox|] == payload;
    assert Appended(b.sent, [payload]) == b.sent + if payload in b.sent then [] else [payload] by {
      assert [payload][..0] == [] && Appended(b.sent, []) == b.sent;
    }
    SameFilter(b.outbox, p => p !in [payload], p => p != payload, Remaining(b.outbox, [payload]));
  }

  lemma SameFilter(s: seq<Bytes>, keep: Bytes -> bool, keep': Bytes -> bool, r: seq<Bytes>)
    requires Filters(s, keep, r) && forall p :: keep(p) <==> keep'(p)
    ensures Filters(s, keep', r)
  {
    var at :| Rising(s, r, at) && Exactly(s, keep, at);
    assert Exactly(s, keep', at);
  }

  /** Publishing outside files only drains: it keeps every payload exactly when no
      accepted file is waiting in the outbox without being in the log. */
  lemma FilesKeepExactly(b: Boxes, files: seq<Bytes>, accepted: seq<bool>)
    ensures var after := Step(b, PublishFiles(files, accepted));
            && after.sent == b.sent
            && ((forall p :: b.Holds(p) ==> after.Holds(p)) <==>
                (forall p :: WasTaken(Appended([], files), accepted, p) && p in b.outbox ==> p in b.sent))
  {
    TakenMeans(Appended([], files), accepted);
    var taken := Taken(Appended([], files), accepted);
    RemainingMeans(b.outbox, taken);
    var after := Step(b, PublishFiles(files, accepted));
    if forall p :: b.Holds(p) ==> after.Holds(p) {
      forall p | p in taken && p in b.outbox
        ensures p in b.sent
      {
        assert b.Holds(p) && after.Holds(p);
      }
    }
  }

  /** A waiting payload published from a file is gone from both boxes. */
  lemma FileLosesWaiting(p: Bytes)
    ensures var b := Boxes([p], []);
            b.Holds(p) && !Step(b, PublishFiles([p], [true])).Holds(p)
  {
    var b := Boxes([p], []);
    assert Appended([], [p]) == [p] by { assert [p][..0] == []; }
    assert Taken([p], [true]) == [p] by { assert [p][1..] == [] && [true][1..] == []; }
    RemainingMeans(b.outbox, [p]);
    assert p in b.outbox;
  }

  /** The commands that conserve: every one but a file publish of a waiting payload. */
  ghost predicate Conserves(b: Boxes, c: Command) {
    c.PublishFiles? ==> forall p :: WasTaken(Appended([], c.files), c.accepted, p) && p in b.outbox ==> p in b.sent
  }

  ghost predicate AllConserve(commands: seq<Command>) {
    forall i :: 0 <= i < |commands| ==> Conserves(Run(commands[..i]), commands[i])
  }

  lemma StepConserves(b: Boxes, c: Command)
    requires Conserves(b, c)
    ensures forall p :: b.Holds(p) ==> Step(b, c).Holds(p)
    ensures c.Issue? ==> Step(b, c).Holds(c.payload)
  {
    match c
    case Issue(payload, attempts) =>
      var queued := b.(outbox := b.outbox + [payload]);
      AttemptsKeep(queued, payload, attempts);
      assert forall p :: b.Holds(p) ==> queued.Holds(p);
      assert queued.Holds(payload);
    case Publish(fromOutbox, fromSent, accepted) =>
      RecordMoves(b, ToPublish(b, fromOutbox, fromSent), accepted);
    case PublishFiles(files, accepted) =>
      FilesKeepExactly(b, files, accepted);
  }

  lemma PrefixConserves(commands: seq<Command>)
    requires AllConserve(commands) && commands != []
    ensures AllConserve(commands[..|commands| - 1])
    ensures Conserves(Run(commands[..|commands| - 1]), commands[|commands| - 1])
  {
    hide Conserves, Run;
    var before := commands[..|commands| - 1];
    forall i | 0 <= i < |before|
      ensures Conserves(Run(before[..i]), before[i])
    {
      assert before[..i] == commands[..i] && before[i] == commands[i];
    }
  }

  /** Over any run of such commands no issued payload is ever lost. */
  lemma {:induction false} NothingIssuedIsLost(commands: seq<Command>)
    requires AllConserve(commands)
    ensures forall i :: 0 <= i < |commands| && commands[i].Issue? ==> Run(commands).Holds(commands[i].payload)
  {
    hide Conserves, Step, AllConserve;
    if commands != [] {
      var before, last := commands[..|commands| - 1], commands[|commands| - 1];
      PrefixConserves(commands);
      NothingIssuedIsLost(before);
      StepConserves(Run(before), last);
      forall i | 0 <= i < |before| && commands[i].Issue?
        ensures Run(commands).Holds(commands[i].payload)
      {
        assert before[i] == commands[i];
      }
    }
  }

  /** Over any run at all, the log only grows at its end and never repeats a payload. */
  lemma {:induction false} LogOnlyGrows(commands: seq<Command>, n: nat)
    requires n <= |commands|
    ensures Run(commands[..n]).sent <= Run(commands).sent
    ensures NoDuplicates(Run(commands).sent)
  {
    hide Step;
    if n == |commands| {
      assert commands[..n] == commands;
    }
    if commands != [] {
      var before, last := commands[..|commands| - 1], commands[|commands| - 1];
      if n < |commands| {
        assert before[..n] == commands[..n];
        LogOnlyGrows(before, n);
      } else {
        LogOnlyGrows(before, |before|);
      }
      StepLogs(Run(before), last);
    }
  }

  lemma StepLogs(b: Boxes, c: Command)
    ensures b.sent <= Step(b, c).sent
    ensures NoDuplicates(b.sent) ==> NoDuplicates(Step(b, c).sent)
  {
    match c
    case Issue(payload, attempts) => AttemptsKeep(b.(outbox := b.outbox + [payload]), payload, attempts);
    case Publish(fromOutbox, fromSent, accepted) =>
      RecordMoves(b, ToPublish(b, fromOutbox, fromSent), accepted);
    case PublishFiles(files, accepted) => FilesKeepExactly(b, files, accepted);
  }

  /** After a publish from the boxes, the accepted payloads have left the outbox for the
      log and every refused one is where it was. */
  lemma PublishMovesAccepted(b: Boxes, fromOutbox: bool, fromSent: bool, accepted: seq<bool>, p: Bytes)
    ensures var after := Step(b, Publish(fromOutbox, fromSent, accepted));
            if WasTaken(ToPublish(b, fromOutbox, fromSent), accepted, p)
            then p !in after.outbox && p in after.sent
            else (p in after.outbox <==> p in b.outbox) && (p in after.sent <==> p in b.sent)
  {
    RecordMoves(b, ToPublish(b, fromOutbox, fromSent), accepted);
  }
}
