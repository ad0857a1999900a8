/** The keyring's container: issuer keysets in registration order beside an index whose
    later positions shift when an entry is forgotten. */
module Keyrings {
  import opened Basics
  import opened Delta

  type Row = (Hash16, Keyset)

  /** Each issuer has at most one row. */
  ghost predicate Unique(rows: seq<Row>) {
    forall i, j :: 0 <= i < j < |rows| ==> rows[i].0 != rows[j].0
  }

  /** The mapping a list of rows stands for. */
  function Contents(rows: seq<Row>): map<Hash16, Keyset> {
    if rows == [] then map[]
    else Contents(rows[..|rows| - 1])[rows[|rows| - 1].0 := rows[|rows| - 1].1]
  }

  function Issuers(rows: seq<Row>): seq<Hash16> {
    seq(|rows|, i requires 0 <= i < |rows| => rows[i].0)
  }

  lemma {:induction false} ContentsAt(rows: seq<Row>)
    requires Unique(rows)
    ensures forall i :: 0 <= i < |rows| ==> rows[i].0 in Contents(rows) && Contents(rows)[rows[i].0] == rows[i].1
    ensures forall k :: k in Contents(rows) ==> exists i :: 0 <= i < |rows| && rows[i].0 == k
  {
    if rows != [] {
      ContentsAt(rows[..|rows| - 1]);
    }
  }

  /** The index gives every issuer's position in the rows, and nothing else. */
  ghost predicate Agree(rows: seq<Row>, index: map<Hash16, nat>) {
    && (forall i :: 0 <= i < |rows| ==> rows[i].0 in index && index[rows[i].0] == i)
    && (forall k :: k in index ==> index[k] < |rows| && rows[index[k]].0 == k)
  }

  class Keyring {
    var rows: seq<Row>
    var index: map<Hash16, nat>

    ghost predicate Valid()
      reads this
    {
      Agree(rows, index)
    }

    lemma IndexIsContents()
      requires Valid()
      ensures Unique(rows) && index.Keys == Contents(rows).Keys
      ensures forall k :: k in index ==> index[k] < |rows| && rows[index[k]].0 == k
      ensures forall k :: k in index ==> Contents(rows)[k] == rows[index[k]].1
    {
      forall i, j | 0 <= i < j < |rows|
        ensures rows[i].0 != rows[j].0
      {
        assert index[rows[i].0] == i && index[rows[j].0] == j;
      }
      ContentsAt(rows);
    }

    constructor ()
      ensures Valid() && rows == []
    {
      rows, index := [], map[];
    }

    /** Overwrite in place, or append. */
    method Register(issuer: Hash16, keyset: Keyset)
      requires Valid()
      modifies this
      ensures Valid()
      ensures Contents(rows) == old(Contents(rows))[issuer := keyset]
      ensures Issuers(rows) == old(Issuers(rows)) + if issuer in old(Contents(rows)) then [] else [issuer]
    {
      hide Contents, Agree, Issuers, Unique;
      IndexIsContents();
      ghost var before := rows;
      if issuer in index {
        var i := index[issuer];
        OverwrittenRow(rows, index, i, keyset);
        rows := rows[i := (issuer, keyset)];
        OverwrittenContents(before, i, keyset);
      } else {
        AppendedRow(rows, index, issuer, keyset);
        index := index[issuer := |rows|];
        rows := rows + [(issuer, keyset)];
        AppendedContents(before, issuer, keyset);
      }
    }

    method Resolve(issuer: Hash16) returns (found: Option<Keyset>)
      requires Valid()
      ensures found == if issuer in Contents(rows) then Some(Contents(rows)[issuer]) else None
    {
      IndexIsContents();
      if issuer !in index {
        return None;
      }
      return Some(rows[index[issuer]].1);
    }

    /** Drop one row and shift every later position down, one index entry at a time. */
    method Forget(issuer: Hash16) returns (known: bool)
      requires Valid()
      modifies this
      ensures Valid()
      ensures known <==> issuer in old(Contents(rows))
      ensures Contents(rows) == old(Contents(rows)) - {issuer}
      ensures !known ==> rows == old(rows)
      ensures known ==> exists p :: 0 <= p < |old(rows)| && old(rows)[p].0 == issuer
                          && rows == old(rows)[..p] + old(rows)[p + 1..]
    {
      hide Contents, Agree, Unique;
      IndexIsContents();
      if issuer !in index {
        NothingRemoved(Contents(rows), issuer);
        return false;
      }
      ghost var before, was := rows, index;
      var pos := index[issuer];
      rows := rows[..pos] + rows[pos + 1..];
      index := index - {issuer};
      ShiftDown(pos);
      Shifted(before, was, index, pos);
      ShiftedContents(before, pos);
      return true;
    }

    method ShiftDown(pos: nat)
      modifies this`index
      ensures index.Keys == old(index).Keys
      ensures forall k :: k in index ==>
                index[k] == if old(index)[k] > pos then old(index)[k] - 1 else old(index)[k]
    {
      var todo := index.Keys;
      while todo != {}
        invariant todo <= index.Keys == old(index).Keys
        invariant forall k :: k in index ==>
                    index[k] == if k !in todo && old(index)[k] > pos then old(index)[k] - 1 else old(index)[k]
        decreases |todo|
      {
        var k :| k in todo;
        if index[k] > pos {
          index := index[k := index[k] - 1];
        }
        todo := todo - {k};
      }
    }
  }

  lemma NothingRemoved(m: map<Hash16, Keyset>, k: Hash16)
    requires k !in m
    ensures m - {k} == m
  {}

  lemma OverwrittenRow(rows: seq<Row>, index: map<Hash16, nat>, i: nat, keyset: Keyset)
    requires Agree(rows, index) && i < |rows|
    ensures Agree(rows[i := (rows[i].0, keyset)], index)
    ensures Issuers(rows[i := (rows[i].0, keyset)]) == Issuers(rows) + []
  {}

  lemma AppendedRow(rows: seq<Row>, index: map<Hash16, nat>, issuer: Hash16, keyset: Keyset)
    requires Agree(rows, index) && issuer !in index
    ensures Agree(rows + [(issuer, keyset)], index[issuer := |rows|])
    ensures Issuers(rows + [(issuer, keyset)]) == Issuers(rows) + [issuer]
  {}

  lemma AppendedContents(rows: seq<Row>, issuer: Hash16, keyset: Keyset)
    ensures Contents(rows + [(issuer, keyset)]) == Contents(rows)[issuer := keyset]
  {
    assert (rows + [(issuer, keyset)])[..|rows|] == rows;
  }

  lemma {:induction false} OverwrittenContents(rows: seq<Row>, i: nat, keyset: Keyset)
    requires Unique(rows) && i < |rows|
    ensures Contents(rows[i := (rows[i].0, keyset)]) == Contents(rows)[rows[i].0 := keyset]
  {
    var n, after := |rows| - 1, rows[i := (rows[i].0, keyset)];
    if i == n {
      assert after[..n] == rows[..n];
    } else {
      assert after[..n] == rows[..n][i := (rows[i].0, keyset)] && after[n] == rows[n];
      OverwrittenContents(rows[..n], i, keyset);
    }
  }

  /** Shifting the later positions makes the index agree with the shorter rows. */
  lemma Shifted(rows: seq<Row>, was: map<Hash16, nat>, index: map<Hash16, nat>, p: nat)
    requires Agree(rows, was) && p < |rows| && index.Keys == was.Keys - {rows[p].0}
    requires forall k :: k in index ==> index[k] == if was[k] > p then was[k] - 1 else was[k]
    ensures Agree(rows[..p] + rows[p + 1..], index)
  {
    var after := rows[..p] + rows[p + 1..];
    forall i | 0 <= i < |after|
      ensures after[i].0 in index && index[after[i].0] == i
    {
      var j := if i < p then i else i + 1;
      assert after[i] == rows[j] && was[rows[j].0] == j;
    }
  }

  lemma {:induction false} ShiftedContents(rows: seq<Row>, p: nat)
    requires Unique(rows) && p < |rows|
    ensures Contents(rows[..p] + rows[p + 1..]) == Contents(rows) - {rows[p].0}
  {
    hide Contents;
    var n := |rows| - 1;
    var front, k, v := rows[..n], rows[n].0, rows[n].1;
    FrontAndLast(rows, p);
    AppendedContents(front, k, v);
    if p == n {
      NotAmong(rows);
      MapLaws(Contents(front), k, k, v);
    } else {
      ShiftedContents(front, p);
      AppendedContents(front[..p] + front[p + 1..], k, v);
      MapLaws(Contents(front), rows[p].0, k, v);
    }
  }

  lemma FrontAndLast(rows: seq<Row>, p: nat)
    requires p < |rows|
    ensures var n := |rows| - 1;
            var front, last := rows[..n], [(rows[n].0, rows[n].1)];
            && rows == front + last
            && (p == n ==> rows[..p] + rows[p + 1..] == front)
            && (p < n ==> rows[..p] + rows[p + 1..] == front[..p] + front[p + 1..] + last)
  {}

  lemma MapLaws(m: map<Hash16, Keyset>, j: Hash16, k: Hash16, v: Keyset)
    ensures j != k ==> (m - {j})[k := v] == m[k := v] - {j}
    ensures k !in m ==> m[k := v] - {k} == m
  {}

  lemma NotAmong(rows: seq<Row>)
    requires Unique(rows) && rows != []
    ensures rows[|rows| - 1].0 !in Contents(rows[..|rows| - 1])
  {
    ContentsAt(rows[..|rows| - 1]);
  }
}
