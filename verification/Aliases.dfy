/** The alias registry: names for identity hashes, and its text form. */
module Aliases {
  import opened Basics
  import opened Text

  const SELF_ALIAS := "self"

  datatype AliasEntry = AliasEntry(hash: Hash16, names: seq<string>, note: Option<string>)

  // ---- The text form ---------------------------------------------------------------

  function LineOf(e: AliasEntry): string {
    ToHex(e.hash) + Spaced(e.names) + if e.note.Some? then [' ', ' ', '#', ' '] + e.note.value else []
  }

  function LinesOf(entries: seq<AliasEntry>): (lines: seq<string>)
    ensures |lines| == |entries|
    ensures forall i :: 0 <= i < |lines| ==> lines[i] == LineOf(entries[i])
  {
    seq(|entries|, i requires 0 <= i < |entries| => LineOf(entries[i]))
  }

  function Serialized(entries: seq<AliasEntry>): string { Unlines(LinesOf(entries)) }

  /** A line is a 32-digit hash, at least one name, and an optional note after '#'. */
  function ParseLine(raw: string): Option<AliasEntry> {
    var line := Trim(raw);
    var mark := Find(line, c => c == '#');
    var text := if mark < |line| then Trim(line[mark + 1..]) else "";
    EntryOf(Words(Trim(line[..mark])), text)
  }

  function EntryOf(words: seq<string>, text: string): Option<AliasEntry> {
    if |words| < 2 then None
    else
      var hash := FromHex(Trim(words[0]));
      if |Trim(words[0])| != 2 * HASH_SIZE || hash.None? || |hash.value| != HASH_SIZE then None
      else Some(AliasEntry(hash.value, words[1..], if text == "" then None else Some(text)))
  }

  function PositionOf(entries: seq<AliasEntry>, hash: Hash16): (i: nat)
    ensures i <= |entries|
    ensures i < |entries| ==> entries[i].hash == hash
    ensures forall j :: 0 <= j < i ==> entries[j].hash != hash
  {
    if entries == [] || entries[0].hash == hash then 0 else 1 + PositionOf(entries[1..], hash)
  }

  function NamesAdded(names: seq<string>, more: seq<string>): seq<string>
    decreases |more|
  {
    if more == [] then names
    else NamesAdded(if more[0] in names then names else names + [more[0]], more[1..])
  }

  function Merged(entries: seq<AliasEntry>, e: AliasEntry): seq<AliasEntry> {
    var i := PositionOf(entries, e.hash);
    if i == |entries| then entries + [e]
    else
      entries[i := AliasEntry(e.hash, NamesAdded(entries[i].names, e.names),
                              if e.note.Some? then e.note else entries[i].note)]
  }

  function TakeLine(entries: seq<AliasEntry>, raw: string): seq<AliasEntry> {
    var e := ParseLine(raw);
    if e.None? then entries else Merged(entries, e.value)
  }

  function TakeLines(entries: seq<AliasEntry>, lines: seq<string>): seq<AliasEntry>
    decreases |lines|
  {
    if lines == [] then entries else TakeLines(TakeLine(entries, lines[0]), lines[1..])
  }

  function Parsed(text: string): seq<AliasEntry> { TakeLines([], Split(text, '\n')) }

  // ---- The registry ----------------------------------------------------------------

  function Added(entries: seq<AliasEntry>, name: string, hash: Hash16, note: Option<string>): seq<AliasEntry> {
    Merged(entries, AliasEntry(hash, [name], note))
  }

  function Stripped(names: seq<string>, name: string): seq<string> {
    if names == [] then []
    else if names[0] == name then Stripped(names[1..], name)
    else [names[0]] + Stripped(names[1..], name)
  }

  /** Every binding of the name gone, and every entry left nameless by that. */
  function Cleared(entries: seq<AliasEntry>, name: string): seq<AliasEntry> {
    if entries == [] then []
    else
      var names := Stripped(entries[0].names, name);
      (if names == [] then [] else [entries[0].(names := names)]) + Cleared(entries[1..], name)
  }

  function SelfSet(entries: seq<AliasEntry>, hash: Hash16): seq<AliasEntry> {
    Added(Cleared(entries, SELF_ALIAS), SELF_ALIAS, hash, None)
  }

  /** The first binding of the name gone. */
  function Removed(entries: seq<AliasEntry>, name: string): seq<AliasEntry> {
    if entries == [] then []
    else if name in entries[0].names then
      var names := WithoutFirst(entries[0].names, name);
      (if names == [] then [] else [entries[0].(names := names)]) + entries[1..]
    else [entries[0]] + Removed(entries[1..], name)
  }

  function WithoutFirst(names: seq<string>, name: string): seq<string> {
    if names == [] then []
    else if names[0] == name then names[1..]
    else [names[0]] + WithoutFirst(names[1..], name)
  }

  /** Entry i is the first that bears the name, and position k its first there. */
  predicate FirstBinding(entries: seq<AliasEntry>, name: string, i: nat, k: nat) {
    && i < |entries| && k < |entries[i].names| && entries[i].names[k] == name && name !in entries[i].names[..k]
    && forall j :: 0 <= j < i ==> name !in entries[j].names
  }

  /** The entry without its name at position k; without any name it is gone. */
  function Shrunk(e: AliasEntry, k: nat): seq<AliasEntry>
    requires k < |e.names|
  {
    if |e.names| == 1 then [] else [e.(names := e.names[..k] + e.names[k + 1..])]
  }

  /** The first binding of the name is gone, and nothing else. */
  ghost predicate FirstGone(before: seq<AliasEntry>, name: string, after: seq<AliasEntry>) {
    exists i: nat, k: nat ::
      FirstBinding(before, name, i, k) && after == before[..i] + Shrunk(before[i], k) + before[i + 1..]
  }

  lemma {:induction false} WithoutFirstIs(names: seq<string>, name: string) returns (k: nat)
    requires name in names
    ensures k < |names| && names[k] == name && name !in names[..k]
    ensures WithoutFirst(names, name) == names[..k] + names[k + 1..]
  {
    if names[0] == name {
      k := 0;
    } else {
      var j := WithoutFirstIs(names[1..], name);
      k := j + 1;
      assert names[..k] == [names[0]] + names[1..][..j] && names[k + 1..] == names[1..][j + 1..];
    }
  }

  lemma RemovedStep(entries: seq<AliasEntry>, n: nat, name: string)
    requires n < |entries|
    ensures entries[..n] + Removed(entries[n..], name)
            == if name in entries[n].names then
                 var names := WithoutFirst(entries[n].names, name);
                 entries[..n] + (if names == [] then [] else [entries[n].(names := names)]) + entries[n + 1..]
               else entries[..n + 1] + Removed(entries[n + 1..], name)
  {
    hide WithoutFirst;
    assert entries[n..][0] == entries[n] && entries[n..][1..] == entries[n + 1..];
    assert entries[..n + 1] == entries[..n] + [entries[n]];
  }

  lemma RemovedEnd(entries: seq<AliasEntry>, name: string)
    ensures entries[..|entries|] + Removed(entries[|entries|..], name) == entries
  {}

  class AliasRegistry {
    var entries: seq<AliasEntry>

    constructor ()
      ensures entries == []
    {
      entries := [];
    }

    /** Read the text line by line with a cursor, replacing the registry. */
    method Parse(text: string)
      modifies this
      ensures entries == Parsed(text)
    {
      hide ParseLine, Merged, Split, TakeLines;
      entries := [];
      var pos := 0;
      NoLines(entries);
      assert text[0..] == text;
      while pos <= |text|
        invariant pos <= |text| + 1
        invariant TakeLines(entries, if pos <= |text| then Split(text[pos..], '\n') else []) == Parsed(text)
      {
        var eol := Find(text[pos..], c => c == '\n');
        CursorStep(entries, text, pos, eol);
        var line := ParseLine(text[pos..pos + eol]);
        if line.Some? {
          MergeEntry(line.value);
        }
        pos := pos + eol + 1;
      }
      NoLines(entries);
    }

    method MergeEntry(e: AliasEntry)
      modifies this
      ensures entries == Merged(old(entries), e)
    {
      var i := PositionOf(entries, e.hash);
      if i == |entries| {
        entries := entries + [e];
        return;
      }
      var names := entries[i].names;
      for n := 0 to |e.names|
        invariant NamesAdded(names, e.names[n..]) == NamesAdded(entries[i].names, e.names)
      {
        assert e.names[n..][0] == e.names[n] && e.names[n..][1..] == e.names[n + 1..];
        if e.names[n] !in names {
          names := names + [e.names[n]];
        }
      }
      var note := if e.note.Some? then e.note else entries[i].note;
      entries := entries[i := AliasEntry(e.hash, names, note)];
    }

    method Serialize() returns (text: string)
      ensures text == Serialized(entries)
    {
      text := "";
      for n := 0 to |entries|
        invariant text == Unlines(LinesOf(entries)[..n])
      {
        var line := ToHex(entries[n].hash) + Spaced(entries[n].names);
        if entries[n].note.Some? {
          line := line + ([' ', ' ', '#', ' '] + entries[n].note.value);
        } else {
          assert line == line + [];
        }
        var lines := LinesOf(entries);
        assert lines[..n + 1][..n] == lines[..n] && lines[..n + 1][n] == line;
        text := text + line + ['\n'];
      }
      assert LinesOf(entries)[..|entries|] == LinesOf(entries);
    }

    method Add(name: string, hash: Hash16, note: Option<string>)
      modifies this
      ensures entries == Added(old(entries), name, hash, note)
      ensures Bindings(entries, name)
              == Bindings(old(entries), name) + if BoundTo(old(entries), name, hash) then 0 else 1
      ensures forall n :: n != name ==> Bindings(entries, n) == Bindings(old(entries), n)
      ensures BoundTo(entries, name, hash)
      ensures forall h :: NoteOf(entries, h) == if h == hash && note.Some? then note else NoteOf(old(entries), h)
    {
      hide Added, BoundTo, Bindings, NoteOf;
      AddEffect(entries, name, hash, note);
      AddedIs(entries, name, hash, note);
      var i := PositionOf(entries, hash);
      if i < |entries| {
        for k := 0 to |entries[i].names|
          invariant entries == old(entries)
          invariant name !in entries[i].names[..k]
        {
          if entries[i].names[k] == name {
            if note.Some? {
              entries := entries[i := entries[i].(note := note)];
            }
            return;
          }
        }
        entries := entries[i := entries[i].(names := entries[i].names + [name])];
        if note.Some? {
          entries := entries[i := entries[i].(note := note)];
        }
        return;
      }
      entries := entries + [AliasEntry(hash, [name], note)];
    }

    method Remove(name: string) returns (found: bool)
      modifies this
      ensures entries == Removed(old(entries), name)
      ensures found <==> exists e :: e in old(entries) && name in e.names
      ensures forall n :: Bindings(entries, n) == Bindings(old(entries), n) - if found && n == name then 1 else 0
      ensures found ==> FirstGone(old(entries), name, entries)
      ensures !found ==> entries == old(entries)
    {
      hide WithoutFirst, Removed, Bindings;
      NotBoundAnywhere(entries, name);
      forall n
        ensures Bindings(Removed(entries, name), n)
                == Bindings(entries, n) - if n == name && Bindings(entries, n) > 0 then 1 else 0
      {
        FewerBindings(entries, name, n);
      }
      assert entries[..0] + Removed(entries[0..], name) == Removed(entries, name);
      for n := 0 to |entries|
        invariant entries == old(entries)
        invariant forall j :: 0 <= j < n ==> name !in entries[j].names
        invariant entries[..n] + Removed(entries[n..], name) == Removed(entries, name)
      {
        RemovedStep(entries, n, name);
        if name in entries[n].names {
          ghost var k := WithoutFirstIs(entries[n].names, name);
          assert FirstBinding(entries, name, n, k);
          var names := WithoutFirst(entries[n].names, name);
          entries := entries[..n] + (if names == [] then [] else [entries[n].(names := names)]) + entries[n + 1..];
          return true;
        }
      }
      RemovedEnd(entries, name);
      return false;
    }

    method Resolve(name: string) returns (hash: Option<Hash16>)
      ensures hash == ResolveName(entries, name)
      ensures hash.None? <==> forall e :: e in entries ==> name !in e.names
      ensures hash.Some? ==> exists i :: 0 <= i < |entries| && entries[i].hash == hash.value && name in entries[i].names
                                         && forall j :: 0 <= j < i ==> name !in entries[j].names
    {
      for n := 0 to |entries|
        invariant forall j :: 0 <= j < n ==> name !in entries[j].names
        invariant ResolveName(entries[n..], name) == ResolveName(entries, name)
      {
        assert entries[n..][0] == entries[n] && entries[n..][1..] == entries[n + 1..];
        if name in entries[n].names {
          return Some(entries[n].hash);
        }
      }
      return None;
    }

    method SetSelf(hash: Hash16)
      modifies this
      ensures entries == SelfSet(old(entries), hash)
      ensures Bindings(entries, SELF_ALIAS) == 1 && BoundTo(entries, SELF_ALIAS, hash)
      ensures forall n :: n != SELF_ALIAS ==> Bindings(entries, n) == Bindings(old(entries), n)
    {
      hide Bindings, BoundTo, Added, Stripped;
      SelfIsUnique(entries, hash);
      var kept: seq<AliasEntry> := [];
      for n := 0 to |entries|
        invariant entries == old(entries)
        invariant kept + Cleared(entries[n..], SELF_ALIAS) == Cleared(entries, SELF_ALIAS)
      {
        assert entries[n..][0] == entries[n] && entries[n..][1..] == entries[n + 1..];
        var names := Stripped(entries[n].names, SELF_ALIAS);
        if names != [] {
          kept := kept + [entries[n].(names := names)];
        }
      }
      assert kept == Cleared(entries, SELF_ALIAS);
      entries := kept;
      Add(SELF_ALIAS, hash, None);
    }
  }

  lemma NoLines(entries: seq<AliasEntry>)
    ensures TakeLines(entries, []) == entries
  {}

  /** Taking the line under the cursor and moving past it leaves the same work to do. */
  lemma {:induction false} CursorStep(entries: seq<AliasEntry>, text: string, pos: nat, eol: nat)
    requires pos <= |text| && eol == Find(text[pos..], c => c == '\n')
    ensures var line := text[pos..pos + eol];
            var next := pos + eol + 1;
            TakeLines(entries, Split(text[pos..], '\n'))
            == TakeLines(TakeLine(entries, line), if next <= |text| then Split(text[next..], '\n') else [])
    ensures TakeLines(TakeLine(entries, text[pos..pos + eol]), []) == TakeLine(entries, text[pos..pos + eol])
  {
    hide TakeLine, Split;
    var rest, line := text[pos..], text[pos..pos + eol];
    SplitHead(rest, '\n');
    assert rest[..eol] == line;
    if eol < |rest| {
      assert rest[eol + 1..] == text[pos + eol + 1..];
      assert ([line] + Split(rest[eol + 1..], '\n'))[1..] == Split(rest[eol + 1..], '\n');
    } else {
      assert rest[..|rest|] == rest;
      assert [line][1..] == [];
    }
  }

  // ---- Round trip ------------------------------------------------------------------

  predicate IsName(name: string) { IsWord(name) && '#' !in name }

  predicate IsNote(note: Option<string>) {
    note.Some? ==> note.value != "" && Trimmed(note.value) && '\n' !in note.value
  }

  predicate WellFormedEntry(e: AliasEntry) {
    e.names != [] && (forall n :: n in e.names ==> IsName(n)) && IsNote(e.note)
  }

  /** One entry per hash, each with proper names and note. */
  ghost predicate WellFormed(entries: seq<AliasEntry>) {
    && (forall e :: e in entries ==> WellFormedEntry(e))
    && (forall i, j :: 0 <= i < j < |entries| ==> entries[i].hash != entries[j].hash)
  }

  lemma {:induction false} SpacedFacts(names: seq<string>)
    requires names != [] && forall n :: n in names ==> IsName(n)
    ensures var s := Spaced(names); s != "" && !IsSpace(s[|s| - 1]) && '#' !in s && '\n' !in s
  {
    if |names| > 1 {
      SpacedFacts(names[1..]);
    } else {
      assert Spaced(names[1..]) == "";
    }
    assert IsName(names[0]);
    assert forall i :: 0 <= i < |names[0]| ==> !IsSpace(names[0][i]);
  }

  lemma HexFacts(hash: Hash16)
    ensures var h := ToHex(hash);
            && IsWord(h) && '#' !in h && '\n' !in h && Trim(h) == h && |h| == 2 * HASH_SIZE && FromHex(h) == Some(hash)
  {
    HexBack(hash);
    TrimmedStays(ToHex(hash));
  }

  lemma LineBack(e: AliasEntry)
    requires WellFormedEntry(e)
    ensures ParseLine(LineOf(e)) == Some(e) && '\n' !in LineOf(e)
  {
    var line := LineOf(e);
    var mark := CutLine(e);
    HexFacts(e.hash);
    EntryBack(e);
    hide EntryOf, Trim, Words, ToHex, Spaced, LineOf, IsWord, Trimmed, IsName;
    NamesAreWords(e);
    WordsBack(ToHex(e.hash), e.names);
  }

  lemma NamesAreWords(e: AliasEntry)
    requires WellFormedEntry(e)
    ensures IsWord(ToHex(e.hash)) && forall n :: n in e.names ==> IsWord(n)
  {
    HexFacts(e.hash);
  }

  lemma EntryBack(e: AliasEntry)
    requires WellFormedEntry(e)
    ensures EntryOf([ToHex(e.hash)] + e.names, if e.note.Some? then e.note.value else "") == Some(e)
  {
    hide Trim, ToHex, FromHex;
    HexFacts(e.hash);
    assert ([ToHex(e.hash)] + e.names)[1..] == e.names;
  }

  /** Where the note starts, and that trimming the two parts leaves hash and names, and
      the note. */
  lemma CutLine(e: AliasEntry) returns (mark: nat)
    requires WellFormedEntry(e)
    ensures var line := LineOf(e);
            && Trim(line) == line && '\n' !in line
            && mark == Find(line, c => c == '#')
            && Trim(line[..mark]) == ToHex(e.hash) + Spaced(e.names)
            && (if e.note.None? then mark == |line|
                else mark < |line| && Trim(line[mark + 1..]) == e.note.value)
  {
    var head, line := ToHex(e.hash) + Spaced(e.names), LineOf(e);
    hide Trim, ToHex, Spaced, Find;
    HexFacts(e.hash);
    SpacedFacts(e.names);
    TrimmedStays(head);
    var isMark := (c: char) => c == '#';
    if e.note.None? {
      assert line == head && line[..|line|] == line;
      mark := Find(line, isMark);
    } else {
      var note := e.note.value;
      assert line == (head + [' ', ' ']) + ['#'] + ([' '] + note);
      FindAfter(head + [' ', ' '], '#', [' '] + note, isMark);
      TrimmedStays(note);
      TrimmedStays(line);
      mark := |head| + 2;
      assert line[..mark] == head + [' ', ' '] && line[mark + 1..] == [' '] + note;
    }
  }

  /** Parsing what was serialized gives back the registry, in order. */
  lemma RoundTrip(entries: seq<AliasEntry>)
    requires WellFormed(entries)
    ensures Parsed(Serialized(entries)) == entries
  {
    hide TakeLines, LineOf, Split, Unlines, WellFormedEntry;
    assert [] + entries == entries;
    forall l | l in LinesOf(entries)
      ensures '\n' !in l
    {
      var i :| 0 <= i < |entries| && l == LineOf(entries[i]);
      assert entries[i] in entries;
      LineBack(entries[i]);
    }
    LinesBack(LinesOf(entries));
    TakeBack([], entries);
  }

  lemma {:induction false} TakeBack(before: seq<AliasEntry>, entries: seq<AliasEntry>)
    requires WellFormed(before + entries)
    ensures TakeLines(before, LinesOf(entries) + [""]) == before + entries
    decreases |entries|
  {
    hide ParseLine, LineOf, WellFormedEntry;
    var lines := LinesOf(entries) + [""];
    if entries == [] {
      BlankLine();
      assert lines == [""] && lines[1..] == [];
      assert before + entries == before;
    } else {
      var e, rest := entries[0], entries[1..];
      assert (before + entries)[|before|] == e;
      assert e in before + entries;
      LineBack(e);
      forall i | 0 <= i < |before|
        ensures before[i].hash != e.hash
      {
        assert (before + entries)[i] == before[i];
      }
      assert before + entries == (before + [e]) + rest;
      TakeBack(before + [e], rest);
      assert lines[0] == LineOf(e) && lines[1..] == LinesOf(rest) + [""];
    }
  }

  lemma BlankLine()
    ensures ParseLine("") == None
  {}

  // ---- What the operations keep ----------------------------------------------------

  lemma {:induction false} NamesAddedMeans(names: seq<string>, more: seq<string>)
    ensures forall n :: n in NamesAdded(names, more) <==> n in names || n in more
    decreases |more|
  {
    if more != [] {
      NamesAddedMeans(if more[0] in names then names else names + [more[0]], more[1..]);
    }
  }

  lemma MergedKeeps(entries: seq<AliasEntry>, e: AliasEntry)
    requires WellFormed(entries) && WellFormedEntry(e)
    ensures WellFormed(Merged(entries, e))
  {
    var i, after := PositionOf(entries, e.hash), Merged(entries, e);
    if i < |entries| {
      NamesAddedMeans(entries[i].names, e.names);
      assert entries[i] in entries;
      assert after[i].names != [] by { assert e.names[0] in after[i].names; }
    }
    forall x | x in after
      ensures WellFormedEntry(x)
    {
      var j :| 0 <= j < |after| && after[j] == x;
      if j < |entries| && j != i {
        assert x == entries[j] && entries[j] in entries;
      }
    }
  }

  lemma {:induction false} StrippedMeans(names: seq<string>, name: string)
    ensures forall n :: n in Stripped(names, name) <==> n in names && n != name
    ensures Occurrences(Stripped(names, name), name) == 0
  {
    if names != [] {
      StrippedMeans(names[1..], name);
      var rest := Stripped(names[1..], name);
      if names[0] != name {
        assert ([names[0]] + rest)[1..] == rest;
      }
    }
  }

  lemma {:induction false} WithoutFirstMeans(names: seq<string>, name: string)
    ensures forall n :: n in WithoutFirst(names, name) ==> n in names
    ensures forall n :: n in names && n != name ==> n in WithoutFirst(names, name)
  {
    if names != [] {
      WithoutFirstMeans(names[1..], name);
    }
  }

  lemma ConsWellFormed(e: AliasEntry, rest: seq<AliasEntry>)
    requires WellFormedEntry(e) && WellFormed(rest) && forall x :: x in rest ==> x.hash != e.hash
    ensures WellFormed([e] + rest)
  {
    hide WellFormedEntry;
  }

  lemma HeadAndRest(entries: seq<AliasEntry>)
    requires WellFormed(entries) && entries != []
    ensures WellFormedEntry(entries[0]) && WellFormed(entries[1..])
    ensures forall x :: x in entries[1..] ==> x.hash != entries[0].hash
  {
    hide WellFormedEntry;
    assert entries[0] in entries;
    forall x | x in entries[1..]
      ensures x.hash != entries[0].hash
    {
      var j :| 0 <= j < |entries| - 1 && entries[1..][j] == x;
      assert entries[j + 1] == x;
    }
  }

  ghost predicate HashesFrom(after: seq<AliasEntry>, before: seq<AliasEntry>) {
    forall x :: x in after ==> exists y :: y in before && y.hash == x.hash
  }

  lemma HashesFromCons(e: AliasEntry, after: seq<AliasEntry>, before: seq<AliasEntry>, kept: AliasEntry)
    requires HashesFrom(after, before) && kept.hash == e.hash
    ensures HashesFrom(after, [e] + before) && HashesFrom([kept] + after, [e] + before)
    ensures (forall x :: x in before ==> x.hash != e.hash) ==> forall x :: x in after ==> x.hash != e.hash
  {
    assert e in [e] + before;
    assert forall y :: y in before ==> y in [e] + before;
  }

  lemma {:induction false} ClearedKeeps(entries: seq<AliasEntry>, name: string)
    requires WellFormed(entries)
    ensures WellFormed(Cleared(entries, name)) && HashesFrom(Cleared(entries, name), entries)
  {
    if entries != [] {
      var e, rest := entries[0], entries[1..];
      HeadAndRest(entries);
      ClearedKeeps(rest, name);
      StrippedMeans(e.names, name);
      var kept := e.(names := Stripped(e.names, name));
      HashesFromCons(e, Cleared(rest, name), rest, kept);
      assert [e] + rest == entries;
      hide HashesFrom, WellFormed;
      if kept.names != [] {
        ConsWellFormed(kept, Cleared(rest, name));
      }
    }
  }

  lemma {:induction false} RemovedKeeps(entries: seq<AliasEntry>, name: string)
    requires WellFormed(entries)
    ensures WellFormed(Removed(entries, name)) && HashesFrom(Removed(entries, name), entries)
  {
    if entries != [] {
      var e, rest := entries[0], entries[1..];
      HeadAndRest(entries);
      assert [e] + rest == entries;
      WithoutFirstMeans(e.names, name);
      if name in e.names {
        var kept := e.(names := WithoutFirst(e.names, name));
        assert HashesFrom(rest, rest);
        HashesFromCons(e, rest, rest, kept);
        hide HashesFrom, WellFormed;
        if kept.names != [] {
          ConsWellFormed(kept, rest);
        }
      } else {
        RemovedKeeps(rest, name);
        HashesFromCons(e, Removed(rest, name), rest, e);
        hide HashesFrom, WellFormed;
        ConsWellFormed(e, Removed(rest, name));
      }
    }
  }

  /** Occurrences of a name in one entry, and in the whole registry. */
  function Occurrences(names: seq<string>, name: string): nat {
    if names == [] then 0 else (if names[0] == name then 1 else 0) + Occurrences(names[1..], name)
  }

  function Bindings(entries: seq<AliasEntry>, name: string): nat {
    if entries == [] then 0 else Occurrences(entries[0].names, name) + Bindings(entries[1..], name)
  }

  datatype Command =
    | Add(name: string, hash: Hash16, note: Option<string>)
    | Remove(name: string)
    | SetSelf(hash: Hash16)

  /** Names and notes a caller may use. */
  predicate Proper(c: Command) {
    c.Add? ==> IsName(c.name) && IsNote(c.note)
  }

  function Execute(entries: seq<AliasEntry>, c: Command): seq<AliasEntry> {
    match c
    case Add(name, hash, note) => Added(entries, name, hash, note)
    case Remove(name) => Removed(entries, name)
    case SetSelf(hash) => SelfSet(entries, hash)
  }

  function Run(commands: seq<Command>): seq<AliasEntry> {
    if commands == [] then [] else Execute(Run(commands[..|commands| - 1]), commands[|commands| - 1])
  }

  lemma ExecuteKeeps(entries: seq<AliasEntry>, c: Command)
    requires WellFormed(entries) && Proper(c)
    ensures WellFormed(Execute(entries, c))
  {
    hide WellFormed, Merged, Removed, Cleared;
    match c
    case Add(name, hash, note) => MergedKeeps(entries, AliasEntry(hash, [name], note));
    case Remove(name) => RemovedKeeps(entries, name);
    case SetSelf(hash) =>
      ClearedKeeps(entries, SELF_ALIAS);
      SelfIsName(hash);
      MergedKeeps(Cleared(entries, SELF_ALIAS), AliasEntry(hash, [SELF_ALIAS], None));
  }

  lemma SelfIsName(hash: Hash16)
    ensures WellFormedEntry(AliasEntry(hash, [SELF_ALIAS], None))
  {
    assert IsName(SELF_ALIAS);
  }

  lemma {:induction false} RunWellFormed(commands: seq<Command>)
    requires forall c :: c in commands ==> Proper(c)
    ensures WellFormed(Run(commands))
  {
    hide WellFormed, Execute, Proper;
    if commands == [] {
      EmptyWellFormed();
    } else {
      assert commands[|commands| - 1] in commands;
      RunWellFormed(commands[..|commands| - 1]);
      ExecuteKeeps(Run(commands[..|commands| - 1]), commands[|commands| - 1]);
    }
  }

  lemma EmptyWellFormed()
    ensures WellFormed([])
  {}

  /** Every registry built by adding proper names and notes, removing, and setting self
      survives being written out and read back. */
  lemma ReachableRoundTrip(commands: seq<Command>)
    requires forall c :: c in commands ==> Proper(c)
    ensures Parsed(Serialized(Run(commands))) == Run(commands)
  {
    RunWellFormed(commands);
    RoundTrip(Run(commands));
  }

  lemma {:induction false} BindingsPlus(a: seq<AliasEntry>, b: seq<AliasEntry>, name: string)
    ensures Bindings(a + b, name) == Bindings(a, name) + Bindings(b, name)
  {
    if a == [] {
      assert a + b == b;
    } else {
      assert (a + b)[1..] == a[1..] + b;
      BindingsPlus(a[1..], b, name);
    }
  }

  lemma {:induction false} OccurrencesPlus(a: seq<string>, b: seq<string>, name: string)
    ensures Occurrences(a + b, name) == Occurrences(a, name) + Occurrences(b, name)
    ensures Occurrences(a, name) == 0 ==> name !in a
  {
    if a == [] {
      assert a + b == b;
    } else {
      assert (a + b)[1..] == a[1..] + b;
      OccurrencesPlus(a[1..], b, name);
    }
  }

  lemma {:induction false} OccurrencesMean(names: seq<string>, name: string)
    ensures Occurrences(names, name) > 0 <==> name in names
  {
    if names != [] {
      OccurrencesMean(names[1..], name);
    }
  }

  /** Is the name already among those of the hash's own entry? */
  predicate BoundTo(entries: seq<AliasEntry>, name: string, hash: Hash16) {
    var i := PositionOf(entries, hash);
    i < |entries| && name in entries[i].names
  }

  /** The note kept for a hash. */
  function NoteOf(entries: seq<AliasEntry>, hash: Hash16): Option<string> {
    var i := PositionOf(entries, hash);
    if i < |entries| then entries[i].note else None
  }

  /** What adding comes to: a new entry, or the hash's own entry with the name and note. */
  lemma {:induction false} AddedIs(entries: seq<AliasEntry>, name: string, hash: Hash16, note: Option<string>)
    ensures var i := PositionOf(entries, hash);
            Added(entries, name, hash, note)
            == if i == |entries| then entries + [AliasEntry(hash, [name], note)]
               else
                 var e := entries[i];
                 entries[i := AliasEntry(hash, if name in e.names then e.names else e.names + [name],
                                         if note.Some? then note else e.note)]
  {
    var i := PositionOf(entries, hash);
    if i < |entries| {
      AddOneName(entries[i].names, name);
    }
    hide NamesAdded, PositionOf;
  }

  lemma ReplacedBindings(entries: seq<AliasEntry>, i: nat, e: AliasEntry, n: string)
    requires i < |entries|
    ensures Bindings(entries[i := e], n)
            == Bindings(entries, n) - Occurrences(entries[i].names, n) + Occurrences(e.names, n)
  {
    hide Bindings, Occurrences;
    var front, back := entries[..i], entries[i + 1..];
    assert entries == front + ([entries[i]] + back) && entries[i := e] == front + ([e] + back);
    CountAround(front, entries[i], back, n);
    CountAround(front, e, back, n);
  }

  /** Adding binds the name once more, unless it is among the hash's names already. */
  lemma AddedBindings(entries: seq<AliasEntry>, name: string, hash: Hash16, note: Option<string>, n: string)
    ensures Bindings(Added(entries, name, hash, note), n)
            == Bindings(entries, n) + if n == name && !BoundTo(entries, name, hash) then 1 else 0
  {
    hide Bindings, Occurrences, Added, PositionOf;
    var i := PositionOf(entries, hash);
    AddedIs(entries, name, hash, note);
    OneOccurrence(name, n);
    if i == |entries| {
      var e := AliasEntry(hash, [name], note);
      BindingsPlus(entries, [e], n);
      assert [e] + [] == [e];
      HeadBindings(e, [], n);
      NoBindings(n);
    } else {
      var names := entries[i].names;
      OccurrencesPlus(names, [name], n);
      ReplacedBindings(entries, i, Added(entries, name, hash, note)[i], n);
    }
  }

  lemma NoBindings(n: string)
    ensures Bindings([], n) == 0
  {}

  /** The effect of adding on the bindings of every name. */
  lemma {:induction false} AddEffect(entries: seq<AliasEntry>, name: string, hash: Hash16, note: Option<string>)
    ensures var after := Added(entries, name, hash, note);
            && (forall n :: Bindings(after, n)
                  == Bindings(entries, n) + if n == name && !BoundTo(entries, name, hash) then 1 else 0)
            && BoundTo(after, name, hash)
            && forall h :: NoteOf(after, h) == if h == hash && note.Some? then note else NoteOf(entries, h)
  {
    var i, after := PositionOf(entries, hash), Added(entries, name, hash, note);
    forall n
      ensures Bindings(after, n) == Bindings(entries, n) + if n == name && !BoundTo(entries, name, hash) then 1 else 0
    {
      AddedBindings(entries, name, hash, note, n);
    }
    hide Bindings, Added;
    AddedIs(entries, name, hash, note);
    assert after[i].hash == hash && name in after[i].names;
    assert PositionOf(after, hash) == i;
    forall h | h != hash
      ensures NoteOf(after, h) == NoteOf(entries, h)
    {
      var k := PositionOf(entries, h);
      PositionIs(after, h, if k < |entries| then k else |after|);
    }
  }

  lemma PositionIs(entries: seq<AliasEntry>, hash: Hash16, i: nat)
    requires i <= |entries| && (i < |entries| ==> entries[i].hash == hash)
    requires forall j :: 0 <= j < i ==> entries[j].hash != hash
    ensures PositionOf(entries, hash) == i
  {}

  lemma OneOccurrence(name: string, n: string)
    ensures Occurrences([name], n) == if n == name then 1 else 0
  {
    assert [name][1..] == [];
  }

  lemma AddOneName(names: seq<string>, name: string)
    ensures NamesAdded(names, [name]) == if name in names then names else names + [name]
  {
    assert [name][1..] == [];
  }

  /** Setting self leaves exactly one binding of that name, the new hash's, and every other
      name's bindings as they were. */
  lemma SelfIsUnique(entries: seq<AliasEntry>, hash: Hash16)
    ensures Bindings(SelfSet(entries, hash), SELF_ALIAS) == 1 && BoundTo(SelfSet(entries, hash), SELF_ALIAS, hash)
    ensures forall n :: n != SELF_ALIAS ==> Bindings(SelfSet(entries, hash), n) == Bindings(entries, n)
  {
    hide Bindings, Added, BoundTo, Cleared;
    var clear := Cleared(entries, SELF_ALIAS);
    FewerBindings(entries, SELF_ALIAS, SELF_ALIAS);
    NotBound(clear, SELF_ALIAS, hash);
    AddEffect(clear, SELF_ALIAS, hash, None);
    forall n | n != SELF_ALIAS
      ensures Bindings(clear, n) == Bindings(entries, n)
    {
      FewerBindings(entries, SELF_ALIAS, n);
    }
  }

  lemma NotBound(entries: seq<AliasEntry>, name: string, hash: Hash16)
    requires Bindings(entries, name) == 0
    ensures !BoundTo(entries, name, hash)
  {
    NotBoundAnywhere(entries, name);
  }

  lemma {:induction false} NotBoundAnywhere(entries: seq<AliasEntry>, name: string)
    ensures Bindings(entries, name) == 0 <==> forall e :: e in entries ==> name !in e.names
  {
    if entries != [] {
      NotBoundAnywhere(entries[1..], name);
      OccurrencesMean(entries[0].names, name);
    }
  }

  lemma CountAround(front: seq<AliasEntry>, e: AliasEntry, back: seq<AliasEntry>, name: string)
    ensures Bindings(front + ([e] + back), name)
            == Bindings(front, name) + Occurrences(e.names, name) + Bindings(back, name)
  {
    BindingsPlus(front, [e] + back, name);
    assert ([e] + back)[1..] == back;
  }

  // ---- Names unique across the registry --------------------------------------------

  /** The hash a name stands for: the first entry bearing it. */
  function ResolveName(entries: seq<AliasEntry>, name: string): Option<Hash16> {
    if entries == [] then None
    else if name in entries[0].names then Some(entries[0].hash)
    else ResolveName(entries[1..], name)
  }

  ghost predicate UniqueNames(entries: seq<AliasEntry>) {
    forall n :: Bindings(entries, n) <= 1
  }

  lemma {:induction false} ResolveMeans(entries: seq<AliasEntry>, name: string)
    requires WellFormed(entries) && Bindings(entries, name) <= 1
    ensures ResolveName(entries, name).None? <==> Bindings(entries, name) == 0
    ensures forall hash :: ResolveName(entries, name) == Some(hash) <==> BoundTo(entries, name, hash)
  {
    if entries != [] {
      HeadAndRest(entries);
      OccurrencesMean(entries[0].names, name);
      ResolveMeans(entries[1..], name);
      NotBoundAnywhere(entries[1..], name);
      hide WellFormed, Bindings, Occurrences;
      forall hash
        ensures BoundTo(entries, name, hash)
                <==> if entries[0].hash == hash then name in entries[0].names else BoundTo(entries[1..], name, hash)
      {
        assert entries[0].hash != hash ==> PositionOf(entries, hash) == 1 + PositionOf(entries[1..], hash);
      }
      forall hash | BoundTo(entries[1..], name, hash)
        ensures exists e :: e in entries[1..] && e.hash == hash && name in e.names
      {
        assert entries[1..][PositionOf(entries[1..], hash)] in entries[1..];
      }
    }
  }

  /** Adding a name keeps names unique exactly when the name is free or is already the
      hash's own; the registry itself does not check this, its caller does. */
  lemma AddKeepsUniqueExactly(entries: seq<AliasEntry>, name: string, hash: Hash16, note: Option<string>)
    requires WellFormed(entries) && UniqueNames(entries)
    ensures UniqueNames(Added(entries, name, hash, note))
            <==> (ResolveName(entries, name) == None || ResolveName(entries, name) == Some(hash))
  {
    hide WellFormed, Bindings, Added, BoundTo;
    ResolveMeans(entries, name);
    forall n
      ensures Bindings(Added(entries, name, hash, note), n)
              == Bindings(entries, n) + if n == name && !BoundTo(entries, name, hash) then 1 else 0
    {
      AddedBindings(entries, name, hash, note, n);
    }
  }

  /** A second hash given a taken name: the name has two bindings and still stands for the
      first. */
  lemma TakenName(name: string, first: Hash16, second: Hash16)
    requires first != second
    ensures var after := Added(Added([], name, first, None), name, second, None);
            Bindings(after, name) == 2 && ResolveName(after, name) == Some(first)
  {
    var one := Added([], name, first, None);
    assert one == [AliasEntry(first, [name], None)];
    AddedBindings([], name, first, None, name);
    AddedBindings(one, name, second, None, name);
    assert PositionOf(one, second) == 1;
    assert Added(one, name, second, None) == one + [AliasEntry(second, [name], None)];
  }

  /** Stripping a list of names takes every occurrence, and removing takes one. */
  lemma {:induction false} FewerOccurrences(names: seq<string>, name: string, n: string)
    ensures Occurrences(Stripped(names, name), n) == if n == name then 0 else Occurrences(names, n)
    ensures Occurrences(WithoutFirst(names, name), n)
            == Occurrences(names, n) - if n == name && Occurrences(names, n) > 0 then 1 else 0
  {
    if names != [] {
      FewerOccurrences(names[1..], name, n);
      var a, b := Stripped(names[1..], name), WithoutFirst(names[1..], name);
      assert ([names[0]] + a)[1..] == a && ([names[0]] + b)[1..] == b;
    }
  }

  /** Clearing a name takes all its bindings, removing it takes one; no other name loses any. */
  lemma {:induction false} FewerBindings(entries: seq<AliasEntry>, name: string, n: string)
    ensures Bindings(Cleared(entries, name), n) == if n == name then 0 else Bindings(entries, n)
    ensures Bindings(Removed(entries, name), n)
            == Bindings(entries, n) - if n == name && Bindings(entries, n) > 0 then 1 else 0
  {
    if entries != [] {
      var e, rest := entries[0], entries[1..];
      FewerBindings(rest, name, n);
      FewerOccurrences(e.names, name, n);
      OccurrencesMean(e.names, name);
      hide Stripped, WithoutFirst, Occurrences;
      HeadBindings(e.(names := Stripped(e.names, name)), Cleared(rest, name), n);
      HeadBindings(e.(names := WithoutFirst(e.names, name)), rest, n);
      HeadBindings(e, Removed(rest, name), n);
      assert [] + Cleared(rest, name) == Cleared(rest, name) && [] + rest == rest;
      NoOccurrences(n);
    }
  }

  lemma NoOccurrences(n: string)
    ensures Occurrences([], n) == 0
  {}

  lemma HeadBindings(e: AliasEntry, rest: seq<AliasEntry>, n: string)
    ensures Bindings([e] + rest, n) == Occurrences(e.names, n) + Bindings(rest, n)
  {
    assert ([e] + rest)[1..] == rest;
  }

  /** The check the command line makes before adding. */
  predicate Guarded(entries: seq<AliasEntry>, c: Command) {
    c.Add? ==> ResolveName(entries, c.name) == None || ResolveName(entries, c.name) == Some(c.hash)
  }

  lemma ExecuteKeepsUnique(entries: seq<AliasEntry>, c: Command)
    requires WellFormed(entries) && UniqueNames(entries) && Guarded(entries, c)
    ensures UniqueNames(Execute(entries, c))
  {
    hide WellFormed, Bindings, Added, Removed, Cleared, BoundTo;
    match c
    case Add(name, hash, note) => AddKeepsUniqueExactly(entries, name, hash, note);
    case Remove(name) =>
      forall n
        ensures Bindings(Removed(entries, name), n) <= 1
      {
        FewerBindings(entries, name, n);
      }
    case SetSelf(hash) =>
      forall n
        ensures Bindings(SelfSet(entries, hash), n) <= 1
      {
        FewerBindings(entries, SELF_ALIAS, n);
        FewerBindings(entries, SELF_ALIAS, SELF_ALIAS);
        NotBound(Cleared(entries, SELF_ALIAS), SELF_ALIAS, hash);
        AddedBindings(Cleared(entries, SELF_ALIAS), SELF_ALIAS, hash, None, n);
      }
  }

  /** Over any run of guarded commands every name stands for at most one hash. */
  lemma {:induction false} NamesStayUnique(commands: seq<Command>)
    requires forall c :: c in commands ==> Proper(c)
    requires forall i :: 0 <= i < |commands| ==> Guarded(Run(commands[..i]), commands[i])
    ensures UniqueNames(Run(commands))
  {
    hide WellFormed, Execute, Proper, Guarded;
    if commands != [] {
      var before := commands[..|commands| - 1];
      assert forall i :: 0 <= i < |before| ==> before[..i] == commands[..i] && before[i] == commands[i];
      NamesStayUnique(before);
      RunWellFormed(before);
      ExecuteKeepsUnique(Run(before), commands[|commands| - 1]);
    }
  }
}
