/** INI text: how sections are printed, how text is parsed, and that parsing undoes
    printing. */
module Ini {
  import opened Basics
  import opened Text

  datatype Section = Section(name: string, options: seq<(string, string)>)

  // ---- Printing --------------------------------------------------------------------

  function OptionLine(option: (string, string)): string {
    option.0 + [' ', '=', ' '] + option.1
  }

  function OptionLines(options: seq<(string, string)>): seq<string> {
    if options == [] then [] else [OptionLine(options[0])] + OptionLines(options[1..])
  }

  /** A header, the options, and a blank line. */
  function SectionLines(s: Section): seq<string> {
    [['['] + s.name + [']']] + OptionLines(s.options) + [""]
  }

  function AllLines(sections: seq<Section>): seq<string> {
    if sections == [] then [] else SectionLines(sections[0]) + AllLines(sections[1..])
  }

  function Printed(sections: seq<Section>): string { Unlines(AllLines(sections)) }

  // ---- Parsing ---------------------------------------------------------------------

  function Lower(s: string): string {
    if s == "" then ""
    else [if 'A' <= s[0] <= 'Z' then 'a' + (s[0] - 'A') else s[0]] + Lower(s[1..])
  }

  predicate IsDelimiter(c: char) { c == '=' || c == ':' }

  /** The option goes to the section opened last. */
  function WithOption(sections: seq<Section>, key: string, value: string): seq<Section>
    requires sections != []
  {
    var n := |sections| - 1;
    sections[..n] + [Section(sections[n].name, sections[n].options + [(key, value)])]
  }

  /** Comments, blank lines, options before any header and lines without a delimiter (or
      starting with one) are skipped. */
  function TakeLine(sections: seq<Section>, raw: string): seq<Section> {
    var line := Trim(raw);
    if line == "" || line[0] == '#' || line[0] == ';' then sections
    else if line[0] == '[' && line[|line| - 1] == ']' then sections + [Section(Trim(line[1..|line| - 1]), [])]
    else
      var delim := Find(line, IsDelimiter);
      if sections == [] || delim == |line| || delim == 0 then sections
      else WithOption(sections, Lower(Trim(line[..delim])), Trim(line[delim + 1..]))
  }

  function TakeLines(sections: seq<Section>, lines: seq<string>): seq<Section>
    decreases |lines|
  {
    if lines == [] then sections else TakeLines(TakeLine(sections, lines[0]), lines[1..])
  }

  function Parsed(text: string): seq<Section> { TakeLines([], Split(text, '\n')) }

  function OptionValue(options: seq<(string, string)>, key: string): Option<string> {
    if options == [] then None
    else if options[0].0 == key then Some(options[0].1)
    else OptionValue(options[1..], key)
  }

  /** The first value of the option in any section of that name. */
  function Get(sections: seq<Section>, name: string, key: string): Option<string> {
    if sections == [] then None
    else if sections[0].name == name && OptionValue(sections[0].options, key).Some? then
      OptionValue(sections[0].options, key)
    else Get(sections[1..], name, key)
  }

  /** The parser's cursor over the text. */
  method Parse(text: string) returns (sections: seq<Section>)
    ensures sections == Parsed(text)
  {
    hide TakeLine, TakeLines, Split;
    sections := [];
    var pos := 0;
    assert text[0..] == text;
    while pos <= |text|
      invariant 0 <= pos <= |text| + 1
      invariant Parsed(text) == if pos <= |text| then TakeLines(sections, Split(text[pos..], '\n')) else sections
    {
      var eol := pos + Find(text[pos..], c => c == '\n');
      CursorStep(sections, text, pos, eol);
      sections := TakeLine(sections, text[pos..eol]);
      pos := eol + 1;
    }
  }

  lemma LineStep(sections: seq<Section>, line: string, rest: seq<string>)
    ensures TakeLines(sections, [line] + rest) == TakeLines(TakeLine(sections, line), rest)
  {
    assert ([line] + rest)[1..] == rest;
  }

  lemma CursorStep(sections: seq<Section>, text: string, pos: nat, eol: nat)
    requires pos <= |text| && eol == pos + Find(text[pos..], c => c == '\n')
    ensures eol <= |text|
    ensures TakeLines(sections, Split(text[pos..], '\n'))
         == var taken := TakeLine(sections, text[pos..eol]);
            if eol + 1 <= |text| then TakeLines(taken, Split(text[eol + 1..], '\n')) else taken
  {
    hide TakeLine, Split;
    var s := text[pos..];
    SplitHead(s, '\n');
    assert s[..eol - pos] == text[pos..eol];
    if eol == |text| {
      assert text[pos..eol] == s && [s] == [s] + [];
      LineStep(sections, s, []);
    } else {
      assert s[eol - pos + 1..] == text[eol + 1..];
      LineStep(sections, text[pos..eol], Split(text[eol + 1..], '\n'));
    }
  }

  // ---- What parsing ignores --------------------------------------------------------

  lemma {:induction false} TakeLinesPlus(sections: seq<Section>, a: seq<string>, b: seq<string>)
    ensures TakeLines(sections, a + b) == TakeLines(TakeLines(sections, a), b)
    decreases |a|
  {
    if a == [] {
      assert a + b == b;
    } else {
      hide TakeLine;
      assert (a + b)[1..] == a[1..] + b;
      TakeLinesPlus(TakeLine(sections, a[0]), a[1..], b);
    }
  }


  lemma {:induction false} LineBetween(before: string, line: string, after: string)
    requires '\n' !in line
    ensures Parsed(before + ['\n'] + (line + ['\n'] + after))
            == TakeLines(TakeLine(TakeLines([], Split(before, '\n')), line), Split(after, '\n'))
  {
    hide Split, TakeLine, TakeLines;
    SplitAt(before, line + ['\n'] + after, '\n');
    SplitOff(line, after, '\n');
    TakeLinesPlus([], Split(before, '\n'), [line] + Split(after, '\n'));
    LineStep(TakeLines([], Split(before, '\n')), line, Split(after, '\n'));
  }

  /** White space around a line means nothing, and neither do blank lines and comments. */
  lemma NoiseIsIgnored(before: string, line: string, line': string, after: string)
    requires '\n' !in line && '\n' !in line'
    ensures Trim(line) == Trim(line') ==>
              Parsed(before + ['\n'] + (line + ['\n'] + after)) == Parsed(before + ['\n'] + (line' + ['\n'] + after))
    ensures Trim(line) == "" || Trim(line)[0] == '#' || Trim(line)[0] == ';' ==>
              Parsed(before + ['\n'] + (line + ['\n'] + after)) == Parsed(before + ['\n'] + after)
  {
    hide *;
    LineBetween(before, line, after);
    LineBetween(before, line', after);
    TrimDecides(TakeLines([], Split(before, '\n')), line, line');
    TwoParts(before, after);
  }

  lemma TrimDecides(sections: seq<Section>, line: string, line': string)
    ensures Trim(line) == Trim(line') ==> TakeLine(sections, line) == TakeLine(sections, line')
    ensures Trim(line) == "" || Trim(line)[0] == '#' || Trim(line)[0] == ';' ==> TakeLine(sections, line) == sections
  {
    hide Trim, Find, Lower;
  }

  lemma {:induction false} TwoParts(before: string, after: string)
    ensures Parsed(before + ['\n'] + after) == TakeLines(TakeLines([], Split(before, '\n')), Split(after, '\n'))
  {
    hide Split, TakeLine, TakeLines;
    SplitAt(before, after, '\n');
    TakeLinesPlus([], Split(before, '\n'), Split(after, '\n'));
  }

  // ---- Parsing undoes printing -----------------------------------------------------

  /** Lower-case letters, digits and underscores. */
  predicate IsKey(s: string) {
    s != "" && forall i :: 0 <= i < |s| ==> 'a' <= s[i] <= 'z' || '0' <= s[i] <= '9' || s[i] == '_'
  }

  predicate IsValue(s: string) { Trimmed(s) && '\n' !in s }

  predicate ProperOption(o: (string, string)) { IsKey(o.0) && IsValue(o.1) }

  predicate ProperSection(s: Section) {
    IsKey(s.name) && forall o :: o in s.options ==> ProperOption(o)
  }

  lemma {:induction false} LowerStays(s: string)
    requires forall i :: 0 <= i < |s| ==> !('A' <= s[i] <= 'Z')
    ensures Lower(s) == s
  {
    if s != "" {
      LowerStays(s[1..]);
    }
  }

  lemma HeaderBack(sections: seq<Section>, name: string)
    requires IsKey(name)
    ensures TakeLine(sections, ['['] + name + [']']) == sections + [Section(name, [])]
    ensures '\n' !in ['['] + name + [']']
  {
    hide Trim;
    var line := ['['] + name + [']'];
    TrimmedStays(line);
    TrimmedStays(name);
    assert line[1..|line| - 1] == name;
  }

  /** Trimming an option's line drops at most the space before an empty value. */
  lemma TrimOption(key: string, value: string)
    requires IsKey(key) && IsValue(value)
    ensures Trim(OptionLine((key, value))) == key + [' '] + ['='] + if value == "" then "" else [' '] + value
    ensures Trim(key + [' ']) == key
  {
    TrailingSpace(key);
    if value == "" {
      assert key + [' ', '=', ' '] + value == key + [' ', '='] + [' '];
      assert key + [' '] + ['='] + "" == key + [' ', '='];
      TrailingSpace(key + [' ', '=']);
    } else {
      var raw := key + [' ', '=', ' '] + value;
      assert raw == key + [' '] + ['='] + ([' '] + value);
      TrimmedStays(raw);
    }
  }

  lemma TrailingSpace(s: string)
    requires s != "" && Trimmed(s)
    ensures Trim(s + [' ']) == s
  {
    var padded := s + [' '];
    assert padded[..|padded| - 1] == s;
    assert TrimStart(padded) == padded;
    assert TrimEnd(padded) == TrimEnd(s) == s;
  }

  /** An option's line, once trimmed, is cut back into its key and its value. */
  lemma CutOption(key: string, value: string)
    requires IsKey(key) && IsValue(value)
    ensures var line := Trim(OptionLine((key, value)));
            var delim := Find(line, IsDelimiter);
            && 0 < delim < |line| && line[0] == key[0]
            && Lower(Trim(line[..delim])) == key && Trim(line[delim + 1..]) == value
  {
    var body := if value == "" then "" else [' '] + value;
    var line := key + [' '] + ['='] + body;
    TrimOption(key, value);
    TrimmedStays(value);
    LowerStays(key);
    FindAfter(key + [' '], '=', body, IsDelimiter);
    hide Trim, Lower, Find, OptionLine;
    assert line[..|key| + 1] == key + [' '] && line[|key| + 2..] == body;
  }

  lemma OptionBack(before: seq<Section>, name: string, taken: seq<(string, string)>, option: (string, string))
    requires ProperOption(option)
    ensures TakeLine(before + [Section(name, taken)], OptionLine(option))
            == before + [Section(name, taken + [option])]
  {
    hide Trim, Lower, Find, OptionLine;
    CutOption(option.0, option.1);
    var sections := before + [Section(name, taken)];
    assert sections[..|sections| - 1] == before;
  }

  lemma {:induction false} OptionsBack(
      before: seq<Section>, name: string, taken: seq<(string, string)>, options: seq<(string, string)>)
    requires forall o :: o in options ==> ProperOption(o)
    ensures TakeLines(before + [Section(name, taken)], OptionLines(options))
         == before + [Section(name, taken + options)]
    decreases |options|
  {
    if options == [] {
      assert taken + options == taken;
    } else {
      hide TakeLine, OptionLine, ProperOption;
      OptionBack(before, name, taken, options[0]);
      LineStep(before + [Section(name, taken)], OptionLine(options[0]), OptionLines(options[1..]));
      OptionsBack(before, name, taken + [options[0]], options[1..]);
      assert taken + [options[0]] + options[1..] == taken + options;
    }
  }

  lemma {:induction false} OptionsOnLines(options: seq<(string, string)>)
    requires forall o :: o in options ==> ProperOption(o)
    ensures forall l :: l in OptionLines(options) ==> '\n' !in l
  {
    if options != [] {
      OptionsOnLines(options[1..]);
      assert ProperOption(options[0]);
    }
  }

  lemma BlankBack(sections: seq<Section>)
    ensures TakeLines(sections, [""]) == sections
  {
    assert [""] == [""] + [];
    LineStep(sections, "", []);
    assert TakeLine(sections, "") == sections;
  }

  lemma {:induction false} SectionBack(sections: seq<Section>, s: Section)
    requires ProperSection(s)
    ensures TakeLines(sections, SectionLines(s)) == sections + [s]
    ensures forall l :: l in SectionLines(s) ==> '\n' !in l
  {
    hide ProperOption, OptionLine, OptionLines, TakeLine, TakeLines, IsKey;
    var header, options := ['['] + s.name + [']'], OptionLines(s.options);
    HeaderBack(sections, s.name);
    OptionsOnLines(s.options);
    assert SectionLines(s) == [header] + (options + [""]);
    LineStep(sections, header, options + [""]);
    TakeLinesPlus(sections + [Section(s.name, [])], options, [""]);
    OptionsBack(sections, s.name, [], s.options);
    assert [] + s.options == s.options;
    BlankBack(sections + [s]);
  }

  lemma {:induction false} AllBack(before: seq<Section>, sections: seq<Section>)
    requires forall s :: s in sections ==> ProperSection(s)
    ensures TakeLines(before, AllLines(sections)) == before + sections
    ensures forall l :: l in AllLines(sections) ==> '\n' !in l
    decreases |sections|
  {
    hide ProperSection, SectionLines, TakeLine;
    if sections == [] {
      assert before + sections == before;
    } else {
      var s, rest := sections[0], sections[1..];
      SectionBack(before, s);
      TakeLinesPlus(before, SectionLines(s), AllLines(rest));
      AllBack(before + [s], rest);
      assert before + [s] + rest == before + sections;
    }
  }

  lemma RoundTrip(sections: seq<Section>)
    requires forall s :: s in sections ==> ProperSection(s)
    ensures Parsed(Printed(sections)) == sections
  {
    hide ProperSection, TakeLines, AllLines, Unlines, Split;
    AllBack([], sections);
    LinesBack(AllLines(sections));
    TakeLinesPlus([], AllLines(sections), [""]);
    BlankBack(sections);
    assert [] + sections == sections;
  }

  // ---- What parsing can yield ------------------------------------------------------

  ghost predicate ValuesOnly(sections: seq<Section>) {
    forall s, o :: s in sections && o in s.options ==> IsValue(o.1)
  }

  lemma WithOptionYields(sections: seq<Section>, key: string, value: string)
    requires sections != [] && ValuesOnly(sections) && IsValue(value)
    ensures ValuesOnly(WithOption(sections, key, value))
  {
    hide IsValue;
    assert sections[|sections| - 1] in sections;
  }

  lemma TakeLineYields(sections: seq<Section>, raw: string)
    requires ValuesOnly(sections) && '\n' !in raw
    ensures ValuesOnly(TakeLine(sections, raw))
  {
    var line := Trim(raw);
    var delim := Find(line, IsDelimiter);
    TrimTrims(raw);
    if delim < |line| {
      TrimTrims(line[delim + 1..]);
    }
    hide Trim, Find, Lower, IsValue;
    if sections != [] && 0 < delim < |line| {
      var key, value := Lower(Trim(line[..delim])), Trim(line[delim + 1..]);
      assert IsValue(value);
      WithOptionYields(sections, key, value);
    }
  }

  lemma {:induction false} TakeLinesYield(sections: seq<Section>, lines: seq<string>)
    requires ValuesOnly(sections) && forall l :: l in lines ==> '\n' !in l
    ensures ValuesOnly(TakeLines(sections, lines))
    decreases |lines|
  {
    hide TakeLine, ValuesOnly;
    if lines != [] {
      TakeLineYields(sections, lines[0]);
      TakeLinesYield(TakeLine(sections, lines[0]), lines[1..]);
    }
  }

  /** Every parsed value is trimmed and on one line. */
  lemma {:induction false} GetYields(sections: seq<Section>, name: string, key: string)
    requires ValuesOnly(sections)
    ensures var value := Get(sections, name, key); value.Some? ==> IsValue(value.value)
  {
    hide OptionValue, IsValue;
    if sections != [] {
      OptionValueYields(sections[0].options, key);
      GetYields(sections[1..], name, key);
    }
  }

  lemma {:induction false} OptionValueYields(options: seq<(string, string)>, key: string)
    ensures var value := OptionValue(options, key); value.Some? ==> exists o :: o in options && o.1 == value.value
  {
    if options != [] {
      OptionValueYields(options[1..], key);
    }
  }

  lemma ParsedYields(text: string, name: string, key: string)
    ensures var value := Get(Parsed(text), name, key); value.Some? ==> IsValue(value.value)
  {
    hide TakeLines, Split, Get, IsValue;
    PiecesAreFree(text, '\n');
    TakeLinesYield([], Split(text, '\n'));
    GetYields(Parsed(text), name, key);
  }

  // ---- Looking options up ----------------------------------------------------------

  ghost predicate DistinctNames(sections: seq<Section>) {
    forall i, j :: 0 <= i < j < |sections| ==> sections[i].name != sections[j].name
  }

  lemma {:induction false} GetAt(sections: seq<Section>, i: nat, key: string)
    requires DistinctNames(sections) && i < |sections|
    ensures Get(sections, sections[i].name, key) == OptionValue(sections[i].options, key)
  {
    hide OptionValue;
    if i > 0 {
      GetAt(sections[1..], i - 1, key);
    } else {
      GetNone(sections[1..], sections[0].name, key);
    }
  }

  lemma {:induction false} GetNone(sections: seq<Section>, name: string, key: string)
    requires forall s :: s in sections ==> s.name != name
    ensures Get(sections, name, key) == None
  {
    hide OptionValue;
    if sections != [] {
      GetNone(sections[1..], name, key);
    }
  }
}
