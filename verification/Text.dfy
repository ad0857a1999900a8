/** Splitting, trimming and hexadecimal: the text operations the local records need. */
module Text {
  import opened Basics

  // ---- Splitting at a delimiter ----------------------------------------------------

  /** Put one more character in front of a split text. */
  function Prepend(c: char, d: char, segments: seq<string>): (longer: seq<string>)
    requires |segments| >= 1
    ensures |longer| >= 1
  {
    if c == d then [""] + segments else [[c] + segments[0]] + segments[1..]
  }

  function Split(s: string, d: char): (segments: seq<string>)
    ensures |segments| >= 1
  {
    if s == "" then [""] else Prepend(s[0], d, Split(s[1..], d))
  }

  lemma SplitStep(c: char, s: string, d: char)
    ensures Split([c] + s, d) == Prepend(c, d, Split(s, d))
  {
    assert ([c] + s)[1..] == s;
  }

  lemma PrependConcat(c: char, d: char, a: seq<string>, b: seq<string>)
    requires |a| >= 1
    ensures Prepend(c, d, a + b) == Prepend(c, d, a) + b
  {
    assert (a + b)[1..] == a[1..] + b;
  }

  lemma {:induction false} SplitAt(x: string, y: string, d: char)
    ensures Split(x + [d] + y, d) == Split(x, d) + Split(y, d)
  {
    if x == "" {
      assert x + [d] + y == [d] + y;
      SplitStep(d, y, d);
    } else {
      var c, rest := x[0], x[1..];
      assert x + [d] + y == [c] + (rest + [d] + y) && x == [c] + rest;
      SplitAt(rest, y, d);
      SplitStep(c, rest + [d] + y, d);
      SplitStep(c, rest, d);
      PrependConcat(c, d, Split(rest, d), Split(y, d));
    }
  }

  lemma {:induction false} SplitNone(s: string, d: char)
    requires d !in s
    ensures Split(s, d) == [s]
  {
    if s != "" {
      assert s == [s[0]] + s[1..];
      SplitNone(s[1..], d);
    }
  }

  lemma SplitOff(x: string, y: string, d: char)
    requires d !in x
    ensures Split(x + [d] + y, d) == [x] + Split(y, d)
  {
    SplitAt(x, y, d);
    SplitNone(x, d);
  }

  lemma {:induction false} PiecesAreFree(s: string, d: char)
    ensures forall p :: p in Split(s, d) ==> d !in p
  {
    if s != "" {
      PiecesAreFree(s[1..], d);
    }
  }

  /** Cutting at the first delimiter. */
  lemma {:induction false} SplitHead(s: string, d: char)
    ensures var i := Find(s, c => c == d);
            Split(s, d) == if i == |s| then [s] else [s[..i]] + Split(s[i + 1..], d)
  {
    var i := Find(s, c => c == d);
    if i == |s| {
      SplitNone(s, d);
    } else {
      assert s == s[..i] + [d] + s[i + 1..];
      SplitAt(s[..i], s[i + 1..], d);
      SplitNone(s[..i], d);
    }
  }

  /** Each line followed by a newline. */
  function Unlines(lines: seq<string>): string {
    if lines == [] then "" else Unlines(lines[..|lines| - 1]) + lines[|lines| - 1] + ['\n']
  }

  lemma {:induction false} LinesBack(lines: seq<string>)
    requires forall l :: l in lines ==> '\n' !in l
    ensures Split(Unlines(lines), '\n') == lines + [""]
  {
    if lines == [] {
      assert Split("", '\n') == [""];
    } else {
      var before, last := lines[..|lines| - 1], lines[|lines| - 1];
      LinesBack(before);
      var text := Unlines(before);
      SplitAt(text + last, "", '\n');
      assert text + last + ['\n'] + "" == Unlines(lines);
      LastLine(before, last);
      assert Split("", '\n') == [""];
      assert lines == before + [last];
    }
  }

  lemma LastLine(before: seq<string>, last: string)
    requires '\n' !in last && Split(Unlines(before), '\n') == before + [""]
    ensures Split(Unlines(before) + last, '\n') == before + [last]
  {
    SplitNone(last, '\n');
    if before == [] {
      assert Unlines(before) + last == last;
    } else {
      var body := Unlines(before[..|before| - 1]) + before[|before| - 1];
      assert Unlines(before) + last == body + ['\n'] + last;
      SplitAt(body, last, '\n');
      SplitAt(body, "", '\n');
      assert body + ['\n'] + "" == Unlines(before);
      assert Split("", '\n') == [""];
      assert Split(body, '\n') + [""] == before + [""];
      assert Split(body, '\n') == (Split(body, '\n') + [""])[..|before|] == before;
    }
  }

  // ---- White space -----------------------------------------------------------------

  predicate IsSpace(c: char) {
    c == ' ' || c == '\t' || c == '\n' || c == '\r' || c == '\U{000B}' || c == '\U{000C}'
  }

  function TrimStart(s: string): string {
    if s != "" && IsSpace(s[0]) then TrimStart(s[1..]) else s
  }

  function TrimEnd(s: string): string {
    if s != "" && IsSpace(s[|s| - 1]) then TrimEnd(s[..|s| - 1]) else s
  }

  function Trim(s: string): string { TrimEnd(TrimStart(s)) }

  /** No white space at either end. */
  predicate Trimmed(s: string) {
    s == "" || (!IsSpace(s[0]) && !IsSpace(s[|s| - 1]))
  }

  lemma TrimmedStays(s: string)
    requires Trimmed(s)
    ensures Trim(s) == s && Trim([' '] + s) == s && Trim(s + [' ', ' ']) == s
  {
    assert ([' '] + s)[1..] == s;
    var padded, once := s + [' ', ' '], s + [' '];
    assert padded[..|padded| - 1] == once && once[..|once| - 1] == s;
    if s != "" {
      assert TrimStart(padded) == padded;
      assert TrimEnd(padded) == TrimEnd(once) == TrimEnd(s) == s;
    } else {
      assert padded[1..] == [' '] && [' '][1..] == "";
      assert TrimStart(padded) == TrimStart([' ']) == "";
    }
  }

  lemma {:induction false} TrimEndCuts(s: string)
    ensures TrimEnd(s) <= s
    ensures TrimEnd(s) != "" ==> !IsSpace(TrimEnd(s)[|TrimEnd(s)| - 1])
  {
    if s != "" && IsSpace(s[|s| - 1]) {
      TrimEndCuts(s[..|s| - 1]);
    }
  }

  lemma {:induction false} TrimStartCuts(s: string)
    ensures TrimStart(s) != "" ==> !IsSpace(TrimStart(s)[0])
    ensures forall c :: c in TrimStart(s) ==> c in s
  {
    if s != "" && IsSpace(s[0]) {
      TrimStartCuts(s[1..]);
    }
  }

  lemma TrimTrims(s: string)
    ensures Trimmed(Trim(s)) && forall c :: c in Trim(s) ==> c in s
  {
    TrimStartCuts(s);
    TrimEndCuts(TrimStart(s));
  }

  predicate IsBlank(c: char) { c == ' ' || c == '\t' }

  /** The non-empty pieces between blanks, `current` being the one under way. */
  function WordsFrom(s: string, current: string): seq<string> {
    if s == "" then if current == "" then [] else [current]
    else if IsBlank(s[0]) then (if current == "" then [] else [current]) + WordsFrom(s[1..], "")
    else WordsFrom(s[1..], current + [s[0]])
  }

  function Words(s: string): seq<string> { WordsFrom(s, "") }

  predicate IsWord(w: string) {
    w != "" && forall i :: 0 <= i < |w| ==> !IsSpace(w[i])
  }

  lemma {:induction false} ThroughWord(w: string, rest: string, current: string)
    requires forall i :: 0 <= i < |w| ==> !IsBlank(w[i])
    ensures WordsFrom(w + rest, current) == WordsFrom(rest, current + w)
  {
    if w == "" {
      assert w + rest == rest && current + w == current;
    } else {
      assert (w + rest)[1..] == w[1..] + rest && (w + rest)[0] == w[0];
      ThroughWord(w[1..], rest, current + [w[0]]);
      assert current + [w[0]] + w[1..] == current + w;
    }
  }

  /** Words, each with a space in front. */
  function Spaced(words: seq<string>): string {
    if words == [] then "" else [' '] + words[0] + Spaced(words[1..])
  }

  lemma {:induction false} WordsBack(first: string, words: seq<string>)
    requires IsWord(first) && forall w :: w in words ==> IsWord(w)
    ensures Words(first + Spaced(words)) == [first] + words
    decreases |words|
  {
    ThroughWord(first, Spaced(words), "");
    assert "" + first == first;
    if words != [] {
      var rest := words[0] + Spaced(words[1..]);
      assert Spaced(words) == [' '] + rest && ([' '] + rest)[1..] == rest;
      WordsBack(words[0], words[1..]);
      assert WordsFrom(Spaced(words), first) == [first] + WordsFrom(rest, "");
    }
  }

  // ---- Searching -------------------------------------------------------------------

  /** Position of the first character satisfying the test, or |s|. */
  function Find(s: string, test: char -> bool): (i: nat)
    ensures i <= |s|
    ensures i < |s| ==> test(s[i])
    ensures forall j :: 0 <= j < i ==> !test(s[j])
  {
    if s == "" || test(s[0]) then 0 else 1 + Find(s[1..], test)
  }

  lemma FindAfter(a: string, c: char, b: string, test: char -> bool)
    requires test(c) && forall j :: 0 <= j < |a| ==> !test(a[j])
    ensures Find(a + [c] + b, test) == |a|
  {
    var s := a + [c] + b;
    assert s[|a|] == c;
    assert forall j :: 0 <= j < |a| ==> s[j] == a[j];
  }

  // ---- Hexadecimal -----------------------------------------------------------------

  function HexDigit(n: nat): char
    requires n < 16
  {
    if n < 10 then '0' + n as char else 'a' + (n - 10) as char
  }

  function FromHexDigit(c: char): (n: Option<nat>)
    ensures n.Some? ==> n.value < 16
  {
    if '0' <= c <= '9' then Some((c - '0') as nat)
    else if 'a' <= c <= 'f' then Some((c - 'a') as nat + 10)
    else if 'A' <= c <= 'F' then Some((c - 'A') as nat + 10)
    else None
  }

  function ToHex(b: Bytes): (s: string)
    ensures |s| == 2 * |b|
  {
    if b == [] then ""
    else [HexDigit(b[0] as nat / 16), HexDigit(b[0] as nat % 16)] + ToHex(b[1..])
  }

  function FromHex(s: string): Option<Bytes> {
    if s == "" then Some([])
    else if |s| == 1 then None
    else
      var high, low, rest := FromHexDigit(s[0]), FromHexDigit(s[1]), FromHex(s[2..]);
      if high.None? || low.None? || rest.None? then None
      else Some([(high.value * 16 + low.value) as byte] + rest.value)
  }

  predicate IsHexChar(c: char) { '0' <= c <= '9' || 'a' <= c <= 'f' }

  lemma HexDigitBack(n: nat)
    requires n < 16
    ensures FromHexDigit(HexDigit(n)) == Some(n) && IsHexChar(HexDigit(n))
  {}

  lemma {:induction false} HexBack(b: Bytes)
    ensures FromHex(ToHex(b)) == Some(b)
    ensures forall i :: 0 <= i < |ToHex(b)| ==> IsHexChar(ToHex(b)[i])
  {
    if b != [] {
      HexBack(b[1..]);
      HexDigitBack(b[0] as nat / 16);
      HexDigitBack(b[0] as nat % 16);
      assert ToHex(b)[2..] == ToHex(b[1..]);
      assert b == [b[0]] + b[1..];
    }
  }

  // ---- Decimal numerals ------------------------------------------------------------

  function Digits(n: nat): string {
    (if n < 10 then "" else Digits(n / 10)) + ['0' + (n % 10) as char]
  }

  function FromDigits(s: string): Option<nat> {
    if s == "" then Some(0)
    else
      var c, front := s[|s| - 1], FromDigits(s[..|s| - 1]);
      if front.None? || !('0' <= c <= '9') then None else Some(front.value * 10 + (c - '0') as nat)
  }

  predicate IsDigits(s: string) {
    s != "" && forall i :: 0 <= i < |s| ==> '0' <= s[i] <= '9'
  }

  lemma {:induction false} DigitsBack(n: nat)
    ensures IsDigits(Digits(n)) && FromDigits(Digits(n)) == Some(n)
  {
    var s, last := Digits(n), ['0' + (n % 10) as char];
    if n >= 10 {
      DigitsBack(n / 10);
    }
    assert s[..|s| - 1] == if n < 10 then "" else Digits(n / 10);
  }
}
