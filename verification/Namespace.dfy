/** Hashed object labels: colon-separated segments with a terminal wildcard. */
module Namespace {
  import opened Basics
  import Text

  const SALT_ID_TAG := "dacar.salt.id"

  /** A hasher bound to one privacy salt; `mac` stands for the keyed, truncated hash. */
  datatype Hasher = Hasher(mac: string -> Hash16) {
    function HashRelation(relation: string): Hash16 { mac(relation) }

    function IdTag(): Hash16 { mac(SALT_ID_TAG) }

    function HashObject(objectId: string): (seq<Hash16>, bool) {
      var (segments, wildcard) := ParseObject(objectId);
      (HashSegments(segments), wildcard)
    }

    function HashSegments(segments: seq<string>): (hashes: seq<Hash16>)
      ensures |hashes| == |segments|
      ensures forall i :: 0 <= i < |segments| ==> hashes[i] == mac(segments[i])
    {
      seq(|segments|, i requires 0 <= i < |segments| => mac(segments[i]))
    }
  }

  /** No label of the one list shares its hash with another label of the other. */
  ghost predicate Apart(h: Hasher, a: seq<string>, b: seq<string>) {
    forall x, y :: x in a && y in b && h.mac(x) == h.mac(y) ==> x == y
  }

  /** The colon-separated segments. */
  function Split(s: string): (segments: seq<string>)
    ensures |segments| >= 1
  {
    Text.Split(s, ':')
  }

  function ParseObject(objectId: string): (seq<string>, bool) {
    if objectId == "*" then ([], true)
    else
      var segments := Split(objectId);
      if segments[|segments| - 1] == "*" then (segments[..|segments| - 1], true)
      else (segments, false)
  }

  /** Does a tuple's hashed object cover a request's exact hashed object? */
  predicate Covers(tupleHashes: seq<Hash16>, wildcard: bool, requestHashes: seq<Hash16>) {
    if wildcard then
      |tupleHashes| <= |requestHashes| && tupleHashes == requestHashes[..|tupleHashes|]
    else tupleHashes == requestHashes
  }

  // ---- The textual meaning of coverage -----------------------------------------

  function Join(segments: seq<string>): string
    requires |segments| >= 1
  {
    if |segments| == 1 then segments[0] else segments[0] + ":" + Join(segments[1..])
  }

  /** An object string ending in the wildcard segment, and what stands before it. */
  predicate HasWildcard(objectId: string) {
    objectId == "*" || (|objectId| >= 2 && objectId[|objectId| - 2..] == ":*")
  }

  /** `text` is `base` itself or lies below it. */
  predicate Under(text: string, base: string) {
    text == base || base + ":" <= text
  }

  /** What a pattern says about a request, in the words of the wildcard rule.  A
      request's own terminal wildcard is dropped before it is matched. */
  predicate CoversText(pattern: string, request: string) {
    if pattern == "*" then true
    else if request == "*" then false
    else
      var target := if HasWildcard(request) then request[..|request| - 2] else request;
      if HasWildcard(pattern) then Under(target, pattern[..|pattern| - 2])
      else pattern == target
  }

  lemma {:induction false} JoinSplit(s: string)
    ensures Join(Split(s)) == s
  {
    if s != "" {
      JoinSplit(s[1..]);
      var rest, all := Split(s[1..]), Split(s);
      if s[0] == ':' {
        assert all[1..] == rest;
        assert s == [] + ":" + s[1..];
      } else if |rest| > 1 {
        assert all[1..] == rest[1..];
        assert s == [s[0]] + (rest[0] + ":" + Join(rest[1..]));
      } else {
        assert all == [[s[0]] + rest[0]];
      }
    }
  }

  lemma {:induction false} JoinConcat(a: seq<string>, b: seq<string>)
    requires |a| >= 1 && |b| >= 1
    ensures Join(a + b) == Join(a) + ":" + Join(b)
  {
    assert (a + b)[1..] == a[1..] + b;
    if |a| > 1 {
      JoinConcat(a[1..], b);
    } else {
      assert (a + b)[1..] == b;
    }
  }

  /** Segment prefixes are exactly textual ancestors. */
  lemma PrefixIsUnder(base: string, text: string)
    ensures Split(base) <= Split(text) <==> Under(text, base)
  {
    var b, t := Split(base), Split(text);
    if Under(text, base) && text != base {
      var tail := text[|base| + 1..];
      assert text == base + ":" + tail;
      Text.SplitAt(base, tail, ':');
    }
    if b <= t {
      JoinSplit(base);
      JoinSplit(text);
      var rest := t[|b|..];
      assert t == b + rest;
      if rest != [] {
        JoinConcat(b, rest);
      } else {
        assert t == b;
      }
    }
  }

  /** A terminal "*" segment is a trailing ":*", and stripping it strips that text. */
  lemma WildcardText(s: string)
    ensures s != "*" ==> (Split(s)[|Split(s)| - 1] == "*" <==> HasWildcard(s))
    ensures s != "*" && HasWildcard(s) ==>
              Split(s)[..|Split(s)| - 1] == Split(s[..|s| - 2])
  {
    if s != "*" {
      var segs := Split(s);
      if HasWildcard(s) {
        var base := s[..|s| - 2];
        assert s == base + ":" + "*";
        Text.SplitAt(base, "*", ':');
        Text.SplitStep('*', "", ':');
        assert ['*'] + "" == "*" && Text.Prepend('*', ':', [""]) == ["*"];
        assert segs == Split(base) + ["*"];
      }
      if segs[|segs| - 1] == "*" {
        JoinSplit(s);
        var head := segs[..|segs| - 1];
        assert segs == head + ["*"];
        if head != [] {
          JoinConcat(head, ["*"]);
          assert s == Join(head) + ":" + "*";
        }
      }
    }
  }

  lemma HashPrefix(h: Hasher, a: seq<string>, b: seq<string>)
    requires Apart(h, a, b)
    ensures h.HashSegments(a) == h.HashSegments(b) <==> a == b
    ensures |a| <= |b| && h.HashSegments(a) == h.HashSegments(b)[..|a|] <==> a <= b
  {
    var ha, hb := h.HashSegments(a), h.HashSegments(b);
    if |a| <= |b| && ha == hb[..|a|] {
      forall i | 0 <= i < |a|
        ensures a[i] == b[i]
      {
        assert ha[i] == hb[..|a|][i] == hb[i];
        assert a[i] in a && b[i] in b;
      }
    }
    if ha == hb {
      forall i | 0 <= i < |a|
        ensures a[i] == b[i]
      {
        assert ha[i] == hb[i];
        assert a[i] in a && b[i] in b;
      }
    }
  }

  /** Matching hashes decides exactly what matching the texts would, for every pattern and
      every request of which no two segments collide. */
  lemma HashCoverageIsTextual(h: Hasher, pattern: string, request: string)
    requires Apart(h, ParseObject(pattern).0, ParseObject(request).0)
    ensures var (tupleHashes, wildcard) := h.HashObject(pattern);
            Covers(tupleHashes, wildcard, h.HashObject(request).0) <==> CoversText(pattern, request)
  {
    var (p, wildcard) := ParseObject(pattern);
    var r := ParseObject(request).0;
    HashPrefix(h, p, r);
    WildcardText(pattern);
    WildcardText(request);
    if pattern != "*" && request != "*" {
      var target := if HasWildcard(request) then request[..|request| - 2] else request;
      assert r == Split(target);
      var base := if wildcard then pattern[..|pattern| - 2] else pattern;
      assert p == Split(base);
      PrefixIsUnder(base, target);
      JoinSplit(base);
      JoinSplit(target);
    }
  }
}
