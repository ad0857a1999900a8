/** Bytes, fixed-width hashes and the small datatypes every other module uses. */
module Basics {
  newtype byte = n: int | 0 <= n < 256

  type Bytes = seq<byte>

  const HASH_SIZE := 16

  /** A truncated label hash, or an identity hash. */
  type Hash16 = b: Bytes | |b| == HASH_SIZE witness seq(HASH_SIZE, _ => 0)

  datatype Option<+T> = None | Some(value: T)

  datatype Result<+T, +E> = Ok(value: T) | Err(error: E) {
    predicate IsFailure() { Err? }

    function PropagateFailure<U>(): Result<U, E>
      requires Err?
    {
      Err(error)
    }

    function Extract(): T
      requires Ok?
    {
      value
    }
  }

  /** Big-endian digits of n, exactly width bytes (the higher digits are dropped). */
  function BigEndian(n: nat, width: nat): (b: Bytes)
    ensures |b| == width
  {
    if width == 0 then [] else BigEndian(n / 256, width - 1) + [(n % 256) as byte]
  }

  function FromBigEndian(b: Bytes): nat {
    if b == [] then 0 else FromBigEndian(b[..|b| - 1]) * 256 + b[|b| - 1] as nat
  }

  function Power256(width: nat): (p: nat)
    ensures p > 0
  {
    if width == 0 then 1 else 256 * Power256(width - 1)
  }

  lemma {:induction false} BigEndianRoundTrip(n: nat, width: nat)
    requires n < Power256(width)
    ensures FromBigEndian(BigEndian(n, width)) == n
  {
    if width > 0 {
      var b := BigEndian(n, width);
      BigEndianRoundTrip(n / 256, width - 1);
      assert b[..|b| - 1] == BigEndian(n / 256, width - 1);
    }
  }

  /** Every byte string is the digits of the number it spells. */
  lemma {:induction false} FromBigEndianBack(b: Bytes)
    ensures FromBigEndian(b) < Power256(|b|) && BigEndian(FromBigEndian(b), |b|) == b
  {
    if b != [] {
      FromBigEndianBack(b[..|b| - 1]);
      assert b == b[..|b| - 1] + [b[|b| - 1]];
    }
  }

  ghost predicate NoDuplicates<T>(s: seq<T>) {
    forall i, j :: 0 <= i < j < |s| ==> s[i] != s[j]
  }

  /** Distinct elements drawn from a list are no more than the list holds. */
  lemma {:induction false} DistinctFit<T>(who: seq<T>, members: seq<T>)
    requires NoDuplicates(who) && forall k :: k in who ==> k in members
    ensures |who| <= |members|
    decreases |members|
  {
    if who != [] {
      assert who[0] in members;
      var m, rest := members[0], members[1..];
      if i :| 0 <= i < |who| && who[i] == m {
        var others := who[..i] + who[i + 1..];
        forall k | k in others
          ensures k in rest
        {
          assert k in members && k != m;
        }
        DistinctFit(others, rest);
      } else {
        DistinctFit(who, rest);
      }
    }
  }

  /** Positions, in rising order, of elements of s that make up r. */
  ghost predicate Rising<T>(s: seq<T>, r: seq<T>, at: seq<nat>) {
    && |at| == |r|
    && (forall i, j :: 0 <= i < j < |at| ==> at[i] < at[j])
    && (forall i :: 0 <= i < |at| ==> at[i] < |s| && s[at[i]] == r[i])
  }

  /** No element to be kept is missing, and every other one is. */
  ghost predicate Exactly<T>(s: seq<T>, keep: T -> bool, at: seq<nat>) {
    forall n :: 0 <= n < |s| ==> (keep(s[n]) <==> n in at)
  }

  /** r is s without the elements that are not to be kept, in order. */
  ghost predicate Filters<T>(s: seq<T>, keep: T -> bool, r: seq<T>) {
    exists at :: Rising(s, r, at) && Exactly(s, keep, at)
  }

  lemma FiltersNothing<T>(keep: T -> bool)
    ensures Filters([], keep, [])
  {
    assert Rising<T>([], [], []) && Exactly([], keep, []);
  }

  lemma FiltersNext<T>(s: seq<T>, keep: T -> bool, r: seq<T>, x: T)
    requires Filters(s, keep, r)
    ensures Filters(s + [x], keep, if keep(x) then r + [x] else r)
  {
    hide Rising, Exactly;
    var at :| Rising(s, r, at) && Exactly(s, keep, at);
    RisingNext(s, r, at, x);
    ExactlyNext(s, keep, r, at, x);
  }

  lemma RisingNext<T>(s: seq<T>, r: seq<T>, at: seq<nat>, x: T)
    requires Rising(s, r, at)
    ensures Rising(s + [x], r, at) && Rising(s + [x], r + [x], at + [|s|])
  {}

  lemma ExactlyNext<T>(s: seq<T>, keep: T -> bool, r: seq<T>, at: seq<nat>, x: T)
    requires Rising(s, r, at) && Exactly(s, keep, at)
    ensures Exactly(s + [x], keep, if keep(x) then at + [|s|] else at)
  {
    assert |s| !in at;
    hide Rising;
    var longer, at' := s + [x], if keep(x) then at + [|s|] else at;
    forall n | 0 <= n < |longer|
      ensures keep(longer[n]) <==> n in at'
    {
      assert n in at' <==> n in at || (keep(x) && n == |s|);
    }
  }

  /** Concatenations of equal-length heads agree only if heads and tails agree. */
  lemma SplitConcat<T>(a: seq<T>, b: seq<T>, c: seq<T>, d: seq<T>)
    requires |a| == |c| && a + b == c + d
    ensures a == c && b == d
  {
    assert a == (a + b)[..|a|] && c == (c + d)[..|c|];
    assert b == (a + b)[|a|..] && d == (c + d)[|c|..];
  }
}
