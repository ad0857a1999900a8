/** The authorization tuple, its canonical key, and signed operations. */
module Policy {
  import opened Basics
  import opened Hlc

  const MAX_SEGMENTS := 0xFF

  type Segments = s: seq<Hash16> | |s| <= MAX_SEGMENTS

  datatype Tuple = Tuple(
    relationHash: Hash16, objectHashes: Segments, wildcard: bool, grantee: Hash16, issuer: Hash16)

  function Flag(b: bool): byte { if b then 1 else 0 }

  function Flatten(hashes: seq<Hash16>): (b: Bytes)
    ensures |b| == HASH_SIZE * |hashes|
  {
    if hashes == [] then [] else hashes[0] + Flatten(hashes[1..])
  }

  /** The canonical pre-image: the identity of a permission, without action or time. */
  function Key(t: Tuple): Bytes {
    t.issuer + t.grantee + t.relationHash
    + [Flag(t.wildcard), |t.objectHashes| as byte] + Flatten(t.objectHashes)
  }

  lemma {:induction false} FlattenInjective(a: seq<Hash16>, b: seq<Hash16>)
    requires |a| == |b| && Flatten(a) == Flatten(b)
    ensures a == b
  {
    if a != [] {
      SplitConcat(a[0], Flatten(a[1..]), b[0], Flatten(b[1..]));
      FlattenInjective(a[1..], b[1..]);
    }
  }

  /** Distinct permissions have distinct keys. */
  lemma KeyInjective(t: Tuple, u: Tuple)
    requires Key(t) == Key(u)
    ensures t == u
  {
    var head := (v: Tuple) => v.issuer + v.grantee + v.relationHash;
    var mid := (v: Tuple) => [Flag(v.wildcard), |v.objectHashes| as byte];
    assert Key(t) == head(t) + (mid(t) + Flatten(t.objectHashes));
    assert Key(u) == head(u) + (mid(u) + Flatten(u.objectHashes));
    SplitConcat(head(t), mid(t) + Flatten(t.objectHashes), head(u), mid(u) + Flatten(u.objectHashes));
    SplitConcat(t.issuer + t.grantee, t.relationHash, u.issuer + u.grantee, u.relationHash);
    SplitConcat(t.issuer, t.grantee, u.issuer, u.grantee);
    SplitConcat(mid(t), Flatten(t.objectHashes), mid(u), Flatten(u.objectHashes));
    assert mid(t)[0] == mid(u)[0] && mid(t)[1] == mid(u)[1];
    FlattenInjective(t.objectHashes, u.objectHashes);
  }

  datatype Action = Revoke | Grant

  datatype Operation = Operation(tuple: Tuple, action: Action, hlc: Timestamp, signatures: seq<Bytes>)

  /** The bytes an operation's signatures cover. */
  function SigningBytes(op: Operation): Bytes {
    op.tuple.issuer + op.tuple.grantee
    + ([if op.action.Grant? then 1 else 0] + BigEndian(op.hlc, 8))
    + (op.tuple.relationHash
       + [Flag(op.tuple.wildcard), |op.tuple.objectHashes| as byte]
       + Flatten(op.tuple.objectHashes))
  }

  /** A signature fixes the whole operation: no two operations share signing bytes. */
  lemma SigningBytesInjective(a: Operation, b: Operation)
    requires SigningBytes(a) == SigningBytes(b)
    ensures a.(signatures := b.signatures) == b
  {
    var who := (o: Operation) => o.tuple.issuer + o.tuple.grantee;
    var what := (o: Operation) => [if o.action.Grant? then 1 else 0] + BigEndian(o.hlc, 8);
    var rest := (o: Operation) =>
      o.tuple.relationHash + [Flag(o.tuple.wildcard), |o.tuple.objectHashes| as byte]
      + Flatten(o.tuple.objectHashes);
    SplitConcat(who(a) + what(a), rest(a), who(b) + what(b), rest(b));
    SplitConcat(who(a), what(a), who(b), what(b));
    var action := (o: Operation) => [if o.action.Grant? then 1 as byte else 0];
    SplitConcat(action(a), BigEndian(a.hlc, 8), action(b), BigEndian(b.hlc, 8));
    assert action(a)[0] == action(b)[0];
    assert Power256(8) == 0x1_0000_0000_0000_0000 by {
      assert Power256(4) == 0x1_0000_0000;
    }
    BigEndianRoundTrip(a.hlc, 8);
    BigEndianRoundTrip(b.hlc, 8);
    assert Key(a.tuple) == who(a) + rest(a) && Key(b.tuple) == who(b) + rest(b);
    KeyInjective(a.tuple, b.tuple);
  }
}
