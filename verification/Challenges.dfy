/** The strict consistency challenge: hashed requests out, signed receipts back. */
module Challenges {
  import opened Basics
  import opened Hlc
  import opened Policy
  import opened Namespace
  import opened Crdt
  import opened StateVectors
  import opened EngineSpec
  import opened Engines

  const NONCE_SIZE := 32
  const SIGNATURE_SIZE := 64
  const DEFAULT_MAX_DEPTH := 10
  const DEFAULT_MAX_VISITED := 50

  type Nonce = b: Bytes | |b| == NONCE_SIZE witness seq(NONCE_SIZE, _ => 0)
  type Signature = b: Bytes | |b| == SIGNATURE_SIZE witness seq(SIGNATURE_SIZE, _ => 0)

  /** The value tree that travels; Other stands for every value these records never hold. */
  datatype Wire =
    | Bin(bytes: Bytes) | Int(n: int) | Bool(b: bool) | Float(x: real) | Array(items: seq<Wire>) | Other

  datatype WireError = Malformed(what: string)

  // ---- Challenges ------------------------------------------------------------------

  datatype Challenge = Challenge(
    objectId: string, relation: string, grantee: Hash16, nonce: Nonce, hashers: seq<Hasher>)

  /** One salt's hashed hypothesis. */
  datatype ChallengeEntry = ChallengeEntry(
    saltTag: Hash16, grantee: Hash16, allowHash: Hash16, denyHash: Hash16, objectHashes: seq<Hash16>)

  datatype Decoded = Decoded(nonce: Nonce, grantee: Hash16, entries: seq<ChallengeEntry>)

  function EntryFor(c: Challenge, hasher: Hasher): ChallengeEntry {
    ChallengeEntry(hasher.IdTag(), c.grantee, hasher.HashRelation(c.relation),
                   hasher.HashRelation("-" + c.relation), hasher.HashObject(c.objectId).0)
  }

  function EntriesFor(c: Challenge, hashers: seq<Hasher>): (entries: seq<ChallengeEntry>)
    ensures |entries| == |hashers|
  {
    if hashers == [] then []
    else EntriesFor(c, hashers[..|hashers| - 1]) + [EntryFor(c, hashers[|hashers| - 1])]
  }

  function Bins(hashes: seq<Hash16>): (items: seq<Wire>)
    ensures |items| == |hashes|
    ensures forall i :: 0 <= i < |items| ==> items[i] == Bin(hashes[i])
  {
    seq(|hashes|, i requires 0 <= i < |hashes| => Bin(hashes[i]))
  }

  function EncodeEntry(e: ChallengeEntry): Wire {
    Array([Bin(e.saltTag), Bin(e.grantee), Bin(e.allowHash), Bin(e.denyHash), Array(Bins(e.objectHashes))])
  }

  function EncodeEntries(entries: seq<ChallengeEntry>): (items: seq<Wire>)
    ensures |items| == |entries|
    ensures forall i :: 0 <= i < |items| ==> items[i] == EncodeEntry(entries[i])
  {
    seq(|entries|, i requires 0 <= i < |entries| => EncodeEntry(entries[i]))
  }

  function Encode(nonce: Nonce, entries: seq<ChallengeEntry>): Wire {
    Array([Bin(nonce), Array(EncodeEntries(entries))])
  }

  function ToPayload(c: Challenge): Wire {
    Encode(c.nonce, EntriesFor(c, c.hashers))
  }

  method BuildPayload(c: Challenge) returns (payload: Wire)
    ensures payload == ToPayload(c)
  {
    var items: seq<Wire> := [];
    for n := 0 to |c.hashers|
      invariant items == EncodeEntries(EntriesFor(c, c.hashers[..n]))
    {
      var hasher := c.hashers[n];
      assert c.hashers[..n + 1][..n] == c.hashers[..n] && c.hashers[..n + 1][n] == hasher;
      var (hashes, wildcard) := hasher.HashObject(c.objectId);
      items := items + [Array([Bin(hasher.IdTag()), Bin(c.grantee), Bin(hasher.HashRelation(c.relation)),
                               Bin(hasher.HashRelation("-" + c.relation)), Array(Bins(hashes))])];
    }
    assert c.hashers[..|c.hashers|] == c.hashers;
    payload := Array([Bin(c.nonce), Array(items)]);
  }

  predicate IsHash(w: Wire) { w.Bin? && |w.bytes| == HASH_SIZE }

  function ToHash(w: Wire): Hash16
    requires IsHash(w)
  {
    w.bytes
  }

  function ToHashes(items: seq<Wire>): (hashes: seq<Hash16>)
    requires forall i :: 0 <= i < |items| ==> IsHash(items[i])
    ensures |hashes| == |items|
    ensures forall i :: 0 <= i < |items| ==> hashes[i] == ToHash(items[i])
  {
    seq(|items|, i requires 0 <= i < |items| => ToHash(items[i]))
  }

  function DecodeEntry(w: Wire): Result<ChallengeEntry, WireError> {
    if !(w.Array? && |w.items| == 5) then Err(Malformed("entry"))
    else if !IsHash(w.items[0]) then Err(Malformed("salt_id_tag"))
    else if !IsHash(w.items[1]) then Err(Malformed("grantee_hash"))
    else if !IsHash(w.items[2]) then Err(Malformed("allow_relation_hash"))
    else if !IsHash(w.items[3]) then Err(Malformed("deny_relation_hash"))
    else if !w.items[4].Array? then Err(Malformed("object_segment_hashes"))
    else if !(forall i :: 0 <= i < |w.items[4].items| ==> IsHash(w.items[4].items[i])) then
      Err(Malformed("object segment hash"))
    else
      Ok(ChallengeEntry(w.items[0].bytes, w.items[1].bytes, w.items[2].bytes, w.items[3].bytes,
                        ToHashes(w.items[4].items)))
  }

  lemma DecodeEntryExact(w: Wire, e: ChallengeEntry)
    ensures DecodeEntry(w) == Ok(e) <==> w == EncodeEntry(e)
  {
    if DecodeEntry(w) == Ok(e) {
      assert w.items[4].items == Bins(e.objectHashes);
      assert w.items == EncodeEntry(e).items;
    }
    if w == EncodeEntry(e) {
      assert ToHashes(w.items[4].items) == e.objectHashes;
    }
  }

  /** Decode a challenge; anything but an exact, one-grantee, non-empty list is an error. */
  method FromPayload(w: Wire) returns (r: Result<Decoded, WireError>)
    ensures forall d :: r == Ok(d) <==> Decodes(w, d)
  {
    if !(w.Array? && |w.items| == 2) {
      return Err(Malformed("payload"));
    }
    if !(w.items[0].Bin? && |w.items[0].bytes| == NONCE_SIZE) {
      return Err(Malformed("nonce"));
    }
    if !w.items[1].Array? {
      return Err(Malformed("entries"));
    }
    var nonce: Nonce, items := w.items[0].bytes, w.items[1].items;
    var entries: seq<ChallengeEntry> := [];
    var grantee: Option<Hash16> := None;
    for n := 0 to |items|
      invariant EncodeEntries(entries) == items[..n]
      invariant grantee.None? <==> n == 0
      invariant forall i :: 0 <= i < n ==> entries[i].grantee == grantee.value
    {
      var entry := DecodeEntry(items[n]);
      if entry.Err? {
        NoSuchDecoding(w, n);
        return Err(entry.error);
      }
      DecodeEntryExact(items[n], entry.value);
      if grantee.None? {
        grantee := Some(entry.value.grantee);
      } else if grantee.value != entry.value.grantee {
        TwoGrantees(w, items[0], items[n], entries[0], entry.value, n);
        return Err(Malformed("all challenge entries must share one grantee"));
      }
      entries := entries + [entry.value];
    }
    if grantee.None? {
      return Err(Malformed("challenge must carry at least one entry"));
    }
    var d := Decoded(nonce, grantee.value, entries);
    assert items[..|items|] == items;
    assert w.items == [Bin(nonce), Array(items)];
    assert Decodes(w, d);
    DecodingUnique(w, d);
    return Ok(d);
  }

  /** What every decoded challenge satisfies. */
  ghost predicate WellFormed(d: Decoded) {
    d.entries != [] && forall i :: 0 <= i < |d.entries| ==> d.entries[i].grantee == d.grantee
  }

  /** A payload decodes in at most one way. */
  lemma DecodingUnique(w: Wire, d: Decoded)
    requires Decodes(w, d)
    ensures forall d' :: Decodes(w, d') ==> d' == d
  {
    forall d' | Decodes(w, d')
      ensures d' == d
    {
      assert w.items == [Bin(d.nonce), Array(EncodeEntries(d.entries))];
      assert w.items[0] == Bin(d.nonce) == Bin(d'.nonce);
      assert w.items[1] == Array(EncodeEntries(d'.entries));
      SameEntries(d'.entries, d.entries);
      assert d.entries[0].grantee == d.grantee == d'.grantee;
    }
  }

  ghost predicate Decodes(w: Wire, d: Decoded) {
    WellFormed(d) && w == Encode(d.nonce, d.entries)
  }

  lemma NoSuchDecoding(w: Wire, n: nat)
    requires w.Array? && |w.items| == 2 && w.items[1].Array? && n < |w.items[1].items|
    requires DecodeEntry(w.items[1].items[n]).Err?
    ensures forall d: Decoded :: w != Encode(d.nonce, d.entries)
  {
    forall d: Decoded
      ensures w != Encode(d.nonce, d.entries)
    {
      if n < |d.entries| {
        DecodeEntryExact(w.items[1].items[n], d.entries[n]);
      }
    }
  }

  lemma TwoGrantees(w: Wire, first: Wire, later: Wire, a: ChallengeEntry, b: ChallengeEntry, n: nat)
    requires w.Array? && |w.items| == 2 && w.items[1].Array? && 0 < n < |w.items[1].items|
    requires first == w.items[1].items[0] == EncodeEntry(a) && later == w.items[1].items[n] == EncodeEntry(b)
    requires a.grantee != b.grantee
    ensures forall d: Decoded :: WellFormed(d) ==> w != Encode(d.nonce, d.entries)
  {
    forall d: Decoded | WellFormed(d)
      ensures w != Encode(d.nonce, d.entries)
    {
      if n < |d.entries| {
        DecodeEntryExact(first, d.entries[0]);
        DecodeEntryExact(later, d.entries[n]);
        DecodeEntryExact(first, a);
        DecodeEntryExact(later, b);
      }
    }
  }

  lemma SameEntries(a: seq<ChallengeEntry>, b: seq<ChallengeEntry>)
    requires EncodeEntries(a) == EncodeEntries(b)
    ensures a == b
  {
    assert |a| == |EncodeEntries(a)| == |b|;
    forall i | 0 <= i < |a|
      ensures a[i] == b[i]
    {
      assert EncodeEntries(a)[i] == EncodeEntries(b)[i];
      DecodeEntryExact(EncodeEntry(a[i]), a[i]);
      DecodeEntryExact(EncodeEntry(a[i]), b[i]);
    }
  }

  // ---- Binding a decoded challenge to the configured salts -----------------------

  /** The configured hasher with this tag; the last one wins, as when building a dict. */
  function ByTag(hashers: seq<Hasher>, tag: Hash16): (found: Option<Hasher>)
    ensures found.Some? ==> found.value in hashers && found.value.IdTag() == tag
    ensures found.Some? ==> exists i :: 0 <= i < |hashers| && hashers[i] == found.value
                                        && forall j :: i < j < |hashers| ==> hashers[j].IdTag() != tag
    ensures found.None? ==> forall h :: h in hashers ==> h.IdTag() != tag
  {
    if hashers == [] then None
    else if hashers[|hashers| - 1].IdTag() == tag then Some(hashers[|hashers| - 1])
    else ByTag(hashers[..|hashers| - 1], tag)
  }

  function Bind(hasher: Hasher, e: ChallengeEntry): Hypothesis {
    Hypothesis(hasher.IdTag(), e.objectHashes, e.allowHash, e.denyHash,
               hasher.HashRelation(ADMIN_RELATION), hasher.HashRelation("-" + ADMIN_RELATION))
  }

  function Hypotheses(hashers: seq<Hasher>, entries: seq<ChallengeEntry>): seq<Hypothesis> {
    if entries == [] then []
    else
      var before, e := Hypotheses(hashers, entries[..|entries| - 1]), entries[|entries| - 1];
      var hasher := ByTag(hashers, e.saltTag);
      if hasher.None? then before else before + [Bind(hasher.value, e)]
  }

  method BuildHypotheses(hashers: seq<Hasher>, entries: seq<ChallengeEntry>) returns (hyps: seq<Hypothesis>)
    ensures hyps == Hypotheses(hashers, entries)
  {
    var byTag: map<Hash16, Hasher> := map[];
    for n := 0 to |hashers|
      invariant forall tag :: (tag in byTag <==> ByTag(hashers[..n], tag).Some?)
      invariant forall tag :: tag in byTag ==> ByTag(hashers[..n], tag) == Some(byTag[tag])
    {
      assert hashers[..n + 1][..n] == hashers[..n] && hashers[..n + 1][n] == hashers[n];
      byTag := byTag[hashers[n].IdTag() := hashers[n]];
    }
    assert hashers[..|hashers|] == hashers;
    hyps := [];
    for n := 0 to |entries|
      invariant hyps == Hypotheses(hashers, entries[..n])
    {
      var e := entries[n];
      assert entries[..n + 1][..n] == entries[..n] && entries[..n + 1][n] == e;
      if e.saltTag in byTag {
        hyps := hyps + [Bind(byTag[e.saltTag], e)];
      }
    }
    assert entries[..|entries|] == entries;
  }

  /** The client's salts that the server also has, in the client's order. */
  function SharedSalts(client: seq<Hasher>, server: seq<Hasher>): seq<Hasher> {
    if client == [] then []
    else
      var before, h := SharedSalts(client[..|client| - 1], server), client[|client| - 1];
      if ByTag(server, h.IdTag()).None? then before else before + [h]
  }

  /** Equal tags mean equal salts. */
  ghost predicate TagsIdentify(client: seq<Hasher>, server: seq<Hasher>) {
    forall a, b :: a in client && b in server && a.IdTag() == b.IdTag() ==> a == b
  }

  /** The server rebuilds exactly the hypotheses that the shared salts make of the
      plaintext request it never saw. */
  lemma {:induction false} WireKeepsRequest(c: Challenge, client: seq<Hasher>, server: seq<Hasher>)
    requires TagsIdentify(client, server)
    ensures Hypotheses(server, EntriesFor(c, client))
            == HypothesesFor(SharedSalts(client, server), c.objectId, c.relation)
  {
    if client != [] {
      var before, h := client[..|client| - 1], client[|client| - 1];
      WireKeepsRequest(c, before, server);
      var entries := EntriesFor(c, before);
      assert (entries + [EntryFor(c, h)])[..|entries|] == entries;
      assert h in client;
    }
  }

  lemma {:induction false} SameSaltsAllShared(salts: seq<Hasher>, server: seq<Hasher>)
    requires forall h :: h in salts ==> h in server
    ensures SharedSalts(salts, server) == salts
  {
    if salts != [] {
      SameSaltsAllShared(salts[..|salts| - 1], server);
      assert salts[|salts| - 1] in server;
      assert salts == salts[..|salts| - 1] + [salts[|salts| - 1]];
    }
  }

  /** Shared are exactly the client's salts whose tag the server has, in the client's order. */
  lemma {:induction false} SharedFilters(client: seq<Hasher>, server: seq<Hasher>)
    ensures Filters(client, (h: Hasher) => exists s :: s in server && s.IdTag() == h.IdTag(), SharedSalts(client, server))
  {
    hide Filters;
    var keep := (h: Hasher) => exists s :: s in server && s.IdTag() == h.IdTag();
    if client == [] {
      FiltersNothing(keep);
    } else {
      var before, last := client[..|client| - 1], client[|client| - 1];
      SharedFilters(before, server);
      FiltersNext(before, keep, SharedSalts(before, server), last);
      assert before + [last] == client;
      assert keep(last) <==> ByTag(server, last.IdTag()).Some?;
    }
  }

  lemma {:induction false} NoSaltShared(client: seq<Hasher>, server: seq<Hasher>)
    requires forall a, b :: a in client && b in server ==> a.IdTag() != b.IdTag()
    ensures SharedSalts(client, server) == []
  {
    if client != [] {
      NoSaltShared(client[..|client| - 1], server);
      assert client[|client| - 1] in client;
    }
  }

  // ---- Receipts --------------------------------------------------------------------

  datatype Receipt = Receipt(allow: bool, hlc: Timestamp, nonce: Nonce)

  /** The bytes a receipt's signature covers: verdict, big-endian time, nonce. */
  function ReceiptBytes(r: Receipt): Bytes {
    [if r.allow then 1 else 0] + BigEndian(r.hlc, 8) + r.nonce
  }

  /** A signature fixes verdict, time and nonce. */
  lemma ReceiptBytesInjective(a: Receipt, b: Receipt)
    requires ReceiptBytes(a) == ReceiptBytes(b)
    ensures a == b
  {
    var verdict := (r: Receipt) => [if r.allow then 1 as byte else 0];
    SplitConcat(verdict(a) + BigEndian(a.hlc, 8), a.nonce, verdict(b) + BigEndian(b.hlc, 8), b.nonce);
    SplitConcat(verdict(a), BigEndian(a.hlc, 8), verdict(b), BigEndian(b.hlc, 8));
    assert verdict(a)[0] == verdict(b)[0];
    assert Power256(8) == 0x1_0000_0000_0000_0000 by {
      assert Power256(4) == 0x1_0000_0000;
    }
    BigEndianRoundTrip(a.hlc, 8);
    BigEndianRoundTrip(b.hlc, 8);
  }

  function EncodeReceipt(r: Receipt, signature: Signature): Wire {
    Array([Int(if r.allow then 1 else 0), Int(r.hlc), Bin(r.nonce), Bin(signature)])
  }

  /** The integer a value is, when truth values count as integers. */
  function AsInteger(w: Wire): Option<int> {
    match w
    case Int(n) => Some(n)
    case Bool(b) => Some(if b then 1 else 0)
    case _ => None
  }

  /** The value equals the number: a float may, too. */
  predicate IsNumber(w: Wire, n: int) {
    AsInteger(w) == Some(n) || (w.Float? && w.x == n as real)
  }

  /** A four-element array whose verdict equals one or zero, whose time is an integer, and
      whose blobs are the receipt's nonce and the signature. */
  predicate Reads(w: Wire, r: Receipt, signature: Signature) {
    && w.Array? && |w.items| == 4
    && IsNumber(w.items[0], if r.allow then 1 else 0)
    && AsInteger(w.items[1]) == Some(r.hlc)
    && w.items[2] == Bin(r.nonce) && w.items[3] == Bin(signature)
  }

  function ParseReceipt(w: Wire): (p: Result<(Receipt, Signature), WireError>)
    ensures forall r, s :: p == Ok((r, s)) <==> Reads(w, r, s)
  {
    if !(w.Array? && |w.items| == 4) then Err(Malformed("receipt payload"))
    else if !(IsNumber(w.items[0], 1) || IsNumber(w.items[0], 0)) then Err(Malformed("verdict"))
    else
      var hlc := AsInteger(w.items[1]);
      if hlc.None? || !(0 <= hlc.value <= MAX_HLC) then Err(Malformed("server_hlc"))
      else if !(w.items[2].Bin? && |w.items[2].bytes| == NONCE_SIZE) then Err(Malformed("nonce"))
      else if !(w.items[3].Bin? && |w.items[3].bytes| == SIGNATURE_SIZE) then Err(Malformed("signature"))
      else Ok((Receipt(IsNumber(w.items[0], 1), hlc.value, w.items[2].bytes), w.items[3].bytes))
  }

  /** Every receipt reads back from its encoding, and two readings of one payload agree. */
  lemma ReceiptRoundTrip(r: Receipt, signature: Signature, w: Wire, r': Receipt, signature': Signature)
    ensures ParseReceipt(EncodeReceipt(r, signature)) == Ok((r, signature))
    ensures Reads(w, r, signature) && Reads(w, r', signature') ==> r == r' && signature == signature'
  {
    assert Reads(EncodeReceipt(r, signature), r, signature);
  }

  // ---- The two parties -------------------------------------------------------------

  /** What the server decides about a decoded challenge. */
  predicate ServerAllows(env: Env, hashers: seq<Hasher>, d: Decoded) {
    var hyps := Hypotheses(hashers, d.entries);
    hyps != [] && Allowed(env, d.grantee, hyps)
  }

  function ReceiptFor(env: Env, hashers: seq<Hasher>, d: Decoded, hlc: Timestamp): Receipt {
    Receipt(ServerAllows(env, hashers, d), hlc, d.nonce)
  }

  function Signed(sign: Bytes -> Signature, r: Receipt): Wire {
    EncodeReceipt(r, sign(ReceiptBytes(r)))
  }

  class AuthoritativeServer {
    const engine: Engine
    const clock: Clock
    const sign: Bytes -> Signature

    constructor (roots: set<Hash16>, hashers: seq<Hasher>, state: StateVector, clock: Clock, sign: Bytes -> Signature)
      ensures engine.roots == roots && engine.hashers == hashers && engine.state == state
      ensures engine.maxDepth == DEFAULT_MAX_DEPTH && engine.maxVisited == DEFAULT_MAX_VISITED
      ensures this.clock == clock && this.sign == sign && fresh(engine)
    {
      engine := new Engine(roots, hashers, state, DEFAULT_MAX_DEPTH, DEFAULT_MAX_VISITED);
      this.clock, this.sign := clock, sign;
    }

    /** Evaluate a challenge on the current state; sign the verdict with a new timestamp. */
    method Handle(payload: Wire, phys: nat) returns (reply: Option<Wire>)
      requires engine.state.Valid()
      modifies engine, clock
      ensures reply.Some? <==> (exists d :: Decodes(payload, d)) && NowStep(old(clock.State()), phys).hlc.Ok?
      ensures forall d :: Decodes(payload, d) && reply.Some? ==>
                reply.value == Signed(sign, ReceiptFor(engine.Env(ActiveTuples(engine.state.entries)), engine.hashers,
                                                       d, NowStep(old(clock.State()), phys).hlc.value))
      ensures clock.State() == if exists d :: Decodes(payload, d) then NowStep(old(clock.State()), phys).state
                               else old(clock.State())
    {
      hide Signed, Encode, Allowed, NowStep, WellFormed;
      var parsed := FromPayload(payload);
      if parsed.Err? {
        return None;
      }
      var d := parsed.value;
      assert Decodes(payload, d);
      var hyps := BuildHypotheses(engine.hashers, d.entries);
      var allowed := false;
      if hyps != [] {
        allowed := engine.EvaluateHashes(d.grantee, hyps);
      }
      var hlc := clock.Now(phys);
      if hlc.Err? {
        return None;
      }
      var receipt := Receipt(allowed, hlc.value, d.nonce);
      DecodingUnique(payload, d);
      reply := Some(Signed(sign, receipt));
    }
  }

  /** What a call of the client makes of the transport's reply. */
  function Conclude(nonce: Nonce, verify: (Bytes, Signature) -> bool, reply: Option<Wire>): Result<bool, WireError> {
    if reply.None? then Ok(false)
    else
      var parsed := ParseReceipt(reply.value);
      if parsed.Err? then Err(parsed.error)
      else
        var (receipt, signature) := parsed.value;
        Ok(receipt.nonce == nonce && verify(ReceiptBytes(receipt), signature) && receipt.allow)
  }

  /** A call returns true exactly on a readable receipt of its nonce whose signature verifies
      and whose verdict is ALLOW; it fails exactly on a reply that reads as no receipt; in
      every other case, a partition included, it returns false. */
  lemma ConcludeExactly(nonce: Nonce, verify: (Bytes, Signature) -> bool, reply: Option<Wire>)
    ensures Conclude(nonce, verify, reply) == Ok(true) <==>
              reply.Some? && exists r, signature ::
                Reads(reply.value, r, signature) && r.nonce == nonce && verify(ReceiptBytes(r), signature) && r.allow
    ensures Conclude(nonce, verify, reply).Err? <==>
              reply.Some? && forall r, signature :: !Reads(reply.value, r, signature)
  {
    if reply.Some? {
      var parsed := ParseReceipt(reply.value);
      if parsed.Ok? {
        assert Reads(reply.value, parsed.value.0, parsed.value.1);
      }
    }
  }

  /** The keys belong together: what is signed verifies. */
  ghost predicate Matching(sign: Bytes -> Signature, verify: (Bytes, Signature) -> bool) {
    forall b :: verify(b, sign(b))
  }

  /** A signed receipt of the call's own nonce is believed, whatever it says. */
  lemma SignedIsBelieved(sign: Bytes -> Signature, verify: (Bytes, Signature) -> bool, r: Receipt)
    requires Matching(sign, verify)
    ensures Conclude(r.nonce, verify, Some(Signed(sign, r))) == Ok(r.allow)
  {
    ReceiptRoundTrip(r, sign(ReceiptBytes(r)), EncodeReceipt(r, sign(ReceiptBytes(r))), r, sign(ReceiptBytes(r)));
  }

  /** What a server with these salts decides about a challenge in the client's words: its
      engine's answer under the salts both sides share, and DENY with none shared. */
  predicate DecidesShared(env: Env, salts: seq<Hasher>, c: Challenge) {
    var shared := SharedSalts(c.hashers, salts);
    shared != [] && Allowed(env, c.grantee, HypothesesFor(shared, c.objectId, c.relation))
  }

  lemma {:induction false} EntriesShareGrantee(c: Challenge, hashers: seq<Hasher>)
    ensures forall e :: e in EntriesFor(c, hashers) ==> e.grantee == c.grantee
  {
    if hashers != [] {
      EntriesShareGrantee(c, hashers[..|hashers| - 1]);
    }
  }

  /** What the server reads off a challenge: its nonce, its grantee and its entries. */
  function Sent(c: Challenge): Decoded { Decoded(c.nonce, c.grantee, EntriesFor(c, c.hashers)) }

  /** A challenge under at least one salt decodes, to what was sent and to nothing else. */
  lemma ChallengeRoundTrip(c: Challenge)
    ensures c.hashers != [] <==> Decodes(ToPayload(c), Sent(c))
    ensures forall d :: Decodes(ToPayload(c), d) ==> d == Sent(c)
  {
    EntriesShareGrantee(c, c.hashers);
    forall d | Decodes(ToPayload(c), d)
      ensures d == Sent(c)
    {
      assert ToPayload(c).items == [Bin(d.nonce), Array(EncodeEntries(d.entries))];
      assert ToPayload(c).items[0] == Bin(c.nonce) == Bin(d.nonce);
      SameEntries(EntriesFor(c, c.hashers), d.entries);
      assert d.entries[0].grantee == d.grantee == c.grantee;
    }
  }

  /** The server's verdict on the hashes it receives is the one on the plaintext. */
  lemma PlaintextVerdict(env: Env, salts: seq<Hasher>, c: Challenge, d: Decoded)
    requires TagsIdentify(c.hashers, salts) && Decodes(ToPayload(c), d)
    ensures d.nonce == c.nonce && d.grantee == c.grantee
    ensures ServerAllows(env, salts, d) <==> DecidesShared(env, salts, c)
  {
    ChallengeRoundTrip(c);
    WireKeepsRequest(c, c.hashers, salts);
  }

  /** An honest exchange: delivering the server's own receipt makes the call return exactly
      the server's verdict on the plaintext request. */
  lemma HonestReply(c: Challenge, verify: (Bytes, Signature) -> bool, env: Env, salts: seq<Hasher>,
                    sign: Bytes -> Signature, d: Decoded, hlc: Timestamp)
    requires Matching(sign, verify) && TagsIdentify(c.hashers, salts) && Decodes(ToPayload(c), d)
    ensures Conclude(c.nonce, verify, Some(Signed(sign, ReceiptFor(env, salts, d, hlc))))
            == Ok(DecidesShared(env, salts, c))
  {
    hide Conclude, Signed, ServerAllows, DecidesShared, Encode, ToPayload;
    PlaintextVerdict(env, salts, c, d);
    SignedIsBelieved(sign, verify, ReceiptFor(env, salts, d, hlc));
  }

  class ChallengeClient {
    const engine: Engine
    const verify: (Bytes, Signature) -> bool

    constructor (roots: set<Hash16>, hashers: seq<Hasher>, state: StateVector, verify: (Bytes, Signature) -> bool)
      ensures engine.roots == roots && engine.hashers == hashers && engine.state == state
      ensures engine.maxDepth == DEFAULT_MAX_DEPTH && engine.maxVisited == DEFAULT_MAX_VISITED
      ensures this.verify == verify && fresh(engine)
    {
      engine := new Engine(roots, hashers, state, DEFAULT_MAX_DEPTH, DEFAULT_MAX_VISITED);
      this.verify := verify;
    }

    /** True only on a local allow and a verified server ALLOW for this very nonce; a
        partition is a denial, and an unreadable receipt is an error. */
    method Authorize(objectId: string, relation: string, grantee: Hash16, nonce: Nonce, transport: Wire -> Option<Wire>)
      returns (r: Result<bool, WireError>)
      requires engine.state.Valid()
      modifies engine
      ensures var local := Allowed(engine.Env(ActiveTuples(engine.state.entries)), grantee,
                                   HypothesesFor(engine.hashers, objectId, relation));
              var challenge := Challenge(objectId, relation, grantee, nonce, engine.hashers);
              r == if local then Conclude(nonce, verify, transport(ToPayload(challenge))) else Ok(false)
      ensures var challenge := Challenge(objectId, relation, grantee, nonce, engine.hashers);
              && (transport(ToPayload(challenge)).None? ==> r == Ok(false))
              && forall env, salts, sign, d, hlc ::
                   Matching(sign, verify) && TagsIdentify(engine.hashers, salts) && Decodes(ToPayload(challenge), d)
                   && transport(ToPayload(challenge)) == Some(Signed(sign, ReceiptFor(env, salts, d, hlc))) ==>
                     r == Ok(&& Allowed(engine.Env(ActiveTuples(engine.state.entries)), grantee,
                                        HypothesesFor(engine.hashers, objectId, relation))
                             && DecidesShared(env, salts, challenge))
    {
      hide Signed, Allowed, ToPayload, Matching, TagsIdentify, Decodes, ReceiptFor, DecidesShared;
      var challenge := Challenge(objectId, relation, grantee, nonce, engine.hashers);
      forall env, salts, sign, d, hlc | Matching(sign, verify) && TagsIdentify(engine.hashers, salts)
                                        && Decodes(ToPayload(challenge), d)
        ensures Conclude(nonce, verify, Some(Signed(sign, ReceiptFor(env, salts, d, hlc))))
                == Ok(DecidesShared(env, salts, challenge))
      {
        HonestReply(challenge, verify, env, salts, sign, d, hlc);
      }
      var local := engine.Evaluate(objectId, relation, grantee);
      if !local {
        return Ok(false);
      }
      var payload := BuildPayload(challenge);
      var reply := transport(payload);
      if reply.None? {
        return Ok(false);
      }
      var parsed := ParseReceipt(reply.value);
      if parsed.Err? {
        return Err(parsed.error);
      }
      var (receipt, signature) := parsed.value;
      if receipt.nonce != nonce || !verify(ReceiptBytes(receipt), signature) {
        return Ok(false);
      }
      return Ok(receipt.allow);
    }
  }
}
