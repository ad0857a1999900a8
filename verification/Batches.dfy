/** Batch envelopes: a MessagePack array of binary payloads, packed to a size limit. */
module Batches {
  import opened Basics

  const U8_SPAN := 0x100
  const U16_SPAN := 0x1_0000
  const U32_SPAN := 0x1_0000_0000

  /** Array header: fixarray, array 16 or array 32 of the MessagePack specification. */
  function ArrayHeader(n: nat): (h: Bytes)
    ensures 1 <= |h| <= 5
  {
    if n < 16 then [(0x90 + n) as byte]
    else if n < U16_SPAN then [0xdc] + BigEndian(n, 2)
    else [0xdd] + BigEndian(n, 4)
  }

  /** Binary header: bin 8, bin 16 or bin 32. */
  function BinHeader(n: nat): Bytes {
    if n < U8_SPAN then [0xc4] + BigEndian(n, 1)
    else if n < U16_SPAN then [0xc5] + BigEndian(n, 2)
    else [0xc6] + BigEndian(n, 4)
  }

  function EncodeBin(p: Bytes): Bytes { BinHeader(|p|) + p }

  function EncodeBins(payloads: seq<Bytes>): Bytes {
    if payloads == [] then [] else EncodeBin(payloads[0]) + EncodeBins(payloads[1..])
  }

  function EncodeBatch(payloads: seq<Bytes>): Bytes {
    ArrayHeader(|payloads|) + EncodeBins(payloads)
  }

  /** Sizes MessagePack can express. */
  ghost predicate Encodable(payloads: seq<Bytes>) {
    |payloads| < U32_SPAN && forall p :: p in payloads ==> |p| < U32_SPAN
  }

  // ---- Decoding --------------------------------------------------------------------

  /** Read a width-byte length after a marker: the length and what follows it. */
  function TakeLength(b: Bytes, width: nat): (r: Option<(nat, Bytes)>)
    ensures r.Some? ==> |r.value.1| <= |b|
  {
    if |b| < 1 + width then None else Some((FromBigEndian(b[1..1 + width]), b[1 + width..]))
  }

  function TakeArray(b: Bytes): Option<(nat, Bytes)> {
    if b == [] then None
    else if 0x90 <= b[0] <= 0x9f then Some(((b[0] - 0x90) as nat, b[1..]))
    else if b[0] == 0xdc then TakeLength(b, 2)
    else if b[0] == 0xdd then TakeLength(b, 4)
    else None
  }

  function TakeBin(b: Bytes): Option<(Bytes, Bytes)> {
    var len :=
      if b == [] then None
      else if b[0] == 0xc4 then TakeLength(b, 1)
      else if b[0] == 0xc5 then TakeLength(b, 2)
      else if b[0] == 0xc6 then TakeLength(b, 4)
      else None;
    if len.None? || |len.value.1| < len.value.0 then None
    else Some((len.value.1[..len.value.0], len.value.1[len.value.0..]))
  }

  function TakeBins(n: nat, b: Bytes): Option<seq<Bytes>> {
    if n == 0 then if b == [] then Some([]) else None
    else
      var first := TakeBin(b);
      if first.None? then None
      else
        var rest := TakeBins(n - 1, first.value.1);
        if rest.None? then None else Some([first.value.0] + rest.value)
  }

  /** A batch is a non-empty array holding binary payloads and nothing else. */
  function DecodeBatch(b: Bytes): Option<seq<Bytes>> {
    var head := TakeArray(b);
    if head.None? || head.value.0 == 0 then None else TakeBins(head.value.0, head.value.1)
  }

  lemma {:induction false} TakeLengthBack(marker: byte, n: nat, width: nat, tail: Bytes)
    requires n < Power256(width)
    ensures TakeLength([marker] + BigEndian(n, width) + tail, width) == Some((n, tail))
  {
    var b := [marker] + BigEndian(n, width) + tail;
    assert b[1..1 + width] == BigEndian(n, width);
    assert b[1 + width..] == tail;
    BigEndianRoundTrip(n, width);
  }

  lemma Widths()
    ensures Power256(1) == U8_SPAN && Power256(2) == U16_SPAN && Power256(4) == U32_SPAN
  {
    assert Power256(3) == 0x100_0000;
  }

  // ---- What decodes ----------------------------------------------------------------

  /** A length of the given width after its marker. */
  predicate IsHeader(h: Bytes, marker: byte, width: nat, n: nat) {
    n < Power256(width) && h == [marker] + BigEndian(n, width)
  }

  /** The headers MessagePack allows for an array of n elements, the short and the long. */
  predicate IsArrayHeader(h: Bytes, n: nat) {
    (n < 16 && h == [(0x90 + n) as byte]) || IsHeader(h, 0xdc, 2, n) || IsHeader(h, 0xdd, 4, n)
  }

  predicate IsBinHeader(h: Bytes, n: nat) {
    IsHeader(h, 0xc4, 1, n) || IsHeader(h, 0xc5, 2, n) || IsHeader(h, 0xc6, 4, n)
  }

  /** The bytes are these payloads, each after some header for its length. */
  ghost predicate SpellsBins(b: Bytes, payloads: seq<Bytes>)
    decreases |payloads|
  {
    if payloads == [] then b == []
    else exists h, tail ::
           IsBinHeader(h, |payloads[0]|) && b == h + (payloads[0] + tail) && SpellsBins(tail, payloads[1..])
  }

  ghost predicate SpellsBatch(b: Bytes, payloads: seq<Bytes>) {
    payloads != [] && exists h, tail :: IsArrayHeader(h, |payloads|) && b == h + tail && SpellsBins(tail, payloads)
  }

  lemma TakeLengthExactly(b: Bytes, width: nat, n: nat, tail: Bytes)
    requires b != []
    ensures TakeLength(b, width) == Some((n, tail)) <==> exists h :: IsHeader(h, b[0], width, n) && b == h + tail
  {
    if TakeLength(b, width) == Some((n, tail)) {
      var digits := b[1..1 + width];
      FromBigEndianBack(digits);
      assert IsHeader([b[0]] + digits, b[0], width, n) && b == [b[0]] + digits + tail;
    }
    if h :| IsHeader(h, b[0], width, n) && b == h + tail {
      TakeLengthBack(b[0], n, width, tail);
    }
  }

  lemma TakeBinExactly(b: Bytes, p: Bytes, tail: Bytes)
    ensures TakeBin(b) == Some((p, tail)) <==> exists h :: IsBinHeader(h, |p|) && b == h + (p + tail)
  {
    hide TakeLength, IsHeader;
    if b != [] {
      var width := if b[0] == 0xc4 then 1 else if b[0] == 0xc5 then 2 else 4;
      TakeLengthExactly(b, width, |p|, p + tail);
      if TakeBin(b) == Some((p, tail)) {
        var len := TakeLength(b, width).value;
        assert len.1 == p + tail && len.0 == |p|;
        var h :| IsHeader(h, b[0], width, |p|) && b == h + (p + tail);
        assert IsBinHeader(h, |p|);
      }
      if h :| IsBinHeader(h, |p|) && b == h + (p + tail) {
        HeaderStarts(h, |p|, p + tail);
        assert IsHeader(h, b[0], width, |p|);
        assert (p + tail)[..|p|] == p && (p + tail)[|p|..] == tail;
      }
    } else if h :| IsBinHeader(h, |p|) && b == h + (p + tail) {
      HeaderStarts(h, |p|, p + tail);
    }
  }

  lemma HeaderStarts(h: Bytes, n: nat, tail: Bytes)
    requires IsBinHeader(h, n)
    ensures h != [] && (h + tail)[0] == h[0]
    ensures IsHeader(h, h[0], if h[0] == 0xc4 then 1 else if h[0] == 0xc5 then 2 else 4, n)
    ensures h[0] in {0xc4, 0xc5, 0xc6}
  {}

  lemma {:induction false} TakeBinsExactly(b: Bytes, payloads: seq<Bytes>)
    ensures TakeBins(|payloads|, b) == Some(payloads) <==> SpellsBins(b, payloads)
    decreases |payloads|
  {
    hide TakeBin, IsBinHeader;
    if payloads != [] {
      var p, rest := payloads[0], payloads[1..];
      assert payloads == [p] + rest;
      if TakeBins(|payloads|, b) == Some(payloads) {
        var tail := TakeBin(b).value.1;
        assert TakeBins(|rest|, tail).value == rest by {
          assert ([TakeBin(b).value.0] + TakeBins(|rest|, tail).value)[1..] == TakeBins(|rest|, tail).value;
        }
        TakeBinExactly(b, p, tail);
        TakeBinsExactly(tail, rest);
      }
      if SpellsBins(b, payloads) {
        var h, tail :| IsBinHeader(h, |p|) && b == h + (p + tail) && SpellsBins(tail, rest);
        TakeBinExactly(b, p, tail);
        TakeBinsExactly(tail, rest);
      }
    }
  }

  lemma TakeArrayExactly(b: Bytes, n: nat, tail: Bytes)
    ensures TakeArray(b) == Some((n, tail)) <==> exists h :: IsArrayHeader(h, n) && b == h + tail
  {
    if b != [] {
      TakeLengthExactly(b, if b[0] == 0xdc then 2 else 4, n, tail);
      if 0x90 <= b[0] <= 0x9f && TakeArray(b) == Some((n, tail)) {
        assert b == [(0x90 + n) as byte] + tail && IsArrayHeader([(0x90 + n) as byte], n);
      }
    }
  }

  /** A batch decodes to the payloads exactly when it spells them out, in any of the forms
      MessagePack allows and with nothing left over. */
  lemma DecodeExactly(b: Bytes, payloads: seq<Bytes>)
    ensures DecodeBatch(b) == Some(payloads) <==> SpellsBatch(b, payloads)
  {
    hide TakeArray, TakeBins, SpellsBins, IsArrayHeader;
    if DecodeBatch(b) == Some(payloads) {
      var (n, tail) := TakeArray(b).value;
      TakeArrayExactly(b, n, tail);
      TakeBinsCount(n, tail);
      TakeBinsExactly(tail, payloads);
    }
    if SpellsBatch(b, payloads) {
      var h, tail :| IsArrayHeader(h, |payloads|) && b == h + tail && SpellsBins(tail, payloads);
      TakeArrayExactly(b, |payloads|, tail);
      TakeBinsExactly(tail, payloads);
    }
  }

  lemma {:induction false} TakeBinsCount(n: nat, b: Bytes)
    ensures TakeBins(n, b).Some? ==> |TakeBins(n, b).value| == n
  {
    hide TakeBin;
    if n > 0 && TakeBin(b).Some? {
      TakeBinsCount(n - 1, TakeBin(b).value.1);
    }
  }

  lemma {:induction false} EncodedSpells(payloads: seq<Bytes>)
    requires forall p :: p in payloads ==> |p| < U32_SPAN
    ensures SpellsBins(EncodeBins(payloads), payloads)
  {
    if payloads != [] {
      var p, tail := payloads[0], EncodeBins(payloads[1..]);
      Widths();
      EncodedSpells(payloads[1..]);
      assert IsBinHeader(BinHeader(|p|), |p|) && EncodeBins(payloads) == BinHeader(|p|) + (p + tail);
    }
  }

  /** Decoding an encoded batch gives back the payloads, byte for byte. */
  lemma BatchRoundTrip(payloads: seq<Bytes>)
    requires payloads != [] && Encodable(payloads)
    ensures DecodeBatch(EncodeBatch(payloads)) == Some(payloads)
  {
    Widths();
    EncodedSpells(payloads);
    assert IsArrayHeader(ArrayHeader(|payloads|), |payloads|);
    DecodeExactly(EncodeBatch(payloads), payloads);
  }

  // ---- Chunking --------------------------------------------------------------------

  function Concat(chunks: seq<seq<Bytes>>): seq<Bytes> {
    if chunks == [] then [] else chunks[0] + Concat(chunks[1..])
  }

  /** A chunk is one payload, or fits. */
  predicate Fits(chunk: seq<Bytes>, maxBytes: int) {
    |chunk| == 1 || (chunk != [] && |EncodeBatch(chunk)| <= maxBytes)
  }

  /** An order-preserving split meeting the chunk rule. */
  predicate ValidSplit(payloads: seq<Bytes>, chunks: seq<seq<Bytes>>, maxBytes: int) {
    Concat(chunks) == payloads && forall c :: c in chunks ==> Fits(c, maxBytes)
  }

  /** Greedy packing, from a chunk under construction on. */
  function Pack(current: seq<Bytes>, rest: seq<Bytes>, maxBytes: int): seq<seq<Bytes>>
    decreases |rest|
  {
    if rest == [] then if current == [] then [] else [current]
    else if current != [] && |EncodeBatch(current + [rest[0]])| > maxBytes then
      [current] + Pack([rest[0]], rest[1..], maxBytes)
    else Pack(current + [rest[0]], rest[1..], maxBytes)
  }

  method PackChunks(payloads: seq<Bytes>, maxBytes: int) returns (chunks: seq<seq<Bytes>>)
    ensures chunks == Pack([], payloads, maxBytes)
    ensures ValidSplit(payloads, chunks, maxBytes)
    ensures forall other :: ValidSplit(payloads, other, maxBytes) ==> |chunks| <= |other|
  {
    chunks := [];
    var current: seq<Bytes> := [];
    for n := 0 to |payloads|
      invariant chunks + Pack(current, payloads[n..], maxBytes) == Pack([], payloads, maxBytes)
    {
      assert payloads[n..][0] == payloads[n] && payloads[n..][1..] == payloads[n + 1..];
      var candidate := current + [payloads[n]];
      if current != [] && |EncodeBatch(candidate)| > maxBytes {
        chunks := chunks + [current];
        current := [payloads[n]];
      } else {
        current := candidate;
      }
    }
    if current != [] {
      chunks := chunks + [current];
    }
    GreedyIsValid([], payloads, maxBytes);
    forall other | ValidSplit(payloads, other, maxBytes)
      ensures |chunks| <= |other|
    {
      GreedyIsOptimal(payloads, maxBytes, other);
    }
  }

  lemma {:induction false} GreedyIsValid(current: seq<Bytes>, rest: seq<Bytes>, maxBytes: int)
    requires current == [] || Fits(current, maxBytes)
    ensures ValidSplit(current + rest, Pack(current, rest, maxBytes), maxBytes)
    decreases |rest|
  {
    hide EncodeBatch, ValidSplit;
    EmptySplit(maxBytes);
    if rest == [] {
      assert current + rest == current;
      if current != [] {
        ChunkBefore(current, [], [], maxBytes);
        assert current + [] == current && [current] + [] == [current];
      }
    } else {
      var first, more := rest[0], rest[1..];
      assert current + rest == current + ([first] + more) == (current + [first]) + more;
      if current != [] && |EncodeBatch(current + [first])| > maxBytes {
        GreedyIsValid([first], more, maxBytes);
        ChunkBefore(current, [first] + more, Pack([first], more, maxBytes), maxBytes);
      } else {
        GreedyIsValid(current + [first], more, maxBytes);
      }
    }
  }

  lemma EmptySplit(maxBytes: int)
    ensures ValidSplit([], [], maxBytes)
  {}

  lemma ChunkBefore(chunk: seq<Bytes>, payloads: seq<Bytes>, chunks: seq<seq<Bytes>>, maxBytes: int)
    requires Fits(chunk, maxBytes) && ValidSplit(payloads, chunks, maxBytes)
    ensures ValidSplit(chunk + payloads, [chunk] + chunks, maxBytes)
  {
    assert ([chunk] + chunks)[1..] == chunks;
  }

  lemma {:induction false} BinsConcat(a: seq<Bytes>, b: seq<Bytes>)
    ensures EncodeBins(a + b) == EncodeBins(a) + EncodeBins(b)
  {
    if a == [] {
      assert a + b == b;
    } else {
      assert (a + b)[1..] == a[1..] + b;
      BinsConcat(a[1..], b);
    }
  }

  /** A slice of a batch is no longer than the batch. */
  lemma SliceIsShorter(x: seq<Bytes>, slice: seq<Bytes>, y: seq<Bytes>)
    ensures |EncodeBatch(slice)| <= |EncodeBatch(x + slice + y)|
  {
    BinsConcat(x + slice, y);
    BinsConcat(x, slice);
  }

  lemma PackStep(all: seq<Bytes>, q: nat, r: nat, maxBytes: int)
    requires q <= r <= |all|
    ensures r == |all| ==> Pack(all[q..r], all[r..], maxBytes) == if q == r then [] else [all[q..r]]
    ensures r < |all| ==>
              Pack(all[q..r], all[r..], maxBytes)
              == if q < r && |EncodeBatch(all[q..r + 1])| > maxBytes
                 then [all[q..r]] + Pack(all[r..r + 1], all[r + 1..], maxBytes)
                 else Pack(all[q..r + 1], all[r + 1..], maxBytes)
  {
    if r < |all| {
      assert all[r..][0] == all[r] && all[r..][1..] == all[r + 1..];
      assert all[q..r] + [all[r]] == all[q..r + 1] && [all[r]] == all[r..r + 1];
    }
  }

  /** Greedy packing is never behind another split: if the chunk under construction starts
      no earlier than where the other split stands, greedy needs no more chunks. */
  lemma {:induction false} NeverBehind(all: seq<Bytes>, p: nat, q: nat, r: nat, maxBytes: int, other: seq<seq<Bytes>>)
    requires p <= q <= r <= |all| && (q == r ==> r == |all| || r == 0)
    requires ValidSplit(all[p..], other, maxBytes)
    ensures |Pack(all[q..r], all[r..], maxBytes)| <= |other|
    decreases |all| - r, |other|
  {
    hide Pack, ValidSplit, EncodeBatch, Fits;
    PackStep(all, q, r, maxBytes);
    if p < |all| {
      NextChunk(all, p, other, maxBytes);
    }
    if q < r && p + |other[0]| <= q {
      // The other split closed a chunk before greedy's current one began.
      NeverBehind(all, p + |other[0]|, q, r, maxBytes, other[1..]);
    } else if r < |all| {
      if q < r && |EncodeBatch(all[q..r + 1])| > maxBytes {
        EndsBefore(all, p, q, r, maxBytes, other[0]);
        NeverBehind(all, p + |other[0]|, r, r + 1, maxBytes, other[1..]);
      } else {
        NeverBehind(all, p, q, r + 1, maxBytes, other);
      }
    }
  }

  lemma NextChunk(all: seq<Bytes>, p: nat, other: seq<seq<Bytes>>, maxBytes: int)
    requires p < |all| && ValidSplit(all[p..], other, maxBytes)
    ensures other != [] && 1 <= |other[0]| && p + |other[0]| <= |all|
    ensures other[0] == all[p..p + |other[0]|] && Fits(other[0], maxBytes)
    ensures ValidSplit(all[p + |other[0]|..], other[1..], maxBytes)
  {
    assert other != [];
    assert other[0] in other;
    var rest := Concat(other[1..]);
    assert all[p..] == other[0] + rest;
    assert other[0] == all[p..][..|other[0]|];
    assert rest == all[p..][|other[0]|..] == all[p + |other[0]|..];
  }

  lemma Pieces(all: seq<Bytes>, p: nat, q: nat, r: nat, e: nat)
    requires p <= q <= r <= e <= |all|
    ensures all[p..e] == all[p..q] + all[q..r] + all[r..e]
  {}

  /** A chunk starting at or before q cannot hold everything from q through r when that
      much already overflows. */
  lemma EndsBefore(all: seq<Bytes>, p: nat, q: nat, r: nat, maxBytes: int, chunk: seq<Bytes>)
    requires p <= q < r < |all| && |EncodeBatch(all[q..r + 1])| > maxBytes
    requires p + |chunk| <= |all| && chunk == all[p..p + |chunk|] && Fits(chunk, maxBytes)
    ensures p + |chunk| <= r
  {
    hide EncodeBatch;
    if p + |chunk| > r {
      Pieces(all, p, q, r + 1, p + |chunk|);
      SliceIsShorter(all[p..q], all[q..r + 1], all[r + 1..p + |chunk|]);
    }
  }

  /** No order-preserving split under the same rule uses fewer chunks. */
  lemma GreedyIsOptimal(payloads: seq<Bytes>, maxBytes: int, other: seq<seq<Bytes>>)
    requires ValidSplit(payloads, other, maxBytes)
    ensures |Pack([], payloads, maxBytes)| <= |other|
  {
    assert payloads[0..] == payloads && payloads[0..0] == [];
    NeverBehind(payloads, 0, 0, 0, maxBytes, other);
  }

  // ---- Adaptive halving ------------------------------------------------------------

  /** Building one message of a chunk; the transport may refuse it as too large. */
  type Transport = seq<Bytes> -> bool

  /** Halve a refused chunk until every piece is taken; a lone refused payload fails. */
  function Build(takes: Transport, chunk: seq<Bytes>): Result<seq<seq<Bytes>>, Bytes>
    requires chunk != []
    decreases |chunk|
  {
    if takes(chunk) then Ok([chunk])
    else if |chunk| == 1 then Err(chunk[0])
    else
      var mid := |chunk| / 2;
      var left := Build(takes, chunk[..mid]);
      if left.Err? then left
      else
        var right := Build(takes, chunk[mid..]);
        if right.Err? then right else Ok(left.value + right.value)
  }

  lemma {:induction false} ConcatPlus(a: seq<seq<Bytes>>, b: seq<seq<Bytes>>)
    ensures Concat(a + b) == Concat(a) + Concat(b)
  {
    if a == [] {
      assert a + b == b;
    } else {
      assert (a + b)[1..] == a[1..] + b;
      ConcatPlus(a[1..], b);
    }
  }

  predicate AllTaken(takes: Transport, messages: seq<seq<Bytes>>) {
    forall m :: m in messages ==> m != [] && takes(m)
  }

  /** The transport takes any part of what it takes. */
  ghost predicate TakesParts(takes: Transport) {
    forall x, slice, y :: slice != [] && takes(x + slice + y) ==> takes(slice)
  }

  /** The message is one half of a piece the transport refused. */
  ghost predicate HalfOfRefused(takes: Transport, m: seq<Bytes>) {
    exists piece: seq<Bytes> ::
      !takes(piece) && |piece| > 1 && (m == piece[..|piece| / 2] || m == piece[|piece| / 2..])
  }

  /** Nothing is split without need. */
  ghost predicate SplitByNeed(takes: Transport, wholes: seq<seq<Bytes>>, messages: seq<seq<Bytes>>) {
    forall m :: m in messages ==> m in wholes || HalfOfRefused(takes, m)
  }

  /** Halving keeps every payload once and in order, in messages the transport takes; it
      fails only on a lone payload the transport refuses, and, when parts of what is
      taken are taken, exactly when there is one. */
  lemma {:induction false} BuildCorrect(takes: Transport, chunk: seq<Bytes>)
    requires chunk != []
    ensures var b := Build(takes, chunk);
            && (b.Ok? ==> Concat(b.value) == chunk && AllTaken(takes, b.value))
            && (b.Err? ==> b.error in chunk && !takes([b.error]))
            && (TakesParts(takes) ==> (b.Ok? <==> forall p :: p in chunk ==> takes([p])))
    decreases |chunk|
  {
    if takes(chunk) {
      assert Concat([chunk]) == chunk;
      if TakesParts(takes) {
        forall p | p in chunk
          ensures takes([p])
        {
          var i :| 0 <= i < |chunk| && chunk[i] == p;
          assert chunk == chunk[..i] + [p] + chunk[i + 1..];
        }
      }
    } else if |chunk| > 1 {
      var mid := |chunk| / 2;
      BuildCorrect(takes, chunk[..mid]);
      BuildCorrect(takes, chunk[mid..]);
      assert chunk == chunk[..mid] + chunk[mid..];
      var left, right := Build(takes, chunk[..mid]), Build(takes, chunk[mid..]);
      if left.Ok? && right.Ok? {
        ConcatPlus(left.value, right.value);
      }
    } else {
      assert chunk == [chunk[0]];
    }
  }

  /** Halving splits nothing that is taken whole. */
  lemma {:induction false} BuildByNeed(takes: Transport, chunk: seq<Bytes>)
    requires chunk != []
    ensures var b := Build(takes, chunk);
            && (takes(chunk) ==> b == Ok([chunk]))
            && (b.Ok? ==> SplitByNeed(takes, [chunk], b.value))
    decreases |chunk|
  {
    if !takes(chunk) && |chunk| > 1 {
      var mid := |chunk| / 2;
      BuildByNeed(takes, chunk[..mid]);
      BuildByNeed(takes, chunk[mid..]);
      assert HalfOfRefused(takes, chunk[..mid]) && HalfOfRefused(takes, chunk[mid..]);
    }
  }

  /** Paper packing: greedy chunks, each halved as needed. */
  method PackPaper(takes: Transport, payloads: seq<Bytes>, budget: int)
    returns (r: Result<seq<seq<Bytes>>, Bytes>)
    ensures r.Ok? ==> Concat(r.value) == payloads && AllTaken(takes, r.value)
    ensures r.Ok? ==> SplitByNeed(takes, Pack([], payloads, budget), r.value)
    ensures AllTaken(takes, Pack([], payloads, budget)) ==> r == Ok(Pack([], payloads, budget))
    ensures r.Err? ==> r.error in payloads && !takes([r.error])
    ensures TakesParts(takes) ==> (r.Ok? <==> forall p :: p in payloads ==> takes([p]))
  {
    var chunks := PackChunks(payloads, budget);
    hide Pack, Build, Fits, EncodeBatch, Concat, HalfOfRefused, TakesParts;
    assert Concat([]) == [] && chunks[0..] == chunks && Concat(chunks[|chunks|..]) == [] by { NoChunks(chunks); }
    var messages: seq<seq<Bytes>> := [];
    for n := 0 to |chunks|
      invariant Concat(messages) + Concat(chunks[n..]) == payloads
      invariant AllTaken(takes, messages) && SplitByNeed(takes, chunks, messages)
      invariant AllTaken(takes, chunks) ==> messages == chunks[..n]
      invariant TakesParts(takes) ==> forall p :: p in Concat(messages) ==> takes([p])
    {
      var chunk := chunks[n];
      ConcatStep(chunks, n);
      assert chunk != [] by { assert chunk in chunks && Fits(chunk, budget); NotEmpty(chunk, budget); }
      BuildCorrect(takes, chunk);
      BuildByNeed(takes, chunk);
      var built := Build(takes, chunk);
      if built.Err? {
        return Err(built.error);
      }
      ConcatPlus(messages, built.value);
      messages := messages + built.value;
    }
    assert chunks[..|chunks|] == chunks;
    return Ok(messages);
  }

  lemma NotEmpty(chunk: seq<Bytes>, maxBytes: int)
    requires Fits(chunk, maxBytes)
    ensures chunk != []
  {}

  lemma NoChunks(chunks: seq<seq<Bytes>>)
    ensures Concat([]) == [] && chunks[0..] == chunks && Concat(chunks[|chunks|..]) == []
  {}

  lemma ConcatStep(chunks: seq<seq<Bytes>>, n: nat)
    requires n < |chunks|
    ensures Concat(chunks[n..]) == chunks[n] + Concat(chunks[n + 1..])
  {
    assert chunks[n..][0] == chunks[n] && chunks[n..][1..] == chunks[n + 1..];
  }
}
