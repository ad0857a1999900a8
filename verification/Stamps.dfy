/** Proof-of-work stamps: the leading zero bits of a digest. */
module Stamps {
  import opened Basics

  function Pow2(n: nat): (p: nat)
    ensures p > 0
  {
    if n == 0 then 1 else 2 * Pow2(n - 1)
  }

  lemma {:induction false} Pow2Monotone(a: nat, b: nat)
    requires a <= b
    ensures Pow2(a) <= Pow2(b)
  {
    if a < b {
      Pow2Monotone(a, b - 1);
    }
  }

  lemma {:induction false} Pow2Sum(a: nat, b: nat)
    ensures Pow2(a + b) == Pow2(a) * Pow2(b)
  {
    if a > 0 {
      Pow2Sum(a - 1, b);
      assert Pow2(a + b) == 2 * Pow2(a - 1 + b);
      assert 2 * (Pow2(a - 1) * Pow2(b)) == 2 * Pow2(a - 1) * Pow2(b);
    }
  }

  /** Bits up to the highest set one. */
  method ByteBitWidth(b: byte) returns (width: nat)
    ensures width <= 8
    ensures b == 0 <==> width == 0
    ensures b as int < Pow2(width)
    ensures b > 0 ==> Pow2(width - 1) <= b as int
  {
    width := 0;
    var rest: nat := b as int;
    assert Pow2(8) == 256 by { assert Pow2(4) == 16; }
    while rest > 0
      invariant rest * Pow2(width) <= b as int < (rest + 1) * Pow2(width)
      invariant rest > 0 ==> width < 8
      invariant width <= 8 && (b == 0 ==> width == 0)
      invariant rest == 0 && b > 0 ==> width > 0 && Pow2(width - 1) <= b as int
    {
      ghost var p := Pow2(width);
      HalveBounds(rest, p, b as int);
      if rest / 2 > 0 {
        if width + 1 >= 8 {
          Pow2Monotone(8, width + 1);
        }
      }
      rest := rest / 2;
      width := width + 1;
    }
  }

  lemma HalveBounds(rest: nat, p: nat, b: nat)
    requires rest > 0 && p > 0 && rest * p <= b < (rest + 1) * p
    ensures (rest / 2) * (2 * p) <= b < (rest / 2 + 1) * (2 * p)
    ensures p <= b
    ensures rest / 2 > 0 ==> 2 * p <= b
  {
    var half := rest / 2;
    assert rest == 2 * half || rest == 2 * half + 1;
    assert half * (2 * p) == 2 * half * p;
    assert (half + 1) * (2 * p) == (2 * half + 2) * p;
    if rest == 2 * half + 1 {
      assert rest * p == 2 * half * p + p;
    } else {
      assert (rest + 1) * p == (2 * half + 1) * p <= (2 * half + 2) * p;
    }
    assert rest * p >= p;
    if half > 0 {
      assert rest * p >= 2 * p;
    }
  }

  /** The number of leading zero bits of `data`, as its big-endian value shows it. */
  ghost predicate IsLeadingZeros(data: Bytes, z: nat) {
    && z <= 8 * |data|
    && FromBigEndian(data) < Pow2(8 * |data| - z)
    && (z < 8 * |data| ==> Pow2(8 * |data| - z - 1) <= FromBigEndian(data))
  }

  method LeadingZeroBits(data: Bytes) returns (value: nat)
    ensures IsLeadingZeros(data, value)
  {
    value := 0;
    var i := 0;
    ZerosHead(data, 0);
    while i < |data|
      invariant i <= |data| && value == 8 * i
      invariant forall j :: 0 <= j < i ==> data[j] == 0
    {
      if data[i] == 0 {
        value := value + 8;
        i := i + 1;
        continue;
      }
      var width := ByteBitWidth(data[i]);
      value := value + 8 - width;
      ZerosHead(data, i);
      assert data[i..] == [data[i]] + data[i + 1..];
      HeadValue(data[i], data[i + 1..], width);
      return;
    }
    ZerosHead(data, |data|);
    assert data[|data|..] == [];
  }

  /** Leading zero bytes do not change the value. */
  lemma {:induction false} ZerosHead(data: Bytes, n: nat)
    requires n <= |data| && forall j :: 0 <= j < n ==> data[j] == 0
    ensures FromBigEndian(data) == FromBigEndian(data[n..])
    decreases |data|
  {
    if n < |data| {
      var front := data[..|data| - 1];
      ZerosHead(front, n);
      assert data[n..][..|data| - n - 1] == front[n..];
    } else if n > 0 {
      ZerosHead(data[..n - 1], n - 1);
      assert data[..n - 1][n - 1..] == [];
    }
  }

  /** A head byte of the given bit width fixes the size of the whole value. */
  lemma {:induction false} HeadValue(b: byte, rest: Bytes, width: nat)
    requires 1 <= width && Pow2(width - 1) <= b as int < Pow2(width)
    ensures Pow2(8 * |rest| + width - 1) <= FromBigEndian([b] + rest) < Pow2(8 * |rest| + width)
    decreases |rest|
  {
    var all := [b] + rest;
    if rest == [] {
      assert all[..0] == [] && all[0] == b;
    } else {
      var front, last := rest[..|rest| - 1], rest[|rest| - 1];
      assert all[..|all| - 1] == [b] + front && all[|all| - 1] == last;
      HeadValue(b, front, width);
      var low, high := 8 * |front| + width - 1, 8 * |front| + width;
      assert Pow2(8) == 256 by { assert Pow2(4) == 16; }
      Pow2Sum(8, low);
      Pow2Sum(8, high);
      assert 8 + low == 8 * |rest| + width - 1 && 8 + high == 8 * |rest| + width;
    }
  }

  /** Having at least k leading zero bits means being below 2^(8n - k): a digest meets a
      cost exactly when its value is under the cost's target. */
  lemma LeadingZerosMeanTarget(data: Bytes, z: nat, k: nat)
    requires IsLeadingZeros(data, z) && k <= 8 * |data|
    ensures z >= k <==> FromBigEndian(data) < Pow2(8 * |data| - k)
  {
    if z >= k {
      Pow2Monotone(8 * |data| - z, 8 * |data| - k);
    } else {
      Pow2Monotone(8 * |data| - k, 8 * |data| - z - 1);
    }
  }

  method StampValid(hash: Bytes -> Bytes, workblock: Bytes, stamp: Bytes, cost: nat) returns (ok: bool)
    ensures cost <= 8 * |hash(workblock + stamp)| ==>
              (ok <==> FromBigEndian(hash(workblock + stamp)) < Pow2(8 * |hash(workblock + stamp)| - cost))
    ensures cost > 8 * |hash(workblock + stamp)| ==> !ok
  {
    var digest := hash(workblock + stamp);
    var value := LeadingZeroBits(digest);
    if cost <= 8 * |digest| {
      LeadingZerosMeanTarget(digest, value, cost);
    }
    return value >= cost;
  }

  /** A stamp good enough for one cost is good enough for every lower one. */
  lemma LowerCostIsEasier(data: Bytes, cost: nat, lower: nat)
    requires lower <= cost <= 8 * |data| && FromBigEndian(data) < Pow2(8 * |data| - cost)
    ensures FromBigEndian(data) < Pow2(8 * |data| - lower)
  {
    Pow2Monotone(8 * |data| - cost, 8 * |data| - lower);
  }
}
