/** Numbers as bit strings, most significant bit first, and the two packings that BIP-39 converts between. */
module Bits {
  function Pow2(n: nat): (p: nat)
    ensures p > 0
  {
    if n == 0 then 1 else 2 * Pow2(n - 1)
  }

  /** The low `n` bits of `v`. */
  function ToBits(v: nat, n: nat): (bits: seq<bool>)
    ensures |bits| == n
  {
    if n == 0 then [] else ToBits(v / 2, n - 1) + [v % 2 == 1]
  }

  function FromBits(bits: seq<bool>): nat {
    if bits == [] then 0
    else 2 * FromBits(bits[..|bits| - 1]) + (if bits[|bits| - 1] then 1 else 0)
  }

  lemma {:induction false} FromToBits(v: nat, n: nat)
    requires v < Pow2(n)
    ensures FromBits(ToBits(v, n)) == v
  {
    if n > 0 {
      FromToBits(v / 2, n - 1);
      assert ToBits(v, n)[..n - 1] == ToBits(v / 2, n - 1);
    }
  }

  lemma {:induction false} ToFromBits(bits: seq<bool>)
    ensures FromBits(bits) < Pow2(|bits|)
    ensures ToBits(FromBits(bits), |bits|) == bits
  {
    if bits != [] {
      var init := bits[..|bits| - 1];
      ToFromBits(init);
      assert FromBits(bits) / 2 == FromBits(init);
      assert bits == init + [bits[|bits| - 1]];
    }
  }

  /** `v >> k`. */
  function ShiftRight(v: nat, k: nat): nat {
    if k == 0 then v else ShiftRight(v / 2, k - 1)
  }

  /** Bit `j` of an `n`-bit number, by shift and mask. */
  lemma {:induction false} BitByShift(v: nat, n: nat, j: nat)
    requires j < n
    ensures ToBits(v, n)[j] == (ShiftRight(v, n - 1 - j) % 2 == 1)
  {
    if j < n - 1 {
      BitByShift(v / 2, n - 1, j);
    }
  }

  /** Shifting right drops low bits. */
  lemma {:induction false} ShiftDropsBits(v: nat, n: nat, k: nat)
    requires k <= n
    ensures ToBits(v, n)[..k] == ToBits(ShiftRight(v, n - k), k)
  {
    if k < n {
      ShiftDropsBits(v / 2, n - 1, k);
      assert ToBits(v, n)[..k] == ToBits(v / 2, n - 1)[..k];
    }
  }

  lemma {:induction false} ShiftedIsSmall(v: nat, n: nat, k: nat)
    requires k <= n && v < Pow2(n)
    ensures ShiftRight(v, n - k) < Pow2(k)
  {
    if k < n {
      ShiftedIsSmall(v / 2, n - 1, k);
    }
  }

  /** The top `k` bits of a number spell the number shifted right. */
  lemma TopBitsByShift(v: nat, n: nat, k: nat)
    requires k <= n && v < Pow2(n)
    ensures FromBits(ToBits(v, n)[..k]) == ShiftRight(v, n - k)
  {
    ShiftDropsBits(v, n, k);
    ShiftedIsSmall(v, n, k);
    FromToBits(ShiftRight(v, n - k), k);
  }

  lemma FromBitsIsInjective(a: seq<bool>, b: seq<bool>)
    requires |a| == |b| && FromBits(a) == FromBits(b)
    ensures a == b
  {
    ToFromBits(a);
    ToFromBits(b);
  }

  /** Sets bit `k`: or-ing in a mask adds it unless it is there. */
  function SetBit(v: nat, n: nat, k: nat): nat
    requires k < n
  {
    if ShiftRight(v, n - 1 - k) % 2 == 1 then v else v + Pow2(n - 1 - k)
  }

  lemma {:induction false} SetBitSets(v: nat, n: nat, k: nat)
    requires k < n && v < Pow2(n)
    ensures SetBit(v, n, k) < Pow2(n)
    ensures ToBits(SetBit(v, n, k), n) == ToBits(v, n)[k := true]
  {
    if k == n - 1 {
      assert ToBits(v, n)[k := true] == ToBits(v / 2, n - 1) + [true];
    } else {
      SetBitSets(v / 2, n - 1, k);
      assert SetBit(v, n, k) / 2 == SetBit(v / 2, n - 1, k) && SetBit(v, n, k) % 2 == v % 2;
      assert ToBits(v, n)[k := true] == ToBits(v / 2, n - 1)[k := true] + [v % 2 == 1];
    }
  }

  // ----- Packing ------------------------------------------------------------------------------

  /** `w * i`, by repeated addition. */
  function Offset(w: nat, i: nat): nat {
    if i == 0 then 0 else w + Offset(w, i - 1)
  }

  lemma {:induction false} OffsetIsProduct(i: nat)
    ensures Offset(8, i) == 8 * i && Offset(11, i) == 11 * i
  {
    if i > 0 {
      OffsetIsProduct(i - 1);
    }
  }

  lemma {:induction false} OffsetMonotone(w: nat, i: nat, j: nat)
    requires i <= j
    ensures Offset(w, i) <= Offset(w, j)
  {
    if i > 0 {
      OffsetMonotone(w, i - 1, j - 1);
    }
  }

  /** The numbers spelled by the first `n` groups of `w` bits. */
  function Pack(bits: seq<bool>, w: nat, n: nat): (vs: seq<nat>)
    requires |bits| >= Offset(w, n)
    ensures |vs| == n
  {
    if n == 0 then [] else [FromBits(bits[..w])] + Pack(bits[w..], w, n - 1)
  }

  function Spread(vs: seq<nat>, w: nat): (bits: seq<bool>)
    ensures |bits| == Offset(w, |vs|)
  {
    if vs == [] then [] else ToBits(vs[0], w) + Spread(vs[1..], w)
  }

  ghost predicate AllBelow(vs: seq<nat>, limit: nat) {
    forall i :: 0 <= i < |vs| ==> vs[i] < limit
  }

  lemma {:induction false} PackSpread(vs: seq<nat>, w: nat)
    requires AllBelow(vs, Pow2(w))
    ensures Pack(Spread(vs, w), w, |vs|) == vs
  {
    if vs != [] {
      var bits := Spread(vs, w);
      assert bits[..w] == ToBits(vs[0], w) && bits[w..] == Spread(vs[1..], w);
      FromToBits(vs[0], w);
      PackSpread(vs[1..], w);
    }
  }

  lemma {:induction false} SpreadPack(bits: seq<bool>, w: nat, n: nat)
    requires |bits| == Offset(w, n)
    ensures Spread(Pack(bits, w, n), w) == bits
    ensures AllBelow(Pack(bits, w, n), Pow2(w))
  {
    if n > 0 {
      SpreadPack(bits[w..], w, n - 1);
      ToFromBits(bits[..w]);
      assert bits == bits[..w] + bits[w..];
    }
  }

  lemma {:induction false} SpreadConcat(a: seq<nat>, b: seq<nat>, w: nat)
    ensures Spread(a + b, w) == Spread(a, w) + Spread(b, w)
  {
    if a == [] {
      assert a + b == b;
    } else {
      assert (a + b)[1..] == a[1..] + b;
      SpreadConcat(a[1..], b, w);
    }
  }

  /** Streams of numbers of one width are told apart by their bits. */
  lemma SpreadIsInjective(a: seq<nat>, b: seq<nat>, w: nat)
    requires |a| == |b| && AllBelow(a, Pow2(w)) && AllBelow(b, Pow2(w)) && Spread(a, w) == Spread(b, w)
    ensures a == b
  {
    PackSpread(a, w);
    PackSpread(b, w);
  }

  /** The bit at a position of the stream, by group and place. */
  lemma {:induction false} SpreadAt(vs: seq<nat>, w: nat, i: nat, j: nat)
    requires i < |vs| && j < w
    ensures Offset(w, i) + j < |Spread(vs, w)| && Spread(vs, w)[Offset(w, i) + j] == ToBits(vs[i], w)[j]
  {
    OffsetMonotone(w, i + 1, |vs|);
    if i > 0 {
      SpreadAt(vs[1..], w, i - 1, j);
      assert Spread(vs, w)[Offset(w, i) + j] == Spread(vs[1..], w)[Offset(w, i - 1) + j];
    }
  }

  /** Setting a bit of one group sets that bit of the stream. */
  lemma {:induction false} SpreadSetBit(vs: seq<nat>, w: nat, i: nat, k: nat)
    requires i < |vs| && k < w && vs[i] < Pow2(w)
    ensures Offset(w, i) + k < |Spread(vs, w)|
    ensures Spread(vs[i := SetBit(vs[i], w, k)], w) == Spread(vs, w)[Offset(w, i) + k := true]
  {
    OffsetMonotone(w, i + 1, |vs|);
    var vs' := vs[i := SetBit(vs[i], w, k)];
    if i == 0 {
      SetBitSets(vs[0], w, k);
      assert vs'[1..] == vs[1..];
    } else {
      SpreadSetBit(vs[1..], w, i - 1, k);
      assert vs'[1..] == vs[1..][i - 1 := SetBit(vs[i], w, k)];
    }
  }

  // ----- The numbers that are spelled ---------------------------------------------------------

  lemma {:induction false} ShiftIsQuotient(v: nat, k: nat)
    ensures ShiftRight(v, k) == v / Pow2(k)
  {
    if k > 0 {
      ShiftIsQuotient(v / 2, k - 1);
      HalvesTwice(v, Pow2(k - 1));
    }
  }

  lemma HalvesTwice(v: nat, p: nat)
    requires p > 0
    ensures (v / 2) / p == v / (2 * p)
  {
    var q, r := v / (2 * p), v % (2 * p);
    assert v == q * (2 * p) + r;
    assert q * (2 * p) == 2 * (q * p);
    assert v / 2 == q * p + r / 2 && 0 <= r / 2 < p;
    QuotientIs(v / 2, p, q, r / 2);
  }

  lemma QuotientIs(a: nat, p: nat, q: nat, r: nat)
    requires a == q * p + r && r < p
    ensures a / p == q
  {
    var q', r' := a / p, a % p;
    assert a == q' * p + r' && 0 <= r' < p;
    NotLess(q, q', p, r, r');
    NotLess(q', q, p, r', r);
  }

  lemma Product(a: nat, p: nat)
    ensures a * p >= 0
  {
  }

  lemma NotLess(q: nat, q': nat, p: nat, r: nat, r': nat)
    requires q * p + r == q' * p + r' && r < p && r' < p
    ensures q >= q'
  {
    if q < q' {
      Product(q' - q - 1, p);
      assert false;
    }
  }

  /** The number with the given digits, most significant first. */
  function Number(digits: seq<nat>, base: nat): nat {
    if digits == [] then 0 else Number(digits[..|digits| - 1], base) * base + digits[|digits| - 1]
  }

  lemma {:induction false} FromBitsConcat(a: seq<bool>, b: seq<bool>)
    ensures FromBits(a + b) == FromBits(a) * Pow2(|b|) + FromBits(b)
  {
    if b == [] {
      assert a + b == a;
    } else {
      var init := b[..|b| - 1];
      assert (a + b)[..|a + b| - 1] == a + init;
      assert (a + b)[|a + b| - 1] == b[|b| - 1];
      FromBitsConcat(a, init);
      DoubleSum(FromBits(a), Pow2(|b| - 1), FromBits(init));
    }
  }

  lemma DoubleSum(x: nat, p: nat, y: nat)
    ensures 2 * (x * p + y) == x * (2 * p) + 2 * y
  {
  }

  /** A stream of groups spells the number with the groups as digits. */
  lemma {:induction false} SpreadSpells(vs: seq<nat>, w: nat)
    requires AllBelow(vs, Pow2(w))
    ensures FromBits(Spread(vs, w)) == Number(vs, Pow2(w))
  {
    if vs != [] {
      var init, last := vs[..|vs| - 1], vs[|vs| - 1];
      assert vs == init + [last];
      SpreadConcat(init, [last], w);
      SpreadSpells(init, w);
      FromBitsConcat(Spread(init, w), Spread([last], w));
      OneGroup(last, w);
      FromToBits(last, w);
    }
  }

  lemma OneGroup(v: nat, w: nat)
    ensures Spread([v], w) == ToBits(v, w)
  {
    assert [v][1..] == [];
    assert ToBits(v, w) + [] == ToBits(v, w);
  }
}
