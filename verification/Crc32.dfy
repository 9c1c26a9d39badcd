/** `neoc_hash_crc32` of `src/crypto/hash.c`, and why it detects every error burst of up to 32 bits. */
module Crc32 {
  import opened Prelude

  /** One round of the inner loop: shift right, and fold the polynomial in if a one was shifted out. */
  function Shift(crc: bv32): bv32 {
    (crc >> 1) ^ (0xEDB88320 & (0 - (crc & 1)))
  }

  function Shifts(n: nat, crc: bv32): bv32 {
    if n == 0 then crc else Shifts(n - 1, Shift(crc))
  }

  /** One byte of the outer loop: the byte is added and eight rounds follow. */
  function Absorb(crc: bv32, b: bv8): bv32 { Shifts(8, Add(crc, b)) }

  function Add(crc: bv32, b: bv8): bv32 { crc ^ (b as bv32) }

  function Register(data: seq<bv8>): bv32 { Fold(Absorb, 0xFFFF_FFFF, data) }

  function Complement(a: bv32): bv32 { !a }

  function Crc(data: seq<bv8>): bv32 { Complement(Register(data)) }

  method ComputeAbsorb(crc: bv32, b: bv8) returns (r: bv32)
    ensures r == Absorb(crc, b)
  {
    r := Add(crc, b);
    ghost var goal := Shifts(8, r);
    var j: nat := 8;
    while j > 0
      invariant j <= 8 && Shifts(j, r) == goal
    {
      r := Shift(r);
      j := j - 1;
    }
  }

  method ComputeCrc32(data: seq<bv8>) returns (r: bv32)
    ensures r == Crc(data)
  {
    var crc: bv32 := 0xFFFF_FFFF;
    for i := 0 to |data|
      invariant crc == Register(data[..i])
    {
      FoldNext(Absorb, 0xFFFF_FFFF, data, i);
      crc := ComputeAbsorb(crc, data[i]);
    }
    assert data[..|data|] == data;
    r := Complement(crc);
  }

  // ----- The bit-serial reference ------------------------------------------------------------

  /** The shift register of RFC 1952, section 8, fed one message bit. */
  function Feed(crc: bv32, bit: bv1): bv32 { Shift(crc ^ (bit as bv32)) }

  /** The low `n` bits of a byte, least significant first: the order in which the register takes them. */
  function LowBits(b: bv8, n: nat): (bits: seq<bv1>)
    ensures |bits| == n
  {
    if n == 0 then [] else [(b & 1) as bv1] + LowBits(b >> 1, n - 1)
  }

  function MessageBits(data: seq<bv8>): (bits: seq<bv1>)
    ensures |bits| == 8 * |data|
  {
    if data == [] then [] else LowBits(data[0], 8) + MessageBits(data[1..])
  }

  // ----- The register is a bijection of any 32-bit window -------------------------------------

  lemma FeedIsInjectiveAt(a: bv32, b: bv32, x: bv1)
    ensures Feed(a, x) == Feed(b, x) ==> a == b
  {
  }

  lemma FeedIsInjective()
    ensures StepInjective(Feed)
  {
    forall a: bv32, b: bv32, x: bv1
      ensures Feed(a, x) == Feed(b, x) ==> a == b
    {
      FeedIsInjectiveAt(a, b, x);
    }
  }

  /** The two registers agree outside the bits of `mask`. */
  predicate Near(a: bv32, b: bv32, mask: bv32) { (a ^ b) & !mask == 0 }

  function Grow(mask: bv32): bv32 { (mask << 1) ^ 1 }

  /** The word with the low `n` bits set. */
  function Ones(n: nat): bv32 { if n == 0 then 0 else Grow(Ones(n - 1)) }

  predicate TopClear(w: bv32) { w & 0x8000_0000 == 0 }

  lemma ThirtyOneOnes()
    ensures Ones(31) == 0x7FFF_FFFF
  {
    assert Ones(8) == 0xFF;
    assert Ones(16) == 0xFFFF;
    assert Ones(24) == 0xFF_FFFF;
  }

  /** Growing a mask keeps a top bit that is set, as long as the mask is a run of ones from the bottom. */
  lemma GrowKeepsTop(mask: bv32)
    requires mask & (mask + 1) == 0
    ensures Grow(mask) & (Grow(mask) + 1) == 0
    ensures TopClear(Grow(mask)) ==> TopClear(mask)
  {
  }

  lemma {:induction false} OnesIsARun(n: nat)
    ensures Ones(n) & (Ones(n) + 1) == 0
  {
    if n > 0 {
      OnesIsARun(n - 1);
      GrowKeepsTop(Ones(n - 1));
    }
  }

  lemma {:induction false} OnesTopClear(n: nat)
    requires n <= 31
    ensures TopClear(Ones(n))
    decreases 31 - n
  {
    if n == 31 {
      ThirtyOneOnes();
    } else {
      OnesTopClear(n + 1);
      OnesIsARun(n);
      GrowKeepsTop(Ones(n));
    }
  }

  /**
   * Feeding read backwards: the top bit after the step tells the bit shifted out, so registers that are near after
   * the step were near, one place lower, before it.
   */
  lemma FeedBackwards(a: bv32, x: bv1, b: bv32, y: bv1, mask: bv32)
    requires TopClear(mask) && Near(Feed(a, x), Feed(b, y), mask)
    ensures Near(a, b, Grow(mask))
  {
  }

  /** From one register, the fed bits were then equal. */
  lemma FedBitsAreEqual(a: bv32, x: bv1, y: bv1, mask: bv32)
    requires TopClear(mask) && Near(Feed(a, x), Feed(a, y), mask)
    ensures x == y
  {
  }

  lemma SameIsNear(a: bv32)
    ensures Near(a, a, 0)
  {
  }

  /** Streams of `n <= 32` bits that bring two registers together start from registers near in the low `n` bits. */
  lemma {:induction false} WindowBackwards(a: bv32, w: seq<bv1>, b: bv32, v: seq<bv1>)
    requires |w| == |v| <= 32 && Fold(Feed, a, w) == Fold(Feed, b, v)
    ensures Near(a, b, Ones(|w|))
    ensures a == b ==> w == v
    decreases |w|
  {
    if w == [] {
      SameIsNear(a);
    } else {
      WindowBackwards(Feed(a, w[0]), w[1..], Feed(b, v[0]), v[1..]);
      OnesTopClear(|w| - 1);
      FeedBackwards(a, w[0], b, v[0], Ones(|w| - 1));
      if a == b {
        FedBitsAreEqual(a, w[0], v[0], Ones(|w| - 1));
      }
      assert w == [w[0]] + w[1..] && v == [v[0]] + v[1..];
    }
  }

  /** Two bit streams that differ only inside one window of 32 bits leave the register different. */
  lemma BurstChangesRegister(crc: bv32, p: seq<bv1>, w: seq<bv1>, v: seq<bv1>, q: seq<bv1>)
    requires |w| == |v| <= 32
    requires Fold(Feed, crc, p + w + q) == Fold(Feed, crc, p + v + q)
    ensures w == v
  {
    var s := Fold(Feed, crc, p);
    FoldConcat(Feed, crc, p, w);
    FoldConcat(Feed, crc, p, v);
    FoldConcat(Feed, crc, p + w, q);
    FoldConcat(Feed, crc, p + v, q);
    FeedIsInjective();
    FoldInjective(Feed, Fold(Feed, s, w), Fold(Feed, s, v), q);
    WindowBackwards(s, w, s, v);
  }

  // ----- Back to bytes ------------------------------------------------------------------------

  predicate Narrow(b: bv8, n: nat) {
    if n == 0 then b == 0 else Narrow(b >> 1, n - 1)
  }

  lemma BytesAreNarrow(b: bv8)
    ensures Narrow(b, 8)
  {
    var b4 := b >> 1 >> 1 >> 1 >> 1;
    assert b4 >> 1 >> 1 >> 1 >> 1 == 0;
    assert Narrow(b4 >> 1 >> 1, 2);
    assert Narrow(b4, 4);
    assert Narrow(b >> 1 >> 1, 6);
  }

  /** Adding a byte and shifting once is feeding its low bit and adding the rest afterwards. */
  lemma ByteShiftPeels(crc: bv32, b: bv8)
    ensures Shift(Add(crc, b)) == Add(Feed(crc, (b & 1) as bv1), b >> 1)
  {
    if crc & 1 == 1 {
      if b & 1 == 1 {} else {}
    } else {
      if b & 1 == 1 {} else {}
    }
  }

  lemma XorZeroByte(crc: bv32)
    ensures Add(crc, 0) == crc
  {
  }

  lemma {:induction false} ShiftsFeedBits(crc: bv32, b: bv8, n: nat)
    requires Narrow(b, n)
    ensures Shifts(n, Add(crc, b)) == Fold(Feed, crc, LowBits(b, n))
    decreases n
  {
    if n == 0 {
      XorZeroByte(crc);
    } else {
      ByteShiftPeels(crc, b);
      ShiftsFeedBits(Feed(crc, (b & 1) as bv1), b >> 1, n - 1);
      assert LowBits(b, n)[1..] == LowBits(b >> 1, n - 1);
    }
  }

  /** The byte loop is the bit-serial register run over the message bits. */
  lemma {:induction false} BytesFeedBits(crc: bv32, data: seq<bv8>)
    ensures Fold(Absorb, crc, data) == Fold(Feed, crc, MessageBits(data))
    decreases |data|
  {
    if data != [] {
      var first := LowBits(data[0], 8);
      FoldConcat(Feed, crc, first, MessageBits(data[1..]));
      BytesAreNarrow(data[0]);
      ShiftsFeedBits(crc, data[0], 8);
      BytesFeedBits(Absorb(crc, data[0]), data[1..]);
    }
  }

  lemma HalvesAgree(a: bv8, b: bv8)
    requires (a & 1) as bv1 == (b & 1) as bv1 && a >> 1 == b >> 1
    ensures a == b
  {
  }

  lemma {:induction false} LowBitsIsInjective(a: bv8, b: bv8, n: nat)
    requires Narrow(a, n) && Narrow(b, n) && LowBits(a, n) == LowBits(b, n)
    ensures a == b
  {
    if n > 0 {
      assert LowBits(a, n)[0] == LowBits(b, n)[0];
      assert LowBits(a, n)[1..] == LowBits(a >> 1, n - 1) && LowBits(b, n)[1..] == LowBits(b >> 1, n - 1);
      LowBitsIsInjective(a >> 1, b >> 1, n - 1);
      HalvesAgree(a, b);
    }
  }

  lemma {:induction false} MessageBitsIsInjective(a: seq<bv8>, b: seq<bv8>)
    requires |a| == |b| && MessageBits(a) == MessageBits(b)
    ensures a == b
  {
    if a != [] {
      assert MessageBits(a)[..8] == LowBits(a[0], 8) && MessageBits(a)[8..] == MessageBits(a[1..]);
      assert MessageBits(b)[..8] == LowBits(b[0], 8) && MessageBits(b)[8..] == MessageBits(b[1..]);
      BytesAreNarrow(a[0]);
      BytesAreNarrow(b[0]);
      LowBitsIsInjective(a[0], b[0], 8);
      MessageBitsIsInjective(a[1..], b[1..]);
      assert a == [a[0]] + a[1..] && b == [b[0]] + b[1..];
    }
  }

  lemma ComplementIsInjective(a: bv32, b: bv32)
    requires Complement(a) == Complement(b)
    ensures a == b
  {
  }

  lemma RegisterFeedsBits(a: seq<bv8>)
    ensures Register(a) == Fold(Feed, 0xFFFF_FFFF, MessageBits(a))
  {
    BytesFeedBits(0xFFFF_FFFF, a);
  }

  lemma {:induction false} SplitAt<T>(s: seq<T>, k: nat, len: nat)
    requires k + len <= |s|
    ensures s == s[..k] + s[k..k + len] + s[k + len..]
  {
  }

  /**
   * Two inputs of one length whose message bits differ only inside one window of 32 consecutive bits have equal
   * checksums exactly when they are equal.
   */
  lemma BurstIsDetected(a: seq<bv8>, b: seq<bv8>, k: nat, len: nat)
    requires |a| == |b| && k + len <= 8 * |a| && len <= 32
    requires MessageBits(a)[..k] == MessageBits(b)[..k]
    requires MessageBits(a)[k + len..] == MessageBits(b)[k + len..]
    ensures Crc(a) == Crc(b) <==> a == b
  {
    if Crc(a) == Crc(b) {
      var ab, bb := MessageBits(a), MessageBits(b);
      ComplementIsInjective(Register(a), Register(b));
      RegisterFeedsBits(a);
      RegisterFeedsBits(b);
      SplitAt(ab, k, len);
      SplitAt(bb, k, len);
      BurstChangesRegister(0xFFFF_FFFF, ab[..k], ab[k..k + len], bb[k..k + len], ab[k + len..]);
      MessageBitsIsInjective(a, b);
    }
  }

  lemma {:induction false} MessageBitsConcat(a: seq<bv8>, b: seq<bv8>)
    ensures MessageBits(a + b) == MessageBits(a) + MessageBits(b)
  {
    if a == [] {
      assert a + b == b;
    } else {
      assert (a + b)[1..] == a[1..] + b;
      MessageBitsConcat(a[1..], b);
    }
  }

  /** Inputs that differ only within four consecutive bytes never share a checksum. */
  lemma FourBytesAreDetected(p: seq<bv8>, w: seq<bv8>, v: seq<bv8>, q: seq<bv8>)
    requires |w| == |v| <= 4
    ensures Crc(p + w + q) == Crc(p + v + q) <==> w == v
  {
    MessageBitsConcat(p, w);
    MessageBitsConcat(p, v);
    MessageBitsConcat(p + w, q);
    MessageBitsConcat(p + v, q);
    BurstIsDetected(p + w + q, p + v + q, 8 * |p|, 8 * |w|);
    if p + w + q == p + v + q {
      assert w == (p + w + q)[|p|..|p| + |w|] && v == (p + v + q)[|p|..|p| + |v|];
    }
  }
}
