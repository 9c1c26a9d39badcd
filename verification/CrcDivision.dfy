/**
 * CRC-32 as polynomial division over two elements (section 8 of RFC 1952): the register of `Crc32` is the remainder
 * of the message, and the division knows nothing of shifts, registers or bit order.
 */
module CrcDivision {
  import opened Prelude
  import opened Crc32

  /** Coefficients are written from the highest power down. */
  function Xor(a: seq<bool>, b: seq<bool>): (r: seq<bool>)
    requires |a| == |b|
    ensures |r| == |a| && forall i :: 0 <= i < |a| ==> r[i] == (a[i] != b[i])
  {
    seq(|a|, i requires 0 <= i < |a| => a[i] != b[i])
  }

  function Zeros(n: nat): (r: seq<bool>)
    ensures |r| == n && forall i :: 0 <= i < n ==> !r[i]
  {
    seq(n, _ => false)
  }

  /** The powers below the 32nd in x^32+x^26+x^23+x^22+x^16+x^12+x^11+x^10+x^8+x^7+x^5+x^4+x^2+x+1. */
  const POWERS: set<nat> := {26, 23, 22, 16, 12, 11, 10, 8, 7, 5, 4, 2, 1, 0}

  /** The divisor without its leading coefficient. */
  function Divisor(): (d: seq<bool>)
    ensures |d| == 32 && forall i :: 0 <= i < 32 ==> d[i] == (31 - i in POWERS)
  {
    seq(32, i requires 0 <= i < 32 => 31 - i in POWERS)
  }

  /** Long division: a leading one is removed by subtracting the divisor there, a leading zero is dropped. */
  function Remainder(p: seq<bool>): (r: seq<bool>)
    ensures |r| == 32
    decreases |p|
  {
    if |p| <= 32 then Zeros(32 - |p|) + p
    else if p[0] then Remainder(Xor(p[1..33], Divisor()) + p[33..])
    else Remainder(p[1..])
  }

  /** What is divided: the message times x^32, and the initial register in front of it. */
  function Dividend(register: seq<bool>, message: seq<bool>): (p: seq<bool>)
    requires |register| == 32
    ensures |p| == 32 + |message|
  {
    Xor(register + Zeros(|message|), message + Zeros(32))
  }

  // ----- The register on coefficients ---------------------------------------------------------

  /** One step of the division, with the message fed in at the top. */
  function Divide(r: seq<bool>, bit: bool): (r': seq<bool>)
    requires |r| == 32
    ensures |r'| == 32
  {
    var shifted := r[1..] + [false];
    if r[0] != bit then Xor(shifted, Divisor()) else shifted
  }

  lemma DividendStep(r: seq<bool>, w: seq<bool>)
    requires |r| == 32 && w != []
    ensures Remainder(Dividend(r, w)) == Remainder(Dividend(Divide(r, w[0]), w[1..]))
  {
    var p, p' := Dividend(r, w), Dividend(Divide(r, w[0]), w[1..]);
    assert p[0] == (r[0] != w[0]);
    if p[0] {
      assert p' == Xor(p[1..33], Divisor()) + p[33..];
    } else {
      assert p' == p[1..];
    }
  }

  function DivideAll(r: seq<bool>, w: seq<bool>): (r': seq<bool>)
    requires |r| == 32
    ensures |r'| == 32
    decreases |w|
  {
    if w == [] then r else DivideAll(Divide(r, w[0]), w[1..])
  }

  lemma {:induction false} DivisionIsRemainder(r: seq<bool>, w: seq<bool>)
    requires |r| == 32
    ensures DivideAll(r, w) == Remainder(Dividend(r, w))
    decreases |w|
  {
    if w == [] {
      assert Dividend(r, w) == r && Zeros(0) + r == r;
    } else {
      DividendStep(r, w);
      DivisionIsRemainder(Divide(r, w[0]), w[1..]);
    }
  }

  // ----- The bits of a register ---------------------------------------------------------------

  /** The first `n` values of `low` while `half` is applied again and again. */
  function Unfold<S>(low: S -> bool, half: S -> S, s: S, n: nat): (bits: seq<bool>)
    ensures |bits| == n
  {
    if n == 0 then [] else [low(s)] + Unfold(low, half, half(s), n - 1)
  }

  function Iterate<S>(half: S -> S, s: S, n: nat): S { if n == 0 then s else Iterate(half, half(s), n - 1) }

  lemma {:induction false} UnfoldAt<S>(low: S -> bool, half: S -> S, s: S, n: nat, i: nat)
    requires i < n
    ensures Unfold(low, half, s, n)[i] == low(Iterate(half, s, i))
  {
    if i > 0 {
      UnfoldAt(low, half, half(s), n - 1, i - 1);
    }
  }

  lemma {:induction false} IterateTwice<S>(half: S -> S, s: S, a: nat, b: nat)
    ensures Iterate(half, s, a + b) == Iterate(half, Iterate(half, s, a), b)
  {
    if a > 0 {
      IterateTwice(half, half(s), a - 1, b);
    }
  }

  /** If adding adds the low bits and the halves, it adds all bits. */
  lemma {:induction false} UnfoldOfSum<S(!new)>(low: S -> bool, half: S -> S, plus: (S, S) -> S, a: S, b: S, n: nat)
    requires forall x, y {:trigger plus(x, y)} :: low(plus(x, y)) == (low(x) != low(y)) && half(plus(x, y)) == plus(half(x), half(y))
    ensures Unfold(low, half, plus(a, b), n) == Xor(Unfold(low, half, a, n), Unfold(low, half, b, n))
  {
    if n > 0 {
      UnfoldOfSum(low, half, plus, half(a), half(b), n - 1);
    }
  }

  /** The bits along a trace of halves. */
  lemma {:induction false} UnfoldTrace<S>(low: S -> bool, half: S -> S, trace: seq<S>, i: nat)
    requires i < |trace| && forall j :: 0 <= j < |trace| - 1 ==> half(trace[j]) == trace[j + 1]
    ensures Iterate(half, trace[0], i) == trace[i]
  {
    if i > 0 {
      UnfoldTrace(low, half, trace[1..], i - 1);
    }
  }

  function LowBit(c: bv32): bool { c & 1 == 1 }

  function Half(c: bv32): bv32 { c >> 1 }

  function Plus(a: bv32, b: bv32): bv32 { a ^ b }

  /** The bits of a register, lowest first: it is reflected, so that is the highest power first. */
  function Bits(c: bv32): (bits: seq<bool>)
    ensures |bits| == 32
  {
    Unfold(LowBit, Half, c, 32)
  }

  lemma PlusLeaf(a: bv32, b: bv32)
    ensures LowBit(Plus(a, b)) == (LowBit(a) != LowBit(b)) && Half(Plus(a, b)) == Plus(Half(a), Half(b))
  {
  }

  lemma BitsOfSum(a: bv32, b: bv32)
    ensures Bits(Plus(a, b)) == Xor(Bits(a), Bits(b))
  {
    forall x, y {:trigger Plus(x, y)}
      ensures LowBit(Plus(x, y)) == (LowBit(x) != LowBit(y)) && Half(Plus(x, y)) == Plus(Half(x), Half(y))
    {
      PlusLeaf(x, y);
    }
    UnfoldOfSum(LowBit, Half, Plus, a, b, 32);
  }

  lemma FourHalves(c: bv32)
    ensures Iterate(Half, c, 4) == c >> 4
  {
    assert Iterate(Half, c, 4) == Half(Half(Half(Half(c))));
  }

  lemma EightHalves(c: bv32)
    ensures Iterate(Half, c, 8) == c >> 8
  {
    IterateTwice(Half, c, 4, 4);
    FourHalves(c);
    FourHalves(c >> 4);
  }

  function Eighth(c: bv32): bv32 { c >> 8 }

  lemma {:induction false} IterateFour<S(!new)>(half: S -> S, eighth: S -> S, s: S)
    requires forall r {:trigger eighth(r)} :: Iterate(half, r, 8) == eighth(r)
    ensures Iterate(half, s, 32) == eighth(eighth(eighth(eighth(s))))
  {
    var s1 := eighth(s);
    var s2 := eighth(s1);
    var s3 := eighth(s2);
    assert eighth(s3) == Iterate(half, s3, 8);
    IterateTwice(half, s, 8, 24);
    IterateTwice(half, s1, 8, 16);
    IterateTwice(half, s2, 8, 8);
  }

  lemma FourEighths(c: bv32)
    ensures Eighth(Eighth(Eighth(Eighth(c)))) == 0
  {
  }

  lemma NothingIsLeft(c: bv32)
    ensures Iterate(Half, c, 32) == 0
  {
    forall r {:trigger Eighth(r)}
      ensures Iterate(Half, r, 8) == Eighth(r)
    {
      EightHalves(r);
    }
    IterateFour(Half, Eighth, c);
    FourEighths(c);
  }

  /** Halving drops the first bit and brings in a zero. */
  lemma BitsOfHalf(c: bv32)
    ensures Bits(Half(c)) == Bits(c)[1..] + [false]
  {
    forall i | 0 <= i < 32
      ensures Bits(Half(c))[i] == (Bits(c)[1..] + [false])[i]
    {
      UnfoldAt(LowBit, Half, Half(c), 32, i);
      if i < 31 {
        UnfoldAt(LowBit, Half, c, 32, i + 1);
      } else {
        NothingIsLeft(c);
      }
    }
  }

  const POLYNOMIAL: bv32 := 0xEDB8_8320

  /** One bit of a constant. */
  lemma Next(c: bv32, half: bv32, low: bool, n: nat)
    requires Half(c) == half && LowBit(c) == low
    ensures Unfold(LowBit, Half, c, n + 1) == [low] + Unfold(LowBit, Half, half, n)
  {
  }

  lemma PolynomialByte0(n: nat)
    ensures Unfold(LowBit, Half, 0xEDB88320, n + 8) == [false, false, false, false, false, true, false, false] + Unfold(LowBit, Half, 0x00EDB883, n)
  {
    Next(0xEDB88320, 0x76DC4190, false, n + 7);
    Next(0x76DC4190, 0x3B6E20C8, false, n + 6);
    Next(0x3B6E20C8, 0x1DB71064, false, n + 5);
    Next(0x1DB71064, 0x0EDB8832, false, n + 4);
    Next(0x0EDB8832, 0x076DC419, false, n + 3);
    Next(0x076DC419, 0x03B6E20C, true, n + 2);
    Next(0x03B6E20C, 0x01DB7106, false, n + 1);
    Next(0x01DB7106, 0x00EDB883, false, n + 0);
  }

  lemma PolynomialByte1(n: nat)
    ensures Unfold(LowBit, Half, 0x00EDB883, n + 8) == [true, true, false, false, false, false, false, true] + Unfold(LowBit, Half, 0x0000EDB8, n)
  {
    Next(0x00EDB883, 0x0076DC41, true, n + 7);
    Next(0x0076DC41, 0x003B6E20, true, n + 6);
    Next(0x003B6E20, 0x001DB710, false, n + 5);
    Next(0x001DB710, 0x000EDB88, false, n + 4);
    Next(0x000EDB88, 0x00076DC4, false, n + 3);
    Next(0x00076DC4, 0x0003B6E2, false, n + 2);
    Next(0x0003B6E2, 0x0001DB71, false, n + 1);
    Next(0x0001DB71, 0x0000EDB8, true, n + 0);
  }

  lemma PolynomialByte2(n: nat)
    ensures Unfold(LowBit, Half, 0x0000EDB8, n + 8) == [false, false, false, true, true, true, false, true] + Unfold(LowBit, Half, 0x000000ED, n)
  {
    Next(0x0000EDB8, 0x000076DC, false, n + 7);
    Next(0x000076DC, 0x00003B6E, false, n + 6);
    Next(0x00003B6E, 0x00001DB7, false, n + 5);
    Next(0x00001DB7, 0x00000EDB, true, n + 4);
    Next(0x00000EDB, 0x0000076D, true, n + 3);
    Next(0x0000076D, 0x000003B6, true, n + 2);
    Next(0x000003B6, 0x000001DB, false, n + 1);
    Next(0x000001DB, 0x000000ED, true, n + 0);
  }

  lemma PolynomialByte3(n: nat)
    ensures Unfold(LowBit, Half, 0x000000ED, n + 8) == [true, false, true, true, false, true, true, true] + Unfold(LowBit, Half, 0x00000000, n)
  {
    Next(0x000000ED, 0x00000076, true, n + 7);
    Next(0x00000076, 0x0000003B, false, n + 6);
    Next(0x0000003B, 0x0000001D, true, n + 5);
    Next(0x0000001D, 0x0000000E, true, n + 4);
    Next(0x0000000E, 0x00000007, false, n + 3);
    Next(0x00000007, 0x00000003, true, n + 2);
    Next(0x00000003, 0x00000001, true, n + 1);
    Next(0x00000001, 0x00000000, true, n + 0);
  }

  lemma OnesByte0(n: nat)
    ensures Unfold(LowBit, Half, 0xFFFFFFFF, n + 8) == [true, true, true, true, true, true, true, true] + Unfold(LowBit, Half, 0x00FFFFFF, n)
  {
    Next(0xFFFFFFFF, 0x7FFFFFFF, true, n + 7);
    Next(0x7FFFFFFF, 0x3FFFFFFF, true, n + 6);
    Next(0x3FFFFFFF, 0x1FFFFFFF, true, n + 5);
    Next(0x1FFFFFFF, 0x0FFFFFFF, true, n + 4);
    Next(0x0FFFFFFF, 0x07FFFFFF, true, n + 3);
    Next(0x07FFFFFF, 0x03FFFFFF, true, n + 2);
    Next(0x03FFFFFF, 0x01FFFFFF, true, n + 1);
    Next(0x01FFFFFF, 0x00FFFFFF, true, n + 0);
  }

  lemma OnesByte1(n: nat)
    ensures Unfold(LowBit, Half, 0x00FFFFFF, n + 8) == [true, true, true, true, true, true, true, true] + Unfold(LowBit, Half, 0x0000FFFF, n)
  {
    Next(0x00FFFFFF, 0x007FFFFF, true, n + 7);
    Next(0x007FFFFF, 0x003FFFFF, true, n + 6);
    Next(0x003FFFFF, 0x001FFFFF, true, n + 5);
    Next(0x001FFFFF, 0x000FFFFF, true, n + 4);
    Next(0x000FFFFF, 0x0007FFFF, true, n + 3);
    Next(0x0007FFFF, 0x0003FFFF, true, n + 2);
    Next(0x0003FFFF, 0x0001FFFF, true, n + 1);
    Next(0x0001FFFF, 0x0000FFFF, true, n + 0);
  }

  lemma OnesByte2(n: nat)
    ensures Unfold(LowBit, Half, 0x0000FFFF, n + 8) == [true, true, true, true, true, true, true, true] + Unfold(LowBit, Half, 0x000000FF, n)
  {
    Next(0x0000FFFF, 0x00007FFF, true, n + 7);
    Next(0x00007FFF, 0x00003FFF, true, n + 6);
    Next(0x00003FFF, 0x00001FFF, true, n + 5);
    Next(0x00001FFF, 0x00000FFF, true, n + 4);
    Next(0x00000FFF, 0x000007FF, true, n + 3);
    Next(0x000007FF, 0x000003FF, true, n + 2);
    Next(0x000003FF, 0x000001FF, true, n + 1);
    Next(0x000001FF, 0x000000FF, true, n + 0);
  }

  lemma OnesByte3(n: nat)
    ensures Unfold(LowBit, Half, 0x000000FF, n + 8) == [true, true, true, true, true, true, true, true] + Unfold(LowBit, Half, 0x00000000, n)
  {
    Next(0x000000FF, 0x0000007F, true, n + 7);
    Next(0x0000007F, 0x0000003F, true, n + 6);
    Next(0x0000003F, 0x0000001F, true, n + 5);
    Next(0x0000001F, 0x0000000F, true, n + 4);
    Next(0x0000000F, 0x00000007, true, n + 3);
    Next(0x00000007, 0x00000003, true, n + 2);
    Next(0x00000003, 0x00000001, true, n + 1);
    Next(0x00000001, 0x00000000, true, n + 0);
  }

  lemma PolynomialBits()
    ensures Bits(POLYNOMIAL) == Divisor()
  {
    PolynomialByte0(24);
    PolynomialByte1(16);
    PolynomialByte2(8);
    PolynomialByte3(0);
    var b0, b1 := [false, false, false, false, false, true, false, false], [true, true, false, false, false, false, false, true];
    var b2, b3 := [false, false, false, true, true, true, false, true], [true, false, true, true, false, true, true, true];
    assert Bits(POLYNOMIAL) == b0 + (b1 + (b2 + (b3 + [])));
    DivisorBytes(b0, b1, b2, b3);
  }

  lemma DivisorBytes(b0: seq<bool>, b1: seq<bool>, b2: seq<bool>, b3: seq<bool>)
    requires b0 == [false, false, false, false, false, true, false, false] && b1 == [true, true, false, false, false, false, false, true]
    requires b2 == [false, false, false, true, true, true, false, true] && b3 == [true, false, true, true, false, true, true, true]
    ensures b0 + (b1 + (b2 + (b3 + []))) == Divisor()
  {
    var d := Divisor();
    assert d[..8] == b0;
    assert d[8..16] == b1;
    assert d[16..24] == b2;
    assert d[24..] == b3;
  }

  function Ones(n: nat): (r: seq<bool>)
    ensures |r| == n && forall i :: 0 <= i < n ==> r[i]
  {
    seq(n, _ => true)
  }

  lemma OnesBits()
    ensures Bits(0xFFFF_FFFF) == Ones(32)
  {
    OnesByte0(24);
    OnesByte1(16);
    OnesByte2(8);
    OnesByte3(0);
  }

  // ----- The register is the remainder --------------------------------------------------------

  lemma FeedIs(crc: bv32, bit: bv1)
    ensures Feed(crc, bit) == if LowBit(crc) != (bit == 1) then Plus(Half(crc), POLYNOMIAL) else Half(crc)
  {
    if bit == 1 {
      if LowBit(crc) {} else {}
    } else {
      if LowBit(crc) {} else {}
    }
  }

  /** Feeding a bit is one step of the division. */
  lemma FeedDivides(crc: bv32, bit: bv1)
    ensures Bits(Feed(crc, bit)) == Divide(Bits(crc), bit == 1)
  {
    FeedIs(crc, bit);
    BitsOfHalf(crc);
    if LowBit(crc) != (bit == 1) {
      BitsOfSum(Half(crc), POLYNOMIAL);
      PolynomialBits();
    }
  }

  function Bools(w: seq<bv1>): (r: seq<bool>)
    ensures |r| == |w| && forall i :: 0 <= i < |w| ==> r[i] == (w[i] == 1)
  {
    seq(|w|, i requires 0 <= i < |w| => w[i] == 1)
  }

  lemma {:induction false} FeedsDivide(crc: bv32, w: seq<bv1>)
    ensures Bits(Fold(Feed, crc, w)) == DivideAll(Bits(crc), Bools(w))
    decreases |w|
  {
    if w != [] {
      FeedDivides(crc, w[0]);
      FeedsDivide(Feed(crc, w[0]), w[1..]);
      assert Bools(w)[1..] == Bools(w[1..]);
    }
  }

  lemma RegisterIsRemainder(data: seq<bv8>)
    ensures Bits(Register(data)) == Remainder(Dividend(Ones(32), Bools(MessageBits(data))))
  {
    BytesFeedBits(0xFFFF_FFFF, data);
    FeedsDivide(0xFFFF_FFFF, MessageBits(data));
    OnesBits();
    DivisionIsRemainder(Ones(32), Bools(MessageBits(data)));
  }

  lemma ComplementLeaf(c: bv32)
    ensures Complement(c) == Plus(c, 0xFFFF_FFFF)
  {
  }

  /**
   * The CRC is the complement of the remainder, modulo the polynomial of the standard, of the message times x^32 with
   * its first 32 coefficients complemented. Message bits come lowest first, as they stand in the register.
   */
  lemma CrcIsRemainder(data: seq<bv8>)
    ensures Bits(Crc(data)) == Xor(Remainder(Dividend(Ones(32), Bools(MessageBits(data)))), Ones(32))
  {
    RegisterIsRemainder(data);
    ComplementLeaf(Register(data));
    BitsOfSum(Register(data), 0xFFFF_FFFF);
    OnesBits();
  }

  lemma {:induction false} UnfoldSame<S(!new)>(low: S -> bool, half: S -> S, a: S, b: S, n: nat)
    requires forall x, y {:trigger half(x), half(y)} :: low(x) == low(y) && half(x) == half(y) ==> x == y
    requires Unfold(low, half, a, n) == Unfold(low, half, b, n) && Iterate(half, a, n) == Iterate(half, b, n)
    ensures a == b
  {
    if n > 0 {
      var u, v := Unfold(low, half, a, n), Unfold(low, half, b, n);
      assert u[0] == low(a) && v[0] == low(b) && u[1..] == Unfold(low, half, half(a), n - 1) && v[1..] == Unfold(low, half, half(b), n - 1);
      UnfoldSame(low, half, half(a), half(b), n - 1);
    }
  }

  lemma HalvesTell(a: bv32, b: bv32)
    requires LowBit(a) == LowBit(b) && Half(a) == Half(b)
    ensures a == b
  {
  }

  /** The bits determine the register, so the remainder determines the CRC. */
  lemma BitsTell(a: bv32, b: bv32)
    requires Bits(a) == Bits(b)
    ensures a == b
  {
    forall x, y {:trigger Half(x), Half(y)} | LowBit(x) == LowBit(y) && Half(x) == Half(y)
      ensures x == y
    {
      HalvesTell(x, y);
    }
    NothingIsLeft(a);
    NothingIsLeft(b);
    UnfoldSame(LowBit, Half, a, b, 32);
  }
}
