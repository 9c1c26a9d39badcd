/**
 * The integers modulo any odd prime `N` below 2^256 meet every law of `Curve`. Half of the points have coordinates
 * at or above the order, as the recovery identifiers 2 and 3 expect.
 */
module CurveIntegers {
  import opened Prelude
  import opened Endian
  import opened Curve

  type Modulus = n: int | n > 0 witness 1

  /** Any modulus. */
  const N: Modulus

  type Elem = v: int | 0 <= v < N

  function Add(p: Elem, q: Elem): Elem { if p + q < N then p + q else p + q - N }
  function Neg(p: Elem): Elem { if p == 0 then 0 else N - p }

  /** The smaller of a point and its negative. */
  function Small(p: Elem): (m: nat)
    ensures 2 * m <= N
  {
    if 2 * p <= N then p else N - p
  }

  function X(p: Elem): nat { if Small(p) % 2 == 0 then Small(p) else N + Small(p) }
  function Odd(p: Elem): bool { 2 * p > N }

  /** The small number that a coordinate stands for. */
  function Lowered(v: nat): Option<nat> {
    var m := if v < N then v else v - N;
    if 0 < m && 2 * m < N && (m % 2 == 0) == (v < N) then Some(m) else None
  }

  function Lift(v: nat, odd: bool): Option<Elem> {
    match Lowered(v)
    case None => None
    case Some(m) => Some(if odd then N - m else m)
  }

  function Encode(p: Elem): seq<Byte> { if p == 0 then [0] else [2] + Big(p, WORD) }

  function Decode(bytes: seq<Byte>): Option<Elem> {
    if |bytes| == WORD + 1 && bytes[0] == 2 && FromBig(bytes[1..]) < N then Some(FromBig(bytes[1..])) else None
  }

  /** An inverse by search, the reference for any way of computing it. */
  ghost function Inverse(a: nat): Option<nat> {
    if exists v :: Inverts(a, v, N) then var v :| Inverts(a, v, N); Some(v) else None
  }

  /** The modulus is an odd prime of at most 256 bits. */
  ghost predicate Suitable() { IsPrime(N) && 2 < N < Pow256(WORD) }

  ghost function ModN(): Curve<Elem>
    requires N > 1
  {
    Curve(N, 2 * N - 1, 0, 1, Add, Neg, Encode, Decode, X, Odd, Lift, (a: nat) => Inverse(a))
  }

  lemma IsAGroup()
    requires N > 1
    ensures GroupLaws(ModN())
  {
    var c := ModN();
    assert forall p: Elem, q: Elem, r: Elem :: Associates(c, p, q, r);
    assert forall p: Elem, q: Elem :: Commutes(c, p, q);
    assert forall p: Elem :: KeepsZero(c, p) && Cancels(c, p);
  }

  /** A sum of remainders is the remainder of the sum. */
  lemma AddIs(a: nat, p: Elem)
    ensures Add(p, a % N) == (a + p) % N
  {
    Division(a, N);
    var q, r := a / N, a % N;
    if p + r < N {
      QuotientUnique(a + p, N, q, p + r);
    } else {
      Distribute(N, q, 1);
      QuotientUnique(a + p, N, q + 1, p + r - N);
    }
  }

  /** `k * p`, by repeated addition. */
  function Multiple(k: nat, p: nat): nat { if k == 0 then 0 else Multiple(k - 1, p) + p }

  lemma {:induction false} MultipleIs(k: nat, p: nat)
    ensures Multiple(k, p) == k * p
  {
    if k > 0 {
      MultipleIs(k - 1, p);
      Distribute(p, k - 1, 1);
    }
  }

  lemma {:induction false} MulIs(k: nat, p: Elem)
    requires N > 1
    ensures Mul(ModN(), k, p) == Multiple(k, p) % N
  {
    if k > 0 {
      MulIs(k - 1, p);
      AddIs(Multiple(k - 1, p), p);
    }
  }

  lemma OrderTimes(p: Elem)
    ensures Multiple(N, p) % N == 0
  {
    MultipleIs(N, p);
    QuotientUnique(Multiple(N, p), N, p, 0);
  }

  lemma HasPrimeOrder()
    requires Suitable()
    ensures OrderLaws(ModN())
  {
    var c := ModN();
    forall p: Elem
      ensures HasOrder(c, p)
    {
      MulIs(N, p);
      OrderTimes(p);
    }
  }

  lemma HasEncodings()
    requires Suitable()
    ensures EncodingLaws(ModN())
  {
    var c := ModN();
    forall p: Elem
      ensures Encodes(c, p)
    {
      BigRoundTrip(p, WORD);
      assert p != 0 ==> Encode(p)[1..] == Big(p, WORD);
    }
  }

  /** An odd modulus is not twice a number. */
  lemma NotTwice(p: Elem)
    requires Suitable()
    ensures 2 * p != N
  {
    assert N % 2 != 0;
  }

  lemma HasCoordinates()
    requires Suitable()
    ensures CoordinateLaws(ModN())
  {
    var c := ModN();
    forall p: Elem
      ensures IsLocated(c, p)
    {
      NotTwice(p);
    }
    assert forall v: nat, odd: bool :: Lifts(c, v, odd);
  }

  lemma HasInverses()
    requires N > 1
    ensures InverseLaws(ModN())
  {
    assert forall a: nat :: IsInverted(ModN(), a);
  }

  /** The laws of a curve are met by the integers modulo any odd prime of at most 256 bits. */
  lemma IntegersMeetTheLaws()
    requires Suitable()
    ensures Laws(ModN())
  {
    IsAGroup();
    HasPrimeOrder();
    HasEncodings();
    HasCoordinates();
    HasInverses();
  }

  /** The point 1 has a coordinate at or above the order, so identifiers 2 and 3 are needed for it. */
  lemma HighCoordinate()
    requires Suitable()
    ensures X(1) >= N && Lift(X(1), false) == Some(1) && Lift(X(1), true) == Some(N - 1)
  {
  }
}
