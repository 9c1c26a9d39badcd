/**
 * The curve as the code uses it: an abstract group of prime order with point encodings and x-coordinates. Everything
 * about it that the proofs rely on is in `Laws`, and a small instance shows that the laws can be met together.
 */
module Curve {
  import opened Prelude
  import opened Endian

  datatype Curve<!P> = Curve(
    order: nat,
    prime: nat,
    zero: P,
    base: P,
    add: (P, P) -> P,
    neg: P -> P,
    encode: P -> seq<Byte>,
    decode: seq<Byte> -> Option<P>,
    x: P -> nat,
    odd: P -> bool,
    lift: (nat, bool) -> Option<P>,
    inverse: nat -> Option<nat>)

  /** `k` times a point. */
  function Mul<P>(c: Curve<P>, k: nat, p: P): P {
    if k == 0 then c.zero else c.add(p, Mul(c, k - 1, p))
  }

  ghost predicate IsPrime(n: nat) {
    n > 1 && forall d {:trigger n % d} :: 1 < d < n ==> n % d != 0
  }

  // Each law is named, so that a proof uses the instances it mentions and no others.

  ghost predicate Associates<P>(c: Curve<P>, p: P, q: P, r: P) { c.add(c.add(p, q), r) == c.add(p, c.add(q, r)) }
  ghost predicate Commutes<P>(c: Curve<P>, p: P, q: P) { c.add(p, q) == c.add(q, p) }
  ghost predicate KeepsZero<P>(c: Curve<P>, p: P) { c.add(p, c.zero) == p }
  ghost predicate Cancels<P>(c: Curve<P>, p: P) { c.add(p, c.neg(p)) == c.zero }
  ghost predicate HasOrder<P>(c: Curve<P>, p: P) { Mul(c, c.order, p) == c.zero }

  /** A finite point has a 33-byte encoding that is decoded again; infinity has a single byte. */
  ghost predicate Encodes<P>(c: Curve<P>, p: P) {
    if p == c.zero then |c.encode(p)| == 1 else |c.encode(p)| == 33 && c.decode(c.encode(p)) == Some(p)
  }

  /** A finite point is found by its x-coordinate and parity, and its negative shares the coordinate. */
  ghost predicate IsLocated<P>(c: Curve<P>, p: P) {
    && (p != c.zero ==> c.x(p) < c.prime && c.lift(c.x(p), c.odd(p)) == Some(p))
    && c.x(c.neg(p)) == c.x(p)
  }

  ghost predicate Lifts<P>(c: Curve<P>, v: nat, odd: bool) {
    c.lift(v, odd).Some? ==>
      c.lift(v, odd).value != c.zero && c.x(c.lift(v, odd).value) == v && c.odd(c.lift(v, odd).value) == odd
  }

  /** Inversion modulo the order succeeds whenever there is an inverse. */
  ghost predicate IsInverted<P>(c: Curve<P>, a: nat) {
    match c.inverse(a)
    case Some(v) => Inverts(a, v, c.order)
    case None => forall v {:trigger Inverts(a, v, c.order)} :: !Inverts(a, v, c.order)
  }

  ghost predicate GroupLaws<P(!new)>(c: Curve<P>) {
    && (forall p, q, r {:trigger Associates(c, p, q, r)} :: Associates(c, p, q, r))
    && (forall p, q {:trigger Commutes(c, p, q)} :: Commutes(c, p, q))
    && (forall p {:trigger KeepsZero(c, p)} :: KeepsZero(c, p))
    && (forall p {:trigger Cancels(c, p)} :: Cancels(c, p))
  }

  /** Every point has order `order`, a prime of at most 256 bits. */
  ghost predicate OrderLaws<P(!new)>(c: Curve<P>) {
    && IsPrime(c.order)
    && c.order < Pow256(WORD)
    && c.base != c.zero
    && (forall p {:trigger HasOrder(c, p)} :: HasOrder(c, p))
  }

  ghost predicate EncodingLaws<P(!new)>(c: Curve<P>) {
    forall p {:trigger Encodes(c, p)} :: Encodes(c, p)
  }

  ghost predicate CoordinateLaws<P(!new)>(c: Curve<P>) {
    && c.prime < 2 * c.order
    && (forall p {:trigger IsLocated(c, p)} :: IsLocated(c, p))
    && (forall v, odd {:trigger Lifts(c, v, odd)} :: Lifts(c, v, odd))
  }

  ghost predicate InverseLaws<P>(c: Curve<P>) {
    forall a {:trigger IsInverted(c, a)} :: IsInverted(c, a)
  }

  ghost predicate Laws<P(!new)>(c: Curve<P>) {
    GroupLaws(c) && OrderLaws(c) && EncodingLaws(c) && CoordinateLaws(c) && InverseLaws(c)
  }

  // ----- Multiples ----------------------------------------------------------------------------

  lemma {:induction false} MulPlus<P(!new)>(c: Curve<P>, a: nat, b: nat, p: P)
    requires GroupLaws(c)
    ensures Mul(c, a + b, p) == c.add(Mul(c, a, p), Mul(c, b, p))
  {
    var m := Mul(c, b, p);
    if a == 0 {
      assert Commutes(c, c.zero, m) && KeepsZero(c, m);
    } else {
      MulPlus(c, a - 1, b, p);
      assert Associates(c, p, Mul(c, a - 1, p), m);
    }
  }

  lemma {:induction false} MulTimes<P(!new)>(c: Curve<P>, a: nat, b: nat, p: P)
    requires GroupLaws(c)
    ensures Mul(c, a * b, p) == Mul(c, a, Mul(c, b, p))
  {
    if a == 0 {
      assert a * b == 0;
    } else {
      var rest := (a - 1) * b;
      assert a * b == b + rest;
      MulTimes(c, a - 1, b, p);
      MulPlus(c, b, rest, p);
    }
  }

  lemma Regroup<P(!new)>(c: Curve<P>, p: P, q: P, r: P, s: P)
    requires GroupLaws(c)
    ensures c.add(c.add(p, q), c.add(r, s)) == c.add(c.add(p, r), c.add(q, s))
  {
    assert Associates(c, p, q, c.add(r, s)) && Associates(c, p, r, c.add(q, s));
    assert Associates(c, q, r, s) && Commutes(c, q, r) && Associates(c, r, q, s);
  }

  lemma {:induction false} MulAdd<P(!new)>(c: Curve<P>, a: nat, p: P, q: P)
    requires GroupLaws(c)
    ensures Mul(c, a, c.add(p, q)) == c.add(Mul(c, a, p), Mul(c, a, q))
  {
    if a == 0 {
      assert KeepsZero(c, c.zero);
    } else {
      MulAdd(c, a - 1, p, q);
      Regroup(c, p, q, Mul(c, a - 1, p), Mul(c, a - 1, q));
    }
  }

  lemma {:induction false} MulZero<P(!new)>(c: Curve<P>, a: nat)
    requires GroupLaws(c)
    ensures Mul(c, a, c.zero) == c.zero
  {
    if a > 0 {
      MulZero(c, a - 1);
      assert KeepsZero(c, c.zero);
    }
  }

  lemma MulOne<P(!new)>(c: Curve<P>, p: P)
    requires GroupLaws(c)
    ensures Mul(c, 1, p) == p
  {
    assert Mul(c, 0, p) == c.zero;
    assert KeepsZero(c, p);
  }

  /** Adding multiples of the order changes nothing. */
  lemma MulOrder<P(!new)>(c: Curve<P>, q: nat, k: nat, p: P)
    requires GroupLaws(c) && OrderLaws(c)
    ensures q * c.order >= 0 && Mul(c, q * c.order + k, p) == Mul(c, k, p)
  {
    Positive(q, c.order);
    var m := Mul(c, k, p);
    MulPlus(c, q * c.order, k, p);
    MulTimes(c, q, c.order, p);
    assert HasOrder(c, p);
    MulZero(c, q);
    assert Commutes(c, c.zero, m) && KeepsZero(c, m);
  }

  /** Scalars count modulo the order. */
  lemma MulMod<P(!new)>(c: Curve<P>, k: nat, p: P)
    requires GroupLaws(c) && OrderLaws(c)
    ensures Mul(c, k % c.order, p) == Mul(c, k, p)
  {
    Division(k, c.order);
    MulOrder(c, k / c.order, k % c.order, p);
  }

  lemma Division(k: nat, n: nat)
    requires n > 0
    ensures k / n >= 0 && 0 <= k % n < n && k == (k / n) * n + k % n
  {
  }

  // ----- Inverses -----------------------------------------------------------------------------

  ghost predicate Inverts(a: nat, v: nat, n: nat) {
    n > 1 && v < n && (a * v) % n == 1
  }

  lemma QuotientUnique(a: nat, n: nat, q: nat, r: nat)
    requires a == q * n + r && r < n
    ensures a % n == r
  {
    var q', r' := a / n, a % n;
    assert a == q' * n + r';
    Ordered(q, q', n, r, r');
    Ordered(q', q, n, r', r);
  }

  lemma Positive(a: nat, n: nat)
    ensures a * n >= 0
  {
  }

  lemma Ordered(q: nat, q': nat, n: nat, r: nat, r': nat)
    requires q * n + r == q' * n + r' && r < n && r' < n
    ensures q >= q'
  {
    if q < q' {
      Positive(q' - q - 1, n);
      assert false;
    }
  }

  /** Equal up to multiples of `n` on either side. */
  lemma SameRemainder(a: nat, b: nat, i: nat, j: nat, n: nat)
    requires n > 0 && a + i * n == b + j * n
    ensures a % n == b % n
  {
    var p, q := a / n, b / n;
    Distribute(n, p, i);
    Distribute(n, q, j);
    QuotientUnique(a + i * n, n, p + i, a % n);
    QuotientUnique(b + j * n, n, q + j, b % n);
  }

  lemma Distribute(x: int, y: int, z: int)
    ensures x * (y + z) == x * y + x * z && (y + z) * x == y * x + z * x
  {
  }

  lemma Associate(x: int, y: int, z: int)
    ensures x * (y * z) == (x * y) * z
  {
  }

  /** The identity behind the descent: `b * v` and `a * (n - k)` differ by multiples of `n`. */
  lemma DescentIdentity(a: nat, n: nat, q: nat, b: nat, v: nat, m: nat, k: nat)
    requires n == q * a + b && q * v == m * n + k && k <= n
    ensures a * (n - k) + v * n == b * v + (a * m + a) * n
  {
    assert v * n == v * (q * a) + v * b by { Distribute(v, q * a, b); }
    assert v * (q * a) == a * (q * v) by { Associate(v, q, a); }
    assert a * (q * v) == a * (m * n) + a * k by { Distribute(a, m * n, k); }
    assert a * (m * n) == (a * m) * n by { Associate(a, m, n); }
    assert a * (n - k) == a * n - a * k by { Distribute(a, n - k, k); }
    assert (a * m + a) * n == (a * m) * n + a * n by { Distribute(n, a * m, a); }
  }

  /** One step of the descent: from an inverse of `n % a` to one of `a`. */
  lemma InverseStep(a: nat, n: nat, q: nat, b: nat, v: nat) returns (w: nat)
    requires n == q * a + b && Inverts(b, v, n)
    ensures Inverts(a, w, n)
  {
    var m, k := (q * v) / n, (q * v) % n;
    assert q * v == m * n + k;
    DescentIdentity(a, n, q, b, v, m, k);
    w := n - k;
    SameRemainder(a * w, b * v, v, a * m + a, n);
    if k == 0 {
      QuotientUnique(a * n, n, a, 0);
      assert false;
    }
  }

  /** Modulo a prime every smaller positive number has an inverse. */
  lemma {:induction false} InverseExists(a: nat, n: nat) returns (v: nat)
    requires IsPrime(n) && 0 < a < n
    ensures Inverts(a, v, n)
    decreases a
  {
    if a == 1 {
      v := 1;
    } else {
      var q, b := n / a, n % a;
      assert n == q * a + b;
      var v' := InverseExists(b, n);
      v := InverseStep(a, n, q, b, v');
    }
  }

  /** Multiplying by a number and then by its inverse gives the point back. */
  lemma MulInverse<P(!new)>(c: Curve<P>, a: nat, v: nat, p: P)
    requires GroupLaws(c) && OrderLaws(c) && Inverts(a, v, c.order)
    ensures Mul(c, a, Mul(c, v, p)) == p
  {
    Positive(a, v);
    MulTimes(c, a, v, p);
    MulUnit(c, a * v, p);
  }

  lemma MulUnit<P(!new)>(c: Curve<P>, k: nat, p: P)
    requires GroupLaws(c) && OrderLaws(c) && k % c.order == 1
    ensures Mul(c, k, p) == p
  {
    MulMod(c, k, p);
    MulOne(c, p);
  }

  /** A multiple of the base point is infinity exactly when the scalar is a multiple of the order. */
  lemma BaseOrder<P(!new)>(c: Curve<P>, k: nat)
    requires GroupLaws(c) && OrderLaws(c)
    ensures Mul(c, k, c.base) == c.zero <==> k % c.order == 0
  {
    var r := k % c.order;
    MulMod(c, k, c.base);
    if r != 0 && Mul(c, r, c.base) == c.zero {
      var v := InverseExists(r, c.order);
      Commuted(r, v, c.order);
      MulInverse(c, v, r, c.base);
      MulZero(c, v);
      assert false;
    }
  }

  lemma Commuted(a: nat, v: nat, n: nat)
    requires Inverts(a, v, n) && a < n
    ensures Inverts(v, a, n)
  {
    assert a * v == v * a;
  }

  // ----- Products of scalars ------------------------------------------------------------------

  /** `BN_mod_mul`. */
  function ModMul(a: nat, b: nat, n: nat): (r: nat)
    requires n > 0
    ensures r < n
  {
    Positive(a, b);
    (a * b) % n
  }

  lemma ScaleProduct<P(!new)>(c: Curve<P>, a: nat, b: nat, p: P)
    requires GroupLaws(c) && OrderLaws(c)
    ensures Mul(c, ModMul(a, b, c.order), p) == Mul(c, a, Mul(c, b, p))
  {
    Positive(a, b);
    MulTimes(c, a, b, p);
    MulMod(c, a * b, p);
  }

  lemma Swap<P(!new)>(c: Curve<P>, a: nat, b: nat, p: P)
    requires GroupLaws(c)
    ensures Mul(c, a, Mul(c, b, p)) == Mul(c, b, Mul(c, a, p))
  {
    MulTimes(c, a, b, p);
    MulTimes(c, b, a, p);
    assert a * b == b * a;
  }

  /** Below a prime order, inversion succeeds on everything but zero, and undoes multiplication on both sides. */
  lemma InverseOf<P(!new)>(c: Curve<P>, a: nat, p: P) returns (v: nat)
    requires GroupLaws(c) && OrderLaws(c) && InverseLaws(c) && 0 < a < c.order
    ensures c.inverse(a) == Some(v)
    ensures Mul(c, a, Mul(c, v, p)) == p && Mul(c, v, Mul(c, a, p)) == p
  {
    assert IsInverted(c, a);
    var w := InverseExists(a, c.order);
    v := c.inverse(a).value;
    MulInverse(c, a, v, p);
    Swap(c, a, v, p);
  }

  // ----- Negatives ----------------------------------------------------------------------------

  /** What adds up to infinity is the negative. */
  lemma NegUnique<P(!new)>(c: Curve<P>, p: P, q: P)
    requires GroupLaws(c) && c.add(p, q) == c.zero
    ensures q == c.neg(p)
  {
    var n := c.neg(p);
    assert Cancels(c, p) && Commutes(c, p, n) && Associates(c, n, p, q);
    assert KeepsZero(c, n) && Commutes(c, c.zero, q) && KeepsZero(c, q);
  }

  lemma MulNeg<P(!new)>(c: Curve<P>, a: nat, p: P)
    requires GroupLaws(c)
    ensures Mul(c, a, c.neg(p)) == c.neg(Mul(c, a, p))
  {
    assert Cancels(c, p);
    MulAdd(c, a, p, c.neg(p));
    MulZero(c, a);
    NegUnique(c, Mul(c, a, p), Mul(c, a, c.neg(p)));
  }
}
