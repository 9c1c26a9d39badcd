/** Recoverable ECDSA signatures: `src/crypto/sign.c` over any curve that meets `Curve.Laws`. */
module Sign {
  import opened Prelude
  import opened Endian
  import opened Curve

  /** The two 32-byte components. */
  datatype Signature = Signature(r: seq<Byte>, s: seq<Byte>)

  predicate Shaped(sig: Signature) { |sig.r| == 32 && |sig.s| == 32 }

  function R(sig: Signature): nat { FromBig(sig.r) }
  function S(sig: Signature): nat { FromBig(sig.s) }

  /** Both components lie strictly between zero and the order. */
  predicate InRange<P>(c: Curve<P>, sig: Signature) { 0 < R(sig) < c.order && 0 < S(sig) < c.order }

  // ----- Verification and recovery ------------------------------------------------------------

  /** The point that verification compares (SEC 1, section 4.1.4), from the inverse of `s`. */
  function VerifyPoint<P>(c: Curve<P>, q: P, e: nat, r: nat, w: nat): P
    requires c.order > 0
  {
    c.add(Mul(c, ModMul(e, w, c.order), c.base), Mul(c, ModMul(r, w, c.order), q))
  }

  /** What `ECDSA_do_verify` decides about a hash, a signature and a public key. */
  predicate Verify<P(==)>(c: Curve<P>, q: P, hash: seq<Byte>, sig: Signature) {
    InRange(c, sig) &&
    match c.inverse(S(sig))
    case None => false
    case Some(w) =>
      var p := VerifyPoint(c, q, FromBig(hash), R(sig), w);
      p != c.zero && c.x(p) % c.order == R(sig)
  }

  /** `-e` modulo the order. */
  function Minus(e: nat, n: nat): (m: nat)
    requires n > 0
    ensures m < n
  {
    (n - e % n) % n
  }

  /** The public key that a candidate point stands for: `s/r` times the point minus `e/r` times the base point. */
  function Candidate<P>(c: Curve<P>, p: P, e: nat, s: nat, v: nat): P
    requires c.order > 0
  {
    var minusE := Minus(e, c.order);
    c.add(Mul(c, ModMul(s, v, c.order), p), Mul(c, ModMul(minusE, v, c.order), c.base))
  }

  /** The key of a point, which goes through its compressed form. */
  function PublicKey<P>(c: Curve<P>, q: P): Result<P> {
    if |c.encode(q)| != 33 then Err(Crypto)
    else match c.decode(c.encode(q))
      case None => Err(Crypto)
      case Some(key) => Ok(key)
  }

  /** The x-coordinate that an identifier tries. */
  function TriedX<P>(c: Curve<P>, recId: int, r: nat): nat { (if recId >= 2 then c.order else 0) + r }

  /** `neoc_recover_from_signature`. */
  function Recover<P(==)>(c: Curve<P>, recId: int, sig: Signature, hash: seq<Byte>): Result<P>
    requires c.order > 0
  {
    if recId < 0 || recId > 3 then Err(InvalidArgument)
    else
      var x := TriedX(c, recId, R(sig));
      if x >= c.prime then Err(NotFound)
      else match c.lift(x, recId % 2 == 1)
        case None => Err(NotFound)
        case Some(p) =>
          if Mul(c, c.order, p) != c.zero then Err(NotFound)
          else match c.inverse(R(sig))
            case None => Err(Crypto)
            case Some(v) => PublicKey(c, Candidate(c, p, FromBig(hash), S(sig), v))
  }

  lemma PublicKeyIs<P(!new)>(c: Curve<P>, q: P)
    requires EncodingLaws(c)
    ensures PublicKey(c, q) == if q == c.zero then Err(Crypto) else Ok(q)
  {
    assert Encodes(c, q);
  }

  // ----- The algebra --------------------------------------------------------------------------

  lemma AddsToOrder<P(!new)>(c: Curve<P>, a: nat, b: nat, p: P)
    requires GroupLaws(c) && OrderLaws(c) && a + b == c.order
    ensures c.add(Mul(c, a, p), Mul(c, b, p)) == c.zero
  {
    MulPlus(c, a, b, p);
    assert HasOrder(c, p);
  }

  /** Minus `e` and `e` cancel on the base point. */
  lemma HashCancels<P(!new)>(c: Curve<P>, e: nat)
    requires GroupLaws(c) && OrderLaws(c)
    ensures c.add(Mul(c, e, c.base), Mul(c, Minus(e, c.order), c.base)) == c.zero
  {
    Division(e, c.order);
    var e0 := e % c.order;
    MulMod(c, e, c.base);
    MulMod(c, c.order - e0, c.base);
    AddsToOrder(c, e0, c.order - e0, c.base);
  }

  /** The equation that ties a signature to a point: `s` times the point is `e` times the base plus `r` times the key. */
  ghost predicate Ties<P>(c: Curve<P>, q: P, e: nat, r: nat, s: nat, p: P) {
    Mul(c, s, p) == c.add(Mul(c, e, c.base), Mul(c, r, q))
  }

  lemma VerifyPointScaled<P(!new)>(c: Curve<P>, q: P, e: nat, r: nat, w: nat)
    requires GroupLaws(c) && OrderLaws(c)
    ensures VerifyPoint(c, q, e, r, w) == Mul(c, w, c.add(Mul(c, e, c.base), Mul(c, r, q)))
  {
    ScaleProduct(c, e, w, c.base);
    ScaleProduct(c, r, w, q);
    Swap(c, e, w, c.base);
    Swap(c, r, w, q);
    MulAdd(c, w, Mul(c, e, c.base), Mul(c, r, q));
  }

  /** Verification computes the one point that the signature ties to the key. */
  lemma VerifyPointTies<P(!new)>(c: Curve<P>, q: P, e: nat, r: nat, s: nat, p: P)
    requires Laws(c) && 0 < s < c.order
    ensures c.inverse(s).Some?
    ensures Ties(c, q, e, r, s, p) <==> VerifyPoint(c, q, e, r, c.inverse(s).value) == p
  {
    var sum := c.add(Mul(c, e, c.base), Mul(c, r, q));
    var w := InverseOf(c, s, sum);
    var w' := InverseOf(c, s, p);
    VerifyPointScaled(c, q, e, r, w);
  }

  lemma CandidateScaled<P(!new)>(c: Curve<P>, p: P, e: nat, s: nat, v: nat)
    requires GroupLaws(c) && OrderLaws(c)
    ensures var minusE := Minus(e, c.order);
            Candidate(c, p, e, s, v) == Mul(c, v, c.add(Mul(c, s, p), Mul(c, minusE, c.base)))
  {
    var minusE := Minus(e, c.order);
    ScaleProduct(c, s, v, p);
    ScaleProduct(c, minusE, v, c.base);
    Swap(c, s, v, p);
    Swap(c, minusE, v, c.base);
    MulAdd(c, v, Mul(c, s, p), Mul(c, minusE, c.base));
  }

  /** Moving a cancelling pair across an equation. */
  lemma Transpose<P(!new)>(c: Curve<P>, a: P, b: P, x: P, y: P)
    requires GroupLaws(c) && c.add(a, b) == c.zero
    ensures x == c.add(a, y) <==> c.add(x, b) == y
  {
    assert Commutes(c, a, b) && Commutes(c, a, y);
    assert Associates(c, y, a, b) && KeepsZero(c, y);
    assert Associates(c, x, b, a) && KeepsZero(c, x) && Commutes(c, y, a);
  }

  /** Recovery computes the one key that the signature ties to the point. */
  lemma CandidateTies<P(!new)>(c: Curve<P>, q: P, e: nat, r: nat, s: nat, p: P)
    requires Laws(c) && 0 < r < c.order
    ensures c.inverse(r).Some?
    ensures Ties(c, q, e, r, s, p) <==> Candidate(c, p, e, s, c.inverse(r).value) == q
  {
    var minusE := Minus(e, c.order);
    var sum := c.add(Mul(c, s, p), Mul(c, minusE, c.base));
    var v := InverseOf(c, r, sum);
    var v' := InverseOf(c, r, q);
    CandidateScaled(c, p, e, s, v);
    HashCancels(c, e);
    Transpose(c, Mul(c, e, c.base), Mul(c, minusE, c.base), Mul(c, s, p), Mul(c, r, q));
  }

  // ----- Recovery is sound and complete -------------------------------------------------------

  lemma RemainderOf(r: nat, n: nat, x: nat)
    requires r < n && (x == r || x == n + r)
    ensures x % n == r
  {
    if x == n + r {
      QuotientUnique(x, n, 1, r);
    } else {
      QuotientUnique(x, n, 0, r);
    }
  }

  /** Whatever key recovery returns, the signature verifies under it exactly when its components are in range. */
  lemma RecoveredKeyVerifies<P(!new)>(c: Curve<P>, recId: int, sig: Signature, hash: seq<Byte>)
    requires Laws(c) && Recover(c, recId, sig, hash).Ok?
    ensures Verify(c, Recover(c, recId, sig, hash).value, hash, sig) <==> InRange(c, sig)
  {
    if InRange(c, sig) {
      var x := TriedX(c, recId, R(sig));
      var p := c.lift(x, recId % 2 == 1).value;
      assert Lifts(c, x, recId % 2 == 1);
      var e, q := FromBig(hash), Candidate(c, p, FromBig(hash), S(sig), c.inverse(R(sig)).value);
      PublicKeyIs(c, q);
      CandidateTies(c, q, e, R(sig), S(sig), p);
      VerifyPointTies(c, q, e, R(sig), S(sig), p);
      RemainderOf(R(sig), c.order, x);
    }
  }

  /** The recovery identifier of a point: whether its coordinate passes the order, and its parity. */
  function IdOf<P>(c: Curve<P>, p: P): int {
    (if c.x(p) >= c.order then 2 else 0) + (if c.odd(p) then 1 else 0)
  }

  lemma Coordinate(x: nat, n: nat)
    requires n > 0 && x < 2 * n
    ensures x == (if x >= n then n else 0) + x % n
  {
    if x >= n {
      QuotientUnique(x, n, 1, x - n);
    } else {
      QuotientUnique(x, n, 0, x);
    }
  }

  /** With a point's own identifier, recovery starts from that point. */
  lemma RecoverAt<P(!new)>(c: Curve<P>, p: P, hash: seq<Byte>, sig: Signature)
    requires Laws(c) && p != c.zero && InRange(c, sig) && c.x(p) % c.order == R(sig)
    ensures c.inverse(R(sig)).Some?
    ensures Recover(c, IdOf(c, p), sig, hash)
         == PublicKey(c, Candidate(c, p, FromBig(hash), S(sig), c.inverse(R(sig)).value))
  {
    IdParts(c, p);
    Located(c, p, R(sig));
    HasInverse(c, R(sig));
  }

  lemma HasInverse<P(!new)>(c: Curve<P>, r: nat)
    requires Laws(c) && 0 < r < c.order
    ensures c.inverse(r).Some?
  {
    var v := InverseOf(c, r, c.zero);
  }

  lemma IdParts<P>(c: Curve<P>, p: P)
    ensures 0 <= IdOf(c, p) < 4
    ensures IdOf(c, p) >= 2 <==> c.x(p) >= c.order
    ensures IdOf(c, p) % 2 == 1 <==> c.odd(p)
  {
  }

  lemma Located<P(!new)>(c: Curve<P>, p: P, r: nat)
    requires Laws(c) && p != c.zero && c.x(p) % c.order == r
    ensures c.x(p) == (if c.x(p) >= c.order then c.order else 0) + r
    ensures c.x(p) < c.prime && c.lift(c.x(p), c.odd(p)) == Some(p) && Mul(c, c.order, p) == c.zero
  {
    assert IsLocated(c, p) && HasOrder(c, p);
    Coordinate(c.x(p), c.order);
  }

  /** Recovery finds the signer: a signature that verifies is recovered by the identifier of its point. */
  lemma VerifiedKeyIsRecovered<P(!new)>(c: Curve<P>, q: P, hash: seq<Byte>, sig: Signature) returns (recId: int)
    requires Laws(c) && q != c.zero && Verify(c, q, hash, sig)
    ensures 0 <= recId < 4 && Recover(c, recId, sig, hash) == Ok(q)
  {
    var e, w := FromBig(hash), c.inverse(S(sig)).value;
    var p := VerifyPoint(c, q, e, R(sig), w);
    recId := IdOf(c, p);
    RecoverAt(c, p, hash, sig);
    VerifyPointTies(c, q, e, R(sig), S(sig), p);
    CandidateTies(c, q, e, R(sig), S(sig), p);
    PublicKeyIs(c, q);
  }

  /** The keys under which a signature in range verifies are exactly those that the four identifiers recover. */
  lemma RecoveryIsExact<P(!new)>(c: Curve<P>, q: P, hash: seq<Byte>, sig: Signature)
    requires Laws(c) && q != c.zero && InRange(c, sig)
    ensures Verify(c, q, hash, sig) <==> exists recId {:trigger Recover(c, recId, sig, hash)} ::
              0 <= recId < 4 && Recover(c, recId, sig, hash) == Ok(q)
  {
    if Verify(c, q, hash, sig) {
      var recId := VerifiedKeyIsRecovered(c, q, hash, sig);
    }
    forall recId | 0 <= recId < 4 && Recover(c, recId, sig, hash) == Ok(q)
      ensures Verify(c, q, hash, sig)
    {
      RecoveredKeyVerifies(c, recId, sig, hash);
    }
  }

  // ----- The canonical form -------------------------------------------------------------------

  /** The order of secp256r1. */
  const ORDER: nat := 0xFFFFFFFF_00000000_FFFFFFFF_FFFFFFFF_BCE6FAAD_A7179E84_F3B9CAC2_FC632551
  /** `SECP256R1_HALF_CURVE_ORDER` of `src/neo_constants.c`. */
  const HALF_ORDER: nat := 0x7FFFFFFF_80000000_80000000_00000000_BCE6FAAD_A7179E84_F3B9CAC2_FC632551

  /** What canonicalization makes of `s`: beyond the threshold the magnitude of `order - s`. */
  function CanonicalS(order: nat, half: nat, s: nat): nat {
    if s <= half then s else if s <= order then order - s else s - order
  }

  /** A threshold for which the canonical form of a scalar never exceeds it. */
  predicate Threshold(order: nat, half: nat) { order <= 2 * half + 1 }

  /** The code's constant is such a threshold, but not the half of the order: it lies above it. */
  lemma HalfOrderIsAThreshold()
    ensures Threshold(ORDER, HALF_ORDER) && ORDER < 2 * HALF_ORDER && HALF_ORDER < ORDER
  {
  }

  function Canonical<P>(c: Curve<P>, half: nat, sig: Signature): Signature
    requires Shaped(sig)
  {
    if S(sig) <= half then sig else sig.(s := Big(CanonicalS(c.order, half, S(sig)), 32))
  }

  lemma CanonicalSIs<P(!new)>(c: Curve<P>, half: nat, sig: Signature)
    requires OrderLaws(c) && Shaped(sig)
    ensures Shaped(Canonical(c, half, sig))
    ensures S(Canonical(c, half, sig)) == CanonicalS(c.order, half, S(sig)) && R(Canonical(c, half, sig)) == R(sig)
  {
    FromBigRoundTrip(sig.s);
    if S(sig) > half {
      BigRoundTrip(CanonicalS(c.order, half, S(sig)), WORD);
    }
  }

  /** The canonical form stays in range and within the threshold, and is its own canonical form. */
  lemma CanonicalIsCanonical<P(!new)>(c: Curve<P>, half: nat, sig: Signature)
    requires OrderLaws(c) && Threshold(c.order, half) && Shaped(sig) && InRange(c, sig)
    ensures var canonical := Canonical(c, half, sig);
            && Shaped(canonical)
            && InRange(c, canonical)
            && S(canonical) <= half
            && Canonical(c, half, canonical) == canonical
  {
    CanonicalSIs(c, half, sig);
  }

  /** The canonical `s` is in the lower half of the scalars unless `s` lies between the half and the threshold. */
  lemma LowExactly<P(!new)>(c: Curve<P>, half: nat, sig: Signature)
    requires OrderLaws(c) && Threshold(c.order, half) && Shaped(sig) && InRange(c, sig)
    ensures 2 * S(Canonical(c, half, sig)) <= c.order <==> !(c.order < 2 * S(sig) && S(sig) <= half)
  {
    CanonicalSIs(c, half, sig);
  }

  /** A high signature that the code takes for canonical: its `s` is the threshold itself. */
  lemma HighIsKept<P(!new)>(c: Curve<P>, r: seq<Byte>)
    requires OrderLaws(c) && c.order == ORDER && |r| == 32
    ensures var sig := Signature(r, Big(HALF_ORDER, WORD));
            S(sig) == HALF_ORDER && Canonical(c, HALF_ORDER, sig) == sig && 2 * S(sig) > c.order
  {
    BigRoundTrip(HALF_ORDER, WORD);
  }

  lemma TiesNegated<P(!new)>(c: Curve<P>, q: P, e: nat, r: nat, s: nat, p: P)
    requires GroupLaws(c) && OrderLaws(c) && 0 < s < c.order
    ensures Ties(c, q, e, r, s, p) <==> Ties(c, q, e, r, c.order - s, c.neg(p))
  {
    AddsToOrder(c, s, c.order - s, p);
    NegUnique(c, Mul(c, s, p), Mul(c, c.order - s, p));
    MulNeg(c, c.order - s, p);
    NegTwice(c, Mul(c, s, p));
  }

  lemma NegTwice<P(!new)>(c: Curve<P>, p: P)
    requires GroupLaws(c)
    ensures c.neg(c.neg(p)) == p
  {
    assert Cancels(c, p) && Commutes(c, p, c.neg(p));
    NegUnique(c, c.neg(p), p);
  }

  lemma NegZero<P(!new)>(c: Curve<P>)
    requires GroupLaws(c)
    ensures c.neg(c.zero) == c.zero
  {
    assert KeepsZero(c, c.zero);
    NegUnique(c, c.zero, c.zero);
  }

  /** Replacing `s` by `order - s` negates the point that verification computes. */
  lemma VerifyPointNegated<P(!new)>(c: Curve<P>, q: P, e: nat, r: nat, s: nat)
    requires Laws(c) && 0 < s < c.order
    ensures c.inverse(s).Some? && c.inverse(c.order - s).Some?
    ensures VerifyPoint(c, q, e, r, c.inverse(c.order - s).value) == c.neg(VerifyPoint(c, q, e, r, c.inverse(s).value))
  {
    VerifyPointTies(c, q, e, r, s, c.zero);
    var p := VerifyPoint(c, q, e, r, c.inverse(s).value);
    VerifyPointTies(c, q, e, r, s, p);
    TiesNegated(c, q, e, r, s, p);
    VerifyPointTies(c, q, e, r, c.order - s, c.neg(p));
  }

  lemma NegatedVerdict<P(!new)>(c: Curve<P>, q: P, hash: seq<Byte>, sig: Signature, sig': Signature)
    requires Laws(c) && InRange(c, sig) && R(sig') == R(sig) && S(sig') == c.order - S(sig)
    ensures Verify(c, q, hash, sig') <==> Verify(c, q, hash, sig)
  {
    VerifyPointNegated(c, q, FromBig(hash), R(sig), S(sig));
    var p := VerifyPoint(c, q, FromBig(hash), R(sig), c.inverse(S(sig)).value);
    assert IsLocated(c, p);
    NegZero(c);
    NegTwice(c, p);
  }

  /** Canonicalization never changes a verdict. */
  lemma CanonicalKeepsVerdict<P(!new)>(c: Curve<P>, half: nat, q: P, hash: seq<Byte>, sig: Signature)
    requires Laws(c) && Shaped(sig) && InRange(c, sig)
    ensures Verify(c, q, hash, Canonical(c, half, sig)) <==> Verify(c, q, hash, sig)
  {
    CanonicalSIs(c, half, sig);
    if S(sig) > half {
      NegatedVerdict(c, q, hash, sig, Canonical(c, half, sig));
    }
  }

  // ----- Signing and recovering the signer ----------------------------------------------------

  const V_OFFSET: int := 27

  /** A signature with its recovery byte. */
  datatype SignatureData = SignatureData(v: Byte, signature: Signature)

  /** What the four identifiers recover. */
  function Candidates<P(==)>(c: Curve<P>, sig: Signature, hash: seq<Byte>): (rs: seq<Result<P>>)
    requires c.order > 0
    ensures |rs| == 4 && forall i :: 0 <= i < 4 ==> rs[i] == Recover(c, i, sig, hash)
  {
    [Recover(c, 0, sig, hash), Recover(c, 1, sig, hash), Recover(c, 2, sig, hash), Recover(c, 3, sig, hash)]
  }

  /** The search for the key, from `i` on: a candidate that does not exist is skipped, any other error ends it. */
  function Search<P>(c: Curve<P>, rs: seq<Result<P>>, key: P, i: nat): (r: Result<nat>)
    requires i <= |rs|
    ensures r.Ok? ==> i <= r.value < |rs|
    decreases |rs| - i
  {
    if i == |rs| then Err(Crypto)
    else match rs[i]
      case Err(NotFound) => Search(c, rs, key, i + 1)
      case Err(e) => Err(e)
      case Ok(q) => if c.encode(q) == c.encode(key) then Ok(i) else Search(c, rs, key, i + 1)
  }

  /** `neoc_find_recovery_id`. */
  function FindRecoveryId<P(==)>(c: Curve<P>, sig: Signature, hash: seq<Byte>, key: P): Result<nat>
    requires c.order > 0
  {
    Search(c, Candidates(c, sig, hash), key, 0)
  }

  /** `neoc_sign_message`; `sign` is what `ECDSA_do_sign` returns for the hash. */
  function SignMessage<P(==)>(c: Curve<P>, half: nat, sha: seq<Byte> -> seq<Byte>, sign: seq<Byte> -> Result<Signature>,
                              key: P, message: seq<Byte>): Result<SignatureData>
    requires c.order > 0 && forall h {:trigger sign(h)} :: sign(h).Ok? ==> Shaped(sign(h).value)
  {
    var hash := sha(message);
    var raw :- sign(hash);
    var sig := Canonical(c, half, raw);
    var recId :- FindRecoveryId(c, sig, hash, key);
    Ok(SignatureData(recId + V_OFFSET, sig))
  }

  /** `neoc_signed_message_to_key`. */
  function SignedMessageToKey<P(==)>(c: Curve<P>, sha: seq<Byte> -> seq<Byte>, message: seq<Byte>, data: SignatureData): Result<P>
    requires c.order > 0
  {
    if V_OFFSET <= data.v < V_OFFSET + 8 then Recover(c, data.v - V_OFFSET, data.signature, sha(message))
    else if data.v < 4 then Recover(c, data.v, data.signature, sha(message))
    else Err(InvalidArgument)
  }

  lemma SameEncoding<P(!new)>(c: Curve<P>, p: P, q: P)
    requires EncodingLaws(c) && p != c.zero && q != c.zero && c.encode(p) == c.encode(q)
    ensures p == q
  {
    assert Encodes(c, p) && Encodes(c, q);
  }

  lemma RecoveredIsFinite<P(!new)>(c: Curve<P>, recId: int, sig: Signature, hash: seq<Byte>)
    requires Laws(c) && Recover(c, recId, sig, hash).Ok?
    ensures Recover(c, recId, sig, hash).value != c.zero
  {
    var x := TriedX(c, recId, R(sig));
    var p := c.lift(x, recId % 2 == 1).value;
    PublicKeyIs(c, Candidate(c, p, FromBig(hash), S(sig), c.inverse(R(sig)).value));
  }

  /** The candidate at `i` is the key, and no error other than a missing candidate comes before it. */
  ghost predicate FoundAt<P>(rs: seq<Result<P>>, key: P, i: nat) {
    i < |rs| && rs[i] == Ok(key) && forall j :: 0 <= j < i ==> rs[j].Ok? || rs[j] == Err(NotFound)
  }

  /** No candidate other than the key shares its encoding. */
  ghost predicate Distinguished<P>(c: Curve<P>, rs: seq<Result<P>>, key: P) {
    forall i :: 0 <= i < |rs| && rs[i].Ok? ==> (c.encode(rs[i].value) == c.encode(key) <==> rs[i].value == key)
  }

  /** The search succeeds exactly when some candidate is the key and no hard error comes before it. */
  lemma {:induction false} SearchFinds<P(!new)>(c: Curve<P>, rs: seq<Result<P>>, key: P, i: nat)
    requires i <= |rs| && Distinguished(c, rs, key)
    requires forall j :: 0 <= j < i ==> rs[j] != Ok(key) && (rs[j].Ok? || rs[j] == Err(NotFound))
    ensures Search(c, rs, key, i).Ok? <==> exists k: nat :: FoundAt(rs, key, k)
    ensures Search(c, rs, key, i).Ok? ==> rs[Search(c, rs, key, i).value] == Ok(key)
    decreases |rs| - i
  {
    if i < |rs| {
      if rs[i] == Ok(key) {
        assert FoundAt(rs, key, i);
      } else if rs[i].Ok? || rs[i] == Err(NotFound) {
        SearchFinds(c, rs, key, i + 1);
      }
    }
  }

  lemma CandidatesAreDistinguished<P(!new)>(c: Curve<P>, sig: Signature, hash: seq<Byte>, key: P)
    requires Laws(c) && key != c.zero
    ensures Distinguished(c, Candidates(c, sig, hash), key)
  {
    var rs := Candidates(c, sig, hash);
    forall i | 0 <= i < |rs| && rs[i].Ok? && c.encode(rs[i].value) == c.encode(key)
      ensures rs[i].value == key
    {
      RecoveredIsFinite(c, i, sig, hash);
      SameEncoding(c, rs[i].value, key);
    }
  }

  ghost predicate SignsInRange<P(!new)>(c: Curve<P>, sign: seq<Byte> -> Result<Signature>) {
    forall h {:trigger sign(h)} :: sign(h).Ok? ==> Shaped(sign(h).value) && InRange(c, sign(h).value)
  }

  /**
   * Whenever signing succeeds, the signature verifies under the signer's key, its `s` is within the threshold, a
   * second canonicalization changes nothing, and the signer's key is recovered from it.
   */
  lemma SignedMessage<P(!new)>(c: Curve<P>, half: nat, sha: seq<Byte> -> seq<Byte>, sign: seq<Byte> -> Result<Signature>,
                               key: P, message: seq<Byte>)
    requires Laws(c) && Threshold(c.order, half) && SignsInRange(c, sign) && key != c.zero
    requires SignMessage(c, half, sha, sign, key, message).Ok?
    ensures var data := SignMessage(c, half, sha, sign, key, message).value;
            && Shaped(data.signature)
            && Verify(c, key, sha(message), data.signature)
            && S(data.signature) <= half
            && Canonical(c, half, data.signature) == data.signature
            && SignedMessageToKey(c, sha, message, data) == Ok(key)
            && c.inverse(S(data.signature)).Some? && data.v == 27 + KeyId(c, key, sha(message), data.signature)
  {
    var hash := sha(message);
    var sig := Canonical(c, half, sign(hash).value);
    CanonicalIsCanonical(c, half, sign(hash).value);
    CandidatesAreDistinguished(c, sig, hash, key);
    SearchFinds(c, Candidates(c, sig, hash), key, 0);
    RecoveredKeyVerifies(c, FindRecoveryId(c, sig, hash, key).value, sig, hash);
    OnlyItsIdRecovers(c, key, hash, sig, FindRecoveryId(c, sig, hash, key).value);
  }

  /** The recovery byte is an identifier, or 27 more than one; every other byte is refused. */
  lemma RecoveryByte<P(!new)>(c: Curve<P>, sha: seq<Byte> -> seq<Byte>, message: seq<Byte>, data: SignatureData)
    requires c.order > 0
    ensures SignedMessageToKey(c, sha, message, data)
         == if data.v <= 3 then Recover(c, data.v, data.signature, sha(message))
            else if 27 <= data.v <= 30 then Recover(c, data.v - 27, data.signature, sha(message))
            else Err(InvalidArgument)
  {
  }

  // ----- Textbook signatures ------------------------------------------------------------------

  /**
   * A signature made by the book verifies: with secret `d` and nonce `k`, `r` is the coordinate of `k` times the base
   * point, and `s * k` is the hash plus `r * d`, all modulo the order (SEC 1, section 4.1.3).
   */
  lemma TextbookSignature<P(!new)>(c: Curve<P>, d: nat, k: nat, hash: seq<Byte>, sig: Signature)
    requires Laws(c) && InRange(c, sig) && Mul(c, k, c.base) != c.zero
    requires R(sig) == c.x(Mul(c, k, c.base)) % c.order
    requires ModMul(S(sig), k, c.order) == (FromBig(hash) + ModMul(R(sig), d, c.order)) % c.order
    ensures Verify(c, Mul(c, d, c.base), hash, sig)
  {
    var e, p, q := FromBig(hash), Mul(c, k, c.base), Mul(c, d, c.base);
    TextbookTies(c, d, k, e, R(sig), S(sig));
    VerifyPointTies(c, q, e, R(sig), S(sig), p);
  }

  lemma TextbookTies<P(!new)>(c: Curve<P>, d: nat, k: nat, e: nat, r: nat, s: nat)
    requires GroupLaws(c) && OrderLaws(c)
    requires ModMul(s, k, c.order) == (e + ModMul(r, d, c.order)) % c.order
    ensures Ties(c, Mul(c, d, c.base), e, r, s, Mul(c, k, c.base))
  {
    var rd := ModMul(r, d, c.order);
    ScaleProduct(c, s, k, c.base);
    ScaleProduct(c, r, d, c.base);
    MulMod(c, e + rd, c.base);
    MulPlus(c, e, rd, c.base);
  }

  // ----- When the search fails ----------------------------------------------------------------

  /**
   * The identifier's point exists, and `s` times it is `e` times the base point: what is left for the key is infinity.
   * This is decided by the hash, `r` and `s` alone.
   */
  predicate Vanishes<P(==)>(c: Curve<P>, recId: int, sig: Signature, hash: seq<Byte>) {
    var x := TriedX(c, recId, R(sig));
    x < c.prime &&
    match c.lift(x, recId % 2 == 1)
    case None => false
    case Some(p) => Mul(c, S(sig), p) == Mul(c, FromBig(hash), c.base)
  }

  /** The candidate of a point is infinity exactly when `s` times the point is `e` times the base point. */
  lemma CandidateVanishes<P(!new)>(c: Curve<P>, p: P, e: nat, r: nat, s: nat)
    requires Laws(c) && 0 < r < c.order
    ensures c.inverse(r).Some?
    ensures Candidate(c, p, e, s, c.inverse(r).value) == c.zero <==> Mul(c, s, p) == Mul(c, e, c.base)
  {
    CandidateTies(c, c.zero, e, r, s, p);
    MulZero(c, r);
    assert KeepsZero(c, Mul(c, e, c.base));
  }

  /** For a signature in range, recovery fails other than for want of a point exactly when the candidate vanishes. */
  lemma HardErrorExactly<P(!new)>(c: Curve<P>, recId: int, sig: Signature, hash: seq<Byte>)
    requires Laws(c) && InRange(c, sig) && 0 <= recId < 4
    ensures Recover(c, recId, sig, hash) == Err(Crypto) <==> Vanishes(c, recId, sig, hash)
    ensures Recover(c, recId, sig, hash).Err? ==> Recover(c, recId, sig, hash).error in {NotFound, Crypto}
  {
    var x := TriedX(c, recId, R(sig));
    if x < c.prime && c.lift(x, recId % 2 == 1).Some? {
      var p := c.lift(x, recId % 2 == 1).value;
      assert HasOrder(c, p);
      CandidateVanishes(c, p, FromBig(hash), R(sig), S(sig));
      PublicKeyIs(c, Candidate(c, p, FromBig(hash), S(sig), c.inverse(R(sig)).value));
    }
  }

  /** The identifier of a key under which the signature verifies: that of the point that verification computes. */
  function KeyId<P>(c: Curve<P>, key: P, hash: seq<Byte>, sig: Signature): int
    requires c.order > 0 && c.inverse(S(sig)).Some?
  {
    IdOf(c, VerifyPoint(c, key, FromBig(hash), R(sig), c.inverse(S(sig)).value))
  }

  lemma IdOfTried<P(!new)>(c: Curve<P>, recId: int, r: nat)
    requires CoordinateLaws(c) && 0 <= recId < 4 && r < c.order && c.lift(TriedX(c, recId, r), recId % 2 == 1).Some?
    ensures IdOf(c, c.lift(TriedX(c, recId, r), recId % 2 == 1).value) == recId
  {
    assert Lifts(c, TriedX(c, recId, r), recId % 2 == 1);
  }

  /** No other identifier recovers the key. */
  lemma OnlyItsIdRecovers<P(!new)>(c: Curve<P>, key: P, hash: seq<Byte>, sig: Signature, recId: int)
    requires Laws(c) && key != c.zero && InRange(c, sig)
    requires 0 <= recId < 4 && Recover(c, recId, sig, hash) == Ok(key)
    ensures c.inverse(S(sig)).Some? && KeyId(c, key, hash, sig) == recId
  {
    var p := c.lift(TriedX(c, recId, R(sig)), recId % 2 == 1).value;
    var e, q := FromBig(hash), Candidate(c, p, FromBig(hash), S(sig), c.inverse(R(sig)).value);
    PublicKeyIs(c, q);
    CandidateTies(c, key, e, R(sig), S(sig), p);
    VerifyPointTies(c, key, e, R(sig), S(sig), p);
    IdOfTried(c, recId, R(sig));
  }

  /** The search for a key that verifies succeeds exactly when no candidate before the key's own vanishes. */
  lemma SearchExactly<P(!new)>(c: Curve<P>, key: P, hash: seq<Byte>, sig: Signature)
    requires Laws(c) && key != c.zero && Verify(c, key, hash, sig)
    ensures Recover(c, KeyId(c, key, hash, sig), sig, hash) == Ok(key)
    ensures FindRecoveryId(c, sig, hash, key).Ok? <==>
            forall j {:trigger Vanishes(c, j, sig, hash)} ::
              0 <= j < KeyId(c, key, hash, sig) ==> !Vanishes(c, j, sig, hash)
  {
    var rs, id := Candidates(c, sig, hash), KeyId(c, key, hash, sig);
    var found := VerifiedKeyIsRecovered(c, key, hash, sig);
    OnlyItsIdRecovers(c, key, hash, sig, found);
    CandidatesAreDistinguished(c, sig, hash, key);
    SearchFinds(c, rs, key, 0);
    forall j | 0 <= j < 4
      ensures rs[j] == Ok(key) ==> j == id
      ensures Vanishes(c, j, sig, hash) <==> rs[j].Err? && rs[j] != Err(NotFound)
    {
      HardErrorExactly(c, j, sig, hash);
      if rs[j] == Ok(key) {
        OnlyItsIdRecovers(c, key, hash, sig, j);
      }
    }
    FoundExactly(rs, key, id);
  }

  lemma FoundExactly<P(!new)>(rs: seq<Result<P>>, key: P, id: nat)
    requires id < |rs| && rs[id] == Ok(key) && forall j :: 0 <= j < |rs| && rs[j] == Ok(key) ==> j == id
    ensures (exists i: nat :: FoundAt(rs, key, i)) <==> forall j :: 0 <= j < id ==> rs[j].Ok? || rs[j] == Err(NotFound)
  {
    if forall j :: 0 <= j < id ==> rs[j].Ok? || rs[j] == Err(NotFound) {
      assert FoundAt(rs, key, id);
    }
  }

  /**
   * Signing with a genuine raw signature, that is one that verifies, has exactly one identifier that recovers the key.
   * It succeeds if and only if no identifier before that one has a candidate that vanishes.
   */
  lemma GenuineIsSigned<P(!new)>(c: Curve<P>, half: nat, sha: seq<Byte> -> seq<Byte>, sign: seq<Byte> -> Result<Signature>,
                                 key: P, message: seq<Byte>)
    requires Laws(c) && SignsInRange(c, sign) && key != c.zero
    requires sign(sha(message)).Ok? && Verify(c, key, sha(message), sign(sha(message)).value)
    ensures var hash, sig := sha(message), Canonical(c, half, sign(sha(message)).value);
            && c.inverse(S(sig)).Some?
            && Recover(c, KeyId(c, key, hash, sig), sig, hash) == Ok(key)
            && (SignMessage(c, half, sha, sign, key, message).Ok? <==>
                forall j {:trigger Vanishes(c, j, sig, hash)} ::
                  0 <= j < KeyId(c, key, hash, sig) ==> !Vanishes(c, j, sig, hash))
  {
    var hash := sha(message);
    CanonicalKeepsVerdict(c, half, key, hash, sign(hash).value);
    SearchExactly(c, key, hash, Canonical(c, half, sign(hash).value));
  }

  // ----- The loops ----------------------------------------------------------------------------

  /** The first difference of two byte strings decides between the numbers they spell. */
  lemma {:induction false} FirstDifference(a: seq<Byte>, b: seq<Byte>, i: nat)
    requires |a| == |b| && i < |a| && a[..i] == b[..i] && a[i] < b[i]
    ensures FromBig(a) < FromBig(b)
  {
    var a', b' := a[..|a| - 1], b[..|b| - 1];
    if i == |a| - 1 {
      assert a' == b';
    } else {
      assert a'[..i] == a[..i] && b'[..i] == b[..i];
      FirstDifference(a', b', i);
    }
  }

  /** `memcmp` of two big-endian numbers of one width compares them. */
  method MemCmp(a: seq<Byte>, b: seq<Byte>) returns (cmp: int)
    requires |a| == |b|
    ensures cmp < 0 <==> FromBig(a) < FromBig(b)
    ensures cmp == 0 <==> a == b
    ensures cmp > 0 <==> FromBig(a) > FromBig(b)
  {
    for i := 0 to |a|
      invariant a[..i] == b[..i]
    {
      if a[i] < b[i] {
        FirstDifference(a, b, i);
        return -1;
      } else if a[i] > b[i] {
        FirstDifference(b, a, i);
        return 1;
      }
    }
    assert a == a[..|a|] && b == b[..|b|];
    return 0;
  }

  /** `neoc_signature_make_canonical`, which overwrites `s` in place. */
  method MakeCanonical<P(!new)>(c: Curve<P>, half: seq<Byte>, r: array<Byte>, s: array<Byte>)
    requires r.Length == 32 && s.Length == 32 && r != s && |half| == 32
    modifies s
    ensures Signature(r[..], s[..]) == Canonical(c, FromBig(half), old(Signature(r[..], s[..])))
  {
    var cmp := MemCmp(s[..], half);
    if cmp <= 0 {
      return;
    }
    var value := FromBig(s[..]);
    var bytes := Big(if value <= c.order then c.order - value else value - c.order, WORD);
    forall i | 0 <= i < 32 { s[i] := bytes[i]; }
    assert s[..] == bytes;
  }

  /** The loop over the four identifiers. */
  method FindId<P(==, !new)>(c: Curve<P>, sig: Signature, hash: seq<Byte>, key: P) returns (r: Result<nat>)
    requires c.order > 0
    ensures r == FindRecoveryId(c, sig, hash, key)
  {
    ghost var rs := Candidates(c, sig, hash);
    for i := 0 to 4
      invariant Search(c, rs, key, i) == FindRecoveryId(c, sig, hash, key)
    {
      var candidate := Recover(c, i, sig, hash);
      assert rs[i] == candidate;
      if candidate.Err? {
        if candidate.error != NotFound {
          return Err(candidate.error);
        }
      } else if c.encode(candidate.value) == c.encode(key) {
        return Ok(i);
      }
    }
    return Err(Crypto);
  }
}
