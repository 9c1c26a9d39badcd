/** The integers modulo 7 meet every law of `Curve`, so the theorems about curves are not about nothing. */
module CurveModel {
  import opened Prelude
  import opened Endian
  import opened Curve
  import opened Sign
  import opened Bip32

  type Elem = v: int | 0 <= v < 7

  function Add(p: Elem, q: Elem): Elem { if p + q < 7 then p + q else p + q - 7 }
  function Neg(p: Elem): Elem { (7 - p) % 7 }
  function Encode(p: Elem): seq<Byte> { if p == 0 then [0] else [2] + Big(p, WORD) }
  function Decode(bytes: seq<Byte>): Option<Elem> {
    if |bytes| == 33 && bytes[0] == 2 && FromBig(bytes[1..]) < 7 then Some(FromBig(bytes[1..])) else None
  }
  function X(p: Elem): nat { if p <= 3 then p else 7 - p }
  function Odd(p: Elem): bool { p > 3 }
  function Lift(v: nat, odd: bool): Option<Elem> {
    if 1 <= v <= 3 then Some(if odd then 7 - v else v) else None
  }

  function Inverse(a: nat): Option<nat> { if a % 7 == 0 then None else Some([0, 1, 4, 5, 2, 3, 6][a % 7]) }

  const Mod7: Curve<Elem> := Curve(7, 5, 0, 1, Add, Neg, Encode, Decode, X, Odd, Lift, Inverse)

  lemma EncodeDecode(p: Elem)
    ensures p != 0 ==> |Encode(p)| == 33 && Decode(Encode(p)) == Some(p)
  {
    assert Pow256(WORD) == 256 * Pow256(WORD - 1);
    BigRoundTrip(p, WORD);
    assert Encode(p)[1..] == if p == 0 then [] else Big(p, WORD);
  }

  lemma OnceMore(k: nat, p: Elem, m: Elem)
    requires Mul(Mod7, k, p) == m
    ensures Mul(Mod7, k + 1, p) == Add(p, m)
  {
  }

  lemma SevenTimes(p: Elem)
    ensures HasOrder(Mod7, p)
  {
    OnceMore(0, p, 0);
    OnceMore(1, p, p);
    OnceMore(2, p, (2 * p) % 7);
    OnceMore(3, p, (3 * p) % 7);
    OnceMore(4, p, (4 * p) % 7);
    OnceMore(5, p, (5 * p) % 7);
    OnceMore(6, p, (6 * p) % 7);
  }

  lemma Mod7IsAGroup()
    ensures GroupLaws(Mod7)
  {
    assert forall p: Elem, q: Elem, r: Elem :: Associates(Mod7, p, q, r);
    assert forall p: Elem, q: Elem :: Commutes(Mod7, p, q);
  }

  lemma Mod7HasPrimeOrder()
    ensures OrderLaws(Mod7)
  {
    forall p: Elem
      ensures HasOrder(Mod7, p)
    {
      SevenTimes(p);
    }
    SevenIsPrime();
    assert Pow256(WORD) == 256 * Pow256(WORD - 1);
  }

  lemma SevenIsPrime()
    ensures IsPrime(7)
  {
    assert 7 % 2 == 1 && 7 % 3 == 1 && 7 % 4 == 3 && 7 % 5 == 2 && 7 % 6 == 1;
  }

  lemma Mod7HasEncodings()
    ensures EncodingLaws(Mod7)
  {
    forall p: Elem
      ensures Encodes(Mod7, p)
    {
      EncodeDecode(p);
    }
  }

  lemma Mod7HasCoordinates()
    ensures CoordinateLaws(Mod7)
  {
    assert forall p: Elem :: IsLocated(Mod7, p);
    assert forall v, odd :: Lifts(Mod7, v, odd);
  }

  lemma ProductRemainder(a: nat, v: nat)
    ensures (a * v) % 7 == ((a % 7) * v) % 7
  {
    var q, r := a / 7, a % 7;
    Positive(r, v);
    Positive(a, v);
    Positive(q, v);
    assert a * v == r * v + (q * v) * 7 by {
      Distribute(v, 7 * q, r);
      Associate(7, q, v);
    }
    SameRemainder(a * v, r * v, 0, q * v, 7);
  }

  lemma Mod7HasInverses()
    ensures InverseLaws(Mod7)
  {
    forall a: nat
      ensures IsInverted(Mod7, a)
    {
      if a % 7 == 0 {
        forall v: nat
          ensures !Inverts(a, v, 7)
        {
          ProductRemainder(a, v);
        }
      } else {
        var v := Inverse(a).value;
        ProductRemainder(a, v);
      }
    }
  }

  lemma Mod7MeetsTheLaws()
    ensures Laws(Mod7)
  {
    Mod7IsAGroup();
    Mod7HasPrimeOrder();
    Mod7HasEncodings();
    Mod7HasCoordinates();
    Mod7HasInverses();
  }

  // ----- A signature that cannot be completed -------------------------------------------------

  const ONE: seq<Byte> := Big(1, WORD)

  lemma OneIsOne()
    ensures |ONE| == 32 && FromBig(ONE) == 1
  {
    assert Pow256(WORD) == 256 * Pow256(WORD - 1);
    BigRoundTrip(1, WORD);
  }

  lemma Once(p: Elem)
    ensures Mul(Mod7, 1, p) == p
  {
    OnceMore(0, p, 0);
  }

  /** With hash, `r` and `s` one, the signature verifies under the key 5, through the point 6. */
  lemma VerifiesUnderFive()
    ensures InRange(Mod7, Signature(ONE, ONE)) && Verify(Mod7, 5, ONE, Signature(ONE, ONE))
    ensures KeyId(Mod7, 5, ONE, Signature(ONE, ONE)) == 1
  {
    OneIsOne();
    Once(1);
    Once(5);
    assert ModMul(1, 1, 7) == 1;
    assert VerifyPoint(Mod7, 5, 1, 1, 1) == 6;
  }

  /** The candidate of identifier 0, the point 1, vanishes. */
  lemma FirstCandidateVanishes()
    ensures Vanishes(Mod7, 0, Signature(ONE, ONE), ONE)
  {
    OneIsOne();
    Once(1);
    assert Lift(1, false) == Some(1);
  }

  /** A genuine signature that signing refuses: the search meets infinity at identifier 0, before the key at 1. */
  lemma GenuineSignatureIsRefused()
    ensures Laws(Mod7) && Threshold(7, 3) && Verify(Mod7, 5, ONE, Signature(ONE, ONE))
    ensures SignMessage(Mod7, 3, _ => ONE, _ => Ok(Signature(ONE, ONE)), 5, []) == Err(Crypto)
  {
    var sig := Signature(ONE, ONE);
    Mod7MeetsTheLaws();
    OneIsOne();
    VerifiesUnderFive();
    FirstCandidateVanishes();
    HardErrorExactly(Mod7, 0, sig, ONE);
    var rs := Candidates(Mod7, sig, ONE);
    assert rs[0] == Err(Crypto);
    assert Search(Mod7, rs, 5, 0) == Err(Crypto);
    assert Canonical(Mod7, 3, sig) == sig;
  }

  // ----- A key that changes its network -------------------------------------------------------

  const TEST_KEY: Key := Key(TESTNET_PRIVATE, 0, [0, 0, 0, 0], 0, Big(0, WORD), [0] + ONE, true)

  /** A private key of the test network that is published as a key of the main network. */
  lemma TestKeyBecomesMain()
    ensures Bip32.Shaped(TEST_KEY) && Agrees(TEST_KEY)
    ensures Publish(Mod7, TEST_KEY).Ok? && Publish(Mod7, TEST_KEY).value.version == MAINNET_PUBLIC
    ensures NetworkOf(TEST_KEY.version) == Some(TestNet)
    ensures NetworkOf(Publish(Mod7, TEST_KEY).value.version) == Some(MainNet)
  {
    FourVersions();
    OneIsOne();
    assert TEST_KEY.key[1..] == ONE;
    Once(1);
    EncodeDecode(1);
  }
}
