/** BIP-32 keys: derivation, publication and serialization in `src/crypto/bip32.c`. */
module Bip32 {
  import opened Prelude
  import opened Endian
  import opened Curve

  const HARDENED: nat := 0x8000_0000
  const MAINNET_PRIVATE: seq<Byte> := [0x04, 0x88, 0xAD, 0xE4]
  const MAINNET_PUBLIC: seq<Byte> := [0x04, 0x88, 0xB2, 0x1E]
  const TESTNET_PRIVATE: seq<Byte> := [0x04, 0x35, 0x83, 0x94]
  const TESTNET_PUBLIC: seq<Byte> := [0x04, 0x35, 0x87, 0xCF]
  /** The bytes of "Neo seed". */
  const SEED_KEY: seq<Byte> := [0x4E, 0x65, 0x6F, 0x20, 0x73, 0x65, 0x65, 0x64]

  datatype Key = Key(
    version: seq<Byte>,
    depth: Byte,
    fingerprint: seq<Byte>,
    number: nat,
    chain: seq<Byte>,
    key: seq<Byte>,
    isPrivate: bool)

  /** The field widths of the C structure. */
  predicate Shaped(k: Key) {
    |k.version| == 4 && |k.fingerprint| == 4 && k.number < 0x1_0000_0000 && |k.chain| == 32 && |k.key| == 33
  }

  /** HMAC-SHA512 is any function of key and data to 64 bytes. */
  type Hmac = (seq<Byte>, seq<Byte>) -> seq<Byte>

  ghost predicate IsMac(hmac: Hmac) {
    forall key, data {:trigger hmac(key, data)} :: |hmac(key, data)| == 64
  }

  // ----- Derivation ---------------------------------------------------------------------------

  function FromSeed(hmac: Hmac, seed: seq<Byte>): Result<Key>
    requires IsMac(hmac)
  {
    if |seed| < 16 || |seed| > 64 then Err(InvalidLength)
    else
      var h := hmac(SEED_KEY, seed);
      Ok(Key(MAINNET_PRIVATE, 0, [0, 0, 0, 0], 0, h[32..], [0] + h[..32], true))
  }

  function Scalar(k: Key): nat
    requires |k.key| == 33
  {
    FromBig(k.key[1..])
  }

  /** A point in compressed form; infinity does not have one. */
  function Compress<P>(c: Curve<P>, p: P): Result<seq<Byte>> {
    if |c.encode(p)| == 33 then Ok(c.encode(p)) else Err(Crypto)
  }

  /** The compressed public key of a private or public key. */
  function PublicBytes<P>(c: Curve<P>, k: Key): Result<seq<Byte>>
    requires |k.key| == 33
  {
    if k.isPrivate then Compress(c, Mul(c, Scalar(k), c.base)) else Ok(k.key)
  }

  /** `neoc_bip32_get_public_key`: the version becomes the main network's, whatever it was. */
  function Publish<P>(c: Curve<P>, k: Key): (r: Result<Key>)
    requires |k.key| == 33
    ensures r.Ok? ==> |r.value.key| == 33
  {
    if !k.isPrivate then Ok(k)
    else
      var bytes :- PublicBytes(c, k);
      Ok(k.(version := MAINNET_PUBLIC, key := bytes, isPrivate := false))
  }

  /** `neoc_hash160_from_data` copies 20 bytes and refuses any other length. */
  function Hash160FromData(data: seq<Byte>): Result<seq<Byte>> {
    if |data| == 20 then Ok(data) else Err(InvalidArgument)
  }

  function GetFingerprint<P>(c: Curve<P>, k: Key): Result<seq<Byte>>
    requires |k.key| == 33
  {
    var bytes :- PublicBytes(c, k);
    var hash :- Hash160FromData(bytes);
    Ok(if |hash| >= 4 then hash[..4] else hash)
  }

  /** What the child records: a fingerprint that could not be computed leaves the parent's copy in place. */
  function ChildFingerprint<P>(c: Curve<P>, parent: Key): seq<Byte>
    requires |parent.key| == 33
  {
    if parent.depth == 0 then parent.fingerprint
    else match GetFingerprint(c, parent)
      case Ok(fingerprint) => fingerprint
      case Err(_) => parent.fingerprint
  }

  function PrivateChild<P>(c: Curve<P>, k: Key, il: nat): Result<seq<Byte>>
    requires |k.key| == 33 && c.order > 0
  {
    PrivateKey((Scalar(k) + il) % c.order)
  }

  /** Zero is not a private key. */
  function PrivateKey(scalar: nat): Result<seq<Byte>> {
    if scalar == 0 then Err(Crypto) else Ok([0] + Big(scalar, WORD))
  }

  function PublicChild<P>(c: Curve<P>, k: Key, il: nat): Result<seq<Byte>> {
    match c.decode(k.key)
    case None => Err(Crypto)
    case Some(p) => Compress(c, c.add(p, Mul(c, il, c.base)))
  }

  function ChildKey<P>(c: Curve<P>, k: Key, il: nat): Result<seq<Byte>>
    requires |k.key| == 33 && c.order > 0
  {
    if k.isPrivate then PrivateChild(c, k, il) else PublicChild(c, k, il)
  }

  /** What the MAC is computed over, before the index. */
  function MacData<P>(c: Curve<P>, k: Key, index: nat): Result<seq<Byte>>
    requires |k.key| == 33
  {
    if index < HARDENED then PublicBytes(c, k)
    else if k.isPrivate then Ok(k.key)
    else Err(InvalidState)
  }

  /** `neoc_bip32_derive_child`. */
  function Child<P>(c: Curve<P>, hmac: Hmac, parent: Key, index: nat): (r: Result<Key>)
    requires IsMac(hmac) && |parent.key| == 33 && c.order > 0
    ensures r.Ok? ==> |r.value.key| == 33
  {
    var data :- MacData(c, parent, index);
    var h := hmac(parent.chain, data + Big(index, 4));
    var key :- ChildKey(c, parent, FromBig(h[..32]));
    Ok(parent.(depth := (parent.depth + 1) % 256, number := index, fingerprint := ChildFingerprint(c, parent),
               key := key, chain := h[32..]))
  }

  lemma CompressIs<P(!new)>(c: Curve<P>, p: P)
    requires EncodingLaws(c)
    ensures Compress(c, p) == if p == c.zero then Err(Crypto) else Ok(c.encode(p))
    ensures p != c.zero ==> |c.encode(p)| == 33 && c.decode(c.encode(p)) == Some(p)
  {
    assert Encodes(c, p);
  }

  lemma PublicBytesLength<P>(c: Curve<P>, k: Key)
    requires |k.key| == 33
    ensures PublicBytes(c, k).Ok? ==> |PublicBytes(c, k).value| == 33
  {
  }

  /** No key has a fingerprint: 33 bytes are handed to a function that takes 20. */
  lemma FingerprintFails<P(!new)>(c: Curve<P>, k: Key)
    requires |k.key| == 33
    ensures GetFingerprint(c, k).Err? && ChildFingerprint(c, k) == k.fingerprint
  {
    PublicBytesLength(c, k);
  }

  /** Derivation keeps the shape of a key, its version and its privacy. */
  lemma ChildIs<P(!new)>(c: Curve<P>, hmac: Hmac, k: Key, index: nat)
    requires IsMac(hmac) && Shaped(k) && c.order > 0 && index < 0x1_0000_0000 && Child(c, hmac, k, index).Ok?
    ensures var child := Child(c, hmac, k, index).value;
            && Shaped(child)
            && child.version == k.version
            && child.isPrivate == k.isPrivate
            && child.fingerprint == k.fingerprint
            && child.number == index
            && child.depth == (k.depth + 1) % 256
  {
    FingerprintFails(c, k);
  }

  // ----- What a derived key is ----------------------------------------------------------------

  /** The character codes of a text. */
  function Ascii(text: string): seq<Byte>
    requires forall i :: 0 <= i < |text| ==> text[i] < 128 as char
  {
    seq(|text|, i requires 0 <= i < |text| => text[i] as int)
  }

  /** The master key is made of the halves of the MAC of the seed under "Neo seed": first the scalar, then the chain code. */
  lemma MasterKey(hmac: Hmac, seed: seq<Byte>)
    requires IsMac(hmac)
    ensures FromSeed(hmac, seed).Ok? <==> 16 <= |seed| <= 64
    ensures FromSeed(hmac, seed).Ok? ==>
              var k, h := FromSeed(hmac, seed).value, hmac(Ascii("Neo seed"), seed);
              && k.isPrivate && |k.key| == 33 && k.key[0] == 0
              && Scalar(k) == FromBig(h[..32]) && k.chain == h[32..]
              && k.depth == 0 && k.number == 0 && k.fingerprint == [0, 0, 0, 0]
  {
    assert Ascii("Neo seed") == SEED_KEY;
    var h := hmac(SEED_KEY, seed);
    assert ([0] + h[..32])[1..] == h[..32];
  }

  /** A hardened child depends on the MAC at one place only: the private key and the index, under the chain code. */
  lemma HardenedMac<P(!new)>(c: Curve<P>, hmac: Hmac, hmac': Hmac, k: Key, index: nat)
    requires IsMac(hmac) && IsMac(hmac') && |k.key| == 33 && k.isPrivate && c.order > 0 && index >= 0x8000_0000
    requires hmac(k.chain, k.key + Big(index, 4)) == hmac'(k.chain, k.key + Big(index, 4))
    ensures Child(c, hmac, k, index) == Child(c, hmac', k, index)
  {
  }

  /** The private child, from the MAC of the given data. */
  ghost predicate IsPrivateChild(r: Result<Key>, k: Key, order: nat, h: seq<Byte>)
    requires |k.key| == 33 && |h| == 64 && order > 0
  {
    var sum := (Scalar(k) + FromBig(h[..32])) % order;
    if sum == 0 then r == Err(Crypto)
    else r.Ok? && |r.value.key| == 33 && r.value.key[0] == 0 && Scalar(r.value) == sum && r.value.chain == h[32..]
  }

  /**
   * A hardened child of a private key: its scalar is the left half of the MAC plus the parent's scalar, modulo the
   * order, and its chain code the right half. The MAC is computed over a zero byte, the parent's scalar and the index.
   */
  lemma HardenedChild<P(!new)>(c: Curve<P>, hmac: Hmac, k: Key, index: nat)
    requires IsMac(hmac) && |k.key| == 33 && k.isPrivate && k.key[0] == 0 && index >= 0x8000_0000
    requires 0 < c.order < Pow256(WORD)
    ensures IsPrivateChild(Child(c, hmac, k, index), k, c.order, hmac(k.chain, [0] + Big(Scalar(k), 32) + Big(index, 4)))
  {
    SpelledKey(k.key, 32);
    PrivateChildOf(c, hmac, k, index, k.key);
  }

  lemma PrivateChildOf<P(!new)>(c: Curve<P>, hmac: Hmac, k: Key, index: nat, data: seq<Byte>)
    requires IsMac(hmac) && |k.key| == 33 && k.isPrivate && 0 < c.order < Pow256(WORD)
    requires MacData(c, k, index) == Ok(data)
    ensures IsPrivateChild(Child(c, hmac, k, index), k, c.order, hmac(k.chain, data + Big(index, 4)))
  {
    var h := hmac(k.chain, data + Big(index, 4));
    ChildOf(c, hmac, k, index, data, h);
    PrivateSide(c, k, FromBig(h[..32]));
    PrivateChildFrom(k, c.order, h, PrivateChild(c, k, FromBig(h[..32])), Child(c, hmac, k, index));
  }

  lemma PrivateChildFrom(k: Key, order: nat, h: seq<Byte>, key: Result<seq<Byte>>, r: Result<Key>)
    requires |k.key| == 33 && |h| == 64 && order > 0
    requires var sum := (Scalar(k) + FromBig(h[..32])) % order;
             match key
             case Err(e) => sum == 0 && e == Crypto && r == Err(e)
             case Ok(bytes) =>
               && sum != 0 && |bytes| == 33 && bytes[0] == 0 && FromBig(bytes[1..]) == sum
               && r.Ok? && r.value.key == bytes && r.value.chain == h[32..]
    ensures IsPrivateChild(r, k, order, h)
  {
  }

  /** Any other child of a private key: the MAC is computed over the compressed public key and the index. */
  lemma PlainChild<P(!new)>(c: Curve<P>, hmac: Hmac, k: Key, index: nat)
    requires IsMac(hmac) && EncodingLaws(c) && |k.key| == 33 && k.isPrivate && index < 0x8000_0000
    requires 0 < c.order < Pow256(WORD)
    ensures var p := Mul(c, Scalar(k), c.base);
            if p == c.zero then Child(c, hmac, k, index) == Err(Crypto)
            else IsPrivateChild(Child(c, hmac, k, index), k, c.order, hmac(k.chain, c.encode(p) + Big(index, 4)))
  {
    var p := Mul(c, Scalar(k), c.base);
    CompressIs(c, p);
    if p != c.zero {
      PrivateChildOf(c, hmac, k, index, c.encode(p));
    }
  }

  /** A child of a public key: the left half of the MAC times the base point is added. */
  lemma PublicChildIs<P(!new)>(c: Curve<P>, hmac: Hmac, k: Key, index: nat)
    requires IsMac(hmac) && EncodingLaws(c) && |k.key| == 33 && !k.isPrivate && index < 0x8000_0000 && c.order > 0
    ensures var h := hmac(k.chain, k.key + Big(index, 4));
            match c.decode(k.key)
            case None => Child(c, hmac, k, index) == Err(Crypto)
            case Some(p) =>
              var q := c.add(p, Mul(c, FromBig(h[..32]), c.base));
              var r := Child(c, hmac, k, index);
              if q == c.zero then r == Err(Crypto)
              else r.Ok? && r.value.key == c.encode(q) && r.value.chain == h[32..] && !r.value.isPrivate
  {
    var h := hmac(k.chain, k.key + Big(index, 4));
    ChildOf(c, hmac, k, index, k.key, h);
    match c.decode(k.key)
    case None =>
    case Some(p) => CompressIs(c, c.add(p, Mul(c, FromBig(h[..32]), c.base)));
  }

  lemma SpelledKey(key: seq<Byte>, width: nat)
    requires |key| == width + 1 && key[0] == 0
    ensures [0] + Big(FromBig(key[1..]), width) == key
  {
    FromBigRoundTrip(key[1..]);
  }

  // ----- Publishing commutes with derivation --------------------------------------------------

  /** What the public side computes is the compressed multiple of the sum. */
  lemma PublicSide<P(!new)>(c: Curve<P>, k: Key, il: nat)
    requires GroupLaws(c) && EncodingLaws(c) && |k.key| == 33 && k.isPrivate && Publish(c, k).Ok?
    ensures PublicChild(c, Publish(c, k).value, il) == Compress(c, Mul(c, Scalar(k) + il, c.base))
  {
    CompressIs(c, Mul(c, Scalar(k), c.base));
    MulPlus(c, Scalar(k), il, c.base);
  }

  /** What the private side computes: the reduced sum, unless it is zero. */
  lemma PrivateSide<P(!new)>(c: Curve<P>, k: Key, il: nat)
    requires 0 < c.order < Pow256(WORD) && |k.key| == 33
    ensures var scalar := (Scalar(k) + il) % c.order;
            match PrivateChild(c, k, il)
            case Err(e) => scalar == 0 && e == Crypto
            case Ok(key) => scalar != 0 && |key| == 33 && key[0] == 0 && FromBig(key[1..]) == scalar
  {
    Division(Scalar(k) + il, c.order);
    PrivateKeyIs((Scalar(k) + il) % c.order);
  }

  lemma PrivateKeyIs(scalar: nat)
    requires scalar < Pow256(WORD)
    ensures match PrivateKey(scalar)
            case Err(e) => scalar == 0 && e == Crypto
            case Ok(key) => scalar != 0 && |key| == 33 && key[0] == 0 && FromBig(key[1..]) == scalar
  {
    KeyBytes(scalar, WORD);
  }

  lemma KeyBytes(scalar: nat, width: nat)
    requires scalar < Pow256(width)
    ensures |[0] + Big(scalar, width)| == width + 1 && FromBig(([0] + Big(scalar, width))[1..]) == scalar
  {
    BigRoundTrip(scalar, width);
    assert ([0] + Big(scalar, width))[1..] == Big(scalar, width);
  }

  /** The private and the public computation of a child's public bytes. */
  lemma SameChildKey<P(!new)>(c: Curve<P>, k: Key, il: nat)
    requires Laws(c) && |k.key| == 33 && k.isPrivate && Publish(c, k).Ok?
    ensures match PrivateChild(c, k, il)
            case Err(e) => PublicChild(c, Publish(c, k).value, il) == Err(e)
            case Ok(key) => |key| == 33 && Compress(c, Mul(c, FromBig(key[1..]), c.base)) == PublicChild(c, Publish(c, k).value, il)
  {
    var sum := Scalar(k) + il;
    PublicSide(c, k, il);
    PrivateSide(c, k, il);
    CompressIs(c, Mul(c, sum, c.base));
    BaseOrder(c, sum);
    MulMod(c, sum, c.base);
  }

  /** `neoc_bip32_derive_path_indices`. */
  function Derive<P>(c: Curve<P>, hmac: Hmac, k: Key, path: seq<nat>): (r: Result<Key>)
    requires IsMac(hmac) && |k.key| == 33 && c.order > 0
    ensures r.Ok? ==> |r.value.key| == 33
    decreases |path|
  {
    if path == [] then Ok(k)
    else
      var child :- Child(c, hmac, k, path[0]);
      Derive(c, hmac, child, path[1..])
  }

  function DeriveThenPublish<P>(c: Curve<P>, hmac: Hmac, k: Key, path: seq<nat>): Result<Key>
    requires IsMac(hmac) && |k.key| == 33 && c.order > 0
  {
    var derived :- Derive(c, hmac, k, path);
    Publish(c, derived)
  }

  function PublishThenDerive<P>(c: Curve<P>, hmac: Hmac, k: Key, path: seq<nat>): Result<Key>
    requires IsMac(hmac) && |k.key| == 33 && c.order > 0
  {
    var published :- Publish(c, k);
    Derive(c, hmac, published, path)
  }

  lemma ChildCommutes<P(!new)>(c: Curve<P>, hmac: Hmac, k: Key, index: nat)
    requires Laws(c) && IsMac(hmac) && |k.key| == 33 && index < HARDENED
    ensures match Publish(c, k)
            case Err(e) => Child(c, hmac, k, index) == Err(e)
            case Ok(published) =>
              match Child(c, hmac, k, index)
              case Err(e) => Child(c, hmac, published, index) == Err(e)
              case Ok(child) => Publish(c, child) == Child(c, hmac, published, index)
  {
    if k.isPrivate && Publish(c, k).Ok? {
      var published, bytes := Publish(c, k).value, PublicBytes(c, k).value;
      var h := hmac(k.chain, bytes + Big(index, 4));
      ChildOf(c, hmac, k, index, bytes, h);
      ChildOf(c, hmac, published, index, bytes, h);
      SameChildKey(c, k, FromBig(h[..32]));
    }
  }

  /** A child, given what the MAC is computed over. */
  lemma ChildOf<P(!new)>(c: Curve<P>, hmac: Hmac, k: Key, index: nat, data: seq<Byte>, h: seq<Byte>)
    requires IsMac(hmac) && |k.key| == 33 && c.order > 0
    requires MacData(c, k, index) == Ok(data) && h == hmac(k.chain, data + Big(index, 4))
    ensures Child(c, hmac, k, index)
         == match ChildKey(c, k, FromBig(h[..32]))
            case Err(e) => Err(e)
            case Ok(key) => Ok(k.(depth := (k.depth + 1) % 256, number := index, key := key, chain := h[32..]))
  {
    FingerprintFails(c, k);
  }

  /**
   * For every key and every path without hardened indices, deriving and then publishing gives exactly what publishing
   * and then deriving gives: the same key in every field, or the same error.
   */
  lemma {:induction false} PublishingCommutes<P(!new)>(c: Curve<P>, hmac: Hmac, k: Key, path: seq<nat>)
    requires Laws(c) && IsMac(hmac) && |k.key| == 33
    requires forall i :: 0 <= i < |path| ==> path[i] < HARDENED
    ensures DeriveThenPublish(c, hmac, k, path) == PublishThenDerive(c, hmac, k, path)
    decreases |path|
  {
    if path != [] {
      ChildCommutes(c, hmac, k, path[0]);
      var child := Child(c, hmac, k, path[0]);
      if child.Ok? {
        PublishingCommutes(c, hmac, child.value, path[1..]);
      }
    }
  }

  /** A public key never derives past a hardened index, wherever it is in the path. */
  lemma {:induction false} HardenedNeedsPrivate<P(!new)>(c: Curve<P>, hmac: Hmac, k: Key, path: seq<nat>, i: nat)
    requires IsMac(hmac) && |k.key| == 33 && c.order > 0 && !k.isPrivate && i < |path| && path[i] >= HARDENED
    ensures Derive(c, hmac, k, path).Err?
    decreases |path|
  {
    var child := Child(c, hmac, k, path[0]);
    if i > 0 && child.Ok? {
      HardenedNeedsPrivate(c, hmac, child.value, path[1..], i - 1);
    }
  }

  /** Deriving along two paths in turn is deriving along their concatenation. */
  lemma {:induction false} DeriveConcat<P(!new)>(c: Curve<P>, hmac: Hmac, k: Key, a: seq<nat>, b: seq<nat>)
    requires IsMac(hmac) && |k.key| == 33 && c.order > 0
    ensures Derive(c, hmac, k, a + b)
         == match Derive(c, hmac, k, a)
            case Ok(middle) => Derive(c, hmac, middle, b)
            case Err(e) => Err(e)
    decreases |a|
  {
    if a == [] {
      assert a + b == b;
    } else {
      assert (a + b)[1..] == a[1..] + b;
      var child := Child(c, hmac, k, a[0]);
      if child.Ok? {
        DeriveConcat(c, hmac, child.value, a[1..], b);
      }
    }
  }

  /** The derivation loop. */
  method DerivePathIndices<P(!new)>(c: Curve<P>, hmac: Hmac, master: Key, indices: seq<nat>) returns (r: Result<Key>)
    requires IsMac(hmac) && |master.key| == 33 && c.order > 0
    ensures r == Derive(c, hmac, master, indices)
  {
    var current := master;
    for i := 0 to |indices|
      invariant |current.key| == 33
      invariant Derive(c, hmac, current, indices[i..]) == Derive(c, hmac, master, indices)
    {
      assert indices[i..][1..] == indices[i + 1..];
      var next := Child(c, hmac, current, indices[i]);
      if next.Err? {
        return Err(next.error);
      }
      current := next.value;
    }
    return Ok(current);
  }

  // ----- Serialization ------------------------------------------------------------------------

  /** `BIP32_SERIALIZED_SIZE`: four bytes more than the fields take, and they are never written. */
  const SERIALIZED_SIZE: nat := 82

  /** Base58Check, as an encoder and a decoder that undoes it. */
  datatype Codec = Codec(encode: seq<Byte> -> string, decode: string -> Option<seq<Byte>>)

  ghost predicate Undoes(codec: Codec) {
    forall bytes {:trigger codec.encode(bytes)} :: codec.decode(codec.encode(bytes)) == Some(bytes)
  }

  function Fields(k: Key): (bytes: seq<Byte>)
    requires Shaped(k)
    ensures |bytes| == 78
  {
    k.version + [k.depth] + k.fingerprint + Big(k.number, 4) + k.chain + k.key
  }

  /** `junk` is what the last four bytes of the buffer happened to hold. */
  function Serialize(codec: Codec, k: Key, junk: seq<Byte>, size: nat): Result<string>
    requires Shaped(k) && |junk| == 4
  {
    if size < 112 then Err(BufferTooSmall)
    else
      var text := codec.encode(Fields(k) + junk);
      if |text| >= size then Err(BufferTooSmall) else Ok(text)
  }

  /** Whether a version belongs to private or public keys, if it is known. */
  function Privacy(version: seq<Byte>): Option<bool> {
    if version == MAINNET_PRIVATE || version == TESTNET_PRIVATE then Some(true)
    else if version == MAINNET_PUBLIC || version == TESTNET_PUBLIC then Some(false)
    else None
  }

  function ParseFields(bytes: seq<Byte>): Result<Key>
    requires |bytes| == SERIALIZED_SIZE
  {
    match Privacy(bytes[..4])
    case None => Err(InvalidFormat)
    case Some(isPrivate) =>
      Ok(Key(bytes[..4], bytes[4], bytes[5..9], FromBig(bytes[9..13]), bytes[13..45], bytes[45..78], isPrivate))
  }

  function Deserialize(codec: Codec, text: string): Result<Key> {
    match codec.decode(text)
    case None => Err(InvalidFormat)
    case Some(bytes) => if |bytes| != SERIALIZED_SIZE then Err(InvalidLength) else ParseFields(bytes)
  }

  /** The version says what `is_private` says. */
  predicate Agrees(k: Key) { Privacy(k.version) == Some(k.isPrivate) }

  lemma ParseOfFields(k: Key, junk: seq<Byte>)
    requires Shaped(k) && |junk| == 4
    ensures ParseFields(Fields(k) + junk)
         == match Privacy(k.version)
            case None => Err(InvalidFormat)
            case Some(isPrivate) => Ok(k.(isPrivate := isPrivate))
  {
    var bytes := Fields(k) + junk;
    assert bytes[..4] == k.version;
    assert bytes[4] == k.depth;
    assert bytes[5..9] == k.fingerprint;
    assert bytes[9..13] == Big(k.number, 4);
    assert bytes[13..45] == k.chain;
    assert bytes[45..78] == k.key;
    Powers();
    BigRoundTrip(k.number, 4);
  }

  /** Where each field stands in the serialized key. */
  lemma FieldsLayout(k: Key)
    requires Shaped(k)
    ensures var b := Fields(k);
            && b[..4] == k.version && b[4] == k.depth && b[5..9] == k.fingerprint
            && Word(b[9], b[10], b[11], b[12]) == k.number
            && b[13..45] == k.chain && b[45..78] == k.key
  {
    var b := Fields(k);
    assert b[..4] == k.version && b[4] == k.depth && b[5..9] == k.fingerprint;
    assert b[9..13] == Big(k.number, 4);
    assert b[13..45] == k.chain;
    assert b[45..78] == k.key;
    Powers();
    BigRoundTrip(k.number, 4);
    FourBytes(b[9..13]);
  }

  /** The version numbers of BIP-32. */
  lemma VersionNumbers()
    ensures FromBig(MAINNET_PRIVATE) == 0x0488ADE4 && FromBig(MAINNET_PUBLIC) == 0x0488B21E
    ensures FromBig(TESTNET_PRIVATE) == 0x04358394 && FromBig(TESTNET_PUBLIC) == 0x043587CF
  {
    FourBytes(MAINNET_PRIVATE);
    FourBytes(MAINNET_PUBLIC);
    FourBytes(TESTNET_PRIVATE);
    FourBytes(TESTNET_PUBLIC);
  }

  /** A serialized key is read back exactly when its version agrees with its privacy. */
  lemma KeyRoundTrip(codec: Codec, k: Key, junk: seq<Byte>, size: nat)
    requires Undoes(codec) && Shaped(k) && |junk| == 4 && Serialize(codec, k, junk, size).Ok?
    ensures Deserialize(codec, Serialize(codec, k, junk, size).value) == Ok(k) <==> Agrees(k)
  {
    ParseOfFields(k, junk);
  }

  /** Whatever the text, a deserialized key has the right shape and agrees. */
  lemma DeserializedAgrees(codec: Codec, text: string)
    requires Deserialize(codec, text).Ok?
    ensures Shaped(Deserialize(codec, text).value) && Agrees(Deserialize(codec, text).value)
  {
    var bytes := codec.decode(text).value;
    FromBigRoundTrip(bytes[9..13]);
    Powers();
  }

  // ----- Networks -----------------------------------------------------------------------------

  datatype Network = MainNet | TestNet

  /** The network that a version names, if it is known. */
  function NetworkOf(version: seq<Byte>): Option<Network> {
    if version == MAINNET_PRIVATE || version == MAINNET_PUBLIC then Some(MainNet)
    else if version == TESTNET_PRIVATE || version == TESTNET_PUBLIC then Some(TestNet)
    else None
  }

  lemma FourVersions()
    ensures NetworkOf(MAINNET_PRIVATE) == NetworkOf(MAINNET_PUBLIC) == Some(MainNet)
    ensures NetworkOf(TESTNET_PRIVATE) == NetworkOf(TESTNET_PUBLIC) == Some(TestNet)
    ensures Privacy(MAINNET_PRIVATE) == Privacy(TESTNET_PRIVATE) == Some(true)
    ensures Privacy(MAINNET_PUBLIC) == Privacy(TESTNET_PUBLIC) == Some(false)
  {
    assert MAINNET_PRIVATE[1] != TESTNET_PRIVATE[1] && MAINNET_PRIVATE[2] != MAINNET_PUBLIC[2];
    assert TESTNET_PRIVATE[2] != TESTNET_PUBLIC[2] && MAINNET_PUBLIC[1] != TESTNET_PUBLIC[1];
    assert MAINNET_PRIVATE[1] != TESTNET_PUBLIC[1] && MAINNET_PUBLIC[1] != TESTNET_PRIVATE[1];
  }

  /** Publishing keeps the network of an agreeing key exactly when the key is public or of the main network. */
  lemma PublishKeepsNetwork<P(!new)>(c: Curve<P>, k: Key)
    requires |k.key| == 33 && Agrees(k) && Publish(c, k).Ok?
    ensures NetworkOf(Publish(c, k).value.version) == NetworkOf(k.version) <==> !k.isPrivate || k.version == MAINNET_PRIVATE
  {
    FourVersions();
  }

  // ----- Reachable keys -----------------------------------------------------------------------

  datatype Op = DeriveChild(index: nat) | GetPublicKey | Load(text: string)

  predicate LegalOp(op: Op) { op.DeriveChild? ==> op.index < 0x1_0000_0000 }

  /** The key after an operation; one that fails leaves the key as it was. */
  function Apply<P>(c: Curve<P>, hmac: Hmac, codec: Codec, k: Key, op: Op): Key
    requires IsMac(hmac) && |k.key| == 33 && c.order > 0
  {
    var r := match op
      case DeriveChild(index) => Child(c, hmac, k, index)
      case GetPublicKey => Publish(c, k)
      case Load(text) => Deserialize(codec, text);
    if r.Ok? then r.value else k
  }

  lemma ApplyKeeps<P(!new)>(c: Curve<P>, hmac: Hmac, codec: Codec, k: Key, op: Op)
    requires IsMac(hmac) && c.order > 0 && Shaped(k) && Agrees(k) && LegalOp(op)
    ensures Shaped(Apply(c, hmac, codec, k, op)) && Agrees(Apply(c, hmac, codec, k, op))
  {
    match op
    case DeriveChild(index) =>
      if Child(c, hmac, k, index).Ok? {
        ChildIs(c, hmac, k, index);
      }
    case GetPublicKey =>
      assert Privacy(MAINNET_PUBLIC) == Some(false);
    case Load(text) =>
      if Deserialize(codec, text).Ok? {
        DeserializedAgrees(codec, text);
      }
  }

  ghost predicate Reachable<P>(c: Curve<P>, hmac: Hmac, codec: Codec, k: Key, ops: seq<Op>, k': Key)
    requires IsMac(hmac) && c.order > 0
    decreases |ops|
  {
    if ops == [] then k' == k
    else |k.key| == 33 && Reachable(c, hmac, codec, Apply(c, hmac, codec, k, ops[0]), ops[1..], k')
  }

  lemma {:induction false} ReachableAgrees<P(!new)>(c: Curve<P>, hmac: Hmac, codec: Codec, k: Key, ops: seq<Op>, k': Key)
    requires IsMac(hmac) && c.order > 0 && Shaped(k) && Agrees(k) && Reachable(c, hmac, codec, k, ops, k')
    requires forall i :: 0 <= i < |ops| ==> LegalOp(ops[i])
    ensures Shaped(k') && Agrees(k')
    decreases |ops|
  {
    if ops != [] {
      ApplyKeeps(c, hmac, codec, k, ops[0]);
      ReachableAgrees(c, hmac, codec, Apply(c, hmac, codec, k, ops[0]), ops[1..], k');
    }
  }

  lemma SeedAgrees(hmac: Hmac, seed: seq<Byte>)
    requires IsMac(hmac) && FromSeed(hmac, seed).Ok?
    ensures Shaped(FromSeed(hmac, seed).value) && Agrees(FromSeed(hmac, seed).value)
  {
  }

  /**
   * Every key reached from a seed by derivations, publications and loads, in any order, has a version that agrees
   * with its privacy, and any serialization of it that fits the buffer is read back as the same key.
   */
  lemma ReachableRoundTrip<P(!new)>(c: Curve<P>, hmac: Hmac, codec: Codec, seed: seq<Byte>, ops: seq<Op>, k: Key,
                                    junk: seq<Byte>, size: nat)
    requires IsMac(hmac) && c.order > 0 && Undoes(codec) && |junk| == 4 && FromSeed(hmac, seed).Ok?
    requires Reachable(c, hmac, codec, FromSeed(hmac, seed).value, ops, k)
    requires forall i :: 0 <= i < |ops| ==> LegalOp(ops[i])
    ensures Shaped(k) && Agrees(k)
    ensures Serialize(codec, k, junk, size).Ok? ==>
              Deserialize(codec, Serialize(codec, k, junk, size).value) == Ok(k)
  {
    SeedAgrees(hmac, seed);
    ReachableAgrees(c, hmac, codec, FromSeed(hmac, seed).value, ops, k);
    if Serialize(codec, k, junk, size).Ok? {
      KeyRoundTrip(codec, k, junk, size);
    }
  }

  // ----- The byte buffers ---------------------------------------------------------------------

  method CopyAt(data: array<Byte>, pos: nat, bytes: seq<Byte>) returns (next: nat)
    requires pos + |bytes| <= data.Length
    modifies data
    ensures next == pos + |bytes|
    ensures data[..next] == old(data[..pos]) + bytes
    ensures forall i :: next <= i < data.Length ==> data[i] == old(data[i])
  {
    forall i | 0 <= i < |bytes| { data[pos + i] := bytes[i]; }
    next := pos + |bytes|;
    assert data[..pos] == old(data[..pos]);
  }

  /** Lays the fields into the buffer; its last four bytes stay as they were. */
  method FillBuffer(k: Key, data: array<Byte>)
    requires Shaped(k) && data.Length == SERIALIZED_SIZE
    modifies data
    ensures data[..] == Fields(k) + old(data[78..])
  {
    ghost var junk := data[78..];
    var pos := CopyAt(data, 0, k.version);
    pos := CopyAt(data, pos, [k.depth]);
    pos := CopyAt(data, pos, k.fingerprint);
    pos := CopyAt(data, pos, Big(k.number, 4));
    pos := CopyAt(data, pos, k.chain);
    pos := CopyAt(data, pos, k.key);
    assert data[..78] == Fields(k);
    assert data[78..] == junk;
    assert data[..] == data[..78] + data[78..];
  }

  /** `neoc_bip32_serialize`, on a buffer with arbitrary contents. */
  method SerializeKey(codec: Codec, k: Key, data: array<Byte>, size: nat) returns (r: Result<string>)
    requires Shaped(k) && data.Length == SERIALIZED_SIZE
    modifies data
    ensures r == Serialize(codec, k, old(data[78..]), size)
  {
    if size < 112 {
      return Err(BufferTooSmall);
    }
    FillBuffer(k, data);
    var encoded := codec.encode(data[..]);
    return if |encoded| >= size then Err(BufferTooSmall) else Ok(encoded);
  }

  /** The fields, read at a position that advances over the bytes. */
  method ReadFields(bytes: seq<Byte>, isPrivate: bool) returns (k: Key)
    requires |bytes| == SERIALIZED_SIZE
    ensures k == Key(bytes[..4], bytes[4], bytes[5..9], FromBig(bytes[9..13]), bytes[13..45], bytes[45..78], isPrivate)
  {
    var pos := 0;
    var version := bytes[pos..pos + 4];
    pos := pos + 4;
    var depth := bytes[pos];
    pos := pos + 1;
    var fingerprint := bytes[pos..pos + 4];
    pos := pos + 4;
    var number := Word(bytes[pos], bytes[pos + 1], bytes[pos + 2], bytes[pos + 3]);
    FourBytes(bytes[pos..pos + 4]);
    pos := pos + 4;
    var chain := bytes[pos..pos + 32];
    pos := pos + 32;
    k := Key(version, depth, fingerprint, number, chain, bytes[pos..pos + 33], isPrivate);
    assert version == bytes[..4];
  }

  /** `neoc_bip32_deserialize`. */
  method DeserializeKey(codec: Codec, text: string) returns (r: Result<Key>)
    ensures r == Deserialize(codec, text)
  {
    var decoded := codec.decode(text);
    if decoded.None? {
      return Err(InvalidFormat);
    }
    var bytes := decoded.value;
    if |bytes| != SERIALIZED_SIZE {
      return Err(InvalidLength);
    }
    var privacy := Privacy(bytes[..4]);
    if privacy.None? {
      return Err(InvalidFormat);
    }
    var k := ReadFields(bytes, privacy.value);
    return Ok(k);
  }

  function Word(a: nat, b: nat, c: nat, d: nat): nat { 0x100_0000 * a + 0x1_0000 * b + 0x100 * c + d }

  lemma FourBytes(b: seq<Byte>)
    requires |b| == 4
    ensures FromBig(b) == Word(b[0], b[1], b[2], b[3])
  {
    assert b[..3][..2] == b[..2] && b[..2][..1] == b[..1] && b[..1][..0] == [];
    assert FromBig(b[..1]) == b[0] && FromBig(b[..2]) == 256 * FromBig(b[..1]) + b[1];
    assert FromBig(b[..3]) == 256 * FromBig(b[..2]) + b[2];
  }
}
