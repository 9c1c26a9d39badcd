/** `neoc_hash_murmur32` of `src/crypto/hash.c`: no one block, and no tail, can change without changing the hash. */
module Murmur32 {
  import opened Prelude

  function Rotate15(k: bv32): bv32 { (k << 15) | (k >> 17) }

  function Rotate13(h: bv32): bv32 { (h << 13) | (h >> 19) }

  function ScaleC1(k: bv32): bv32 { k * 0xcc9e2d51 }

  function ScaleC2(k: bv32): bv32 { k * 0x1b873593 }

  function Affine(h: bv32): bv32 { h * 5 + 0xe6546b64 }

  function Xor(a: bv32, b: bv32): bv32 { a ^ b }

  /** The scrambling of one input word. */
  function Mix(k: bv32): bv32 { ScaleC2(Rotate15(ScaleC1(k))) }

  /** One round of the block loop. */
  function Round(h: bv32, k: bv32): bv32 { Affine(Rotate13(Xor(h, Mix(k)))) }

  function ScaleF1(h: bv32): bv32 { h * 0x85ebca6b }

  function ScaleF2(h: bv32): bv32 { h * 0xc2b2ae35 }

  function Xorshift16(h: bv32): bv32 { h ^ (h >> 16) }

  function Xorshift13(h: bv32): bv32 { h ^ (h >> 13) }

  /** The closing avalanche. */
  function Avalanche(h: bv32): bv32 {
    Xorshift16(ScaleF2(Xorshift13(ScaleF1(Xorshift16(h)))))
  }

  /** Four bytes read as one word, as a little-endian machine does. */
  function LoadWord(b: seq<bv8>): bv32
    requires |b| == 4
  {
    Word(b[0], b[1], b[2], b[3])
  }

  function Word(b0: bv8, b1: bv8, b2: bv8, b3: bv8): bv32 {
    (b0 as bv32) | (b1 as bv32 << 8) | (b2 as bv32 << 16) | (b3 as bv32 << 24)
  }

  /** The one to three bytes after the last whole block, as one word. */
  function LoadTail(b: seq<bv8>): bv32 { TailWord(At(b, 0), At(b, 1), At(b, 2)) }

  /** A byte of the tail; the missing ones contribute nothing. */
  function At(b: seq<bv8>, i: nat): bv8 { if i < |b| then b[i] else 0 }

  function TailWord(b0: bv8, b1: bv8, b2: bv8): bv32 {
    (b2 as bv32 << 16) ^ (b1 as bv32 << 8) ^ (b0 as bv32)
  }

  function Blocks(data: seq<bv8>): (words: seq<bv32>)
    ensures |words| == |data| / 4
  {
    seq(|data| / 4, i requires 0 <= i < |data| / 4 => BlockAt(data, i))
  }

  function Tail(data: seq<bv8>): (b: seq<bv8>)
    ensures |b| == |data| % 4
  {
    data[4 * (|data| / 4)..]
  }

  function BlockAt(data: seq<bv8>, i: nat): bv32
    requires 4 * i + 4 <= |data|
  {
    LoadWord(data[4 * i..4 * i + 4])
  }

  /** Adding the tail; an empty tail leaves the hash as it is. */
  function AddTail(h: bv32, tail: seq<bv8>): bv32 {
    if tail == [] then h else Xor(h, Mix(LoadTail(tail)))
  }

  /** The low 32 bits of the length: counting in 32-bit arithmetic wraps as the C conversion truncates. */
  function Length(n: nat): bv32 { if n == 0 then 0 else Length(n - 1) + 1 }

  /** What follows the block loop: the tail, the length and the avalanche. */
  function Close(h: bv32, rest: (seq<bv8>, nat)): bv32 {
    Avalanche(Xor(AddTail(h, rest.0), Length(rest.1)))
  }

  function Murmur(data: seq<bv8>, seed: bv32): bv32 {
    Close(Fold(Round, seed, Blocks(data)), (Tail(data), |data|))
  }

  method HashBlocks(data: seq<bv8>, seed: bv32) returns (hash: bv32)
    ensures hash == Fold(Round, seed, Blocks(data))
  {
    hash := seed;
    ghost var words := Blocks(data);
    for i := 0 to |data| / 4
      invariant hash == Fold(Round, seed, words[..i])
    {
      FoldNext(Round, seed, words, i);
      hash := Round(hash, BlockAt(data, i));
    }
    assert words[..|data| / 4] == words;
  }

  method ComputeMurmur32(data: seq<bv8>, seed: bv32) returns (hash: bv32)
    ensures hash == Murmur(data, seed)
  {
    hash := HashBlocks(data, seed);
    var tail := data[4 * (|data| / 4)..];
    if tail != [] {
      hash := Xor(hash, Mix(LoadTail(tail)));
    }
    hash := Xor(hash, Length(|data|));
    hash := Avalanche(hash);
  }

  // ----- Every stage is a bijection -----------------------------------------------------------

  lemma Rotate15InjectiveAt(a: bv32, b: bv32)
    ensures Rotate15(a) == Rotate15(b) ==> a == b
  {
  }

  function UnscaleC1(k: bv32): bv32 { k * 0xdee13bb1 }

  lemma ScaleC1Undone(k: bv32)
    ensures UnscaleC1(k * 0xcc9e2d51) == k
  {
  }

  function UnscaleC2(k: bv32): bv32 { k * 0x56ed309b }

  lemma ScaleC2Undone(k: bv32)
    ensures UnscaleC2(k * 0x1b873593) == k
  {
  }

  lemma ScaleC1InjectiveAt(a: bv32, b: bv32)
    ensures ScaleC1(a) == ScaleC1(b) ==> a == b
  {
    ScaleC1Undone(a);
    ScaleC1Undone(b);
  }

  lemma ScaleC2InjectiveAt(a: bv32, b: bv32)
    ensures ScaleC2(a) == ScaleC2(b) ==> a == b
  {
    ScaleC2Undone(a);
    ScaleC2Undone(b);
  }

  lemma MixStages()
    ensures Injective(ScaleC1) && Injective(Rotate15) && Injective(ScaleC2)
  {
    forall a: bv32, b: bv32 ensures ScaleC1(a) == ScaleC1(b) ==> a == b { ScaleC1InjectiveAt(a, b); }
    forall a: bv32, b: bv32 ensures Rotate15(a) == Rotate15(b) ==> a == b { Rotate15InjectiveAt(a, b); }
    forall a: bv32, b: bv32 ensures ScaleC2(a) == ScaleC2(b) ==> a == b { ScaleC2InjectiveAt(a, b); }
  }

  lemma MixInjective(a: bv32, b: bv32)
    requires Mix(a) == Mix(b)
    ensures a == b
  {
    MixStages();
    assert ScaleC2(Rotate15(ScaleC1(a))) == ScaleC2(Rotate15(ScaleC1(b)));
  }

  function UnscaleF1(h: bv32): bv32 { h * 0xa5cb9243 }

  lemma ScaleF1Undone(h: bv32)
    ensures UnscaleF1(h * 0x85ebca6b) == h
  {
  }

  function UnscaleF2(h: bv32): bv32 { h * 0x7ed1b41d }

  lemma ScaleF2Undone(h: bv32)
    ensures UnscaleF2(h * 0xc2b2ae35) == h
  {
  }

  function Unshift16(h: bv32): bv32 { h ^ (h >> 16) }

  lemma Xorshift16Undone(h: bv32)
    ensures Unshift16(h ^ (h >> 16)) == h
  {
  }

  function Unshift13(h: bv32): bv32 { h ^ (h >> 13) ^ (h >> 26) }

  lemma Xorshift13Undone(h: bv32)
    ensures Unshift13(h ^ (h >> 13)) == h
  {
  }

  lemma ScaleF1InjectiveAt(a: bv32, b: bv32)
    ensures ScaleF1(a) == ScaleF1(b) ==> a == b
  {
    ScaleF1Undone(a);
    ScaleF1Undone(b);
  }

  lemma ScaleF2InjectiveAt(a: bv32, b: bv32)
    ensures ScaleF2(a) == ScaleF2(b) ==> a == b
  {
    ScaleF2Undone(a);
    ScaleF2Undone(b);
  }

  lemma Xorshift16InjectiveAt(a: bv32, b: bv32)
    ensures Xorshift16(a) == Xorshift16(b) ==> a == b
  {
    Xorshift16Undone(a);
    Xorshift16Undone(b);
  }

  lemma Xorshift13InjectiveAt(a: bv32, b: bv32)
    ensures Xorshift13(a) == Xorshift13(b) ==> a == b
  {
    Xorshift13Undone(a);
    Xorshift13Undone(b);
  }

  lemma AvalancheStages()
    ensures Injective(Xorshift16) && Injective(ScaleF1) && Injective(Xorshift13) && Injective(ScaleF2)
  {
    forall a: bv32, b: bv32 ensures Xorshift16(a) == Xorshift16(b) ==> a == b { Xorshift16InjectiveAt(a, b); }
    forall a: bv32, b: bv32 ensures ScaleF1(a) == ScaleF1(b) ==> a == b { ScaleF1InjectiveAt(a, b); }
    forall a: bv32, b: bv32 ensures Xorshift13(a) == Xorshift13(b) ==> a == b { Xorshift13InjectiveAt(a, b); }
    forall a: bv32, b: bv32 ensures ScaleF2(a) == ScaleF2(b) ==> a == b { ScaleF2InjectiveAt(a, b); }
  }

  lemma AvalancheInjective(a: bv32, b: bv32)
    requires Avalanche(a) == Avalanche(b)
    ensures a == b
  {
    AvalancheStages();
    assert Xorshift16(ScaleF2(Xorshift13(ScaleF1(Xorshift16(a)))))
        == Xorshift16(ScaleF2(Xorshift13(ScaleF1(Xorshift16(b)))));
  }

  function Unaffine(h: bv32): bv32 { (h - 0xe6546b64) * 0xcccccccd }

  lemma AffineUndone(h: bv32)
    ensures Unaffine(h * 5 + 0xe6546b64) == h
  {
  }

  lemma AffineInjectiveAt(a: bv32, b: bv32)
    ensures Affine(a) == Affine(b) ==> a == b
  {
    AffineUndone(a);
    AffineUndone(b);
  }

  lemma Rotate13InjectiveAt(a: bv32, b: bv32)
    ensures Rotate13(a) == Rotate13(b) ==> a == b
  {
  }

  lemma XorInjectiveAt(a: bv32, b: bv32, c: bv32)
    ensures Xor(a, b) == Xor(a, c) ==> b == c
    ensures Xor(b, a) == Xor(c, a) ==> b == c
  {
  }

  lemma RoundStages()
    ensures Injective(Affine) && Injective(Rotate13)
  {
    forall a: bv32, b: bv32 ensures Affine(a) == Affine(b) ==> a == b { AffineInjectiveAt(a, b); }
    forall a: bv32, b: bv32 ensures Rotate13(a) == Rotate13(b) ==> a == b { Rotate13InjectiveAt(a, b); }
  }

  lemma RoundTurnsOnItsInput(h: bv32, k: bv32, h': bv32, k': bv32)
    requires Round(h, k) == Round(h', k')
    ensures Xor(h, Mix(k)) == Xor(h', Mix(k'))
  {
    RoundStages();
    assert Affine(Rotate13(Xor(h, Mix(k)))) == Affine(Rotate13(Xor(h', Mix(k'))));
  }

  lemma RoundInjectiveInBlock(h: bv32, k: bv32, k': bv32)
    requires Round(h, k) == Round(h, k')
    ensures k == k'
  {
    RoundTurnsOnItsInput(h, k, h, k');
    XorInjectiveAt(h, Mix(k), Mix(k'));
    MixInjective(k, k');
  }

  lemma RoundInjectiveInStateAt(h: bv32, h': bv32, k: bv32)
    ensures Round(h, k) == Round(h', k) ==> h == h'
  {
    if Round(h, k) == Round(h', k) {
      RoundTurnsOnItsInput(h, k, h', k);
      XorInjectiveAt(Mix(k), h, h');
    }
  }

  lemma RoundInjectiveInState()
    ensures StepInjective(Round)
  {
    forall h: bv32, h': bv32, k: bv32
      ensures Round(h, k) == Round(h', k) ==> h == h'
    {
      RoundInjectiveInStateAt(h, h', k);
    }
  }

  // ----- Reading words from bytes -------------------------------------------------------------

  lemma WordInjective(a0: bv8, a1: bv8, a2: bv8, a3: bv8, b0: bv8, b1: bv8, b2: bv8, b3: bv8)
    requires Word(a0, a1, a2, a3) == Word(b0, b1, b2, b3)
    ensures a0 == b0 && a1 == b1 && a2 == b2 && a3 == b3
  {
  }

  lemma LoadWordInjective(a: seq<bv8>, b: seq<bv8>)
    requires |a| == |b| == 4 && LoadWord(a) == LoadWord(b)
    ensures a == b
  {
    WordInjective(a[0], a[1], a[2], a[3], b[0], b[1], b[2], b[3]);
  }

  lemma TailWordInjective(a0: bv8, a1: bv8, a2: bv8, b0: bv8, b1: bv8, b2: bv8)
    requires TailWord(a0, a1, a2) == TailWord(b0, b1, b2)
    ensures a0 == b0 && a1 == b1 && a2 == b2
  {
  }

  lemma LoadTailInjective(a: seq<bv8>, b: seq<bv8>)
    requires |a| == |b| < 4 && LoadTail(a) == LoadTail(b)
    ensures a == b
  {
    TailWordInjective(At(a, 0), At(a, 1), At(a, 2), At(b, 0), At(b, 1), At(b, 2));
  }

  lemma BlocksConcat(p: seq<bv8>, q: seq<bv8>)
    requires |p| % 4 == 0
    ensures Blocks(p + q) == Blocks(p) + Blocks(q)
    ensures Tail(p + q) == Tail(q)
  {
    var n := |p| / 4;
    assert |p + q| / 4 == n + |q| / 4;
    forall i | 0 <= i < n
      ensures Blocks(p + q)[i] == Blocks(p)[i]
    {
      assert (p + q)[4 * i..4 * i + 4] == p[4 * i..4 * i + 4];
    }
    forall j | 0 <= j < |q| / 4
      ensures Blocks(p + q)[n + j] == Blocks(q)[j]
    {
      assert (p + q)[4 * (n + j)..4 * (n + j) + 4] == q[4 * j..4 * j + 4];
    }
  }

  // ----- The theorems -------------------------------------------------------------------------

  lemma CloseInjectiveInStateAt(h: bv32, h': bv32, rest: (seq<bv8>, nat))
    ensures Close(h, rest) == Close(h', rest) ==> h == h'
  {
    if Close(h, rest) == Close(h', rest) {
      AvalancheInjective(Xor(AddTail(h, rest.0), Length(rest.1)), Xor(AddTail(h', rest.0), Length(rest.1)));
      XorInjectiveAt(Length(rest.1), AddTail(h, rest.0), AddTail(h', rest.0));
      XorInjectiveAt(Mix(LoadTail(rest.0)), h, h');
    }
  }

  lemma CloseInjectiveInTail(h: bv32, t: seq<bv8>, t': seq<bv8>, len: nat)
    requires |t| == |t'| < 4 && Close(h, (t, len)) == Close(h, (t', len))
    ensures t == t'
  {
    AvalancheInjective(Xor(AddTail(h, t), Length(len)), Xor(AddTail(h, t'), Length(len)));
    XorInjectiveAt(Length(len), AddTail(h, t), AddTail(h, t'));
    if t != [] {
      XorInjectiveAt(h, Mix(LoadTail(t)), Mix(LoadTail(t')));
      MixInjective(LoadTail(t), LoadTail(t'));
      LoadTailInjective(t, t');
    }
  }

  lemma StagesInjective()
    ensures StepInjective(Close) && StepInjective(Round)
  {
    RoundInjectiveInState();
    forall h: bv32, h': bv32, rest: (seq<bv8>, nat)
      ensures Close(h, rest) == Close(h', rest) ==> h == h'
    {
      CloseInjectiveInStateAt(h, h', rest);
    }
  }

  /** Two runs that end alike had the same word at the only place where they could differ. */
  lemma {:induction false} RunsMeet<S(!new), X(!new), T(!new)>(
    step: (S, X) -> S, close: (S, T) -> S, s: S, p: seq<X>, x: X, x': X, q: seq<X>, t: T)
    requires StepInjective(step) && StepInjective(close)
    requires close(Fold(step, s, p + [x] + q), t) == close(Fold(step, s, p + [x'] + q), t)
    ensures step(Fold(step, s, p), x) == step(Fold(step, s, p), x')
  {
    FoldOneDiffers(step, s, p, x, x', q);
  }

  lemma WordsMeet(seed: bv32, p: seq<bv32>, k: bv32, k': bv32, q: seq<bv32>, rest: (seq<bv8>, nat))
    requires Close(Fold(Round, seed, p + [k] + q), rest) == Close(Fold(Round, seed, p + [k'] + q), rest)
    ensures k == k'
  {
    StagesInjective();
    RunsMeet(Round, Close, seed, p, k, k', q, rest);
    RoundInjectiveInBlock(Fold(Round, seed, p), k, k');
  }

  lemma OneBlock(b: seq<bv8>)
    requires |b| == 4
    ensures Blocks(b) == [LoadWord(b)] && Tail(b) == []
  {
    assert b[0..4] == b;
  }

  lemma BlocksAround(p: seq<bv8>, b: seq<bv8>, q: seq<bv8>)
    requires |p| % 4 == 0 && |b| == 4
    ensures Blocks(p + b + q) == Blocks(p) + [LoadWord(b)] + Blocks(q)
    ensures Tail(p + b + q) == Tail(q)
  {
    OneBlock(b);
    BlocksConcat(p, b);
    BlocksConcat(p + b, q);
  }

  lemma MurmurAround(p: seq<bv8>, b: seq<bv8>, q: seq<bv8>, seed: bv32)
    requires |p| % 4 == 0 && |b| == 4
    ensures Murmur(p + b + q, seed)
         == Close(Fold(Round, seed, Blocks(p) + [LoadWord(b)] + Blocks(q)), (Tail(q), |p| + 4 + |q|))
  {
    BlocksAround(p, b, q);
  }

  lemma SameHashSameBlock(p: seq<bv8>, b: seq<bv8>, b': seq<bv8>, q: seq<bv8>, seed: bv32)
    requires |p| % 4 == 0 && |b| == |b'| == 4
    requires Murmur(p + b + q, seed) == Murmur(p + b' + q, seed)
    ensures b == b'
  {
    MurmurAround(p, b, q, seed);
    MurmurAround(p, b', q, seed);
    WordsMeet(seed, Blocks(p), LoadWord(b), LoadWord(b'), Blocks(q), (Tail(q), |p| + 4 + |q|));
    LoadWordInjective(b, b');
  }

  /** Changing one aligned block, and nothing else, always changes the hash. */
  lemma OneBlockIsDetected(p: seq<bv8>, b: seq<bv8>, b': seq<bv8>, q: seq<bv8>, seed: bv32)
    requires |p| % 4 == 0 && |b| == |b'| == 4
    ensures Murmur(p + b + q, seed) == Murmur(p + b' + q, seed) <==> b == b'
  {
    if Murmur(p + b + q, seed) == Murmur(p + b' + q, seed) {
      SameHashSameBlock(p, b, b', q, seed);
    }
  }

  lemma SamePrefixSameBlocks(a: seq<bv8>, b: seq<bv8>)
    requires |a| == |b| && a[..4 * (|a| / 4)] == b[..4 * (|a| / 4)]
    ensures Blocks(a) == Blocks(b)
    ensures Tail(a) == Tail(b) ==> a == b
  {
    var n := |a| / 4;
    forall i | 0 <= i < n
      ensures Blocks(a)[i] == Blocks(b)[i]
    {
      assert a[4 * i..4 * i + 4] == a[..4 * n][4 * i..4 * i + 4];
      assert b[4 * i..4 * i + 4] == b[..4 * n][4 * i..4 * i + 4];
    }
    assert a == a[..4 * n] + a[4 * n..] && b == b[..4 * n] + b[4 * n..];
  }

  lemma SameHashSameTail(a: seq<bv8>, b: seq<bv8>, seed: bv32)
    requires |a| == |b| && Blocks(a) == Blocks(b) && Murmur(a, seed) == Murmur(b, seed)
    ensures Tail(a) == Tail(b)
  {
    CloseInjectiveInTail(Fold(Round, seed, Blocks(a)), Tail(a), Tail(b), |a|);
  }

  /** Changing only the bytes after the last whole block always changes the hash. */
  lemma TailIsDetected(a: seq<bv8>, b: seq<bv8>, seed: bv32)
    requires |a| == |b| && a[..4 * (|a| / 4)] == b[..4 * (|a| / 4)]
    ensures Murmur(a, seed) == Murmur(b, seed) <==> a == b
  {
    SamePrefixSameBlocks(a, b);
    if Murmur(a, seed) == Murmur(b, seed) {
      SameHashSameTail(a, b, seed);
    }
  }
}
