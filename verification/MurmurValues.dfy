/** What the stages of `Murmur32` compute, told by what undoes them in order, and published values of the hash. */
module MurmurValues {
  import opened Prelude
  import opened Murmur32

  ghost predicate Undoes<S(!new)>(g: S -> S, f: S -> S) { forall x {:trigger f(x)} :: g(f(x)) == x }

  lemma UndoTwo<S(!new)>(f: S -> S, g: S -> S, f': S -> S, g': S -> S, x: S)
    requires Undoes(f', f) && Undoes(g', g)
    ensures f'(g'(g(f(x)))) == x
  {
    assert g'(g(f(x))) == f(x);
  }

  function Unrotate13(h: bv32): bv32 { (h >> 13) | (h << 19) }

  function Unrotate15(k: bv32): bv32 { (k >> 15) | (k << 17) }

  lemma Rotate13Undone(h: bv32)
    ensures Unrotate13(Rotate13(h)) == h
  {
  }

  lemma Rotate15Undone(k: bv32)
    ensures Unrotate15(Rotate15(k)) == k
  {
  }

  /** The scrambling is: times 0xcc9e2d51, rotated left by 15, times 0x1b873593. */
  lemma MixUndone(k: bv32)
    ensures UnscaleC1(Unrotate15(UnscaleC2(Mix(k)))) == k
  {
    MixLaws();
    UndoTwo(Rotate15, ScaleC2, Unrotate15, UnscaleC2, ScaleC1(k));
    assert UnscaleC1(ScaleC1(k)) == k;
  }

  lemma MixLaws()
    ensures Undoes(UnscaleC1, ScaleC1) && Undoes(Unrotate15, Rotate15) && Undoes(UnscaleC2, ScaleC2)
  {
    forall x: bv32 {:trigger ScaleC1(x)} ensures UnscaleC1(ScaleC1(x)) == x { ScaleC1Undone(x); }
    forall x: bv32 {:trigger Rotate15(x)} ensures Unrotate15(Rotate15(x)) == x { Rotate15Undone(x); }
    forall x: bv32 {:trigger ScaleC2(x)} ensures UnscaleC2(ScaleC2(x)) == x { ScaleC2Undone(x); }
  }

  /** A round is: the scrambled block added, rotated left by 13, times 5 and plus 0xe6546b64. */
  lemma RoundUndone(h: bv32, k: bv32)
    ensures Unrotate13(Unaffine(Round(h, k))) == Xor(h, Mix(k))
  {
    RoundLaws();
    UndoTwo(Rotate13, Affine, Unrotate13, Unaffine, Xor(h, Mix(k)));
  }

  lemma RoundLaws()
    ensures Undoes(Unrotate13, Rotate13) && Undoes(Unaffine, Affine)
  {
    forall x: bv32 {:trigger Rotate13(x)} ensures Unrotate13(Rotate13(x)) == x { Rotate13Undone(x); }
    forall x: bv32 {:trigger Affine(x)} ensures Unaffine(Affine(x)) == x { AffineUndone(x); }
  }

  lemma AvalancheLaws()
    ensures Undoes(Unshift16, Xorshift16) && Undoes(UnscaleF1, ScaleF1) && Undoes(Unshift13, Xorshift13) && Undoes(UnscaleF2, ScaleF2)
  {
    forall x: bv32 {:trigger Xorshift16(x)} ensures Unshift16(Xorshift16(x)) == x { Xorshift16Undone(x); }
    forall x: bv32 {:trigger ScaleF1(x)} ensures UnscaleF1(ScaleF1(x)) == x { ScaleF1Undone(x); }
    forall x: bv32 {:trigger Xorshift13(x)} ensures Unshift13(Xorshift13(x)) == x { Xorshift13Undone(x); }
    forall x: bv32 {:trigger ScaleF2(x)} ensures UnscaleF2(ScaleF2(x)) == x { ScaleF2Undone(x); }
  }

  lemma UndoFive<S(!new)>(a: S -> S, b: S -> S, c: S -> S, d: S -> S, a': S -> S, b': S -> S, c': S -> S, d': S -> S, x: S)
    requires Undoes(a', a) && Undoes(b', b) && Undoes(c', c) && Undoes(d', d)
    ensures a'(b'(c'(d'(a'(a(d(c(b(a(x)))))))))) == x
  {
    var x1 := a(x);
    var x2 := b(x1);
    var x3 := c(x2);
    var x4 := d(x3);
    assert a'(a(x4)) == x4 && d'(d(x3)) == x3 && c'(c(x2)) == x2 && b'(b(x1)) == x1;
  }

  /** The finish: shifts of 16, 13 and 16 with the two multiplications between them. */
  lemma AvalancheUndone(h: bv32)
    ensures Unshift16(UnscaleF1(Unshift13(UnscaleF2(Unshift16(Avalanche(h)))))) == h
  {
    AvalancheLaws();
    UndoFive(Xorshift16, ScaleF1, Xorshift13, ScaleF2, Unshift16, UnscaleF1, Unshift13, UnscaleF2, h);
  }

  // ----- Published values ---------------------------------------------------------------------

  lemma AvalancheOf(a: bv32, b: bv32, c: bv32, d: bv32, e: bv32, f: bv32)
    requires Xorshift16(a) == b && ScaleF1(b) == c && Xorshift13(c) == d && ScaleF2(d) == e && Xorshift16(e) == f
    ensures Avalanche(a) == f
  {
  }

  lemma MixOf(k: bv32, a: bv32, b: bv32, c: bv32)
    requires ScaleC1(k) == a && Rotate15(a) == b && ScaleC2(b) == c
    ensures Mix(k) == c
  {
  }

  lemma RoundOf(h: bv32, k: bv32, m: bv32, x: bv32, r: bv32, a: bv32)
    requires Mix(k) == m && Xor(h, m) == x && Rotate13(x) == r && Affine(r) == a
    ensures Round(h, k) == a
  {
  }

  /** The empty input with seed 1: the finish alone. */
  lemma HashOfNothing()
    ensures Murmur([], 1) == 0x514e28b7
  {
    AvalancheOf(1, 1, 0x85ebca6b, 0x85efe535, 0x514e79f9, 0x514e28b7);
    assert Blocks([]) == [] && Tail([]) == [];
    assert Xor(1, 0) == 1;
  }

  /** "test" with seed 0: one block. */
  lemma HashOfTest()
    ensures Murmur([0x74, 0x65, 0x73, 0x74], 0) == 0xba6bd213
  {
    var data: seq<bv8> := [0x74, 0x65, 0x73, 0x74];
    assert data[0..4] == data && Word(0x74, 0x65, 0x73, 0x74) == 0x74736574;
    assert Blocks(data) == [0x74736574];
    MixOf(0x74736574, 0x2ef07db4, 0x3eda1778, 0x465f51e8);
    RoundOf(0, 0x74736574, 0x465f51e8, 0x465f51e8, 0xea3d08cb, 0x7985975b);
    var words: seq<bv32> := [0x74736574];
    assert words[1..] == [];
    assert Fold(Round, 0, words) == 0x7985975b;
    assert Tail(data) == [];
    FourIsFour();
    assert Xor(0x7985975b, 4) == 0x7985975f;
    AvalancheOf(0x7985975f, 0x7985eeda, 0xfd90d91e, 0xfd973598, 0xba6b6878, 0xba6bd213);
  }

  lemma FourIsFour()
    ensures Length(3) == 3 && Length(4) == 4
  {
    assert Length(1) == 1;
    assert Length(2) == 2;
    assert Length(3) == 3;
  }

  /** "abc" with seed 0: a tail alone. */
  lemma HashOfAbc()
    ensures Murmur([0x61, 0x62, 0x63], 0) == 0xb3dd93fa
  {
    var data: seq<bv8> := [0x61, 0x62, 0x63];
    assert Blocks(data) == [] && Tail(data) == data;
    assert TailWord(0x61, 0x62, 0x63) == 0x636261;
    assert LoadTail(data) == 0x636261;
    MixOf(0x636261, 0x9b9b2db1, 0x96d8cdcd, 0xa7349db7);
    assert Xor(0, 0xa7349db7) == 0xa7349db7;
    FourIsFour();
    assert Xor(0xa7349db7, 3) == 0xa7349db4;
    AvalancheOf(0xa7349db4, 0xa7343a80, 0x4c7d7380, 0x4c7f106b, 0xb3dd2027, 0xb3dd93fa);
  }

  // ----- The order of the input ---------------------------------------------------------------

  /** The first four bytes are one round, and the rest of the data is hashed from there; only the tail is left over. */
  lemma FirstBlock(a: seq<bv8>, rest: seq<bv8>, seed: bv32)
    requires |a| == 4
    ensures Fold(Round, seed, Blocks(a + rest)) == Fold(Round, Round(seed, LoadWord(a)), Blocks(rest))
    ensures Tail(a + rest) == Tail(rest)
  {
    var data := a + rest;
    forall i | 0 <= i < |rest| / 4
      ensures BlockAt(data, i + 1) == BlockAt(rest, i)
    {
      assert data[4 * (i + 1)..4 * (i + 1) + 4] == rest[4 * i..4 * i + 4];
    }
    assert data[0..4] == a;
    assert Blocks(data) == [LoadWord(a)] + Blocks(rest);
    FoldConcat(Round, seed, [LoadWord(a)], Blocks(rest));
    assert [LoadWord(a)][1..] == [];
  }

  /** Less than a block is all tail. */
  lemma ShortIsTail(data: seq<bv8>)
    requires |data| < 4
    ensures Blocks(data) == [] && Tail(data) == data
  {
  }
}
