/** BIP-39 mnemonics: `src/crypto/bip39.c`, for any sorted list of 2048 plain words and any digest function. */
module Bip39 {
  import opened Prelude
  import opened Bits
  import opened WordText

  const LIST_SIZE: nat := 2048

  /** The language codes that `neoc_bip39_get_wordlist` serves, all with the English list; Portuguese (9) is not. */
  predicate Supported(language: int) { 0 <= language <= 8 }

  ghost predicate WordList(list: seq<string>) {
    && |list| == LIST_SIZE
    && Sorted(list)
    && forall i :: 0 <= i < |list| ==> Plain(list[i])
  }

  predicate EntropyLength(n: nat) { 16 <= n <= 32 && n % 4 == 0 }

  predicate WordCount(n: nat) { n == 12 || n == 15 || n == 18 || n == 21 || n == 24 }

  // ----- What the conversions compute ---------------------------------------------------------

  /** The entropy bits followed by the leading digest bits, one for each 32. */
  function Stream(e: seq<Byte>, sha: seq<Byte> -> seq<Byte>): (bits: seq<bool>)
    requires Digest(sha) && EntropyLength(|e|)
    ensures |bits| == 33 * (|e| / 4)
  {
    OffsetIsProduct(|e|);
    OffsetIsProduct(32);
    Spread(e, 8) + Spread(sha(e), 8)[..|e| / 4]
  }

  /** The word numbers: the stream in groups of eleven bits. */
  function Indices(e: seq<Byte>, sha: seq<Byte> -> seq<Byte>): (indices: seq<nat>)
    requires Digest(sha) && EntropyLength(|e|)
    ensures |indices| == 3 * (|e| / 4)
    ensures AllBelow(indices, LIST_SIZE)
  {
    var n := 3 * (|e| / 4);
    OffsetIsProduct(n);
    SpreadPack(Stream(e, sha), 11, n);
    Widths();
    Pack(Stream(e, sha), 11, n)
  }

  function Words(list: seq<string>, indices: seq<nat>): (words: seq<string>)
    requires |list| == LIST_SIZE && AllBelow(indices, LIST_SIZE)
    ensures |words| == |indices|
    ensures forall i :: 0 <= i < |words| ==> words[i] == list[indices[i]]
  {
    seq(|indices|, i requires 0 <= i < |indices| => list[indices[i]])
  }

  /** The mnemonic of an entropy. */
  function FromEntropy(list: seq<string>, sha: seq<Byte> -> seq<Byte>, e: seq<Byte>, language: int): Result<string>
    requires |list| == LIST_SIZE && Digest(sha)
  {
    if !EntropyLength(|e|) then Err(InvalidLength)
    else if !Supported(language) then Err(NotSupported)
    else Ok(Join(Words(list, Indices(e, sha))))
  }

  /** The word's number; LIST_SIZE if it is not in the list. */
  ghost function NumberOf(list: seq<string>, word: string): (i: nat)
    requires Sorted(list)
    ensures i <= |list|
    ensures i < |list| <==> word in list
    ensures i < |list| ==> list[i] == word
  {
    if word in list then var i :| 0 <= i < |list| && list[i] == word; i else |list|
  }

  ghost function Numbers(list: seq<string>, words: seq<string>): (numbers: seq<nat>)
    requires Sorted(list)
    ensures |numbers| == |words| && AllBelow(numbers, |list| + 1)
    ensures forall i :: 0 <= i < |words| ==> numbers[i] == NumberOf(list, words[i])
  {
    seq(|words|, i requires 0 <= i < |words| => NumberOf(list, words[i]))
  }

  /** The checks on the `33 * k` bits of `3 * k` words, and the entropy if they pass. */
  function Decode(bits: seq<bool>, k: nat, sha: seq<Byte> -> seq<Byte>): (r: Result<seq<Byte>>)
    requires Digest(sha) && 4 <= k <= 8 && |bits| == 33 * k
  {
    var e := EntropyOf(bits, k);
    if FromBits(bits[32 * k..]) == ShiftRight(sha(e)[0], 8 - k) then Ok(e) else Err(InvalidArgument)
  }

  function EntropyOf(bits: seq<bool>, k: nat): (e: seq<Byte>)
    requires |bits| == 33 * k
    ensures |e| == 4 * k && Spread(e, 8) == bits[..32 * k]
  {
    OffsetIsProduct(4 * k);
    SpreadPack(bits[..32 * k], 8, 4 * k);
    Widths();
    Pack(bits[..32 * k], 8, 4 * k)
  }

  function DecodeNumbers(numbers: seq<nat>, k: nat, sha: seq<Byte> -> seq<Byte>): Result<seq<Byte>>
    requires Digest(sha) && 4 <= k <= 8 && |numbers| == 3 * k
  {
    OffsetIsProduct(3 * k);
    Decode(Spread(numbers, 11), k, sha)
  }

  ghost function WordsToEntropy(list: seq<string>, sha: seq<Byte> -> seq<Byte>, words: seq<string>, language: int): Result<seq<Byte>>
    requires |list| == LIST_SIZE && Sorted(list) && Digest(sha)
  {
    if !WordCount(|words|) then Err(InvalidArgument)
    else if !Supported(language) || exists i :: 0 <= i < |words| && words[i] !in list then Err(InvalidArgument)
    else DecodeNumbers(Numbers(list, words), |words| / 3, sha)
  }

  /** The entropy of a text. */
  ghost function ToEntropy(list: seq<string>, sha: seq<Byte> -> seq<Byte>, text: string, language: int): Result<seq<Byte>>
    requires |list| == LIST_SIZE && Sorted(list) && Digest(sha)
  {
    WordsToEntropy(list, sha, Tokens(text), language)
  }

  lemma Widths()
    ensures Pow2(8) == 256 && Pow2(11) == LIST_SIZE
  {
  }

  // ----- Round trips --------------------------------------------------------------------------

  /** The checksum that `mnemonic_to_entropy` expects is the one that `mnemonic_from_entropy` appends. */
  lemma ChecksumBits(hash: seq<Byte>, k: nat)
    requires |hash| == 32 && k <= 8
    ensures |Spread(hash, 8)| == 256
    ensures FromBits(Spread(hash, 8)[..k]) == ShiftRight(hash[0], 8 - k)
  {
    OffsetIsProduct(32);
    Widths();
    assert Spread(hash, 8)[..k] == ToBits(hash[0], 8)[..k];
    TopBitsByShift(hash[0], 8, k);
  }

  lemma DecodeStream(e: seq<Byte>, sha: seq<Byte> -> seq<Byte>)
    requires Digest(sha) && EntropyLength(|e|)
    ensures Decode(Stream(e, sha), |e| / 4, sha) == Ok(e)
  {
    var bits, k := Stream(e, sha), |e| / 4;
    OffsetIsProduct(|e|);
    assert bits[..32 * k] == Spread(e, 8);
    Widths();
    SpreadIsInjective(EntropyOf(bits, k), e, 8);
    ChecksumBits(sha(e), k);
    assert bits[32 * k..] == Spread(sha(e), 8)[..k];
  }

  lemma StreamOfDecoded(bits: seq<bool>, k: nat, sha: seq<Byte> -> seq<Byte>)
    requires Digest(sha) && 4 <= k <= 8 && |bits| == 33 * k && Decode(bits, k, sha).Ok?
    ensures var e := Decode(bits, k, sha).value; |e| == 4 * k && Stream(e, sha) == bits
  {
    var e := EntropyOf(bits, k);
    ChecksumBits(sha(e), k);
    FromBitsIsInjective(bits[32 * k..], Spread(sha(e), 8)[..k]);
    assert bits == bits[..32 * k] + bits[32 * k..];
  }

  lemma NumbersOfWords(list: seq<string>, indices: seq<nat>)
    requires WordList(list) && AllBelow(indices, LIST_SIZE)
    ensures Numbers(list, Words(list, indices)) == indices
  {
    forall i | 0 <= i < |indices|
      ensures NumberOf(list, list[indices[i]]) == indices[i]
    {
      SortedIsInjective(list, NumberOf(list, list[indices[i]]), indices[i]);
    }
  }

  lemma SpreadOfIndices(e: seq<Byte>, sha: seq<Byte> -> seq<Byte>)
    requires Digest(sha) && EntropyLength(|e|)
    ensures Spread(Indices(e, sha), 11) == Stream(e, sha)
  {
    var n := 3 * (|e| / 4);
    OffsetIsProduct(n);
    SpreadPack(Stream(e, sha), 11, n);
  }

  lemma IndicesOfStream(e: seq<Byte>, sha: seq<Byte> -> seq<Byte>, numbers: seq<nat>)
    requires Digest(sha) && EntropyLength(|e|) && AllBelow(numbers, LIST_SIZE)
    requires |numbers| == 3 * (|e| / 4) && Spread(numbers, 11) == Stream(e, sha)
    ensures Indices(e, sha) == numbers
  {
    Widths();
    PackSpread(numbers, 11);
  }

  lemma IndicesOfDecoded(numbers: seq<nat>, k: nat, sha: seq<Byte> -> seq<Byte>)
    requires Digest(sha) && 4 <= k <= 8 && |numbers| == 3 * k && AllBelow(numbers, LIST_SIZE)
    requires DecodeNumbers(numbers, k, sha).Ok?
    ensures var e := DecodeNumbers(numbers, k, sha).value; EntropyLength(|e|) && Indices(e, sha) == numbers
  {
    OffsetIsProduct(3 * k);
    StreamOfDecoded(Spread(numbers, 11), k, sha);
    IndicesOfStream(DecodeNumbers(numbers, k, sha).value, sha, numbers);
  }

  lemma DecodeIndices(e: seq<Byte>, sha: seq<Byte> -> seq<Byte>)
    requires Digest(sha) && EntropyLength(|e|)
    ensures DecodeNumbers(Indices(e, sha), |e| / 4, sha) == Ok(e)
  {
    SpreadOfIndices(e, sha);
    DecodeStream(e, sha);
  }

  lemma EntropyOfItsWords(list: seq<string>, sha: seq<Byte> -> seq<Byte>, e: seq<Byte>, language: int)
    requires WordList(list) && Digest(sha) && EntropyLength(|e|) && Supported(language)
    ensures WordsToEntropy(list, sha, Words(list, Indices(e, sha)), language) == Ok(e)
  {
    var indices := Indices(e, sha);
    NumbersOfWords(list, indices);
    DecodeIndices(e, sha);
    assert forall i :: 0 <= i < |indices| ==> Words(list, indices)[i] in list;
    assert WordCount(|indices|) && |indices| / 3 == |e| / 4;
  }

  /** For every entropy of a legal length, reading its mnemonic gives it back; the words number 3/4 of the bytes. */
  lemma EntropyRoundTrip(list: seq<string>, sha: seq<Byte> -> seq<Byte>, e: seq<Byte>, language: int)
    requires WordList(list) && Digest(sha) && EntropyLength(|e|) && Supported(language)
    ensures var m := FromEntropy(list, sha, e, language);
            && m.Ok?
            && ToEntropy(list, sha, m.value, language) == Ok(e)
            && 4 * |Tokens(m.value)| == 3 * |e|
  {
    var words := Words(list, Indices(e, sha));
    TokensOfJoin(words);
    EntropyOfItsWords(list, sha, e, language);
  }

  lemma WordsOfNumbers(list: seq<string>, words: seq<string>)
    requires |list| == LIST_SIZE && Sorted(list) && forall i :: 0 <= i < |words| ==> words[i] in list
    ensures AllBelow(Numbers(list, words), LIST_SIZE) && Words(list, Numbers(list, words)) == words
  {
  }

  lemma AcceptedWords(list: seq<string>, sha: seq<Byte> -> seq<Byte>, words: seq<string>, language: int)
    requires WordList(list) && Digest(sha) && WordsToEntropy(list, sha, words, language).Ok?
    ensures var e := WordsToEntropy(list, sha, words, language).value;
            EntropyLength(|e|) && Words(list, Indices(e, sha)) == words
  {
    WordsOfNumbers(list, words);
    IndicesOfDecoded(Numbers(list, words), |words| / 3, sha);
  }

  /** Every accepted text is rebuilt from its entropy as its words joined by single spaces. */
  lemma AcceptedTextIsRebuilt(list: seq<string>, sha: seq<Byte> -> seq<Byte>, text: string, language: int)
    requires WordList(list) && Digest(sha) && ToEntropy(list, sha, text, language).Ok?
    ensures var e := ToEntropy(list, sha, text, language).value;
            && EntropyLength(|e|)
            && Words(list, Indices(e, sha)) == Tokens(text)
            && FromEntropy(list, sha, e, language) == Ok(Join(Tokens(text)))
  {
    AcceptedWords(list, sha, Tokens(text), language);
  }

  /** A text is accepted exactly when its words are those of some entropy. */
  lemma AcceptedExactly(list: seq<string>, sha: seq<Byte> -> seq<Byte>, text: string, language: int)
    requires WordList(list) && Digest(sha) && Supported(language)
    ensures ToEntropy(list, sha, text, language).Ok? <==>
            exists e: seq<Byte> :: EntropyLength(|e|) && Tokens(text) == Words(list, Indices(e, sha))
  {
    if ToEntropy(list, sha, text, language).Ok? {
      AcceptedTextIsRebuilt(list, sha, text, language);
    }
    forall e: seq<Byte> | EntropyLength(|e|) && Tokens(text) == Words(list, Indices(e, sha))
      ensures ToEntropy(list, sha, text, language) == Ok(e)
    {
      EntropyOfItsWords(list, sha, e, language);
    }
  }

  /** Two accepted texts give the same entropy exactly when they have the same words. */
  lemma SameEntropySameWords(list: seq<string>, sha: seq<Byte> -> seq<Byte>, a: string, b: string, language: int)
    requires WordList(list) && Digest(sha)
    requires ToEntropy(list, sha, a, language).Ok? && ToEntropy(list, sha, b, language).Ok?
    ensures ToEntropy(list, sha, a, language) == ToEntropy(list, sha, b, language) <==> Tokens(a) == Tokens(b)
  {
    AcceptedTextIsRebuilt(list, sha, a, language);
    AcceptedTextIsRebuilt(list, sha, b, language);
  }

  /** Entropies of 16, 20, 24, 28 and 32 bytes have mnemonics, in the languages 0 to 8. */
  lemma FromEntropyExactly(list: seq<string>, sha: seq<Byte> -> seq<Byte>, e: seq<Byte>, language: int)
    requires WordList(list) && Digest(sha)
    ensures FromEntropy(list, sha, e, language).Ok? <==> |e| in {16, 20, 24, 28, 32} && 0 <= language <= 8
    ensures FromEntropy(list, sha, e, language) == Err(InvalidLength) <==> |e| !in {16, 20, 24, 28, 32}
  {
  }

  /** In any other language no text is accepted. */
  lemma ToEntropyNeedsLanguage(list: seq<string>, sha: seq<Byte> -> seq<Byte>, text: string, language: int)
    requires WordList(list) && Digest(sha)
    ensures ToEntropy(list, sha, text, language).Ok? ==> 0 <= language <= 8
    ensures Supported(language) <==> 0 <= language <= 8
  {
  }

  /**
   * The word numbers are the digits, to the base 2048, of one number: the entropy read as a number to the base 256,
   * with the leading `|e| / 4` bits of its digest appended (BIP-39, section "Generating the mnemonic").
   */
  lemma WordNumbers(e: seq<Byte>, sha: seq<Byte> -> seq<Byte>)
    requires Digest(sha) && EntropyLength(|e|)
    ensures var k := |e| / 4;
            Number(Indices(e, sha), 2048) == Number(e, 256) * Pow2(k) + sha(e)[0] / Pow2(8 - k)
  {
    ChecksumBits(sha(e), |e| / 4);
    StreamSpells(e, sha(e), |e| / 4);
    IndicesSpell(e, sha);
  }

  lemma IndicesSpell(e: seq<Byte>, sha: seq<Byte> -> seq<Byte>)
    requires Digest(sha) && EntropyLength(|e|)
    ensures Number(Indices(e, sha), 2048) == FromBits(Stream(e, sha))
  {
    Widths();
    SpreadOfIndices(e, sha);
    SpreadSpells(Indices(e, sha), 11);
  }

  lemma StreamSpells(e: seq<Byte>, hash: seq<Byte>, k: nat)
    requires |hash| == 32 && k <= 8 && k <= |Spread(hash, 8)|
    ensures FromBits(Spread(e, 8) + Spread(hash, 8)[..k]) == Number(e, 256) * Pow2(k) + hash[0] / Pow2(8 - k)
  {
    Widths();
    SpreadSpells(e, 8);
    FromBitsConcat(Spread(e, 8), Spread(hash, 8)[..k]);
    ChecksumBits(hash, k);
    ShiftIsQuotient(hash[0], 8 - k);
  }
}
