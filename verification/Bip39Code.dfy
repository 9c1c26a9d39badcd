/** The loops of `src/crypto/bip39.c`, proved against the functions of `Bip39`. */
module Bip39Code {
  import opened Prelude
  import opened Bits
  import opened WordText
  import opened Bip39

  function Zeros(n: nat): (bits: seq<bool>)
    ensures |bits| == n && forall i :: 0 <= i < n ==> !bits[i]
  {
    seq(n, _ => false)
  }

  lemma {:induction false} SpreadZeros(vs: seq<nat>)
    requires forall i :: 0 <= i < |vs| ==> vs[i] == 0
    ensures Spread(vs, 8) == Zeros(|Spread(vs, 8)|)
  {
    if vs != [] {
      SpreadZeros(vs[1..]);
      ZeroHasNoBits(8);
    }
  }

  lemma {:induction false} ZeroHasNoBits(n: nat)
    ensures ToBits(0, n) == Zeros(n)
  {
    if n > 0 {
      ZeroHasNoBits(n - 1);
    }
  }

  lemma BytesHaveWidth8(vs: seq<Byte>)
    ensures AllBelow(vs, Pow2(8)) && |Spread(vs, 8)| == 8 * |vs|
  {
    Widths();
    OffsetIsProduct(|vs|);
  }

  lemma BitAt(vs: seq<Byte>, pos: nat)
    requires pos < 8 * |vs|
    ensures |Spread(vs, 8)| == 8 * |vs|
    ensures Spread(vs, 8)[pos] == (ShiftRight(vs[pos / 8], 7 - pos % 8) % 2 == 1)
  {
    BytesHaveWidth8(vs);
    OffsetIsProduct(pos / 8);
    SpreadAt(vs, 8, pos / 8, pos % 8);
    BitByShift(vs[pos / 8], 8, pos % 8);
  }

  /** Reads the bit at a position of the stream. */
  method GetBit(stream: array<Byte>, pos: nat) returns (bit: nat)
    requires pos < 8 * stream.Length
    ensures |Spread(stream[..], 8)| == 8 * stream.Length
    ensures bit == if Spread(stream[..], 8)[pos] then 1 else 0
  {
    BitAt(stream[..], pos);
    bit := ShiftRight(stream[pos / 8], 7 - pos % 8) % 2;
  }

  /** Sets the bit at a position of the stream. */
  method PutBit(stream: array<Byte>, pos: nat)
    requires pos < 8 * stream.Length
    modifies stream
    ensures |Spread(stream[..], 8)| == |old(Spread(stream[..], 8))| == 8 * stream.Length
    ensures Spread(stream[..], 8) == old(Spread(stream[..], 8))[pos := true]
  {
    var i, k := pos / 8, pos % 8;
    BytesHaveWidth8(stream[..]);
    OffsetIsProduct(i);
    SetBitSets(stream[i], 8, k);
    SpreadSetBit(stream[..], 8, i, k);
    ghost var before := stream[..];
    stream[i] := SetBit(stream[i], 8, k);
    assert stream[..] == before[i := SetBit(before[i], 8, k)];
    BytesHaveWidth8(stream[..]);
  }

  lemma NextBit(bits: seq<bool>, start: nat, j: nat)
    requires start + j < |bits|
    ensures FromBits(bits[start..start + j + 1])
         == 2 * FromBits(bits[start..start + j]) + (if bits[start + j] then 1 else 0)
  {
    assert bits[start..start + j + 1][..j] == bits[start..start + j];
  }

  /** `count` bits from `start` on, accumulated as `value = (value << 1) | bit`. */
  method ReadBits(stream: array<Byte>, start: nat, count: nat) returns (value: nat)
    requires start + count <= 8 * stream.Length
    ensures |Spread(stream[..], 8)| == 8 * stream.Length
    ensures value == FromBits(Spread(stream[..], 8)[start..start + count])
  {
    BytesHaveWidth8(stream[..]);
    ghost var bits := Spread(stream[..], 8);
    value := 0;
    for j := 0 to count
      invariant value == FromBits(bits[start..start + j])
    {
      var bit := GetBit(stream, start + j);
      NextBit(bits, start, j);
      value := 2 * value + bit;
    }
  }

  lemma {:induction false} PackAt(bits: seq<bool>, w: nat, n: nat, i: nat)
    requires |bits| >= Offset(w, n) && i < n
    ensures Offset(w, i) + w <= |bits|
    ensures Pack(bits, w, n)[i] == FromBits(bits[Offset(w, i)..Offset(w, i) + w])
  {
    OffsetMonotone(w, i + 1, n);
    var first, rest := FromBits(bits[..w]), Pack(bits[w..], w, n - 1);
    assert Pack(bits, w, n) == [first] + rest;
    if i > 0 {
      assert ([first] + rest)[i] == rest[i - 1];
      PackAt(bits[w..], w, n - 1, i - 1);
      SliceOfDrop(bits, w, Offset(w, i - 1), Offset(w, i - 1) + w);
    } else {
      assert bits[0..w] == bits[..w];
    }
  }

  lemma SliceOfDrop<T>(s: seq<T>, w: nat, a: nat, b: nat)
    requires a <= b && w + b <= |s|
    ensures s[w..][a..b] == s[w + a..w + b]
  {
  }

  /** A zeroed stream with the entropy copied in. */
  method CopyEntropy(e: seq<Byte>, length: nat) returns (stream: array<Byte>)
    requires |e| <= length
    ensures fresh(stream) && stream.Length == length
    ensures |Spread(e, 8)| == 8 * |e|
    ensures Spread(stream[..], 8) == Spread(e, 8) + Zeros(8 * (length - |e|))
  {
    stream := new Byte[length](_ => 0);
    forall i | 0 <= i < |e| { stream[i] := e[i]; }
    BytesHaveWidth8(e);
    BytesHaveWidth8(stream[|e|..]);
    assert stream[..] == e + stream[|e|..];
    SpreadConcat(e, stream[|e|..], 8);
    SpreadZeros(stream[|e|..]);
  }

  lemma OneMoreBit(head: seq<bool>, sum: seq<bool>, i: nat, pad: nat)
    requires i < |sum| && i < pad
    ensures head + sum[..i + 1] + Zeros(pad - (i + 1))
         == (head + sum[..i] + Zeros(pad - i))[|head| + i := sum[i]]
  {
  }

  /** Sets or skips one bit of a stream that is clear from there on. */
  method PutNext(stream: array<Byte>, ghost head: seq<bool>, ghost word: seq<bool>, start: nat, i: nat, bit: bool)
    requires start == |head| && i < |word| && bit == word[i] && start + i < 8 * stream.Length
    requires Spread(stream[..], 8) == head + word[..i] + Zeros(8 * stream.Length - start - i)
    modifies stream
    ensures Spread(stream[..], 8) == head + word[..i + 1] + Zeros(8 * stream.Length - start - (i + 1))
  {
    OneMoreBit(head, word, i, 8 * stream.Length - start);
    if bit {
      PutBit(stream, start + i);
    } else {
      ghost var before := Spread(stream[..], 8);
      assert before[start + i := false] == before;
    }
  }

  /** The checksum loop: sets the digest's leading bits after the entropy. */
  method AppendChecksum(stream: array<Byte>, ghost head: seq<bool>, start: nat, hash: seq<Byte>, k: nat)
    requires |hash| == 32 && k <= 256 && start == |head| && start + k <= 8 * stream.Length
    requires Spread(stream[..], 8) == head + Zeros(8 * stream.Length - start)
    modifies stream
    ensures |Spread(hash, 8)| == 256
    ensures Spread(stream[..], 8) == head + Spread(hash, 8)[..k] + Zeros(8 * stream.Length - start - k)
  {
    BytesHaveWidth8(hash);
    ghost var sum, pad := Spread(hash, 8), 8 * stream.Length - start;
    assert head + sum[..0] + Zeros(pad) == head + Zeros(pad);
    for i := 0 to k
      invariant Spread(stream[..], 8) == head + sum[..i] + Zeros(pad - i)
    {
      BitAt(hash, i);
      PutNext(stream, head, sum, start, i, ShiftRight(hash[i / 8], 7 - i % 8) % 2 == 1);
    }
  }

  /** The bit stream of `mnemonic_from_entropy`. */
  method BuildStream(e: seq<Byte>, sha: seq<Byte> -> seq<Byte>) returns (stream: array<Byte>)
    requires EntropyLength(|e|) && Digest(sha)
    ensures fresh(stream) && stream.Length == (33 * (|e| / 4) + 7) / 8
    ensures Spread(stream[..], 8) == Stream(e, sha) + Zeros(8 * stream.Length - 33 * (|e| / 4))
  {
    var k := |e| / 4;
    stream := CopyEntropy(e, (33 * k + 7) / 8);
    AppendChecksum(stream, Spread(e, 8), 32 * k, sha(e), k);
  }

  /** One word of the mnemonic, read off the stream. */
  method WordAt(list: seq<string>, e: seq<Byte>, sha: seq<Byte> -> seq<Byte>, stream: array<Byte>, i: nat)
    returns (word: string)
    requires |list| == LIST_SIZE && EntropyLength(|e|) && Digest(sha) && i < 3 * (|e| / 4)
    requires stream.Length == (33 * (|e| / 4) + 7) / 8
    requires Spread(stream[..], 8) == Stream(e, sha) + Zeros(8 * stream.Length - 33 * (|e| / 4))
    ensures word == Words(list, Indices(e, sha))[i]
  {
    ghost var n := 3 * (|e| / 4);
    OffsetIsProduct(n);
    OffsetIsProduct(i);
    PackAt(Stream(e, sha), 11, n, i);
    assert Spread(stream[..], 8)[11 * i..11 * i + 11] == Stream(e, sha)[11 * i..11 * i + 11];
    var index := ReadBits(stream, 11 * i, 11);
    assert index == Indices(e, sha)[i];
    word := list[index];
  }

  method CopyText(buffer: array<char>, offset: nat, s: string)
    requires offset + |s| <= buffer.Length
    modifies buffer
    ensures buffer[..offset + |s|] == old(buffer[..offset]) + s
    ensures forall i :: offset + |s| <= i < buffer.Length ==> buffer[i] == old(buffer[i])
  {
    forall i | 0 <= i < |s| { buffer[offset + i] := s[i]; }
    assert buffer[..offset] == old(buffer[..offset]);
  }

  lemma LettersOfJoin(words: seq<string>)
    requires words != []
    ensures |Join(words)| == |words| - 1 + Letters(words)
  {
    JoinIsTrail(words);
    TrailLength(words[..|words| - 1]);
  }

  /** The sizing pass. */
  method CountLetters(list: seq<string>, e: seq<Byte>, sha: seq<Byte> -> seq<Byte>, stream: array<Byte>)
    returns (chars: nat)
    requires |list| == LIST_SIZE && EntropyLength(|e|) && Digest(sha)
    requires stream.Length == (33 * (|e| / 4) + 7) / 8
    requires Spread(stream[..], 8) == Stream(e, sha) + Zeros(8 * stream.Length - 33 * (|e| / 4))
    ensures chars == |Join(Words(list, Indices(e, sha)))|
  {
    var n := 3 * (|e| / 4);
    ghost var words := Words(list, Indices(e, sha));
    chars := n - 1;
    for i := 0 to n
      invariant chars == n - 1 + Letters(words[..i])
    {
      var word := WordAt(list, e, sha, stream, i);
      assert words[..i + 1][..i] == words[..i];
      chars := chars + |word|;
    }
    LettersOfJoin(words);
    assert words[..n] == words;
  }

  /** One word and, unless it is the last, the space after it. */
  method WriteWord(output: array<char>, ghost words: seq<string>, n: nat, i: nat, word: string, start: nat) returns (end: nat)
    requires i < n == |words| && word == words[i] && output.Length == |Join(words)| + 1
    requires start < output.Length && output[..start] == Trail(words[..i])
    modifies output
    ensures end < output.Length && output[output.Length - 1] == old(output[output.Length - 1])
    ensures output[..end] == if i + 1 < |words| then Trail(words[..i + 1]) else Join(words)
  {
    PrefixOfJoin(words, i);
    JoinIsTrail(words);
    assert |output[..start]| == start;
    CopyText(output, start, word);
    end := start + |word|;
    assert words[..i + 1][..i] == words[..i];
    if i + 1 < n {
      CopyText(output, end, " ");
      end := end + 1;
    }
  }

  /** The writing pass; it ends exactly at the last character before the terminator. */
  method WriteWords(list: seq<string>, e: seq<Byte>, sha: seq<Byte> -> seq<Byte>, stream: array<Byte>, output: array<char>)
    returns (end: nat)
    requires |list| == LIST_SIZE && EntropyLength(|e|) && Digest(sha)
    requires stream.Length == (33 * (|e| / 4) + 7) / 8
    requires Spread(stream[..], 8) == Stream(e, sha) + Zeros(8 * stream.Length - 33 * (|e| / 4))
    requires output.Length == |Join(Words(list, Indices(e, sha)))| + 1
    requires output[output.Length - 1] == '\0'
    modifies output
    ensures end == output.Length - 1 && output[end] == '\0'
    ensures output[..end] == Join(Words(list, Indices(e, sha)))
  {
    var n := 3 * (|e| / 4);
    ghost var words := Words(list, Indices(e, sha));
    JoinIsTrail(words);
    end := 0;
    for i := 0 to n
      invariant end <= output.Length - 1 && output[output.Length - 1] == '\0'
      invariant i < n ==> output[..end] == Trail(words[..i])
      invariant i == n ==> output[..end] == Join(words)
      invariant |output[..end]| == end
    {
      var word := WordAt(list, e, sha, stream, i);
      end := WriteWord(output, words, n, i, word, end);
    }
  }

  lemma {:induction false} PrefixOfJoin(words: seq<string>, i: nat)
    requires i < |words|
    ensures i + 1 < |words| ==> |Trail(words[..i])| + |words[i]| + 1 <= |Join(words)|
    ensures i + 1 == |words| ==> |Trail(words[..i])| + |words[i]| == |Join(words)|
    decreases |words| - i
  {
    JoinIsTrail(words);
    if i + 1 < |words| {
      PrefixOfJoin(words, i + 1);
      assert words[..i + 1][..i] == words[..i];
    }
  }

  /** `neoc_bip39_mnemonic_from_entropy`. */
  method MnemonicFromEntropy(list: seq<string>, sha: seq<Byte> -> seq<Byte>, e: seq<Byte>, language: int)
    returns (r: Result<string>, buffer: array?<char>)
    requires |list| == LIST_SIZE && Digest(sha)
    ensures r == FromEntropy(list, sha, e, language)
    ensures r.Ok? <==> buffer != null
    ensures r.Ok? ==> fresh(buffer) && buffer.Length == |r.value| + 1
    ensures r.Ok? ==> buffer[..|r.value|] == r.value && buffer[|r.value|] == '\0'
  {
    if |e| < 16 || |e| > 32 || |e| % 4 != 0 {
      return Err(InvalidLength), null;
    }
    if !Supported(language) {
      return Err(NotSupported), null;
    }
    var stream := BuildStream(e, sha);
    var chars := CountLetters(list, e, sha, stream);
    var output := new char[chars + 1](_ => '\0');
    var end := WriteWords(list, e, sha, stream, output);
    return Ok(output[..end]), output;
  }

  // ----- Reading a mnemonic -------------------------------------------------------------------

  /** Writes the eleven bits of a word number, most significant first. */
  method WriteIndex(stream: array<Byte>, ghost head: seq<bool>, start: nat, index: nat)
    requires start == |head| && start + 11 <= 8 * stream.Length
    requires Spread(stream[..], 8) == head + Zeros(8 * stream.Length - start)
    modifies stream
    ensures Spread(stream[..], 8) == head + ToBits(index, 11) + Zeros(8 * stream.Length - start - 11)
  {
    ghost var word, pad := ToBits(index, 11), 8 * stream.Length - start;
    assert head + word[..0] + Zeros(pad) == head + Zeros(pad);
    for j := 0 to 11
      invariant Spread(stream[..], 8) == head + word[..j] + Zeros(pad - j)
    {
      BitByShift(index, 11, j);
      PutNext(stream, head, word, start, j, ShiftRight(index, 10 - j) % 2 == 1);
    }
    assert word[..11] == word;
  }

  /** The stream starts with the first `i` numbers and is still clear after them. */
  ghost predicate Filled(bits: seq<bool>, numbers: seq<nat>, i: nat) {
    i <= |numbers| && 11 * i <= |bits| && bits == Spread(numbers[..i], 11) + Zeros(|bits| - 11 * i)
  }

  method LookUp(list: seq<string>, word: string, language: int) returns (index: int)
    requires Sorted(list)
    ensures index >= 0 <==> Supported(language) && word in list
    ensures index >= 0 ==> index == NumberOf(list, word)
  {
    index := -1;
    if Supported(language) {
      index := FindWord(list, word);
      if index >= 0 {
        SortedIsInjective(list, index, NumberOf(list, word));
      }
    }
  }

  method WriteNumber(stream: array<Byte>, ghost numbers: seq<nat>, i: nat, index: nat)
    requires i < |numbers| && index == numbers[i] && 11 * |numbers| <= 8 * stream.Length
    requires |Spread(stream[..], 8)| == 8 * stream.Length && Filled(Spread(stream[..], 8), numbers, i)
    modifies stream
    ensures |Spread(stream[..], 8)| == 8 * stream.Length && Filled(Spread(stream[..], 8), numbers, i + 1)
  {
    OffsetIsProduct(i);
    OffsetIsProduct(i + 1);
    WriteIndex(stream, Spread(numbers[..i], 11), 11 * i, index);
    SpreadNext(numbers, i);
  }

  /** The word loop: looks every word up and lays its number into the stream; false if a word is not in the list. */
  method WriteNumbers(list: seq<string>, words: seq<string>, language: int, stream: array<Byte>)
    returns (ok: bool)
    requires Sorted(list) && words != [] && 11 * |words| <= 8 * stream.Length
    requires |Spread(stream[..], 8)| == 8 * stream.Length
    requires Spread(stream[..], 8) == Zeros(8 * stream.Length)
    modifies stream
    ensures ok == (Supported(language) && forall i :: 0 <= i < |words| ==> words[i] in list)
    ensures |Spread(stream[..], 8)| == 8 * stream.Length
    ensures ok ==> Filled(Spread(stream[..], 8), Numbers(list, words), |words|)
  {
    ghost var numbers := Numbers(list, words);
    assert Spread(numbers[..0], 11) + Zeros(8 * stream.Length) == Zeros(8 * stream.Length);
    for i := 0 to |words|
      invariant |Spread(stream[..], 8)| == 8 * stream.Length
      invariant Filled(Spread(stream[..], 8), numbers, i)
      invariant forall j :: 0 <= j < i ==> words[j] in list
      invariant i > 0 ==> Supported(language)
    {
      var index := LookUp(list, words[i], language);
      if index < 0 {
        return false;
      }
      WriteNumber(stream, numbers, i, index);
    }
    return true;
  }

  lemma SpreadNext(numbers: seq<nat>, i: nat)
    requires i < |numbers|
    ensures Spread(numbers[..i + 1], 11) == Spread(numbers[..i], 11) + ToBits(numbers[i], 11)
  {
    assert numbers[..i + 1] == numbers[..i] + [numbers[i]];
    SpreadConcat(numbers[..i], [numbers[i]], 11);
    assert [numbers[i]][1..] == [];
  }

  /** The bytes copied out of the stream are the entropy that its bits spell. */
  lemma CopiedEntropy(stream: seq<Byte>, bits: seq<bool>, k: nat)
    requires |bits| == 33 * k && 4 * k <= |stream| && |Spread(stream, 8)| == 8 * |stream| && 33 * k <= 8 * |stream|
    requires Spread(stream, 8)[..33 * k] == bits
    ensures EntropyOf(bits, k) == stream[..4 * k]
  {
    var e := stream[..4 * k];
    BytesHaveWidth8(e);
    assert stream == e + stream[4 * k..];
    SpreadConcat(e, stream[4 * k..], 8);
    assert Spread(e, 8) == Spread(stream, 8)[..32 * k] == bits[..32 * k];
    Widths();
    SpreadIsInjective(e, EntropyOf(bits, k), 8);
  }

  /** The checks on a filled stream. */
  method CheckStream(stream: array<Byte>, sha: seq<Byte> -> seq<Byte>, ghost bits: seq<bool>, k: nat)
    returns (r: Result<seq<Byte>>)
    requires Digest(sha) && 4 <= k <= 8 && |bits| == 33 * k && 33 * k <= 8 * stream.Length
    requires |Spread(stream[..], 8)| == 8 * stream.Length && Spread(stream[..], 8)[..33 * k] == bits
    ensures r == Decode(bits, k, sha)
  {
    var entropy := stream[..4 * k];
    CopiedEntropy(stream[..], bits, k);
    var sum := ReadBits(stream, 32 * k, k);
    assert Spread(stream[..], 8)[32 * k..33 * k] == bits[32 * k..];
    var expected := ShiftRight(sha(entropy)[0], 8 - k);
    return if sum == expected then Ok(entropy) else Err(InvalidArgument);
  }

  /** A full stream spells its numbers. */
  lemma FilledPrefix(bits: seq<bool>, numbers: seq<nat>)
    requires Filled(bits, numbers, |numbers|)
    ensures bits[..11 * |numbers|] == Spread(numbers, 11)
  {
    OffsetIsProduct(|numbers|);
    assert numbers[..|numbers|] == numbers;
  }

  method CheckNumbers(stream: array<Byte>, sha: seq<Byte> -> seq<Byte>, ghost numbers: seq<nat>, k: nat)
    returns (r: Result<seq<Byte>>)
    requires Digest(sha) && 4 <= k <= 8 && |numbers| == 3 * k
    requires |Spread(stream[..], 8)| == 8 * stream.Length && Filled(Spread(stream[..], 8), numbers, 3 * k)
    ensures r == DecodeNumbers(numbers, k, sha)
  {
    FilledPrefix(Spread(stream[..], 8), numbers);
    OffsetIsProduct(3 * k);
    r := CheckStream(stream, sha, Spread(numbers, 11), k);
  }

  method ClearStream(length: nat) returns (stream: array<Byte>)
    ensures fresh(stream) && stream.Length == length
    ensures |Spread(stream[..], 8)| == 8 * length && Spread(stream[..], 8) == Zeros(8 * length)
  {
    stream := new Byte[length](_ => 0);
    BytesHaveWidth8(stream[..]);
    SpreadZeros(stream[..]);
  }

  lemma EntropyOfWords(list: seq<string>, sha: seq<Byte> -> seq<Byte>, words: seq<string>, language: int, ok: bool, k: nat)
    requires |list| == LIST_SIZE && Sorted(list) && Digest(sha) && 4 <= k <= 8 && |words| == 3 * k
    requires ok == (Supported(language) && forall i :: 0 <= i < |words| ==> words[i] in list)
    ensures WordsToEntropy(list, sha, words, language)
         == if ok then DecodeNumbers(Numbers(list, words), k, sha) else Err(InvalidArgument)
  {
    assert |words| / 3 == k && WordCount(|words|);
  }

  method DecodeWords(list: seq<string>, sha: seq<Byte> -> seq<Byte>, words: seq<string>, language: int)
    returns (r: Result<seq<Byte>>)
    requires |list| == LIST_SIZE && Sorted(list) && Digest(sha) && WordCount(|words|)
    ensures r == WordsToEntropy(list, sha, words, language)
  {
    var totalBits := |words| * 11;
    var checksumBits := totalBits / 33;
    assert |words| == 3 * checksumBits && 4 <= checksumBits <= 8;
    var stream := ClearStream((totalBits + 7) / 8);
    var ok := WriteNumbers(list, words, language, stream);
    EntropyOfWords(list, sha, words, language, ok, checksumBits);
    if !ok {
      return Err(InvalidArgument);
    }
    r := CheckNumbers(stream, sha, Numbers(list, words), checksumBits);
  }

  /** `neoc_bip39_mnemonic_to_entropy`. */
  method MnemonicToEntropy(list: seq<string>, sha: seq<Byte> -> seq<Byte>, text: string, language: int)
    returns (r: Result<seq<Byte>>)
    requires |list| == LIST_SIZE && Sorted(list) && Digest(sha)
    ensures r == ToEntropy(list, sha, text, language)
  {
    var words, more := SplitWords(text, 24);
    if more || !WordCount(|words|) {
      return Err(InvalidArgument);
    }
    r := DecodeWords(list, sha, words, language);
  }

  /** `neoc_bip39_validate_mnemonic`. */
  method ValidateMnemonic(list: seq<string>, sha: seq<Byte> -> seq<Byte>, text: string, language: int)
    returns (valid: bool)
    requires WordList(list) && Digest(sha)
    ensures valid <==> Supported(language) &&
                       exists e: seq<Byte> :: EntropyLength(|e|) && Tokens(text) == Words(list, Indices(e, sha))
  {
    if Supported(language) {
      AcceptedExactly(list, sha, text, language);
    }
    var r := MnemonicToEntropy(list, sha, text, language);
    valid := r.Ok?;
  }
}
