/** Word lists and space-separated text: the string side of `src/crypto/bip39.c`. */
module WordText {
  import opened Prelude
  import opened Layout

  /** The sign of `strcmp`. */
  function Compare(a: string, b: string): int {
    if a == [] && b == [] then 0
    else if a == [] then -1
    else if b == [] then 1
    else if a[0] != b[0] then (if a[0] < b[0] then -1 else 1)
    else Compare(a[1..], b[1..])
  }

  lemma {:induction false} CompareZero(a: string, b: string)
    ensures Compare(a, b) == 0 <==> a == b
  {
    if a != [] && b != [] && a[0] == b[0] {
      CompareZero(a[1..], b[1..]);
      assert a == [a[0]] + a[1..] && b == [b[0]] + b[1..];
    }
  }

  lemma {:induction false} CompareTransitive(a: string, b: string, c: string)
    requires Compare(a, b) < 0 && Compare(b, c) < 0
    ensures Compare(a, c) < 0
  {
    if a != [] && c != [] && a[0] == b[0] == c[0] {
      CompareTransitive(a[1..], b[1..], c[1..]);
    }
  }

  lemma {:induction false} CompareFlips(a: string, b: string)
    ensures Compare(a, b) < 0 <==> Compare(b, a) > 0
  {
    if a != [] && b != [] && a[0] == b[0] {
      CompareFlips(a[1..], b[1..]);
    }
  }

  ghost predicate Sorted(list: seq<string>) {
    forall i, j :: 0 <= i < j < |list| ==> Compare(list[i], list[j]) < 0
  }

  lemma SortedIsInjective(list: seq<string>, i: nat, j: nat)
    requires Sorted(list) && i < |list| && j < |list| && list[i] == list[j]
    ensures i == j
  {
    CompareZero(list[i], list[j]);
  }

  /** `neoc_bip39_find_word`: binary search; -1 when the word is not in the list. */
  method FindWord(list: seq<string>, word: string) returns (index: int)
    requires Sorted(list)
    ensures -1 <= index < |list|
    ensures index >= 0 ==> list[index] == word
    ensures index < 0 ==> word !in list
  {
    var left, right := 0, |list| - 1;
    while left <= right
      invariant 0 <= left <= |list| && -1 <= right < |list|
      invariant forall i :: 0 <= i < left ==> list[i] != word
      invariant forall i :: right < i < |list| ==> list[i] != word
      decreases right - left + 1
    {
      var mid := left + (right - left) / 2;
      var cmp := Compare(word, list[mid]);
      CompareZero(word, list[mid]);
      if cmp == 0 {
        return mid;
      } else if cmp < 0 {
        WordIsBefore(list, word, mid);
        right := mid - 1;
      } else {
        WordIsAfter(list, word, mid);
        left := mid + 1;
      }
    }
    return -1;
  }

  lemma WordIsBefore(list: seq<string>, word: string, mid: nat)
    requires Sorted(list) && mid < |list| && Compare(word, list[mid]) < 0
    ensures forall i :: mid <= i < |list| ==> list[i] != word
  {
    forall i | mid <= i < |list|
      ensures list[i] != word
    {
      if i > mid {
        CompareTransitive(word, list[mid], list[i]);
      }
      CompareZero(word, list[i]);
    }
  }

  lemma WordIsAfter(list: seq<string>, word: string, mid: nat)
    requires Sorted(list) && mid < |list| && Compare(word, list[mid]) > 0
    ensures forall i :: 0 <= i <= mid ==> list[i] != word
  {
    CompareFlips(list[mid], word);
    forall i | 0 <= i <= mid
      ensures list[i] != word
    {
      if i < mid {
        CompareTransitive(list[i], list[mid], word);
      }
      CompareZero(list[i], word);
    }
  }

  // ----- Joining and splitting ----------------------------------------------------------------

  /** A word that survives splitting: not empty, and without spaces. */
  predicate Plain(word: string) { word != [] && ' ' !in word }

  /** The words with single spaces between them. */
  function Join(words: seq<string>): string {
    if words == [] then ""
    else if |words| == 1 then words[0]
    else words[0] + " " + Join(words[1..])
  }

  /** The words, each followed by a space: what the output loop has written before the last word. */
  function Trail(words: seq<string>): string {
    if words == [] then "" else Trail(words[..|words| - 1]) + words[|words| - 1] + " "
  }

  function Letters(words: seq<string>): nat {
    if words == [] then 0 else Letters(words[..|words| - 1]) + |words[|words| - 1]|
  }

  lemma {:induction false} TrailLength(words: seq<string>)
    ensures |Trail(words)| == Letters(words) + |words|
  {
    if words != [] {
      TrailLength(words[..|words| - 1]);
    }
  }

  lemma {:induction false} TrailCons(w: string, words: seq<string>)
    ensures Trail([w] + words) == w + " " + Trail(words)
  {
    if words == [] {
      assert ([w] + words)[..0] == [];
    } else {
      var init := words[..|words| - 1];
      assert ([w] + words)[..|words|] == [w] + init;
      TrailCons(w, init);
    }
  }

  lemma {:induction false} JoinIsTrail(words: seq<string>)
    requires words != []
    ensures Join(words) == Trail(words[..|words| - 1]) + words[|words| - 1]
  {
    if |words| > 1 {
      var rest := words[1..];
      JoinIsTrail(rest);
      TrailCons(words[0], rest[..|rest| - 1]);
      assert words[..|words| - 1] == [words[0]] + rest[..|rest| - 1];
    }
  }

  /** The length of the token at the start of `s`. */
  function TokenLength(s: string): (n: nat)
    ensures n <= |s|
  {
    if s == [] || s[0] == ' ' then 0 else 1 + TokenLength(s[1..])
  }

  /** What repeated `strtok(_, " ")` yields: the maximal runs of non-spaces. */
  function Tokens(s: string): (tokens: seq<string>)
    decreases |s|
  {
    if s == [] then []
    else if s[0] == ' ' then Tokens(s[1..])
    else [s[..TokenLength(s)]] + Tokens(s[TokenLength(s)..])
  }

  lemma {:induction false} TokenIsPlain(s: string)
    ensures ' ' !in s[..TokenLength(s)]
    ensures TokenLength(s) < |s| ==> s[TokenLength(s)] == ' '
  {
    if s != [] && s[0] != ' ' {
      TokenIsPlain(s[1..]);
      assert s[..TokenLength(s)] == [s[0]] + s[1..][..TokenLength(s[1..])];
    }
  }

  lemma {:induction false} TokensArePlain(s: string, i: nat)
    requires i < |Tokens(s)|
    ensures Plain(Tokens(s)[i])
    decreases |s|
  {
    if s[0] == ' ' {
      TokensArePlain(s[1..], i);
    } else {
      TokenIsPlain(s);
      if i > 0 {
        TokensArePlain(s[TokenLength(s)..], i - 1);
      }
    }
  }

  lemma {:induction false} TokenOfWord(w: string, s: string)
    requires ' ' !in w && (s == [] || s[0] == ' ')
    ensures TokenLength(w + s) == |w|
  {
    if w == [] {
      assert w + s == s;
    } else {
      assert (w + s)[1..] == w[1..] + s;
      TokenOfWord(w[1..], s);
    }
  }

  lemma TokensOfWord(w: string, s: string)
    requires Plain(w) && (s == [] || s[0] == ' ')
    ensures Tokens(w + s) == [w] + Tokens(s)
  {
    TokenOfWord(w, s);
    assert (w + s)[..|w|] == w && (w + s)[|w|..] == s;
  }

  lemma {:induction false} TokensAfterGap(n: nat, s: string)
    ensures Tokens(Gap(' ', n) + s) == Tokens(s)
  {
    if n == 0 {
      assert Gap(' ', 0) + s == s;
    } else {
      var text := Gap(' ', n) + s;
      assert text[0] == ' ' && text[1..] == Gap(' ', n - 1) + s;
      TokensAfterGap(n - 1, s);
    }
  }

  /** However many spaces stand before, between and behind the words, splitting gives the words. */
  lemma {:induction false} TokensOfLaid(words: seq<string>, gaps: seq<nat>)
    requires Legal(' ', words, gaps)
    ensures Tokens(Laid(' ', words, gaps)) == words
    decreases |words|
  {
    if words == [] {
      TokensAfterGap(gaps[0], "");
    } else {
      var rest := Laid(' ', words[1..], gaps[1..]);
      TokensAfterGap(gaps[0], words[0] + rest);
      LegalRest(' ', words, gaps);
      TokensOfWord(words[0], rest);
      TokensOfLaid(words[1..], gaps[1..]);
    }
  }

  /** The words of a text are those that it lays out between spaces. */
  lemma TokensExactly(s: string, words: seq<string>)
    ensures Tokens(s) == words <==> exists gaps :: Legal(' ', words, gaps) && Laid(' ', words, gaps) == s
  {
    forall gaps | Legal(' ', words, gaps) && Laid(' ', words, gaps) == s
      ensures Tokens(s) == words
    {
      TokensOfLaid(words, gaps);
    }
    var found, gaps := EveryTextIsLaid(' ', s);
    TokensOfLaid(found, gaps);
  }

  /** Splitting undoes joining. */
  lemma {:induction false} TokensOfJoin(words: seq<string>)
    requires forall i :: 0 <= i < |words| ==> Plain(words[i])
    ensures Tokens(Join(words)) == words
  {
    if words != [] {
      if |words| == 1 {
        TokensOfWord(words[0], []);
        assert words[0] + [] == words[0];
      } else {
        var rest := " " + Join(words[1..]);
        TokensOfWord(words[0], rest);
        assert words[0] + " " + Join(words[1..]) == words[0] + rest;
        assert rest[1..] == Join(words[1..]);
        TokensOfJoin(words[1..]);
        assert words == [words[0]] + words[1..];
      }
    }
  }

  /** `strtok`: the next token from `pos` on, if any, and where to continue. */
  method NextToken(text: string, pos: nat) returns (token: Option<string>, next: nat)
    requires pos <= |text|
    ensures pos <= next <= |text|
    ensures token.None? ==> Tokens(text[pos..]) == []
    ensures token.Some? ==> pos < next && Tokens(text[pos..]) == [token.value] + Tokens(text[next..])
  {
    var start := pos;
    while start < |text| && text[start] == ' '
      invariant pos <= start <= |text|
      invariant Tokens(text[start..]) == Tokens(text[pos..])
    {
      assert text[start..][1..] == text[start + 1..];
      start := start + 1;
    }
    if start == |text| {
      return None, start;
    }
    next := start;
    while next < |text| && text[next] != ' '
      invariant start <= next <= |text|
      invariant TokenLength(text[start..]) == next - start + TokenLength(text[next..])
    {
      assert text[next..][1..] == text[next + 1..];
      next := next + 1;
    }
    assert text[start..][..next - start] == text[start..next];
    assert text[start..][next - start..] == text[next..];
    token := Some(text[start..next]);
  }

  /** The tokenizing loop: at most `limit` words, and whether more were left. */
  method SplitWords(text: string, limit: nat) returns (words: seq<string>, more: bool)
    ensures more == (|Tokens(text)| > limit)
    ensures words == if more then Tokens(text)[..limit] else Tokens(text)
  {
    words := [];
    assert text[0..] == text;
    var token, pos := NextToken(text, 0);
    while token.Some? && |words| < limit
      invariant pos <= |text| && |words| <= limit
      invariant Tokens(text) == words + (if token.Some? then [token.value] + Tokens(text[pos..]) else [])
      decreases limit - |words|
    {
      words := words + [token.value];
      ghost var left := Tokens(text[pos..]);
      token, pos := NextToken(text, pos);
      assert left == if token.Some? then [token.value] + Tokens(text[pos..]) else [];
    }
    more := token.Some?;
  }
}
