/** Text as words laid out between runs of a separator. */
module Layout {
  function Gap(c: char, n: nat): (s: string)
    ensures |s| == n && forall i :: 0 <= i < n ==> s[i] == c
  {
    if n == 0 then "" else [c] + Gap(c, n - 1)
  }

  /** Words without separators, and the lengths of the gaps around them; only the outer two gaps may be empty. */
  ghost predicate Legal(c: char, words: seq<string>, gaps: seq<nat>) {
    && |gaps| == |words| + 1
    && (forall i :: 0 <= i < |words| ==> words[i] != [] && c !in words[i])
    && forall i :: 0 < i < |words| ==> gaps[i] > 0
  }

  function Laid(c: char, words: seq<string>, gaps: seq<nat>): string
    requires |gaps| == |words| + 1
  {
    Gap(c, gaps[0]) + if words == [] then "" else words[0] + Laid(c, words[1..], gaps[1..])
  }

  lemma LegalRest(c: char, words: seq<string>, gaps: seq<nat>)
    requires words != [] && Legal(c, words, gaps)
    ensures Legal(c, words[1..], gaps[1..])
    ensures var rest := Laid(c, words[1..], gaps[1..]); rest == [] || rest[0] == c
  {
  }

  /** Every text is laid out in this way. */
  lemma {:induction false} EveryTextIsLaid(c: char, s: string) returns (words: seq<string>, gaps: seq<nat>)
    ensures Legal(c, words, gaps) && Laid(c, words, gaps) == s
  {
    if s == [] {
      words, gaps := [], [0];
    } else {
      words, gaps := EveryTextIsLaid(c, s[1..]);
      if s[0] == c {
        words, gaps := GapGrows(c, words, gaps);
      } else if words != [] && gaps[0] == 0 {
        words := WordGrows(c, s[0], words, gaps);
      } else {
        words, gaps := WordBegins(c, s[0], words, gaps);
      }
      assert s == [s[0]] + s[1..];
    }
  }

  lemma GapGrows(c: char, words: seq<string>, gaps: seq<nat>) returns (words': seq<string>, gaps': seq<nat>)
    requires Legal(c, words, gaps)
    ensures Legal(c, words', gaps') && Laid(c, words', gaps') == [c] + Laid(c, words, gaps)
  {
    words', gaps' := words, [gaps[0] + 1] + gaps[1..];
    assert gaps'[1..] == gaps[1..];
  }

  lemma WordGrows(c: char, x: char, words: seq<string>, gaps: seq<nat>) returns (words': seq<string>)
    requires Legal(c, words, gaps) && x != c && words != [] && gaps[0] == 0
    ensures Legal(c, words', gaps) && Laid(c, words', gaps) == [x] + Laid(c, words, gaps)
  {
    words' := [[x] + words[0]] + words[1..];
    assert words'[1..] == words[1..];
  }

  lemma WordBegins(c: char, x: char, words: seq<string>, gaps: seq<nat>) returns (words': seq<string>, gaps': seq<nat>)
    requires Legal(c, words, gaps) && x != c && (words == [] || gaps[0] > 0)
    ensures Legal(c, words', gaps') && Laid(c, words', gaps') == [x] + Laid(c, words, gaps)
  {
    words', gaps' := [[x]] + words, [0] + gaps;
    assert words'[1..] == words && gaps'[1..] == gaps;
  }
}
