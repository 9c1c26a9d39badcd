/** Derivation paths as text: `neoc_bip32_parse_path` and `neoc_bip32_get_neo_path` of `src/crypto/bip32.c`. */
module Bip32Path {
  import opened Prelude
  import opened Decimal
  import opened Layout
  import opened Curve
  import opened Bip32

  /** The longest component that fits the parser's 32-character buffer. */
  const MAX_PIECE: nat := 31

  predicate Mark(ch: char) { ch == '\'' || ch == 'h' }

  /** The index that a component denotes: a numeral below 2^31, hardened if a mark follows it. */
  function Component(piece: string): Result<nat>
    requires piece != []
  {
    var hardened := Mark(piece[|piece| - 1]);
    var digits := if hardened then piece[..|piece| - 1] else piece;
    var scan := StrToUL(digits);
    if scan.consumed != |digits| || scan.value > 0x7FFF_FFFF then Err(InvalidFormat)
    else Ok(if hardened then scan.value + HARDENED else scan.value)
  }

  // ----- The reference: split at the slashes, then read the pieces ----------------------------

  function Piece(piece: string): seq<string> { if piece == [] then [] else [piece] }

  /** The non-empty stretches between slashes, of which `piece` is the beginning of the first. */
  function PiecesFrom(path: string, piece: string): seq<string>
    decreases |path|
  {
    if path == [] then Piece(piece)
    else if path[0] == '/' then Piece(piece) + PiecesFrom(path[1..], [])
    else PiecesFrom(path[1..], piece + [path[0]])
  }

  /** A leading `m` or `M` is skipped, and a slash after it. */
  function Strip(path: string): string {
    if path == [] || (path[0] != 'm' && path[0] != 'M') then path
    else if |path| > 1 && path[1] == '/' then path[2..]
    else path[1..]
  }

  function Pieces(path: string): seq<string> { PiecesFrom(Strip(path), []) }

  function ReadPiece(piece: string): Result<nat> {
    if piece == [] || |piece| > MAX_PIECE then Err(InvalidFormat) else Component(piece)
  }

  function ReadPieces(pieces: seq<string>): Result<seq<nat>>
    decreases |pieces|
  {
    if pieces == [] then Ok([])
    else
      var first :- ReadPiece(pieces[0]);
      var others :- ReadPieces(pieces[1..]);
      Ok([first] + others)
  }

  function FirstOf<T>(xs: seq<T>, max: nat): seq<T> { if |xs| <= max then xs else xs[..max] }

  // ----- The parser ---------------------------------------------------------------------------

  /** The loop: `piece` is in the buffer and `indices` are stored. */
  function ParseFrom(path: string, piece: string, indices: seq<nat>, max: nat): Result<seq<nat>>
    decreases |path|
  {
    if path == [] || |indices| >= max then
      if piece == [] then Ok(indices)
      else
        var index :- Component(piece);
        Ok(indices + [index])
    else if path[0] == '/' then
      if piece == [] then ParseFrom(path[1..], [], indices, max)
      else
        var index :- Component(piece);
        ParseFrom(path[1..], [], indices + [index], max)
    else if |piece| >= MAX_PIECE then Err(InvalidFormat)
    else ParseFrom(path[1..], piece + [path[0]], indices, max)
  }

  function Parse(path: string, max: nat): Result<seq<nat>> { ParseFrom(Strip(path), [], [], max) }

  /** What is left to parse, with the indices stored so far in front. */
  function Resume(indices: seq<nat>, pieces: seq<string>, max: nat): Result<seq<nat>>
    requires |indices| <= max
  {
    var others :- ReadPieces(FirstOf(pieces, max - |indices|));
    Ok(indices + others)
  }

  lemma {:induction false} PiecesStart(path: string, piece: string)
    requires piece != []
    ensures var pieces := PiecesFrom(path, piece); pieces != [] && |piece| <= |pieces[0]|
    decreases |path|
  {
    if path != [] && path[0] != '/' {
      PiecesStart(path[1..], piece + [path[0]]);
    }
  }

  lemma ReadTooLong(pieces: seq<string>, room: nat)
    requires pieces != [] && |pieces[0]| > MAX_PIECE && room > 0
    ensures ReadPieces(FirstOf(pieces, room)) == Err(InvalidFormat)
  {
  }

  lemma ResumeNext(indices: seq<nat>, piece: string, pieces: seq<string>, max: nat)
    requires piece != [] && |piece| <= MAX_PIECE && |indices| < max
    ensures Resume(indices, [piece] + pieces, max)
         == match Component(piece)
            case Err(e) => Err(e)
            case Ok(index) => Resume(indices + [index], pieces, max)
  {
    var room := max - |indices|;
    var taken := FirstOf([piece] + pieces, room);
    assert taken[1..] == FirstOf(pieces, room - 1);
    if Component(piece).Ok? {
      var others := ReadPieces(FirstOf(pieces, room - 1));
      if others.Ok? {
        MoveBracket(indices, Component(piece).value, others.value);
      }
    }
  }

  lemma MoveBracket(a: seq<nat>, x: nat, b: seq<nat>)
    ensures a + ([x] + b) == a + [x] + b
  {
  }

  lemma ResumeEnd(indices: seq<nat>, pieces: seq<string>, max: nat)
    requires |indices| <= max && (pieces == [] || |indices| == max)
    ensures Resume(indices, pieces, max) == Ok(indices)
  {
    assert FirstOf(pieces, max - |indices|) == [];
    assert indices + [] == indices;
  }

  lemma {:induction false} ParseFromIs(path: string, piece: string, indices: seq<nat>, max: nat)
    requires |piece| <= MAX_PIECE && |indices| <= max && (piece != [] ==> |indices| < max)
    ensures ParseFrom(path, piece, indices, max) == Resume(indices, PiecesFrom(path, piece), max)
    decreases |path|
  {
    if path == [] || |indices| >= max {
      if piece == [] {
        ResumeEnd(indices, PiecesFrom(path, piece), max);
      } else {
        ParseLast(piece, indices, max);
      }
    } else if path[0] == '/' {
      ParseSlash(path, piece, indices, max);
    } else if |piece| >= MAX_PIECE {
      PiecesStart(path[1..], piece + [path[0]]);
      ReadTooLong(PiecesFrom(path, piece), max - |indices|);
    } else {
      ParseFromIs(path[1..], piece + [path[0]], indices, max);
    }
  }

  lemma ParseLast(piece: string, indices: seq<nat>, max: nat)
    requires piece != [] && |piece| <= MAX_PIECE && |indices| < max
    ensures ParseFrom([], piece, indices, max) == Resume(indices, [piece], max)
  {
    ResumeNext(indices, piece, [], max);
    assert [piece] + [] == [piece];
    if Component(piece).Ok? {
      ResumeEnd(indices + [Component(piece).value], [], max);
    }
  }

  lemma {:induction false} ParseSlash(path: string, piece: string, indices: seq<nat>, max: nat)
    requires path != [] && path[0] == '/' && |piece| <= MAX_PIECE && |indices| < max
    ensures ParseFrom(path, piece, indices, max) == Resume(indices, PiecesFrom(path, piece), max)
    decreases |path|, 0
  {
    var rest := PiecesFrom(path[1..], []);
    if piece == [] {
      assert [] + rest == rest;
      ParseFromIs(path[1..], [], indices, max);
    } else {
      ResumeNext(indices, piece, rest, max);
      if Component(piece).Ok? {
        ParseFromIs(path[1..], [], indices + [Component(piece).value], max);
      }
    }
  }

  /** For every text: parsing reads the pieces between the slashes in order, up to the limit, and ignores the others. */
  lemma ParseReadsPieces(path: string, max: nat)
    ensures Parse(path, max) == ReadPieces(FirstOf(Pieces(path), max))
  {
    ParseFromIs(Strip(path), [], [], max);
    var others := ReadPieces(FirstOf(Pieces(path), max));
    if others.Ok? {
      assert [] + others.value == others.value;
    }
  }

  lemma {:induction false} ReadCount(pieces: seq<string>)
    ensures ReadPieces(pieces).Ok? ==> |ReadPieces(pieces).value| == |pieces|
    decreases |pieces|
  {
    if pieces != [] {
      ReadCount(pieces[1..]);
    }
  }

  /** For every text, at most `max` indices are stored, and each has 32 bits. */
  lemma ParseFits(path: string, max: nat)
    requires Parse(path, max).Ok?
    ensures |Parse(path, max).value| <= max
    ensures forall i :: 0 <= i < |Parse(path, max).value| ==> Parse(path, max).value[i] < 0x1_0000_0000
  {
    ParseReadsPieces(path, max);
    ReadCount(FirstOf(Pieces(path), max));
    ReadIndices(FirstOf(Pieces(path), max));
  }

  lemma {:induction false} ReadIndices(pieces: seq<string>)
    ensures ReadPieces(pieces).Ok? ==>
              forall i :: 0 <= i < |ReadPieces(pieces).value| ==> ReadPieces(pieces).value[i] < 0x1_0000_0000
    decreases |pieces|
  {
    if pieces != [] {
      ReadIndices(pieces[1..]);
    }
  }

  // ----- Paths that are written ---------------------------------------------------------------

  /** An index and, if it is hardened, the mark to write it with. */
  datatype Step = Step(index: nat, mark: char)

  predicate LegalStep(s: Step) { s.index < 0x1_0000_0000 && Mark(s.mark) }

  function StepText(s: Step): string {
    if s.index >= HARDENED then Numeral(s.index - HARDENED) + [s.mark] else Numeral(s.index)
  }

  function StepsText(steps: seq<Step>): string {
    if steps == [] then [] else ['/'] + StepText(steps[0]) + StepsText(steps[1..])
  }

  function PathText(steps: seq<Step>): string { ['m'] + StepsText(steps) }

  function Indices(steps: seq<Step>): seq<nat> {
    if steps == [] then [] else [steps[0].index] + Indices(steps[1..])
  }

  lemma ReadHardened(n: nat, mark: char)
    requires n < HARDENED && Mark(mark)
    ensures '/' !in Numeral(n) + [mark] && ReadPiece(Numeral(n) + [mark]) == Ok(n + HARDENED)
  {
    ReadNumeral(n);
    var text := Numeral(n) + [mark];
    assert text[|text| - 1] == mark && text[..|text| - 1] == Numeral(n);
  }

  lemma ReadPlain(n: nat)
    requires n < HARDENED
    ensures ReadPiece(Numeral(n)) == Ok(n)
  {
    ReadNumeral(n);
    assert IsDigit(Numeral(n)[|Numeral(n)| - 1]);
  }

  lemma ScanOfDigits(digits: string, rest: string)
    requires AllDigits(digits) && digits != [] && (rest == [] || !IsDigit(rest[0]))
    ensures StrToUL(digits + rest) == Scan(Stored(Value(digits), false), |digits|)
  {
    ScanUnsigned([], digits, rest);
    assert [] + (digits + rest) == digits + rest;
  }

  /** A component that is read up to its mark. */
  lemma WholeRead(text: string, mark: string, n: nat)
    requires text != [] && StrToUL(text) == Scan(Stored(n, false), |text|)
    requires if mark == [] then !Mark(text[|text| - 1]) else |mark| == 1 && Mark(mark[0])
    ensures ReadPiece(text + mark)
         == if |text + mark| <= 31 && n < 0x8000_0000 then Ok(if mark == [] then n else n + 0x8000_0000) else Err(InvalidFormat)
  {
    var piece := text + mark;
    assert mark == [] ==> piece == text;
    assert mark != [] ==> piece[|piece| - 1] == mark[0] && piece[..|piece| - 1] == text;
  }

  /** A component whose reading stops before its end. */
  lemma PartlyRead(text: string)
    requires text != [] && !Mark(text[|text| - 1]) && StrToUL(text).consumed < |text|
    ensures ReadPiece(text) == Err(InvalidFormat)
  {
  }

  /** Digits are an index if there are at most 31 of them and their value is below 2^31. */
  lemma DigitsRead(digits: string)
    requires AllDigits(digits) && digits != []
    ensures ReadPiece(digits)
         == if |digits| <= 31 && Value(digits) < 0x8000_0000 then Ok(Value(digits)) else Err(InvalidFormat)
  {
    ScanOfDigits(digits, []);
    assert digits + [] == digits;
    assert IsDigit(digits[|digits| - 1]);
    WholeRead(digits, [], Value(digits));
  }

  /** Digits and a character behind them: a hardened index if the character is ' or h, and nothing else. */
  lemma MarkedDigitsRead(digits: string, c: char)
    requires AllDigits(digits) && digits != [] && !IsDigit(c)
    ensures ReadPiece(digits + [c])
         == if (c == '\'' || c == 'h') && |digits| <= 30 && Value(digits) < 0x8000_0000 then Ok(Value(digits) + 0x8000_0000)
            else Err(InvalidFormat)
  {
    if Mark(c) {
      ScanOfDigits(digits, []);
      assert digits + [] == digits;
      WholeRead(digits, [c], Value(digits));
    } else {
      ScanOfDigits(digits, [c]);
      PartlyRead(digits + [c]);
    }
  }

  /** The root may be written m or M, or left out. */
  lemma RootIsOptional(rest: string, max: nat)
    ensures Parse(['m'] + (['/'] + rest), max) == Parse(['M'] + (['/'] + rest), max) == Parse(['/'] + rest, max)
  {
    var slash := ['/'] + rest;
    StripRoot(rest);
    var big := ['M'] + slash;
    assert big[0] == 'M' && big[1] == '/' && big[2..] == rest;
    ParseReadsPieces(['m'] + slash, max);
    ParseReadsPieces(big, max);
    ParseReadsPieces(slash, max);
    SlashFirst(rest);
  }

  lemma ReadStep(s: Step)
    requires LegalStep(s)
    ensures StepText(s) != [] && '/' !in StepText(s)
    ensures ReadPiece(StepText(s)) == Ok(s.index)
  {
    if s.index >= HARDENED {
      ReadHardened(s.index - HARDENED, s.mark);
    } else {
      ReadPlain(s.index);
      ReadNumeral(s.index);
    }
  }

  lemma ReadNumeral(n: nat)
    requires n < HARDENED
    ensures |Numeral(n)| <= 10 && StrToUL(Numeral(n)) == Scan(n, |Numeral(n)|)
    ensures '/' !in Numeral(n)
  {
    ScanOfNumeral(n);
    assert Pow10(10) == 10_000_000_000;
    NumeralLength(n, 10);
  }

  lemma {:induction false} PiecesOfWord(word: string, path: string, piece: string)
    requires '/' !in word
    ensures PiecesFrom(word + path, piece) == PiecesFrom(path, piece + word)
    decreases |word|
  {
    if word == [] {
      assert word + path == path && piece + word == piece;
    } else {
      assert (word + path)[1..] == word[1..] + path;
      assert (word + path)[0] == word[0] && word[0] in word;
      PiecesOfWord(word[1..], path, piece + [word[0]]);
      assert piece + [word[0]] + word[1..] == piece + word;
    }
  }

  /** Reading what follows the word in front. */
  lemma {:induction false} PiecesAfterGap(n: nat, s: string)
    ensures PiecesFrom(Gap('/', n) + s, []) == PiecesFrom(s, [])
  {
    if n == 0 {
      assert Gap('/', 0) + s == s;
    } else {
      assert Gap('/', n) + s == ['/'] + (Gap('/', n - 1) + s);
      SlashFirst(Gap('/', n - 1) + s);
      PiecesAfterGap(n - 1, s);
    }
  }

  lemma PieceEnds(piece: string, rest: string)
    requires piece != [] && (rest == [] || rest[0] == '/')
    ensures PiecesFrom(rest, piece) == [piece] + PiecesFrom(rest, [])
  {
    if rest == [] {
      assert [piece] + [] == [piece];
    } else {
      assert rest == ['/'] + rest[1..];
      SlashFirst(rest[1..]);
    }
  }

  /** However many slashes stand before, between and behind the components, splitting gives the components. */
  lemma {:induction false} PiecesOfLaid(words: seq<string>, gaps: seq<nat>)
    requires Legal('/', words, gaps)
    ensures PiecesFrom(Laid('/', words, gaps), []) == words
    decreases |words|
  {
    if words == [] {
      PiecesAfterGap(gaps[0], "");
    } else {
      var rest := Laid('/', words[1..], gaps[1..]);
      PiecesAfterGap(gaps[0], words[0] + rest);
      LegalRest('/', words, gaps);
      PiecesOfWord(words[0], rest, []);
      assert [] + words[0] == words[0];
      PieceEnds(words[0], rest);
      PiecesOfLaid(words[1..], gaps[1..]);
    }
  }

  /** The components of a path behind its root are those that it lays out between slashes. */
  lemma PiecesExactly(s: string, words: seq<string>)
    ensures PiecesFrom(s, []) == words <==> exists gaps :: Legal('/', words, gaps) && Laid('/', words, gaps) == s
  {
    forall gaps | Legal('/', words, gaps) && Laid('/', words, gaps) == s
      ensures PiecesFrom(s, []) == words
    {
      PiecesOfLaid(words, gaps);
    }
    var found, gaps := EveryTextIsLaid('/', s);
    PiecesOfLaid(found, gaps);
  }

  lemma {:induction false} ReadSteps(steps: seq<Step>, word: string)
    requires forall i :: 0 <= i < |steps| ==> LegalStep(steps[i])
    ensures PiecesFrom(StepsText(steps), word) == Piece(word) + PiecesFrom(StepsText(steps), [])
    ensures |PiecesFrom(StepsText(steps), [])| == |steps|
    ensures ReadPieces(PiecesFrom(StepsText(steps), [])) == Ok(Indices(steps))
    decreases |steps|
  {
    if steps == [] {
      assert Piece(word) + [] == Piece(word);
    } else {
      var text, rest := StepText(steps[0]), StepsText(steps[1..]);
      ReadStep(steps[0]);
      StepPieces(text, rest, word);
      StepPieces(text, rest, []);
      ReadSteps(steps[1..], text);
      var pieces := PiecesFrom(StepsText(steps), []);
      assert [] + PiecesFrom(rest, text) == PiecesFrom(rest, text);
      assert pieces == [text] + PiecesFrom(rest, []);
      assert pieces[1..] == PiecesFrom(rest, []);
    }
  }

  lemma StepPieces(text: string, rest: string, word: string)
    requires '/' !in text
    ensures PiecesFrom(['/'] + text + rest, word) == Piece(word) + PiecesFrom(rest, text)
  {
    assert (['/'] + text + rest)[1..] == text + rest;
    PiecesOfWord(text, rest, []);
    assert [] + text == text;
  }

  lemma StripRoot(body: string)
    ensures Strip(['m'] + (['/'] + body)) == body
  {
    var path := ['m'] + (['/'] + body);
    assert path[0] == 'm' && path[1] == '/' && path[2..] == body;
  }

  lemma SlashFirst(body: string)
    ensures PiecesFrom(['/'] + body, []) == PiecesFrom(body, [])
  {
    assert (['/'] + body)[1..] == body;
    assert [] + PiecesFrom(body, []) == PiecesFrom(body, []);
  }

  lemma PiecesOfPath(steps: seq<Step>)
    ensures Pieces(PathText(steps)) == PiecesFrom(StepsText(steps), [])
  {
    if steps == [] {
      assert ['m'] + [] == ['m'] && ['m'][1..] == [];
    } else {
      var body := StepText(steps[0]) + StepsText(steps[1..]);
      assert StepsText(steps) == ['/'] + body;
      StripRoot(body);
      SlashFirst(body);
    }
  }

  lemma {:induction false} ReadPrefix(pieces: seq<string>, m: nat)
    requires m <= |pieces| && ReadPieces(pieces).Ok?
    ensures |ReadPieces(pieces).value| == |pieces|
    ensures ReadPieces(pieces[..m]) == Ok(ReadPieces(pieces).value[..m])
    decreases |pieces|
  {
    ReadCount(pieces);
    if m > 0 {
      ReadPrefix(pieces[1..], m - 1);
      assert pieces[..m][1..] == pieces[1..][..m - 1];
      var others := ReadPieces(pieces[1..]).value;
      assert ([ReadPiece(pieces[0]).value] + others)[..m] == [ReadPiece(pieces[0]).value] + others[..m - 1];
    }
  }

  /** Every list of 32-bit indices, written with either mark, parses back to itself, or to its first `max` indices. */
  lemma PathRoundTrip(steps: seq<Step>, max: nat)
    requires forall i :: 0 <= i < |steps| ==> LegalStep(steps[i])
    ensures Parse(PathText(steps), max) == Ok(FirstOf(Indices(steps), max))
  {
    ParseReadsPieces(PathText(steps), max);
    PiecesOfPath(steps);
    ReadSteps(steps, []);
    var pieces := PiecesFrom(StepsText(steps), []);
    ReadCount(pieces);
    if |pieces| > max {
      ReadPrefix(pieces, max);
    }
  }

  // ----- The path of an account ---------------------------------------------------------------

  /** `index | 0x80000000`. */
  function Harden(index: nat): nat { if index >= HARDENED then index else index + HARDENED }

  /** `neoc_bip32_get_neo_path`. */
  function NeoPath(account: nat, change: nat, address: nat): seq<nat> {
    [Harden(44), Harden(888), Harden(account), change, address]
  }

  function NeoSteps(account: nat, change: nat, address: nat): seq<Step> {
    [Step(Harden(44), '\''), Step(Harden(888), '\''), Step(Harden(account), '\''), Step(change, 'h'), Step(address, 'h')]
  }

  lemma TextOfStep(steps: seq<Step>)
    requires steps != []
    ensures StepsText(steps) == ['/'] + StepText(steps[0]) + StepsText(steps[1..])
    ensures Indices(steps) == [steps[0].index] + Indices(steps[1..])
  {
  }

  lemma SmallNumerals()
    ensures Numeral(44) == "44" && Numeral(888) == "888"
  {
    assert Numeral(4) == "4" && Numeral(8) == "8" && Numeral(88) == "88";
  }

  lemma NeoIndices(account: nat, change: nat, address: nat)
    ensures Indices(NeoSteps(account, change, address)) == NeoPath(account, change, address)
  {
    var s := NeoSteps(account, change, address);
    assert Indices(s[5..]) == [];
    TextOfStep(s[4..]);
    assert s[4..][1..] == s[5..];
    TextOfStep(s[3..]);
    assert s[3..][1..] == s[4..];
    TextOfStep(s[2..]);
    assert s[2..][1..] == s[3..];
    TextOfStep(s[1..]);
    assert s[1..][1..] == s[2..];
    TextOfStep(s);
  }

  lemma StepsFrom(steps: seq<Step>, i: nat, rest: string)
    requires i < |steps| && StepsText(steps[i + 1..]) == rest
    ensures StepsText(steps[i..]) == ['/'] + StepText(steps[i]) + rest
  {
    assert steps[i..][1..] == steps[i + 1..];
  }

  lemma NeoConcat(a: string, b: string, d: string)
    ensures "m" + ("/" + "44'" + ("/" + "888'" + ("/" + (a + "'") + ("/" + b + ("/" + d)))))
         == "m/44'/888'/" + a + "'/" + b + "/" + d
  {
    var tail := "/" + b + ("/" + d);
    assert "/" + (a + "'") + tail == "/" + a + "'" + tail;
    assert "m" + ("/" + "44'" + ("/" + "888'" + ("/" + a + "'" + tail))) == "m/44'/888'/" + (a + "'" + tail);
    assert a + "'" + tail == a + "'/" + b + "/" + d;
  }

  lemma FiveSteps(s: seq<Step>, t0: string, t1: string, t2: string, t3: string, t4: string)
    requires |s| == 5 && StepText(s[0]) == t0 && StepText(s[1]) == t1 && StepText(s[2]) == t2
    requires StepText(s[3]) == t3 && StepText(s[4]) == t4
    ensures StepsText(s) == ['/'] + t0 + (['/'] + t1 + (['/'] + t2 + (['/'] + t3 + (['/'] + t4))))
  {
    assert s[5..] == [] && ['/'] + t4 + [] == ['/'] + t4;
    StepsFrom(s, 4, []);
    StepsFrom(s, 3, ['/'] + t4);
    StepsFrom(s, 2, ['/'] + t3 + (['/'] + t4));
    StepsFrom(s, 1, ['/'] + t2 + (['/'] + t3 + (['/'] + t4)));
    StepsFrom(s, 0, ['/'] + t1 + (['/'] + t2 + (['/'] + t3 + (['/'] + t4))));
    assert s[0..] == s;
  }

  lemma NeoText(account: nat, change: nat, address: nat)
    requires account < HARDENED && change < HARDENED && address < HARDENED
    ensures PathText(NeoSteps(account, change, address))
         == "m/44'/888'/" + Numeral(account) + "'/" + Numeral(change) + "/" + Numeral(address)
  {
    var s := NeoSteps(account, change, address);
    var a, b, d := Numeral(account), Numeral(change), Numeral(address);
    SmallNumerals();
    assert "44" + "'" == "44'" && "888" + "'" == "888'";
    FiveSteps(s, "44'", "888'", a + "'", b, d);
    NeoConcat(a, b, d);
  }

  /** The text `m/44'/888'/a'/c/i` gives the path of account `a`. */
  lemma NeoPathText(account: nat, change: nat, address: nat, max: nat)
    requires account < HARDENED && change < HARDENED && address < HARDENED && max >= 5
    ensures Parse("m/44'/888'/" + Numeral(account) + "'/" + Numeral(change) + "/" + Numeral(address), max)
         == Ok(NeoPath(account, change, address))
  {
    NeoText(account, change, address);
    NeoIndices(account, change, address);
    PathRoundTrip(NeoSteps(account, change, address), max);
  }

  /** `neoc_bip32_derive_path_raw`: at most 32 indices are parsed and derived along. */
  function DeriveText<P>(c: Curve<P>, hmac: Hmac, k: Key, path: string): Result<Key>
    requires IsMac(hmac) && |k.key| == 33 && c.order > 0
  {
    var indices :- Parse(path, 32);
    Derive(c, hmac, k, indices)
  }

  function AccountPath(account: nat): seq<nat> { [Harden(44), Harden(888), Harden(account)] }

  /** `m/44'/888'/a'/c/i`. */
  function NeoPathOf(account: nat, change: nat, address: nat): string {
    "m/44'/888'/" + Numeral(account) + "'/" + Numeral(change) + "/" + Numeral(address)
  }

  lemma DeriveTextIs<P(!new)>(c: Curve<P>, hmac: Hmac, k: Key, path: string, indices: seq<nat>)
    requires IsMac(hmac) && |k.key| == 33 && c.order > 0 && Parse(path, 32) == Ok(indices)
    ensures DeriveText(c, hmac, k, path) == Derive(c, hmac, k, indices)
  {
  }

  lemma DeriveNeoText<P(!new)>(c: Curve<P>, hmac: Hmac, k: Key, account: nat, change: nat, address: nat)
    requires IsMac(hmac) && |k.key| == 33 && c.order > 0
    requires account < HARDENED && change < HARDENED && address < HARDENED
    ensures DeriveText(c, hmac, k, NeoPathOf(account, change, address))
         == Derive(c, hmac, k, AccountPath(account) + [change, address])
  {
    NeoPathText(account, change, address, 32);
    DeriveTextIs(c, hmac, k, NeoPathOf(account, change, address), NeoPath(account, change, address));
    NeoPathSplits(account, change, address);
  }

  lemma NeoPathSplits(account: nat, change: nat, address: nat)
    ensures NeoPath(account, change, address) == AccountPath(account) + [change, address]
  {
  }

  /** Deriving along the text of an account's path: hardened down to the account, and from there on also in public. */
  lemma NeoDerivation<P(!new)>(c: Curve<P>, hmac: Hmac, k: Key, account: nat, change: nat, address: nat)
    requires Laws(c) && IsMac(hmac) && |k.key| == 33
    requires account < HARDENED && change < HARDENED && address < HARDENED
    requires Derive(c, hmac, k, AccountPath(account)).Ok?
    ensures var root := Derive(c, hmac, k, AccountPath(account)).value;
            && DeriveText(c, hmac, k, NeoPathOf(account, change, address)) == Derive(c, hmac, root, [change, address])
            && DeriveThenPublish(c, hmac, root, [change, address]) == PublishThenDerive(c, hmac, root, [change, address])
  {
    DeriveNeoText(c, hmac, k, account, change, address);
    DeriveConcat(c, hmac, k, AccountPath(account), [change, address]);
    PublishingCommutes(c, hmac, Derive(c, hmac, k, AccountPath(account)).value, [change, address]);
  }

  // ----- The loop -----------------------------------------------------------------------------

  /** Stores the index that the buffer spells. */
  method Store(buffer: array<char>, length: nat, indices: array<nat>, count: nat) returns (r: Result<nat>)
    requires 0 < length < buffer.Length && count < indices.Length
    modifies indices
    ensures match Component(buffer[..length])
            case Err(e) => r == Err(e)
            case Ok(index) => r == Ok(count + 1) && indices[..count + 1] == old(indices[..count]) + [index]
  {
    ghost var piece := buffer[..length];
    var hardened := Mark(buffer[length - 1]);
    assert piece[length - 1] == buffer[length - 1];
    assert piece[..length - 1] == buffer[..length - 1];
    var digits := buffer[..if hardened then length - 1 else length];
    var scan := StrToUL(digits);
    if scan.consumed != |digits| || scan.value > 0x7FFF_FFFF {
      return Err(InvalidFormat);
    }
    indices[count] := if hardened then scan.value + HARDENED else scan.value;
    return Ok(count + 1);
  }

  method PutChar(buffer: array<char>, length: nat, c: char)
    requires length < buffer.Length
    modifies buffer
    ensures buffer[..length + 1] == old(buffer[..length]) + [c]
  {
    buffer[length] := c;
  }

  /** `neoc_bip32_parse_path`: every write stays inside the two buffers. */
  method ParsePath(path: string, indices: array<nat>) returns (r: Result<nat>)
    modifies indices
    ensures match Parse(path, indices.Length)
            case Err(e) => r == Err(e)
            case Ok(found) => r == Ok(|found|) && |found| <= indices.Length && indices[..|found|] == found
  {
    var text := Strip(path);
    var count: nat, length: nat := 0, 0;
    var buffer := new char[32];
    ghost var spec := Parse(path, indices.Length);
    ParseFromIs(text, [], [], indices.Length);
    var pos := 0;
    while pos < |text| && count < indices.Length
      invariant pos <= |text| && count <= indices.Length && length < 32
      invariant length > 0 ==> count < indices.Length
      invariant ParseFrom(text[pos..], buffer[..length], indices[..count], indices.Length) == spec
      decreases |text| - pos
    {
      assert text[pos..][0] == text[pos] && text[pos..][1..] == text[pos + 1..];
      if text[pos] == '/' {
        if length > 0 {
          count :- Store(buffer, length, indices, count);
          length := 0;
        }
      } else {
        if length >= 31 {
          return Err(InvalidFormat);
        }
        PutChar(buffer, length, text[pos]);
        length := length + 1;
      }
      pos := pos + 1;
    }
    if length > 0 {
      count :- Store(buffer, length, indices, count);
    }
    return Ok(count);
  }
}
