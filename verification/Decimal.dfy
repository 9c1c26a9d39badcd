/** Decimal numerals as the C library prints and reads them. */
module Decimal {
  /** The largest `uint64_t`, also the largest `unsigned long` here. */
  const MAX64: nat := 0xFFFF_FFFF_FFFF_FFFF

  predicate IsDigit(c: char) { '0' <= c <= '9' }

  predicate AllDigits(s: string) { forall i :: 0 <= i < |s| ==> IsDigit(s[i]) }

  /** What `%u` prints. */
  function Numeral(n: nat): (s: string)
    ensures s != [] && AllDigits(s)
  {
    if n < 10 then ['0' + n as char] else Numeral(n / 10) + ['0' + (n % 10) as char]
  }

  function Value(s: string): nat
    requires AllDigits(s)
  {
    if s == [] then 0 else 10 * Value(s[..|s| - 1]) + (s[|s| - 1] - '0') as nat
  }

  lemma {:induction false} ValueOfNumeral(n: nat)
    ensures Value(Numeral(n)) == n
  {
    if n < 10 {
      assert Numeral(n)[..0] == [];
    } else {
      ValueOfNumeral(n / 10);
      assert Numeral(n)[..|Numeral(n)| - 1] == Numeral(n / 10);
    }
  }

  function Pow10(k: nat): nat {
    if k == 0 then 1 else 10 * Pow10(k - 1)
  }

  lemma {:induction false} NumeralLength(n: nat, k: nat)
    requires n < Pow10(k) && k > 0
    ensures |Numeral(n)| <= k
  {
    if n >= 10 {
      NumeralLength(n / 10, k - 1);
    }
  }

  /** Twenty digits suffice for 64 bits. */
  lemma Numeral64(n: nat)
    requires n <= MAX64
    ensures |Numeral(n)| <= 20
  {
    assert Pow10(10) == 10_000_000_000;
    assert Pow10(20) == 100_000_000_000_000_000_000;
    NumeralLength(n, 20);
  }

  predicate IsSpace(c: char) { c == ' ' || '\t' <= c <= '\r' }

  /** The length of the longest prefix of white space. */
  function SpaceRun(s: string): (k: nat)
    ensures k <= |s|
  {
    if s != [] && IsSpace(s[0]) then 1 + SpaceRun(s[1..]) else 0
  }

  /** The length of the longest prefix of digits. */
  function DigitRun(s: string): (k: nat)
    ensures k <= |s| && AllDigits(s[..k])
  {
    if s != [] && IsDigit(s[0]) then
      assert s[..1 + DigitRun(s[1..])] == [s[0]] + s[1..][..DigitRun(s[1..])];
      1 + DigitRun(s[1..])
    else 0
  }

  lemma {:induction false} DigitRunOfDigits(s: string)
    requires AllDigits(s)
    ensures DigitRun(s) == |s|
  {
    if s != [] {
      DigitRunOfDigits(s[1..]);
    }
  }

  datatype Scan = Scan(value: nat, consumed: nat)

  predicate IsSign(c: char) { c == '-' || c == '+' }

  /** What is stored for a magnitude: the maximum if it is too large, and its negation modulo 2^64 behind a minus sign. */
  function Stored(magnitude: nat, minus: bool): (v: nat)
    ensures v <= MAX64
  {
    if magnitude > MAX64 then MAX64
    else if minus && magnitude > 0 then MAX64 + 1 - magnitude
    else magnitude
  }

  /** The digits at a position; without any, nothing is consumed. */
  function ScanDigits(s: string, first: nat, minus: bool): (r: Scan)
    requires first <= |s|
    ensures r.value <= MAX64 && r.consumed <= |s|
  {
    var digits := DigitRun(s[first..]);
    if digits == 0 then Scan(0, 0) else Scan(Stored(Value(s[first..][..digits]), minus), first + digits)
  }

  /** `strtoul` and `strtoull` in base ten: white space, an optional sign and digits. */
  function StrToUL(s: string): (r: Scan)
    ensures r.value <= MAX64 && r.consumed <= |s|
  {
    var start := SpaceRun(s);
    if start < |s| && IsSign(s[start]) then ScanDigits(s, start + 1, s[start] == '-')
    else ScanDigits(s, start, false)
  }

  lemma {:induction false} SpaceRunOf(ws: string, s: string)
    requires (forall i :: 0 <= i < |ws| ==> IsSpace(ws[i])) && (s == [] || !IsSpace(s[0]))
    ensures SpaceRun(ws + s) == |ws|
  {
    if ws == [] {
      assert ws + s == s;
    } else {
      assert (ws + s)[1..] == ws[1..] + s;
      SpaceRunOf(ws[1..], s);
    }
  }

  lemma {:induction false} DigitRunOf(digits: string, s: string)
    requires AllDigits(digits) && (s == [] || !IsDigit(s[0]))
    ensures DigitRun(digits + s) == |digits|
  {
    if digits == [] {
      assert digits + s == s;
    } else {
      assert (digits + s)[1..] == digits[1..] + s;
      DigitRunOf(digits[1..], s);
    }
  }

  predicate AllSpaces(s: string) { forall i :: 0 <= i < |s| ==> IsSpace(s[i]) }

  /** Behind a minus sign, the value and the magnitude add up to zero modulo 2^64. */
  lemma StoredIs(magnitude: nat, minus: bool)
    ensures magnitude > MAX64 ==> Stored(magnitude, minus) == MAX64
    ensures magnitude <= MAX64 && !minus ==> Stored(magnitude, minus) == magnitude
    ensures magnitude <= MAX64 && minus ==> (Stored(magnitude, minus) + magnitude) % 0x1_0000_0000_0000_0000 == 0
  {
  }

  lemma ScanDigitsIs(s: string, first: nat, minus: bool, digits: string, rest: string)
    requires first <= |s| && s[first..] == digits + rest && AllDigits(digits) && (rest == [] || !IsDigit(rest[0]))
    ensures ScanDigits(s, first, minus)
         == if digits == [] then Scan(0, 0) else Scan(Stored(Value(digits), minus), first + |digits|)
  {
    DigitRunOf(digits, rest);
    assert (digits + rest)[..|digits|] == digits;
  }

  lemma AfterSpaces(ws: string, body: string)
    requires AllSpaces(ws) && (body == [] || !IsSpace(body[0]))
    ensures StrToUL(ws + body)
         == if body != [] && IsSign(body[0]) then ScanDigits(ws + body, |ws| + 1, body[0] == '-')
            else ScanDigits(ws + body, |ws|, false)
  {
    SpaceRunOf(ws, body);
  }

  lemma AfterSign(ws: string, sign: char, body: string)
    ensures (ws + ([sign] + body))[|ws| + 1..] == body
  {
  }

  /** White space, a sign, and digits up to the next character that is none: how `strtoul` reads them. */
  lemma ScanSigned(ws: string, sign: char, digits: string, rest: string)
    requires AllSpaces(ws) && IsSign(sign) && AllDigits(digits) && (rest == [] || !IsDigit(rest[0]))
    ensures StrToUL(ws + ([sign] + (digits + rest)))
         == if digits == [] then Scan(0, 0) else Scan(Stored(Value(digits), sign == '-'), |ws| + 1 + |digits|)
  {
    AfterSpaces(ws, [sign] + (digits + rest));
    AfterSign(ws, sign, digits + rest);
    ScanDigitsIs(ws + ([sign] + (digits + rest)), |ws| + 1, sign == '-', digits, rest);
  }

  /** The same without a sign. */
  lemma ScanUnsigned(ws: string, digits: string, rest: string)
    requires AllSpaces(ws) && AllDigits(digits) && (rest == [] || !IsDigit(rest[0]))
    requires digits == [] && rest != [] ==> !IsSpace(rest[0]) && !IsSign(rest[0])
    ensures StrToUL(ws + (digits + rest))
         == if digits == [] then Scan(0, 0) else Scan(Stored(Value(digits), false), |ws| + |digits|)
  {
    var body := digits + rest;
    assert body != [] ==> body[0] == if digits == [] then rest[0] else digits[0];
    AfterSpaces(ws, body);
    ScanDigitsIs(ws + body, |ws|, false, digits, rest);
  }

  /** A printed 64-bit number is read back whole. */
  lemma ScanOfNumeral(n: nat)
    requires n <= MAX64
    ensures StrToUL(Numeral(n)) == Scan(n, |Numeral(n)|)
  {
    var s := Numeral(n);
    assert IsDigit(s[0]);
    assert s[0..] == s && s[..|s|] == s;
    DigitRunOfDigits(s);
    ValueOfNumeral(n);
  }
}
