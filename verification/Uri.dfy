/** Payment URIs: `src/contract/neoc_uri.c`. A string stands for the characters before the terminator. */
module Uri {
  import opened Prelude
  import opened Decimal

  datatype Uri = Uri(address: string, asset: Option<string>, amount: nat, description: Option<string>)

  const SCHEME: string := "neo:"

  /** `strchr`: the first position of a character, or the length if it is absent. */
  function Find(s: string, c: char): (i: nat)
    ensures i <= |s|
  {
    if s == [] || s[0] == c then 0 else 1 + Find(s[1..], c)
  }

  lemma {:induction false} FindStops(s: string, c: char)
    ensures c !in s[..Find(s, c)]
    ensures Find(s, c) < |s| ==> s[Find(s, c)] == c
  {
    if s != [] && s[0] != c {
      FindStops(s[1..], c);
      assert s[..Find(s, c)] == [s[0]] + s[1..][..Find(s[1..], c)];
    }
  }

  // ----- What the parser computes -------------------------------------------------------------

  datatype Param = Param(name: string, value: string)

  datatype Field = Asset | Amount | Description | Unknown

  function FieldOf(name: string): Field {
    if name == "asset" then Asset
    else if name == "amount" then Amount
    else if name == "description" then Description
    else Unknown
  }

  function Store(u: Uri, field: Field, value: string): Uri {
    match field
    case Asset => u.(asset := Some(value))
    case Amount => u.(amount := StrToUL(value).value)
    case Description => u.(description := Some(value))
    case Unknown => u
  }

  /** The effect of one parameter; unknown names are ignored. */
  function Assign(u: Uri, p: Param): Uri { Store(u, FieldOf(p.name), p.value) }

  function Behind(s: string, i: nat): string { if i < |s| then s[i + 1..] else "" }

  /**
   * The parameters of a query: a name up to the first '=', if there is one, its value up to the next '&', and the
   * parameters behind that.
   */
  function ParamsOf(q: string): seq<Param>
    decreases |q|
  {
    var eq := Find(q, '=');
    if eq == |q| then []
    else
      var rest := q[eq + 1..];
      var amp := Find(rest, '&');
      [Param(q[..eq], rest[..amp])] + ParamsOf(Behind(rest, amp))
  }

  /** The parameters behind the first question mark. */
  function QueryOf(body: string): seq<Param> {
    var mark := Find(body, '?');
    if mark == |body| then [] else ParamsOf(body[mark + 1..])
  }

  function Bare(address: string): Uri { Uri(address, None, 0, None) }

  function ParseBody(body: string): Uri {
    Fold(Assign, Bare(body[..Find(body, '?')]), QueryOf(body))
  }

  function Parse(text: string): Result<Uri> {
    if SCHEME <= text then Ok(ParseBody(text[4..])) else Err(InvalidFormat)
  }

  // ----- What the builder computes ------------------------------------------------------------

  function ParamText(p: Param): string { p.name + ['='] + p.value }

  function Render(ps: seq<Param>): string {
    if ps == [] then ""
    else if |ps| == 1 then ParamText(ps[0])
    else ParamText(ps[0]) + ['&'] + Render(ps[1..])
  }

  function AssetParams(u: Uri): seq<Param> {
    if u.asset.Some? then [Param("asset", u.asset.value)] else []
  }

  function AmountParams(u: Uri): seq<Param> {
    if u.amount > 0 then [Param("amount", Numeral(u.amount))] else []
  }

  function DescriptionParams(u: Uri): seq<Param> {
    if u.description.Some? then [Param("description", u.description.value)] else []
  }

  function Params(u: Uri): seq<Param> { AssetParams(u) + AmountParams(u) + DescriptionParams(u) }

  function Body(u: Uri): string {
    if Params(u) == [] then u.address else u.address + ['?'] + Render(Params(u))
  }

  function Build(u: Uri): string { SCHEME + Body(u) }

  // ----- Queries ------------------------------------------------------------------------------

  predicate Separable(p: Param) { '=' !in p.name && '&' !in p.value }

  lemma {:induction false} FindAfter(a: string, c: char, b: string)
    requires c !in a
    ensures Find(a + [c] + b, c) == |a|
  {
    if a == [] {
      assert (a + [c] + b)[0] == c;
    } else {
      assert (a + [c] + b)[1..] == a[1..] + [c] + b;
      assert (a + [c] + b)[0] == a[0] && a[0] in a;
      FindAfter(a[1..], c, b);
    }
  }

  lemma {:induction false} FindNothing(a: string, c: char)
    requires c !in a
    ensures Find(a, c) == |a|
  {
    if a != [] {
      FindNothing(a[1..], c);
    }
  }

  lemma NoParams(q: string)
    requires Find(q, '=') == |q|
    ensures ParamsOf(q) == []
  {
  }

  /** One parameter and the query behind it, from the parts of the text. */
  lemma FirstParam(q: string, name: string, rest: string, value: string, tail: string)
    requires |name| == Find(q, '=') && |name| < |q| && q[..|name|] == name && q[|name| + 1..] == rest
    requires |value| == Find(rest, '&') && rest[..|value|] == value
    requires Behind(rest, |value|) == tail
    ensures ParamsOf(q) == [Param(name, value)] + ParamsOf(tail)
  {
  }

  lemma ParseLast(p: Param)
    requires Separable(p)
    ensures ParamsOf(ParamText(p)) == [p]
  {
    var q := ParamText(p);
    FindAfter(p.name, '=', p.value);
    FindNothing(p.value, '&');
    assert q[..|p.name|] == p.name && q[|p.name| + 1..] == p.value && p.value[..|p.value|] == p.value;
    FirstParam(q, p.name, p.value, p.value, []);
  }

  lemma ParseFirst(p: Param, q: string)
    requires Separable(p)
    ensures ParamsOf(ParamText(p) + ['&'] + q) == [p] + ParamsOf(q)
  {
    var rest := p.value + ['&'] + q;
    var whole := p.name + ['='] + rest;
    assert ParamText(p) + ['&'] + q == whole;
    FindAfter(p.name, '=', rest);
    FindAfter(p.value, '&', q);
    assert whole[..|p.name|] == p.name && whole[|p.name| + 1..] == rest;
    assert rest[..|p.value|] == p.value && rest[|p.value| + 1..] == q;
    FirstParam(whole, p.name, rest, p.value, q);
  }

  /** Splitting a rendered query gives its parameters back, in order. */
  lemma {:induction false} ParamsOfRendered(ps: seq<Param>)
    requires forall i :: 0 <= i < |ps| ==> Separable(ps[i])
    ensures ParamsOf(Render(ps)) == ps
    decreases |ps|
  {
    if |ps| == 1 {
      ParseLast(ps[0]);
    } else if ps != [] {
      ParseFirst(ps[0], Render(ps[1..]));
      ParamsOfRendered(ps[1..]);
      assert ps == [ps[0]] + ps[1..];
    }
  }

  /** Parameters, and behind the last of them possibly an ampersand and text without a '='. */
  function QueryText(ps: seq<Param>, more: Option<string>): string {
    if ps == [] then (if more.Some? then more.value else "")
    else if |ps| == 1 && more.None? then ParamText(ps[0])
    else ParamText(ps[0]) + ['&'] + QueryText(ps[1..], more)
  }

  ghost predicate Splits(ps: seq<Param>, more: Option<string>) {
    (forall i :: 0 <= i < |ps| ==> Separable(ps[i])) && !Has(more, '=')
  }

  /** Text behind the last '=' and its value is dropped. */
  lemma {:induction false} ParamsOfText(ps: seq<Param>, more: Option<string>)
    requires Splits(ps, more)
    ensures ParamsOf(QueryText(ps, more)) == ps
    decreases |ps|
  {
    if ps == [] {
      FindNothing(QueryText(ps, more), '=');
      NoParams(QueryText(ps, more));
    } else {
      assert ps == [ps[0]] + ps[1..];
      if |ps| == 1 && more.None? {
        ParseLast(ps[0]);
      } else {
        ParamsOfText(ps[1..], more);
        ParseFirst(ps[0], QueryText(ps[1..], more));
      }
    }
  }

  lemma FirstOfText(q: string) returns (p: Param, tail: Option<string>)
    requires Find(q, '=') < |q|
    ensures Separable(p) && (tail.Some? ==> |tail.value| < |q|)
    ensures q == if tail.Some? then ParamText(p) + ['&'] + tail.value else ParamText(p)
  {
    var name, rest := Cut(q, '=');
    FindStops(rest, '&');
    if Find(rest, '&') == |rest| {
      p, tail := Param(name, rest), None;
    } else {
      var value, others := Cut(rest, '&');
      p, tail := Param(name, value), Some(others);
      assert name + ['='] + (value + ['&'] + others) == name + ['='] + value + ['&'] + others;
    }
  }

  lemma Cut(s: string, c: char) returns (a: string, b: string)
    requires Find(s, c) < |s|
    ensures s == a + [c] + b && c !in a && |b| < |s|
  {
    var i := Find(s, c);
    FindStops(s, c);
    a, b := s[..i], s[i + 1..];
  }

  /** Every query is of this form. */
  lemma {:induction false} EveryQuerySplits(q: string) returns (ps: seq<Param>, more: Option<string>)
    ensures Splits(ps, more) && QueryText(ps, more) == q
    decreases |q|
  {
    FindStops(q, '=');
    if Find(q, '=') == |q| {
      ps, more := [], Some(q);
    } else {
      var p, tail := FirstOfText(q);
      if tail.None? {
        ps, more := [p], None;
      } else {
        var others;
        others, more := EveryQuerySplits(tail.value);
        ps, more := PrependParam(p, others, more);
      }
    }
  }

  lemma PrependParam(p: Param, others: seq<Param>, more: Option<string>) returns (ps: seq<Param>, more': Option<string>)
    requires Separable(p) && Splits(others, more)
    ensures Splits(ps, more') && QueryText(ps, more') == ParamText(p) + ['&'] + QueryText(others, more)
  {
    ps := [p] + others;
    more' := if others == [] && more.None? then Some("") else more;
    assert ps[1..] == others;
  }

  /** Whatever the query, no parsed value contains a separator. */
  lemma ParsedValues(q: string, i: nat)
    requires i < |ParamsOf(q)|
    ensures Separable(ParamsOf(q)[i])
  {
    var ps, more := EveryQuerySplits(q);
    ParamsOfText(ps, more);
  }

  /** The parameters of a query are those that it spells. */
  lemma ParamsExactly(q: string, ps: seq<Param>)
    ensures ParamsOf(q) == ps <==> exists more :: Splits(ps, more) && QueryText(ps, more) == q
  {
    forall more | Splits(ps, more) && QueryText(ps, more) == q
      ensures ParamsOf(q) == ps
    {
      ParamsOfText(ps, more);
    }
    var found, more := EveryQuerySplits(q);
    ParamsOfText(found, more);
  }

  // ----- Round trips --------------------------------------------------------------------------

  predicate Has(field: Option<string>, c: char) { field.Some? && c in field.value }

  /** No field contains a character that ends it. */
  predicate Clean(u: Uri) { '?' !in u.address && !Has(u.asset, '&') && !Has(u.description, '&') }

  lemma FieldNames()
    ensures FieldOf("asset") == Asset && FieldOf("amount") == Amount && FieldOf("description") == Description
  {
    assert |"asset"| == 5 && |"amount"| == 6 && |"description"| == 11;
  }

  lemma ApplyAsset(u: Uri, u0: Uri)
    ensures Fold(Assign, u0, AssetParams(u)) == if u.asset.Some? then u0.(asset := u.asset) else u0
  {
    FieldNames();
    FoldOptional(u0, AssetParams(u));
  }

  lemma ApplyAmount(u: Uri, u0: Uri)
    requires u.amount <= MAX64
    ensures Fold(Assign, u0, AmountParams(u)) == if u.amount > 0 then u0.(amount := u.amount) else u0
  {
    FieldNames();
    ScanOfNumeral(u.amount);
    FoldOptional(u0, AmountParams(u));
  }

  lemma ApplyDescription(u: Uri, u0: Uri)
    ensures Fold(Assign, u0, DescriptionParams(u)) == if u.description.Some? then u0.(description := u.description) else u0
  {
    FieldNames();
    FoldOptional(u0, DescriptionParams(u));
  }

  lemma ApplyParams(u: Uri)
    requires u.amount <= MAX64
    ensures Fold(Assign, Bare(u.address), Params(u)) == u
  {
    var u0 := Bare(u.address);
    FoldConcat(Assign, u0, AssetParams(u) + AmountParams(u), DescriptionParams(u));
    FoldConcat(Assign, u0, AssetParams(u), AmountParams(u));
    ApplyAsset(u, u0);
    var u1 := Fold(Assign, u0, AssetParams(u));
    ApplyAmount(u, u1);
    ApplyDescription(u, Fold(Assign, u1, AmountParams(u)));
  }

  lemma FoldOptional(u: Uri, ps: seq<Param>)
    requires |ps| <= 1
    ensures Fold(Assign, u, ps) == if ps == [] then u else Assign(u, ps[0])
  {
    if ps != [] {
      assert ps[1..] == [];
    }
  }

  lemma ParamsAreSeparable(u: Uri)
    requires Clean(u)
    ensures forall i :: 0 <= i < |Params(u)| ==> Separable(Params(u)[i])
  {
    NamesAreSeparable();
    NumeralHasNo(u.amount, '&');
    assert forall p :: p in Params(u) ==> Separable(p);
  }

  lemma NamesAreSeparable()
    ensures '=' !in "asset" && '=' !in "amount" && '=' !in "description"
  {
  }

  lemma NumeralHasNo(n: nat, c: char)
    requires !IsDigit(c)
    ensures c !in Numeral(n)
  {
  }

  lemma BodyRoundTrip(u: Uri)
    requires u.amount <= MAX64 && Clean(u)
    ensures ParseBody(Body(u)) == u
  {
    var ps := Params(u);
    var u0 := Bare(u.address);
    ApplyParams(u);
    if ps == [] {
      FindNothing(u.address, '?');
      assert u.address[..|u.address|] == u.address;
    } else {
      ParamsAreSeparable(u);
      ParamsOfRendered(ps);
      BodyWithQuery(u.address, Render(ps));
    }
  }

  lemma BodyWithQuery(address: string, query: string)
    requires '?' !in address
    ensures ParseBody(address + ['?'] + query) == Fold(Assign, Bare(address), ParamsOf(query))
  {
    var body := address + ['?'] + query;
    FindAfter(address, '?', query);
    assert body[..|address|] == address && body[|address| + 1..] == query;
  }

  lemma CleanRoundTrip(u: Uri)
    requires u.amount <= MAX64 && Clean(u)
    ensures Parse(Build(u)) == Ok(u)
  {
    assert Build(u)[4..] == Body(u);
    BodyRoundTrip(u);
  }

  /** A field that holds no character that ends it, and an amount of 64 bits. */
  predicate Parsed(u: Uri) { Clean(u) && u.amount <= MAX64 }

  lemma AssignIsClean(u: Uri, p: Param)
    requires Parsed(u) && '&' !in p.value
    ensures Parsed(Assign(u, p))
  {
  }

  lemma {:induction false} FoldIsClean(u: Uri, ps: seq<Param>)
    requires Parsed(u) && forall i :: 0 <= i < |ps| ==> '&' !in ps[i].value
    ensures Parsed(Fold(Assign, u, ps))
    decreases |ps|
  {
    if ps != [] {
      AssignIsClean(u, ps[0]);
      FoldIsClean(Assign(u, ps[0]), ps[1..]);
    }
  }

  /** Whatever the text, the parsed fields are clean and the amount fits in 64 bits. */
  lemma ParsedIsClean(text: string)
    requires Parse(text).Ok?
    ensures Clean(Parse(text).value) && Parse(text).value.amount <= MAX64
  {
    var body := text[4..];
    var mark, ps := Find(body, '?'), QueryOf(body);
    FindStops(body, '?');
    forall i | 0 <= i < |ps|
      ensures '&' !in ps[i].value
    {
      ParsedValues(body[mark + 1..], i);
    }
    FoldIsClean(Bare(body[..mark]), ps);
  }

  /** Parsing a built URI gives the four fields back exactly when none of them contains the character that ends it. */
  lemma RoundTrip(u: Uri)
    requires u.amount <= MAX64
    ensures Parse(Build(u)) == Ok(u) <==> Clean(u)
  {
    if Clean(u) {
      CleanRoundTrip(u);
    } else if Parse(Build(u)) == Ok(u) {
      ParsedIsClean(Build(u));
    }
  }

  /** A question mark in an address, or an ampersand in an asset, is enough to lose the field. */
  lemma MarksAreLost()
    ensures Parse(Build(Bare(['?']))) != Ok(Bare(['?']))
    ensures Parse(Build(Uri([], Some(['&']), 0, None))) != Ok(Uri([], Some(['&']), 0, None))
  {
    assert '?' in ['?'] && '&' in ['&'];
    RoundTrip(Bare(['?']));
    RoundTrip(Uri([], Some(['&']), 0, None));
  }

  /** Every URI that parses can be rebuilt, and the rebuilt text means the same. */
  lemma ParsedIsRebuilt(text: string)
    requires Parse(text).Ok?
    ensures Parse(Build(Parse(text).value)) == Parse(text)
  {
    ParsedIsClean(text);
    CleanRoundTrip(Parse(text).value);
  }

  // ----- The text -----------------------------------------------------------------------------

  /** The scheme, and the fields in order with their names and separators. */
  lemma BuiltText(address: string, asset: string, amount: nat, description: string)
    requires amount > 0
    ensures Build(Uri(address, Some(asset), amount, Some(description)))
         == "neo:" + address + "?asset=" + asset + "&amount=" + Numeral(amount) + "&description=" + description
  {
    var u := Uri(address, Some(asset), amount, Some(description));
    var p, q, r := Param("asset", asset), Param("amount", Numeral(amount)), Param("description", description);
    assert Params(u) == [p, q, r];
    RenderThree(p, q, r);
    Separators();
    Regroup("neo:", address, ['?'], "asset", "amount", "description", asset, Numeral(amount), description);
  }

  lemma RenderThree(p: Param, q: Param, r: Param)
    ensures Render([p, q, r]) == ParamText(p) + ['&'] + (ParamText(q) + ['&'] + ParamText(r))
  {
    RenderMore(q, [r]);
    RenderMore(p, [q, r]);
    assert [p] + [q, r] == [p, q, r] && [q] + [r] == [q, r];
  }

  lemma RenderMore(p: Param, ps: seq<Param>)
    requires ps != []
    ensures Render([p] + ps) == ParamText(p) + ['&'] + Render(ps)
  {
    assert ([p] + ps)[1..] == ps;
  }

  lemma Separators()
    ensures ['?'] + "asset" + ['='] == "?asset="
    ensures ['&'] + "amount" + ['='] == "&amount="
    ensures ['&'] + "description" + ['='] == "&description="
  {
  }

  lemma Associate(a: string, b: string, c: string)
    ensures a + b + c == a + (b + c)
  {
  }

  /** Text, a separator, and a named value with what follows it. */
  lemma Part(text: string, mark: string, name: string, value: string, rest: string)
    ensures text + (mark + (name + ['='] + value + rest)) == text + (mark + name + ['=']) + value + rest
  {
  }

  lemma Regroup(s: string, a: string, m: string, x: string, y: string, z: string, b: string, n: string, d: string)
    ensures s + (a + m + (x + ['='] + b + ['&'] + (y + ['='] + n + ['&'] + (z + ['='] + d))))
         == s + a + (m + x + ['=']) + b + (['&'] + y + ['=']) + n + (['&'] + z + ['=']) + d
  {
    var dd := z + ['='] + d;
    var nn := y + ['='] + n + ['&'] + dd;
    var bb := x + ['='] + b + ['&'] + nn;
    var first := s + a + (m + x + ['=']) + b;
    var second := first + (['&'] + y + ['=']) + n;
    Associate(a, m, bb);
    Associate(s, a, m + bb);
    Associate(x + ['='] + b, ['&'], nn);
    Part(s + a, m, x, b, ['&'] + nn);
    Associate(y + ['='] + n, ['&'], dd);
    Part(first, ['&'], y, n, ['&'] + dd);
    assert dd + [] == dd;
    Part(second, ['&'], z, d, []);
    assert second + (['&'] + z + ['=']) + d + [] == second + (['&'] + z + ['=']) + d;
  }

  /** An address alone has no query. */
  lemma BareText(address: string)
    ensures Build(Bare(address)) == "neo:" + address
  {
  }

  /** Which field each name sets; any other name sets none. */
  lemma AssignExactly(u: Uri, p: Param)
    ensures p.name == "asset" ==> Assign(u, p) == u.(asset := Some(p.value))
    ensures p.name == "amount" ==> Assign(u, p) == u.(amount := StrToUL(p.value).value)
    ensures p.name == "description" ==> Assign(u, p) == u.(description := Some(p.value))
    ensures p.name != "asset" && p.name != "amount" && p.name != "description" ==> Assign(u, p) == u
  {
    FieldNames();
  }

  // ----- The loops ----------------------------------------------------------------------------

  lemma {:induction false} FindFrom(s: string, c: char, i: nat, j: nat)
    requires i <= j <= |s| && c !in s[i..j] && (j < |s| ==> s[j] == c)
    ensures Find(s[i..], c) == j - i
    decreases j - i
  {
    if i < j {
      assert s[i..j] == [s[i]] + s[i + 1..j];
      assert s[i..][1..] == s[i + 1..];
      FindFrom(s, c, i + 1, j);
    }
  }

  /** `strchr` from a position on; the length of the text if there is none. */
  method StrChr(s: string, start: nat, c: char) returns (i: nat)
    requires start <= |s|
    ensures start <= i <= |s| && Find(s[start..], c) == i - start
    ensures i < |s| ==> s[i] == c
  {
    i := start;
    while i < |s| && s[i] != c
      invariant start <= i <= |s| && c !in s[start..i]
    {
      assert s[start..i + 1] == s[start..i] + [s[i]];
      i := i + 1;
    }
    FindFrom(s, c, start, i);
  }

  function After(text: string, amp: nat): nat { if amp < |text| then amp + 1 else amp }

  lemma Slices(text: string, i: nat, j: nat)
    requires i <= j <= |text|
    ensures text[i..][..j - i] == text[i..j]
    ensures j < |text| ==> text[i..][j - i + 1..] == text[j + 1..]
    ensures Behind(text[i..], j - i) == text[After(text, j)..]
  {
  }

  lemma ParamAt(q: string, eq: nat, amp: nat, name: string, rest: string, value: string, tail: string)
    requires Find(q, '=') == eq < |q| && q[..eq] == name && q[eq + 1..] == rest
    requires Find(rest, '&') == amp && rest[..amp] == value && Behind(rest, amp) == tail
    ensures ParamsOf(q) == [Param(name, value)] + ParamsOf(tail)
  {
    FirstParam(q, name, rest, value, tail);
  }

  /** One turn of the query loop, as the splitting function takes it. */
  lemma WholeTurn(text: string, ptr: nat, eq: nat, amp: nat)
    requires ptr <= eq < amp <= |text|
    requires Find(text[ptr..], '=') == eq - ptr && Find(text[eq + 1..], '&') == amp - (eq + 1)
    ensures ParamsOf(text[ptr..]) == [Param(text[ptr..eq], text[eq + 1..amp])] + ParamsOf(text[After(text, amp)..])
  {
    Slices(text, ptr, eq);
    Slices(text, eq + 1, amp);
    ParamAt(text[ptr..], eq - ptr, amp - (eq + 1), text[ptr..eq], text[eq + 1..], text[eq + 1..amp], text[After(text, amp)..]);
  }

  lemma AssignLast(fields: Uri, done: seq<Param>, p: Param)
    ensures Fold(Assign, fields, done + [p]) == Assign(Fold(Assign, fields, done), p)
  {
    assert (done + [p])[..|done|] == done;
    assert (done + [p])[..|done| + 1] == done + [p];
    FoldNext(Assign, fields, done + [p], |done|);
  }

  /** The parameters before `ptr` are `done`, and `u` is what they make of the fields. */
  ghost predicate Applied(u: Uri, fields: Uri, ps: seq<Param>, done: seq<Param>, left: seq<Param>) {
    ps == done + left && u == Fold(Assign, fields, done)
  }

  lemma ApplyOne(u: Uri, fields: Uri, ps: seq<Param>, done: seq<Param>, p: Param, left: seq<Param>)
    requires Applied(u, fields, ps, done, [p] + left)
    ensures Applied(Assign(u, p), fields, ps, done + [p], left)
  {
    AssignLast(fields, done, p);
    assert done + ([p] + left) == done + [p] + left;
  }

  /** The parameter at `ptr`, if there is one, and where the next one starts. */
  method NextParam(text: string, ptr: nat) returns (p: Option<Param>, next: nat)
    requires ptr <= |text|
    ensures p.None? ==> ParamsOf(text[ptr..]) == []
    ensures p.Some? ==> ptr < next <= |text| && ParamsOf(text[ptr..]) == [p.value] + ParamsOf(text[next..])
  {
    var eq := StrChr(text, ptr, '=');
    if eq == |text| {
      NoParams(text[ptr..]);
      return None, ptr;
    }
    var value := eq + 1;
    var amp := StrChr(text, value, '&');
    WholeTurn(text, ptr, eq, amp);
    return Some(Param(text[ptr..eq], text[value..amp])), After(text, amp);
  }

  /** The query loop; every turn moves the pointer forward. */
  method ParseParameters(text: string, start: nat, fields: Uri) returns (u: Uri)
    requires start <= |text|
    ensures u == Fold(Assign, fields, ParamsOf(text[start..]))
  {
    u := fields;
    var ptr := start;
    ghost var ps, done: seq<Param> := ParamsOf(text[start..]), [];
    while true
      invariant ptr <= |text|
      invariant Applied(u, fields, ps, done, ParamsOf(text[ptr..]))
      decreases |text| - ptr
    {
      var p, next := NextParam(text, ptr);
      if p.None? {
        assert ps == done;
        return;
      }
      ApplyOne(u, fields, ps, done, p.value, ParamsOf(text[next..]));
      done := done + [p.value];
      u := Assign(u, p.value);
      ptr := next;
    }
  }

  lemma BodyIs(body: string, mark: nat, address: string, query: string)
    requires mark == Find(body, '?') && mark < |body| && body[..mark] == address && body[mark + 1..] == query
    ensures ParseBody(body) == Fold(Assign, Bare(address), ParamsOf(query))
  {
  }

  lemma AddressOnly(body: string)
    requires Find(body, '?') == |body|
    ensures ParseBody(body) == Bare(body)
  {
    assert body[..|body|] == body;
  }

  lemma BodyAt(text: string, start: nat, query: nat)
    requires start <= query < |text| && Find(text[start..], '?') == query - start
    ensures ParseBody(text[start..]) == Fold(Assign, Bare(text[start..query]), ParamsOf(text[query + 1..]))
  {
    Slices(text, start, query);
    BodyIs(text[start..], query - start, text[start..query], text[query + 1..]);
  }

  method ParseMarked(text: string, start: nat, query: nat) returns (u: Uri)
    requires start <= query < |text| && Find(text[start..], '?') == query - start
    ensures u == ParseBody(text[start..])
  {
    u := ParseParameters(text, query + 1, Bare(text[start..query]));
    BodyAt(text, start, query);
  }

  method ParseAddress(text: string, start: nat) returns (u: Uri)
    requires start <= |text|
    ensures u == ParseBody(text[start..])
  {
    var query := StrChr(text, start, '?');
    if query == |text| {
      u := Bare(text[start..]);
      AddressOnly(text[start..]);
    } else {
      u := ParseMarked(text, start, query);
    }
  }

  /** `neoc_neo_uri_parse`. */
  method ParseUri(text: string) returns (r: Result<Uri>)
    ensures r == Parse(text)
  {
    if !(SCHEME <= text) {
      return Err(InvalidFormat);
    }
    var u := ParseAddress(text, 4);
    return Ok(u);
  }

  /** A buffer that holds a terminated string. */
  ghost predicate Holds(buffer: array<char>, text: string)
    reads buffer
  {
    && |text| < buffer.Length
    && buffer[..|text|] == text
    && buffer[|text|] == '\0'
    && '\0' !in text
  }

  /** `strcat`: seeks the terminator and copies from there. */
  method StrCat(buffer: array<char>, s: string, ghost text: string)
    requires Holds(buffer, text) && '\0' !in s
    requires |text| + |s| < buffer.Length
    modifies buffer
    ensures Holds(buffer, text + s)
  {
    var end := 0;
    while buffer[end] != '\0'
      invariant end <= |text|
      decreases |text| - end
    {
      end := end + 1;
    }
    assert end == |text|;
    forall i | 0 <= i < |s| { buffer[end + i] := s[i]; }
    buffer[end + |s|] := '\0';
    assert buffer[..end] == text;
    assert buffer[..end + |s|] == text + s;
  }

  lemma {:induction false} RenderNext(ps: seq<Param>, p: Param)
    ensures Render(ps + [p]) == Render(ps) + (if ps == [] then [] else ['&']) + ParamText(p)
  {
    if ps == [] {
      assert ps + [p] == [p];
    } else {
      assert (ps + [p])[1..] == ps[1..] + [p];
      RenderNext(ps[1..], p);
      if |ps| > 1 {
        assert Render(ps) == ParamText(ps[0]) + ['&'] + Render(ps[1..]);
      } else {
        assert ps[1..] == [];
      }
    }
  }

  function Separator(first: bool): string { if first then [] else ['&'] }

  method Separate(buffer: array<char>, ghost text: string, first: bool)
    requires Holds(buffer, text) && |text| + 1 < buffer.Length
    modifies buffer
    ensures Holds(buffer, text + Separator(first))
  {
    if !first {
      StrCat(buffer, ['&'], text);
    } else {
      assert text + [] == text;
    }
  }

  method AppendPair(buffer: array<char>, ghost text: string, p: Param)
    requires Holds(buffer, text) && '\0' !in p.name && '\0' !in p.value
    requires |text| + |p.name| + |p.value| + 1 < buffer.Length
    modifies buffer
    ensures Holds(buffer, text + ParamText(p))
  {
    StrCat(buffer, p.name + ['='], text);
    StrCat(buffer, p.value, text + (p.name + ['=']));
    assert text + (p.name + ['=']) + p.value == text + ParamText(p);
  }

  lemma RenderedNext(head: string, ps: seq<Param>, p: Param)
    ensures head + Render(ps + [p]) == head + Render(ps) + Separator(ps == []) + ParamText(p)
    ensures |Render(ps + [p])| <= |Render(ps)| + |p.name| + |p.value| + 2
  {
    RenderNext(ps, p);
  }

  /** Appends one parameter, after a separator unless it is the first. */
  method AppendParam(buffer: array<char>, ghost head: string, ghost ps: seq<Param>, first: bool, p: Param)
    requires Holds(buffer, head + Render(ps)) && first == (ps == [])
    requires '\0' !in p.name && '\0' !in p.value
    requires |head| + |Render(ps)| + |p.name| + |p.value| + 2 < buffer.Length
    modifies buffer
    ensures Holds(buffer, head + Render(ps + [p]))
    ensures |Render(ps + [p])| <= |Render(ps)| + |p.name| + |p.value| + 2
  {
    ghost var text := head + Render(ps);
    Separate(buffer, text, first);
    AppendPair(buffer, text + Separator(first), p);
    RenderedNext(head, ps, p);
  }

  /** The characters reserved for an optional parameter: name, '=', value and one more. */
  function Room(ps: seq<Param>): nat
    requires |ps| <= 1
  {
    if ps == [] then 0 else |ps[0].name| + |ps[0].value| + 2
  }

  /** One optional parameter of the query. */
  method AppendOptional(buffer: array<char>, ghost head: string, ghost ps: seq<Param>, first: bool, more: seq<Param>)
    returns (first': bool)
    requires Holds(buffer, head + Render(ps)) && first == (ps == [])
    requires |more| <= 1 && (more != [] ==> '\0' !in more[0].name && '\0' !in more[0].value)
    requires |head| + |Render(ps)| + Room(more) < buffer.Length
    modifies buffer
    ensures Holds(buffer, head + Render(ps + more)) && first' == (ps + more == [])
    ensures |Render(ps + more)| <= |Render(ps)| + Room(more)
  {
    if more == [] {
      assert ps + more == ps;
      return first;
    }
    assert more == [more[0]];
    AppendParam(buffer, head, ps, first, more[0]);
    return false;
  }

  /** C strings do not contain the terminator. */
  predicate Terminable(u: Uri) {
    '\0' !in u.address && !Has(u.asset, '\0') && !Has(u.description, '\0')
  }

  /** The size that the builder computes before it writes: twenty digits are set aside for an amount. */
  function Size(u: Uri): nat {
    4 + |u.address| + 1
    + (if u.asset.Some? || u.amount > 0 || u.description.Some? then 1 else 0)
    + (if u.asset.Some? then 6 + |u.asset.value| + 1 else 0)
    + (if u.amount > 0 then 7 + 20 + 1 else 0)
    + (if u.description.Some? then 12 + |u.description.value| + 1 else 0)
  }

  lemma RoomIsReserved(u: Uri)
    requires u.amount <= MAX64
    ensures 4 + |u.address| + Room(AssetParams(u)) + Room(AmountParams(u)) + Room(DescriptionParams(u))
         <= Size(u) - (if Params(u) == [] then 1 else 2)
  {
    Numeral64(u.amount);
    assert |"asset"| == 5 && |"amount"| == 6 && |"description"| == 11;
  }

  lemma NoTerminators(u: Uri)
    requires Terminable(u)
    ensures forall p :: p in Params(u) ==> '\0' !in p.name && '\0' !in p.value
  {
    assert '\0' !in "asset" && '\0' !in "amount" && '\0' !in "description";
    NumeralHasNo(u.amount, '\0');
  }

  /** The query string, written behind `head`. */
  method AppendQuery(buffer: array<char>, ghost head: string, u: Uri)
    requires Holds(buffer, head) && Terminable(u)
    requires |head| + Room(AssetParams(u)) + Room(AmountParams(u)) + Room(DescriptionParams(u)) < buffer.Length
    modifies buffer
    ensures Holds(buffer, head + Render(Params(u)))
  {
    NoTerminators(u);
    assert head + Render([]) == head && [] + AssetParams(u) == AssetParams(u);
    var first := AppendOptional(buffer, head, [], true, AssetParams(u));
    first := AppendOptional(buffer, head, AssetParams(u), first, AmountParams(u));
    first := AppendOptional(buffer, head, AssetParams(u) + AmountParams(u), first, DescriptionParams(u));
  }

  /** The zeroed buffer with the scheme and the address. */
  method StartUri(address: string, size: nat) returns (uri: array<char>)
    requires '\0' !in address && 4 + |address| < size
    ensures fresh(uri) && uri.Length == size && Holds(uri, SCHEME + address)
  {
    uri := new char[size](_ => '\0');
    StrCat(uri, SCHEME, []);
    assert [] + SCHEME == SCHEME;
    StrCat(uri, address, SCHEME);
  }

  lemma BuildIs(u: Uri)
    ensures Params(u) == [] <==> u.asset.None? && u.amount == 0 && u.description.None?
    ensures Build(u) == if Params(u) == [] then SCHEME + u.address else SCHEME + u.address + ['?'] + Render(Params(u))
  {
    AssociateBody(SCHEME, u.address, ['?'], Render(Params(u)));
  }

  lemma AssociateBody(a: string, b: string, c: string, d: string)
    ensures a + (b + c + d) == a + b + c + d
  {
  }

  /** `neoc_neo_uri_build`: the text fits the buffer that was sized before writing. */
  method BuildUri(u: Uri) returns (uri: array<char>)
    requires u.amount <= MAX64 && Terminable(u)
    ensures fresh(uri) && uri.Length == Size(u)
    ensures Holds(uri, Build(u))
  {
    RoomIsReserved(u);
    BuildIs(u);
    uri := StartUri(u.address, Size(u));
    ghost var head := SCHEME + u.address;
    if u.asset.Some? || u.amount > 0 || u.description.Some? {
      StrCat(uri, ['?'], head);
      AppendQuery(uri, head + ['?'], u);
    }
  }
}
