/** NEF contract files as values: what `src/contract/nef_file.c` writes, checks and parses. */
module Nef {
  import opened Prelude
  import opened Endian
  import opened BinaryIO

  const MAGIC: nat := 0x3346454E
  const MAX_SCRIPT: nat := 512000
  const MAX_SOURCE: nat := 255
  const MAX_TOKENS: nat := 128
  /** `sizeof(neoc_nef_header_t)`, which the parser demands as a minimum. */
  const HEADER_SIZE: nat := 328

  /** `compiler` and `source` are the 64- and 256-byte buffers, `method` the 32-byte buffer. */
  datatype Header = Header(magic: nat, compiler: seq<Byte>, source: seq<Byte>, reserved: seq<Byte>, reserved2: Byte)
  datatype Token = Token(hash: seq<Byte>, name: seq<Byte>, parameters: nat, hasReturn: bool, flags: Byte)
  datatype File = File(header: Header, tokens: seq<Token>, script: seq<Byte>, checksum: seq<Byte>)

  function Zeros(n: nat): (zeros: seq<Byte>)
    ensures |zeros| == n && forall i :: 0 <= i < n ==> zeros[i] == 0
  {
    seq(n, _ => 0)
  }

  /** `strlen`, bounded by the buffer. */
  function StrLen(buffer: seq<Byte>): (n: nat)
    ensures n <= |buffer| && 0 !in buffer[..n]
    ensures n < |buffer| ==> buffer[n] == 0
  {
    if buffer == [] || buffer[0] == 0 then 0
    else
      var n := StrLen(buffer[1..]);
      assert buffer[..n + 1] == [buffer[0]] + buffer[1..][..n];
      n + 1
  }

  function Text(buffer: seq<Byte>): seq<Byte> { buffer[..StrLen(buffer)] }

  /** A string in a zero-filled buffer. */
  function Padded(text: seq<Byte>, size: nat): (buffer: seq<Byte>)
    requires |text| <= size
    ensures |buffer| == size
  {
    text + Zeros(size - |text|)
  }

  lemma {:induction false} StrLenOfText(text: seq<Byte>, rest: seq<Byte>)
    requires 0 !in text && (rest == [] || rest[0] == 0)
    ensures StrLen(text + rest) == |text|
  {
    if text == [] {
      assert text + rest == rest;
    } else {
      assert (text + rest)[1..] == text[1..] + rest;
      StrLenOfText(text[1..], rest);
    }
  }

  lemma TextOfPadded(text: seq<Byte>, size: nat)
    requires 0 !in text && |text| <= size
    ensures Text(Padded(text, size)) == text
  {
    StrLenOfText(text, Zeros(size - |text|));
    assert Padded(text, size)[..|text|] == text;
  }

  // ----- Serialization ------------------------------------------------------------------------

  /** A string with its length in front. */
  function NameBytes(buffer: seq<Byte>): seq<Byte> { [|Text(buffer)| % 256] + Text(buffer) }

  function SignatureBytes(t: Token): seq<Byte> {
    Little(t.parameters, 2) + [if t.hasReturn then 1 else 0] + [t.flags]
  }

  function TokenBytes(t: Token): seq<Byte> { t.hash + NameBytes(t.name) + SignatureBytes(t) }

  function TokensBytes(ts: seq<Token>): seq<Byte> { WriteAll(TokenBytes, ts) }

  function CountedTokens(ts: seq<Token>): seq<Byte> { [|ts| % 256] + TokensBytes(ts) }

  function EndBytes(f: File): seq<Byte> { [f.header.reserved2] + VarBytes(f.script) }

  /** Everything behind the compiler field and before the checksum. */
  function RestBytes(f: File): seq<Byte> {
    NameBytes(f.header.source) + f.header.reserved + CountedTokens(f.tokens) + EndBytes(f)
  }

  // The checksum is computed over the output of a second serializer, which is written out separately.

  function BodyToken(t: Token): seq<Byte> {
    t.hash + [|Text(t.name)| % 256] + Text(t.name) + Little(t.parameters, 2) + [if t.hasReturn then 1 else 0] + [t.flags]
  }

  function BodyRest(f: File): seq<Byte> {
    [|Text(f.header.source)| % 256] + Text(f.header.source) + f.header.reserved + [|f.tokens| % 256]
    + WriteAll(BodyToken, f.tokens) + [f.header.reserved2] + VarBytes(f.script)
  }

  /** The bytes that the checksum covers: the compiler buffer goes in as it is. */
  function Body(f: File): seq<Byte> {
    Little(f.header.magic, 4) + f.header.compiler + BodyRest(f)
  }

  /** The compiler field as `to_bytes` writes it: the string, cut at 63 bytes, in a zeroed buffer. */
  function CompilerField(compiler: seq<Byte>): (field: seq<Byte>)
    ensures |field| == 64
  {
    var n := StrLen(compiler);
    Padded(compiler[..if n > 63 then 63 else n], 64)
  }

  function ToBytes(f: File): seq<Byte> {
    Little(f.header.magic, 4) + CompilerField(f.header.compiler) + RestBytes(f) + f.checksum
  }

  /** Double SHA-256 of the body. */
  function Checksum(f: File, sha: seq<Byte> -> seq<Byte>): seq<Byte> { sha(sha(Body(f))) }

  // ----- Operations ---------------------------------------------------------------------------

  /** A C string. */
  predicate CString(s: seq<Byte>) { 0 !in s }

  /** `neoc_nef_file_create`; an empty script cannot be allocated. */
  function Create(compiler: seq<Byte>, source: seq<Byte>, script: seq<Byte>, sha: seq<Byte> -> seq<Byte>): Result<File> {
    if |script| > MAX_SCRIPT then Err(InvalidSize)
    else if |compiler| > 63 then Err(InvalidSize)
    else if |source| > MAX_SOURCE then Err(InvalidSize)
    else if script == [] then Err(OutOfMemory)
    else
      var f := File(Header(MAGIC, Padded(compiler, 64), Padded(source, 256), [0, 0], 0), [], script, []);
      Ok(f.(checksum := Checksum(f, sha)))
  }

  /** The arguments of `neoc_nef_file_add_method_token`. */
  datatype Request = Request(hash: seq<Byte>, name: seq<Byte>, parameters: nat, hasReturn: bool, flags: Byte)

  predicate LegalRequest(q: Request) { |q.hash| == 20 && CString(q.name) && q.parameters < 0x1_0000 }

  function NewToken(q: Request): Token
    requires |q.name| <= 31
  {
    Token(q.hash, Padded(q.name, 32), q.parameters, q.hasReturn, q.flags)
  }

  /** Appends the token and refreshes the checksum; a refused request changes nothing. */
  function AddToken(f: File, q: Request, sha: seq<Byte> -> seq<Byte>): Result<File> {
    if |q.name| > 31 then Err(InvalidSize)
    else if |f.tokens| >= MAX_TOKENS then Err(InvalidSize)
    else
      var f' := f.(tokens := f.tokens + [NewToken(q)]);
      Ok(f'.(checksum := Checksum(f', sha)))
  }

  predicate VerifyChecksum(f: File, sha: seq<Byte> -> seq<Byte>) { Checksum(f, sha) == f.checksum }

  /** A run of additions, in which a refused one is skipped. */
  function AddTokens(f: File, qs: seq<Request>, sha: seq<Byte> -> seq<Byte>): File
    decreases |qs|
  {
    if qs == [] then f
    else
      var r := AddToken(f, qs[0], sha);
      AddTokens(if r.Ok? then r.value else f, qs[1..], sha)
  }

  // ----- Parsing ------------------------------------------------------------------------------

  function TakeName(bytes: seq<Byte>): Result<Parsed<seq<Byte>>> {
    var length :- TakeByte(bytes);
    if length.value >= 32 then Err(InvalidFormat)
    else
      var name :- Take(length.rest, length.value);
      TakeLength(length.rest, length.value);
      Ok(Parsed(Padded(name.value, 32), name.rest))
  }

  /** The fields of a token behind its name. */
  function TakeSignature(bytes: seq<Byte>, hash: seq<Byte>, name: seq<Byte>): Result<Parsed<Token>> {
    var parameters :- TakeNumber(bytes, 2);
    var hasReturn :- TakeByte(parameters.rest);
    var flags :- TakeByte(hasReturn.rest);
    Ok(Parsed(Token(hash, name, parameters.value, hasReturn.value != 0, flags.value), flags.rest))
  }

  function TakeToken(bytes: seq<Byte>): Result<Parsed<Token>> {
    var hash :- Take(bytes, 20);
    var name :- TakeName(hash.rest);
    TakeSignature(name.rest, hash.value, name.value)
  }

  lemma TakeLength(bytes: seq<Byte>, n: nat)
    ensures Take(bytes, n).Ok? ==> |Take(bytes, n).value.value| == n
  {
  }

  function TakeTokens(bytes: seq<Byte>, n: nat): Result<Parsed<seq<Token>>> { TakeAll(TakeToken, bytes, n) }

  function TakeSource(bytes: seq<Byte>): Result<Parsed<seq<Byte>>> {
    var length :- TakeByte(bytes);
    if length.value >= 255 then Err(InvalidFormat)
    else
      var source :- Take(length.rest, length.value);
      TakeLength(length.rest, length.value);
      Ok(Parsed(Padded(source.value, 256), source.rest))
  }

  /** What follows the tokens. */
  function TakeEnd(bytes: seq<Byte>, header: Header, tokens: seq<Token>, memory: Memory): Result<File> {
    var reserved2 :- TakeByte(bytes);
    var script :- TakeVarBytes(reserved2.rest, memory);
    var checksum :- Take(script.rest, 32);
    Ok(File(header.(reserved2 := reserved2.value), tokens, script.value, checksum.value))
  }

  /** The fields behind the compiler. */
  function TakeRest(bytes: seq<Byte>, compiler: seq<Byte>, memory: Memory): Result<File> {
    var source :- TakeSource(bytes);
    var reserved :- Take(source.rest, 2);
    var count :- TakeByte(reserved.rest);
    var tokens :- TakeTokens(count.rest, count.value);
    TakeEnd(tokens.rest, Header(MAGIC, compiler, source.value, reserved.value, 0), tokens.value, memory)
  }

  /** `memory` answers the allocation of the script. */
  function FromBytes(bytes: seq<Byte>, memory: Memory): Result<File> {
    if |bytes| < HEADER_SIZE then Err(InvalidFormat)
    else
      var magic :- TakeNumber(bytes, 4);
      if magic.value != MAGIC then Err(InvalidFormat)
      else
        var compiler :- Take(magic.rest, 64);
        TakeRest(compiler.rest, compiler.value, memory)
  }

  // ----- Files that create and add_method_token build -----------------------------------------

  predicate BuiltToken(t: Token) {
    && |t.hash| == 20
    && t.parameters < 0x1_0000
    && StrLen(t.name) <= 31
    && |t.name| == 32
    && t.name == Padded(Text(t.name), 32)
  }

  predicate BuiltHeader(h: Header) {
    && h.magic == MAGIC
    && h.reserved == [0, 0]
    && h.reserved2 == 0
    && |h.compiler| == 64 && StrLen(h.compiler) <= 63 && h.compiler == Padded(Text(h.compiler), 64)
    && |h.source| == 256 && StrLen(h.source) <= MAX_SOURCE && h.source == Padded(Text(h.source), 256)
  }

  /** What holds of a file after creation and any number of additions. */
  ghost predicate Built(f: File, sha: seq<Byte> -> seq<Byte>) {
    && BuiltHeader(f.header)
    && |f.tokens| <= MAX_TOKENS
    && (forall i :: 0 <= i < |f.tokens| ==> BuiltToken(f.tokens[i]))
    && 0 < |f.script| <= MAX_SCRIPT
    && f.checksum == Checksum(f, sha)
  }

  lemma CreateBuilds(compiler: seq<Byte>, source: seq<Byte>, script: seq<Byte>, sha: seq<Byte> -> seq<Byte>)
    requires CString(compiler) && CString(source) && Create(compiler, source, script, sha).Ok?
    ensures Built(Create(compiler, source, script, sha).value, sha)
  {
    TextOfPadded(compiler, 64);
    TextOfPadded(source, 256);
  }

  lemma AddTokenBuilds(f: File, q: Request, sha: seq<Byte> -> seq<Byte>)
    requires Built(f, sha) && LegalRequest(q) && AddToken(f, q, sha).Ok?
    ensures Built(AddToken(f, q, sha).value, sha)
  {
    TextOfPadded(q.name, 32);
  }

  lemma {:induction false} AddTokensBuilds(f: File, qs: seq<Request>, sha: seq<Byte> -> seq<Byte>)
    requires Built(f, sha) && forall i :: 0 <= i < |qs| ==> LegalRequest(qs[i])
    ensures Built(AddTokens(f, qs, sha), sha)
    decreases |qs|
  {
    if qs != [] {
      var r := AddToken(f, qs[0], sha);
      if r.Ok? {
        AddTokenBuilds(f, qs[0], sha);
      }
      AddTokensBuilds(if r.Ok? then r.value else f, qs[1..], sha);
    }
  }

  // ----- What creation and addition do --------------------------------------------------------

  /** Creation succeeds exactly within the limits, and stores what it is given. */
  lemma CreateExactly(compiler: seq<Byte>, source: seq<Byte>, script: seq<Byte>, sha: seq<Byte> -> seq<Byte>)
    requires CString(compiler) && CString(source)
    ensures var r := Create(compiler, source, script, sha);
            && (r.Ok? <==> 0 < |script| <= 512000 && |compiler| <= 63 && |source| <= 255)
            && (r.Ok? ==>
                  && Text(r.value.header.compiler) == compiler && Text(r.value.header.source) == source
                  && r.value.tokens == [] && r.value.script == script
                  && r.value.header.reserved == [0, 0] && r.value.header.reserved2 == 0)
  {
    if Create(compiler, source, script, sha).Ok? {
      TextOfPadded(compiler, 64);
      TextOfPadded(source, 256);
    }
  }

  /** The token that a request asks for. */
  ghost predicate Answers(t: Token, q: Request) {
    t.hash == q.hash && Text(t.name) == q.name && t.parameters == q.parameters && t.hasReturn == q.hasReturn && t.flags == q.flags
  }

  /** The requests that a run accepts: those with a name of at most 31 bytes, as long as there are fewer than 128 tokens. */
  function Accepted(count: nat, qs: seq<Request>): seq<Request>
    decreases |qs|
  {
    if qs == [] then []
    else if |qs[0].name| <= 31 && count < 128 then [qs[0]] + Accepted(count + 1, qs[1..])
    else Accepted(count, qs[1..])
  }

  /** A run of additions appends a token for each accepted request, in order, and changes nothing else but the checksum. */
  lemma {:induction false} RunAppends(f: File, qs: seq<Request>, sha: seq<Byte> -> seq<Byte>, i: nat)
    requires forall j :: 0 <= j < |qs| ==> LegalRequest(qs[j])
    requires i < |Accepted(|f.tokens|, qs)|
    ensures var f', accepted := AddTokens(f, qs, sha), Accepted(|f.tokens|, qs);
            && |f'.tokens| == |f.tokens| + |accepted| && f'.tokens[..|f.tokens|] == f.tokens
            && Answers(f'.tokens[|f.tokens| + i], accepted[i])
    decreases |qs|
  {
    RunCounts(f, qs, sha);
    var r := AddToken(f, qs[0], sha);
    if r.Ok? {
      TextOfPadded(qs[0].name, 32);
      RunCounts(r.value, qs[1..], sha);
      if i > 0 {
        RunAppends(r.value, qs[1..], sha, i - 1);
      } else {
        assert AddTokens(f, qs, sha).tokens[|f.tokens|] == r.value.tokens[|f.tokens|];
      }
    } else {
      RunAppends(f, qs[1..], sha, i);
    }
  }

  lemma {:induction false} RunCounts(f: File, qs: seq<Request>, sha: seq<Byte> -> seq<Byte>)
    ensures var f' := AddTokens(f, qs, sha);
            |f'.tokens| == |f.tokens| + |Accepted(|f.tokens|, qs)| && f'.tokens[..|f.tokens|] == f.tokens
    decreases |qs|
  {
    if qs != [] {
      var r := AddToken(f, qs[0], sha);
      if r.Ok? {
        RunCounts(r.value, qs[1..], sha);
        assert AddTokens(f, qs, sha).tokens[..|f.tokens|] == r.value.tokens[..|f.tokens|];
      } else {
        RunCounts(f, qs[1..], sha);
      }
    }
  }

  // ----- The two serializers ------------------------------------------------------------------

  /** The buffer ends in zeros from its string on. */
  predicate ZeroPadded(compiler: seq<Byte>) {
    && |compiler| == 64
    && compiler[63] == 0
    && forall i :: StrLen(compiler) <= i < 64 ==> compiler[i] == 0
  }

  lemma CompilerFieldIs(compiler: seq<Byte>)
    requires |compiler| == 64
    ensures CompilerField(compiler) == compiler <==> ZeroPadded(compiler)
  {
    var field, n := CompilerField(compiler), StrLen(compiler);
    assert field[63] == 0;
    assert forall i :: n <= i < 64 ==> field[i] == 0;
    if ZeroPadded(compiler) {
      assert field == compiler;
    }
  }

  lemma Associate3(a: seq<Byte>, b: seq<Byte>, c: seq<Byte>)
    ensures a + b + c == a + (b + c)
  {
  }

  /** The two ways of writing a token agree. */
  lemma TokensAgree(t: Token)
    ensures BodyToken(t) == TokenBytes(t)
  {
    var text, parameters, hasReturn: Byte := Text(t.name), Little(t.parameters, 2), if t.hasReturn then 1 else 0;
    var length: Byte := |text| % 256;
    Associate3(t.hash, [length], text);
    Associate3(t.hash + [length] + text, parameters, [hasReturn]);
    Associate3(t.hash + [length] + text, parameters + [hasReturn], [t.flags]);
  }

  lemma {:induction false} SameWriters<T>(f: T -> seq<Byte>, g: T -> seq<Byte>, xs: seq<T>)
    requires forall x :: x in xs ==> f(x) == g(x)
    ensures WriteAll(f, xs) == WriteAll(g, xs)
  {
    if xs != [] {
      SameWriters(f, g, xs[..|xs| - 1]);
    }
  }

  lemma Regroup(a: seq<Byte>, b: seq<Byte>, c: seq<Byte>, d: seq<Byte>, e: seq<Byte>, f: seq<Byte>, g: seq<Byte>)
    ensures a + b + c + d + e + f + g == a + b + c + (d + e) + (f + g)
  {
    Associate3(a + b + c, d, e);
    Associate3(a + b + c + (d + e), f, g);
  }

  /** The two ways of writing everything behind the compiler field agree. */
  lemma RestsAgree(f: File)
    ensures BodyRest(f) == RestBytes(f)
  {
    forall t
      ensures BodyToken(t) == TokenBytes(t)
    {
      TokensAgree(t);
    }
    SameWriters(BodyToken, TokenBytes, f.tokens);
    var text := Text(f.header.source);
    var length: Byte, count: Byte := |text| % 256, |f.tokens| % 256;
    Regroup([length], text, f.header.reserved, [count], TokensBytes(f.tokens), [f.header.reserved2], VarBytes(f.script));
  }

  lemma SamePrefix(a: seq<Byte>, b: seq<Byte>, c: seq<Byte>, d: seq<Byte>)
    requires |b| == |c|
    ensures a + b + d == a + c + d <==> b == c
  {
    if a + b + d == a + c + d {
      assert b == (a + b + d)[|a|..|a| + |b|];
      assert c == (a + c + d)[|a|..|a| + |c|];
    }
  }

  /** `to_bytes` writes the checksummed string and the checksum exactly when the compiler buffer is zero-padded. */
  lemma SerializersAgree(f: File)
    requires |f.header.compiler| == 64
    ensures ToBytes(f) == Body(f) + f.checksum <==> ZeroPadded(f.header.compiler)
  {
    RestsAgree(f);
    var magic, rest := Little(f.header.magic, 4), RestBytes(f);
    var field := CompilerField(f.header.compiler);
    CompilerFieldIs(f.header.compiler);
    SamePrefix(magic, field, f.header.compiler, rest);
    var a, b := magic + field + rest, magic + f.header.compiler + rest;
    if a + f.checksum == b + f.checksum {
      assert a == (a + f.checksum)[..|a|] && b == (b + f.checksum)[..|b|];
    }
  }

  // ----- Reading a written file ---------------------------------------------------------------

  lemma Associate4(a: seq<Byte>, b: seq<Byte>, c: seq<Byte>, d: seq<Byte>)
    ensures a + b + c + d == a + (b + (c + d))
  {
  }

  lemma Associate5(a: seq<Byte>, b: seq<Byte>, c: seq<Byte>, d: seq<Byte>, e: seq<Byte>)
    ensures a + b + c + d + e == a + (b + (c + (d + e)))
  {
  }

  lemma TakeLengthAndMore(n: nat, bytes: seq<Byte>, rest: seq<Byte>)
    requires n < 256
    ensures TakeByte([n % 256] + bytes + rest) == Ok(Parsed(n, bytes + rest))
  {
    Associate3([n % 256], bytes, rest);
    TakeWrittenByte(n % 256, bytes + rest);
  }

  lemma TakeWrittenName(name: seq<Byte>, rest: seq<Byte>)
    requires |name| == 32 && StrLen(name) <= 31 && name == Padded(Text(name), 32)
    ensures TakeName(NameBytes(name) + rest) == Ok(Parsed(name, rest))
  {
    TakeLengthAndMore(|Text(name)|, Text(name), rest);
    TakeWritten(Text(name), rest);
  }

  lemma TakeWrittenSignature(t: Token, rest: seq<Byte>)
    requires t.parameters < 0x1_0000
    ensures TakeSignature(SignatureBytes(t) + rest, t.hash, t.name) == Ok(Parsed(t, rest))
  {
    var hasReturn: Byte, flags := if t.hasReturn then 1 else 0, [t.flags] + rest;
    Associate4(Little(t.parameters, 2), [hasReturn], [t.flags], rest);
    Powers();
    TakeWrittenNumber(t.parameters, 2, [hasReturn] + flags);
    TakeWrittenByte(hasReturn, flags);
    TakeWrittenByte(t.flags, rest);
  }

  lemma TakeWrittenToken(t: Token, rest: seq<Byte>)
    requires BuiltToken(t)
    ensures TakeToken(TokenBytes(t) + rest) == Ok(Parsed(t, rest))
  {
    Associate4(t.hash, NameBytes(t.name), SignatureBytes(t), rest);
    TakeWritten(t.hash, NameBytes(t.name) + (SignatureBytes(t) + rest));
    TakeWrittenName(t.name, SignatureBytes(t) + rest);
    TakeWrittenSignature(t, rest);
  }

  lemma {:induction false} TakeWrittenTokens(ts: seq<Token>, rest: seq<Byte>)
    requires forall i :: 0 <= i < |ts| ==> BuiltToken(ts[i])
    ensures TakeTokens(TokensBytes(ts) + rest, |ts|) == Ok(Parsed(ts, rest))
  {
    if ts == [] {
      assert [] + rest == rest;
    } else {
      var others := ts[1..];
      assert ts == [ts[0]] + others;
      WriteFirst(TokenBytes, ts[0], others);
      Associate3(TokenBytes(ts[0]), TokensBytes(others), rest);
      TakeWrittenToken(ts[0], TokensBytes(others) + rest);
      TakeWrittenTokens(others, rest);
    }
  }

  lemma TakeWrittenSource(source: seq<Byte>, rest: seq<Byte>)
    requires |source| == 256 && StrLen(source) <= MAX_SOURCE && source == Padded(Text(source), 256)
    ensures TakeSource(NameBytes(source) + rest)
         == if |Text(source)| <= 254 then Ok(Parsed(source, rest)) else Err(InvalidFormat)
  {
    TakeLengthAndMore(|Text(source)|, Text(source), rest);
    TakeWritten(Text(source), rest);
  }

  lemma TakeWrittenCount(ts: seq<Token>, rest: seq<Byte>)
    requires |ts| < 256
    ensures TakeByte(CountedTokens(ts) + rest) == Ok(Parsed(|ts|, TokensBytes(ts) + rest))
  {
    TakeLengthAndMore(|ts|, TokensBytes(ts), rest);
  }

  /** What the parser can tell apart; it sets no other limits on the fields. */
  predicate Readable(f: File) {
    && f.header.magic == MAGIC && |f.header.compiler| == 64 && |f.header.reserved| == 2
    && |f.header.source| == 256 && StrLen(f.header.source) <= 255 && f.header.source == Padded(Text(f.header.source), 256)
    && |f.tokens| < 256 && (forall i :: 0 <= i < |f.tokens| ==> BuiltToken(f.tokens[i]))
    && |f.script| < 0x1_0000_0000_0000_0000 && |f.checksum| == 32
  }

  predicate Served(f: File, memory: Memory) { f.script == [] || memory(|f.script|) }

  lemma TakeWrittenEnd(f: File, more: seq<Byte>, memory: Memory)
    requires |f.script| < 0x1_0000_0000_0000_0000 && |f.checksum| == 32
    ensures TakeEnd(EndBytes(f) + (f.checksum + more), f.header.(reserved2 := 0), f.tokens, memory)
         == if Served(f, memory) then Ok(f) else Err(OutOfMemory)
  {
    var last := f.checksum + more;
    Associate3([f.header.reserved2], VarBytes(f.script), last);
    TakeWrittenByte(f.header.reserved2, VarBytes(f.script) + last);
    TakeWrittenVarBytes(f.script, last, memory);
    TakeWritten(f.checksum, more);
  }

  lemma TakeWrittenRest(f: File, more: seq<Byte>, memory: Memory)
    requires Readable(f)
    ensures TakeRest(RestBytes(f) + (f.checksum + more), f.header.compiler, memory)
         == if StrLen(f.header.source) == 255 then Err(InvalidFormat) else if Served(f, memory) then Ok(f) else Err(OutOfMemory)
  {
    var h, tokens, end := f.header, CountedTokens(f.tokens), EndBytes(f) + (f.checksum + more);
    Associate5(NameBytes(h.source), h.reserved, tokens, EndBytes(f), f.checksum + more);
    TakeWrittenSource(h.source, h.reserved + (tokens + end));
    TakeWritten(h.reserved, tokens + end);
    TakeWrittenCount(f.tokens, end);
    TakeWrittenTokens(f.tokens, end);
    TakeWrittenEnd(f, more, memory);
  }

  lemma BuiltCompiler(f: File, sha: seq<Byte> -> seq<Byte>)
    requires Built(f, sha)
    ensures ZeroPadded(f.header.compiler) && CompilerField(f.header.compiler) == f.header.compiler
  {
    CompilerFieldIs(f.header.compiler);
  }

  /**
   * Any readable fields, laid out in order and followed by any bytes, are parsed to exactly those fields; the checksum
   * is not looked at.  Only a short text, a source of 255 bytes and a script without memory are refused.
   */
  lemma ParseLaidOut(f: File, more: seq<Byte>, memory: Memory)
    requires Readable(f)
    ensures var bytes := Little(MAGIC, 4) + f.header.compiler + RestBytes(f) + (f.checksum + more);
            FromBytes(bytes, memory) ==
              if |bytes| < 328 || StrLen(f.header.source) == 255 then Err(InvalidFormat)
              else if Served(f, memory) then Ok(f) else Err(OutOfMemory)
  {
    var rest := RestBytes(f) + (f.checksum + more);
    Associate4(Little(MAGIC, 4), f.header.compiler, RestBytes(f), f.checksum + more);
    Powers();
    TakeWrittenNumber(MAGIC, 4, f.header.compiler + rest);
    TakeWritten(f.header.compiler, rest);
    TakeWrittenRest(f, more, memory);
  }

  /** A built file of the parser's minimal size is parsed back unless its source takes all 255 bytes or memory is short. */
  lemma ParseWritten(f: File, sha: seq<Byte> -> seq<Byte>, memory: Memory)
    requires Built(f, sha) && Digest(sha)
    ensures FromBytes(ToBytes(f), memory)
         == if |Text(f.header.source)| > 254 || |ToBytes(f)| < HEADER_SIZE then Err(InvalidFormat)
            else if memory(|f.script|) then Ok(f) else Err(OutOfMemory)
  {
    BuiltCompiler(f, sha);
    assert f.checksum + [] == f.checksum;
    ParseLaidOut(f, [], memory);
  }

  // ----- Whole runs ---------------------------------------------------------------------------

  function TokenSize(t: Token): int { 25 + StrLen(t.name) }

  lemma {:induction false} TokensSize(ts: seq<Token>)
    requires forall i :: 0 <= i < |ts| ==> BuiltToken(ts[i])
    ensures |TokensBytes(ts)| == Sum(ts, TokenSize)
  {
    if ts != [] {
      var init := ts[..|ts| - 1];
      TokensSize(init);
      assert ts == init + [ts[|ts| - 1]];
      SumConcat(init, [ts[|ts| - 1]], TokenSize);
      assert Sum([ts[|ts| - 1]], TokenSize) == TokenSize(ts[|ts| - 1]) + Sum([], TokenSize);
    }
  }

  lemma FileSize(f: File, sha: seq<Byte> -> seq<Byte>)
    requires Built(f, sha) && Digest(sha)
    ensures |ToBytes(f)| == 105 + StrLen(f.header.source) + Sum(f.tokens, TokenSize) + |VarBytes(f.script)|
  {
    TokensSize(f.tokens);
  }

  lemma {:induction false} AddTokensKeeps(f: File, qs: seq<Request>, sha: seq<Byte> -> seq<Byte>)
    ensures AddTokens(f, qs, sha).header == f.header && AddTokens(f, qs, sha).script == f.script
    decreases |qs|
  {
    if qs != [] {
      var r := AddToken(f, qs[0], sha);
      AddTokensKeeps(if r.Ok? then r.value else f, qs[1..], sha);
    }
  }

  /** The last 32 bytes are the double digest of those before them. */
  ghost predicate EndsInDigest(b: seq<Byte>, sha: seq<Byte> -> seq<Byte>) {
    |b| >= 32 && b[|b| - 32..] == sha(sha(b[..|b| - 32]))
  }

  /** Of a file with a zero-padded compiler buffer, the checksum verifies exactly if its bytes end in their digest. */
  lemma VerifyMeans(f: File, sha: seq<Byte> -> seq<Byte>)
    requires ZeroPadded(f.header.compiler) && |f.checksum| == 32
    ensures VerifyChecksum(f, sha) <==> EndsInDigest(ToBytes(f), sha)
  {
    SerializersAgree(f);
    var b := ToBytes(f);
    assert b[..|b| - 32] == Body(f) && b[|b| - 32..] == f.checksum;
  }

  lemma BuiltIsSound(f: File, sha: seq<Byte> -> seq<Byte>, memory: Memory)
    requires Built(f, sha) && Digest(sha)
    ensures VerifyChecksum(f, sha) && ToBytes(f) == Body(f) + f.checksum && EndsInDigest(ToBytes(f), sha)
    ensures FromBytes(ToBytes(f), memory) == Ok(f) <==>
              && StrLen(f.header.source) <= 254
              && StrLen(f.header.source) + Sum(f.tokens, TokenSize) + |VarBytes(f.script)| >= 223
              && memory(|f.script|)
  {
    BuiltCompiler(f, sha);
    SerializersAgree(f);
    VerifyMeans(f, sha);
    ParseWritten(f, sha, memory);
    FileSize(f, sha);
  }

  /**
   * Whatever file is created and whatever tokens are added: the stored checksum verifies, `to_bytes` is the
   * checksummed string and its double digest, and parsing that gives the file back if and only if the source has at most
   * 254 bytes, the parts add up to the parser's minimum and there is memory for the script.
   */
  lemma EveryRun(compiler: seq<Byte>, source: seq<Byte>, script: seq<Byte>, qs: seq<Request>, sha: seq<Byte> -> seq<Byte>,
                 memory: Memory)
    requires Digest(sha) && CString(compiler) && CString(source)
    requires Create(compiler, source, script, sha).Ok? && forall i :: 0 <= i < |qs| ==> LegalRequest(qs[i])
    ensures var f := AddTokens(Create(compiler, source, script, sha).value, qs, sha);
            && VerifyChecksum(f, sha)
            && ToBytes(f) == Body(f) + f.checksum
            && EndsInDigest(ToBytes(f), sha)
            && (FromBytes(ToBytes(f), memory) == Ok(f) <==>
                |source| <= 254 && |source| + Sum(f.tokens, TokenSize) + |VarBytes(script)| >= 223 && memory(|script|))
  {
    var f0 := Create(compiler, source, script, sha).value;
    CreateBuilds(compiler, source, script, sha);
    AddTokensBuilds(f0, qs, sha);
    AddTokensKeeps(f0, qs, sha);
    var f := AddTokens(f0, qs, sha);
    BuiltIsSound(f, sha, memory);
    TextOfPadded(source, 256);
  }

  // ----- Files that are not parsed back -------------------------------------------------------

  /** A source of 255 bytes is accepted by `create` and refused by the parser. */
  lemma LongSourceIsRefused(script: seq<Byte>, sha: seq<Byte> -> seq<Byte>, memory: Memory)
    requires Digest(sha) && 0 < |script| <= MAX_SCRIPT
    ensures var source := seq(255, _ => 97);
            && Create([], source, script, sha).Ok?
            && FromBytes(ToBytes(Create([], source, script, sha).value), memory) == Err(InvalidFormat)
  {
    var source: seq<Byte> := seq(255, _ => 97);
    var f := Create([], source, script, sha).value;
    CreateBuilds([], source, script, sha);
    TextOfPadded(source, 256);
    ParseWritten(f, sha, memory);
  }

  /** So is a file that is shorter than the header structure, such as one with a script of a single byte. */
  lemma ShortFileIsRefused(b: Byte, sha: seq<Byte> -> seq<Byte>, memory: Memory)
    requires Digest(sha)
    ensures FromBytes(ToBytes(Create([], [], [b], sha).value), memory) == Err(InvalidFormat)
  {
    var f := Create([], [], [b], sha).value;
    CreateBuilds([], [], [b], sha);
    TextOfPadded([], 256);
    FileSize(f, sha);
    ParseWritten(f, sha, memory);
  }

  /** A compiler buffer with a byte behind its terminator makes the two serializers disagree. */
  lemma UnpaddedCompilerDisagrees(f: File)
    requires f.header.compiler == [0, 1] + Zeros(62)
    ensures ToBytes(f) != Body(f) + f.checksum
  {
    SerializersAgree(f);
    assert StrLen(f.header.compiler) == 0 && f.header.compiler[1] == 1;
  }

  // ----- Layout -------------------------------------------------------------------------------

  /** Where each field of a token stands. */
  lemma TokenLayout(t: Token)
    requires |t.hash| == 20 && StrLen(t.name) <= 31 && t.parameters < 65536
    ensures var b, n := TokenBytes(t), StrLen(t.name);
            && |b| == 25 + n
            && b[..20] == t.hash && b[20] == n && b[21..21 + n] == Text(t.name)
            && Two(b[21 + n], b[22 + n]) == t.parameters
            && b[23 + n] == (if t.hasReturn then 1 else 0) && b[24 + n] == t.flags
  {
    LittleTwo(t.parameters);
    var b, n := TokenBytes(t), StrLen(t.name);
    assert b[..20] == t.hash;
    assert b[21..21 + n] == Text(t.name);
  }

  /** The whole file as a head of 68 bytes, the source, the reserved bytes, and the rest. */
  lemma FileIs(f: File, sha: seq<Byte> -> seq<Byte>)
    requires Built(f, sha)
    ensures ToBytes(f) == [0x4E, 0x45, 0x46, 0x33] + f.header.compiler + NameBytes(f.header.source) + f.header.reserved
                        + (CountedTokens(f.tokens) + EndBytes(f) + f.checksum)
  {
    BuiltCompiler(f, sha);
    MagicBytes();
    WholeFile([0x4E, 0x45, 0x46, 0x33] + f.header.compiler, NameBytes(f.header.source), f.header.reserved,
              CountedTokens(f.tokens), EndBytes(f), f.checksum);
  }

  lemma AfterCount(f: File)
    requires |f.tokens| < 256 && f.header.reserved2 == 0
    ensures var after := CountedTokens(f.tokens) + EndBytes(f) + f.checksum;
            |after| > 0 && after[0] == |f.tokens| && after[1..] == TokensBytes(f.tokens) + ([0] + VarBytes(f.script)) + f.checksum
  {
  }

  /**
   * The fields of a file by their places: the magic "NEF3", 64 bytes of compiler, the source with its length, two
   * reserved bytes, the number of tokens, the tokens, a reserved byte, the script with its length, and the checksum.
   */
  lemma FileLayout(f: File, sha: seq<Byte> -> seq<Byte>)
    requires Built(f, sha)
    ensures var b, n := ToBytes(f), StrLen(f.header.source);
            && |b| >= 72 + n
            && b[..68] == [0x4E, 0x45, 0x46, 0x33] + f.header.compiler
            && b[68] == n && b[69..69 + n] == Text(f.header.source)
            && b[69 + n] == 0 && b[70 + n] == 0
            && b[71 + n] == |f.tokens|
            && b[72 + n..] == TokensBytes(f.tokens) + ([0] + VarBytes(f.script)) + f.checksum
  {
    FileIs(f, sha);
    AfterCount(f);
    FrontLayout([0x4E, 0x45, 0x46, 0x33] + f.header.compiler, Text(f.header.source), f.header.reserved,
                CountedTokens(f.tokens) + EndBytes(f) + f.checksum, |f.tokens|);
  }

  lemma MagicBytes()
    ensures Little(MAGIC, 4) == [0x4E, 0x45, 0x46, 0x33]
  {
    assert MAGIC == 0x4E + 256 * 0x334645 && 0x334645 == 0x45 + 256 * 0x3346 && 0x3346 == 0x46 + 256 * 0x33;
  }

  lemma WholeFile(head: seq<Byte>, a: seq<Byte>, b: seq<Byte>, c: seq<Byte>, d: seq<Byte>, e: seq<Byte>)
    ensures head + (a + b + c + d) + e == head + a + b + (c + d + e)
  {
    Associate3(head, a + b + c, d);
    Associate3(head, a + b, c);
    Associate3(head, a, b);
    Associate3(head + a + b, c, d);
    Associate3(head + a + b, c + d, e);
  }

  lemma FrontLayout(head: seq<Byte>, text: seq<Byte>, reserved: seq<Byte>, after: seq<Byte>, count: nat)
    requires |head| == 68 && |text| < 256 && reserved == [0, 0] && |after| > 0 && after[0] == count
    ensures var b, n := head + ([|text| % 256] + text) + reserved + after, |text|;
            && |b| >= 72 + n && b[..68] == head && b[68] == n && b[69..69 + n] == text
            && b[69 + n] == 0 && b[70 + n] == 0 && b[71 + n] == count && b[72 + n..] == after[1..]
  {
    var b, n := head + ([|text| % 256] + text) + reserved + after, |text|;
    assert b[..68] == head && b[69..69 + n] == text && b[72 + n..] == after[1..];
  }

  // ----- Whatever is parsed fits --------------------------------------------------------------

  /** A token fits its C structure, with a terminated name. */
  predicate FitsToken(t: Token) {
    |t.hash| == 20 && |t.name| == 32 && StrLen(t.name) <= 31 && t.parameters < 65536
  }

  lemma PaddedIsTerminated(text: seq<Byte>, size: nat)
    requires |text| < size
    ensures StrLen(Padded(text, size)) <= |text|
  {
    var buffer := Padded(text, size);
    assert buffer[|text|] == 0;
  }

  lemma {:induction false} LittleIsSmall(bytes: seq<Byte>)
    ensures FromLittle(bytes) < Pow256(|bytes|)
  {
    if bytes != [] {
      LittleIsSmall(bytes[1..]);
    }
  }

  lemma ParsedTokenFits(bytes: seq<Byte>)
    requires TakeToken(bytes).Ok?
    ensures FitsToken(TakeToken(bytes).value.value)
  {
    var rest := Take(bytes, 20).value.rest;
    var length := TakeByte(rest).value;
    PaddedIsTerminated(Take(length.rest, length.value).value.value, 32);
    ParsedSignatureFits(TakeName(rest).value.rest, bytes[..20], TakeName(rest).value.value);
  }

  lemma ParsedSignatureFits(bytes: seq<Byte>, hash: seq<Byte>, name: seq<Byte>)
    requires TakeSignature(bytes, hash, name).Ok?
    ensures var t := TakeSignature(bytes, hash, name).value.value;
            t.hash == hash && t.name == name && t.parameters < 65536
  {
    Powers();
    LittleIsSmall(bytes[..2]);
  }

  lemma ParsedTokensFit(bytes: seq<Byte>, n: nat, i: nat)
    requires TakeTokens(bytes, n).Ok? && i < n
    ensures |TakeTokens(bytes, n).value.value| == n && FitsToken(TakeTokens(bytes, n).value.value[i])
  {
    forall b {:trigger TakeToken(b)} | TakeToken(b).Ok?
      ensures FitsToken(TakeToken(b).value.value)
    {
      ParsedTokenFits(b);
    }
    TakeAllHold(TakeToken, FitsToken, bytes, n, i);
  }

  lemma ParsedSourceFits(bytes: seq<Byte>)
    requires TakeSource(bytes).Ok?
    ensures |TakeSource(bytes).value.value| == 256 && StrLen(TakeSource(bytes).value.value) <= 254
  {
    var length := TakeByte(bytes).value;
    PaddedIsTerminated(Take(length.rest, length.value).value.value, 256);
  }

  lemma ParsedRestFits(bytes: seq<Byte>, compiler: seq<Byte>, memory: Memory)
    requires TakeRest(bytes, compiler, memory).Ok?
    ensures var f := TakeRest(bytes, compiler, memory).value;
            && f.header.compiler == compiler && f.header.magic == MAGIC && |f.header.reserved| == 2
            && |f.header.source| == 256 && StrLen(f.header.source) <= 254
            && |f.tokens| <= 255 && |f.checksum| == 32
            && (forall i :: 0 <= i < |f.tokens| ==> FitsToken(f.tokens[i]))
  {
    var source := TakeSource(bytes).value;
    ParsedSourceFits(bytes);
    var count := TakeByte(Take(source.rest, 2).value.rest).value;
    var tokens := TakeTokens(count.rest, count.value).value.value;
    forall i | 0 <= i < |tokens|
      ensures FitsToken(tokens[i])
    {
      ParsedTokensFit(count.rest, count.value, i);
    }
  }

  /** Whatever the bytes, a parsed file fits the C structures: terminated source and names, and the widths of all fields. */
  lemma ParsedFileFits(bytes: seq<Byte>, memory: Memory)
    requires FromBytes(bytes, memory).Ok?
    ensures var f := FromBytes(bytes, memory).value;
            && |bytes| >= 328 && bytes[..4] == [0x4E, 0x45, 0x46, 0x33] && f.header.compiler == bytes[4..68]
            && |f.header.source| == 256 && StrLen(f.header.source) <= 254
            && |f.tokens| <= 255 && |f.checksum| == 32
            && (forall i :: 0 <= i < |f.tokens| ==> FitsToken(f.tokens[i]))
  {
    HeadParsed(bytes, memory);
    ParsedRestFits(bytes[68..], bytes[4..68], memory);
  }

  lemma HeadParsed(bytes: seq<Byte>, memory: Memory)
    requires FromBytes(bytes, memory).Ok?
    ensures |bytes| >= 328 && bytes[..4] == [0x4E, 0x45, 0x46, 0x33]
    ensures FromBytes(bytes, memory) == TakeRest(bytes[68..], bytes[4..68], memory)
  {
    assert bytes[4..][..64] == bytes[4..68] && bytes[4..][64..] == bytes[68..];
    MagicNumber();
    SameLittle(bytes[..4], [0x4E, 0x45, 0x46, 0x33]);
  }

  lemma MagicNumber()
    ensures FromLittle([0x4E, 0x45, 0x46, 0x33]) == MAGIC
  {
    MagicBytes();
    Powers();
    LittleRoundTrip(MAGIC, 4);
  }

  lemma {:induction false} SameLittle(a: seq<Byte>, b: seq<Byte>)
    requires |a| == |b| && FromLittle(a) == FromLittle(b)
    ensures a == b
  {
    if a != [] {
      assert a[0] == b[0] && FromLittle(a[1..]) == FromLittle(b[1..]);
      SameLittle(a[1..], b[1..]);
      assert a == [a[0]] + a[1..] && b == [b[0]] + b[1..];
    }
  }
}
