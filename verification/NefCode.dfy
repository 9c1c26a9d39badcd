/** The mutable file object of `src/contract/nef_file.c`, proved against the functions of `Nef`. */
module NefCode {
  import opened Prelude
  import opened Endian
  import opened BinaryIO
  import opened Nef

  // ----- Writing ------------------------------------------------------------------------------

  lemma Append3(c: seq<Byte>, a: seq<Byte>, b: seq<Byte>, d: seq<Byte>)
    ensures c + a + b + d == c + (a + b + d)
  {
  }

  lemma Append4(c: seq<Byte>, a: seq<Byte>, b: seq<Byte>, d: seq<Byte>, e: seq<Byte>)
    ensures c + a + b + d + e == c + (a + b + d + e)
  {
  }

  /** A length byte and, unless it is zero, the string. */
  method WriteName(w: Writer, buffer: seq<Byte>)
    requires w.Valid()
    modifies w, w.data
    ensures w.Valid() && (w.data == old(w.data) || fresh(w.data))
    ensures w.Contents() == old(w.Contents()) + NameBytes(buffer)
  {
    ghost var before := w.Contents();
    var text := Text(buffer);
    var length: Byte := |text| % 256;
    w.WriteBytes([length]);
    w.WriteBytes(text);
    Associate3(before, [length], text);
  }

  method WriteSignature(w: Writer, t: Token)
    requires w.Valid()
    modifies w, w.data
    ensures w.Valid() && (w.data == old(w.data) || fresh(w.data))
    ensures w.Contents() == old(w.Contents()) + SignatureBytes(t)
  {
    ghost var before := w.Contents();
    var hasReturn: Byte := if t.hasReturn then 1 else 0;
    w.WriteNumber(t.parameters, 2);
    w.WriteBytes([hasReturn]);
    w.WriteBytes([t.flags]);
    Append3(before, Little(t.parameters, 2), [hasReturn], [t.flags]);
  }

  method WriteToken(w: Writer, t: Token)
    requires w.Valid()
    modifies w, w.data
    ensures w.Valid() && (w.data == old(w.data) || fresh(w.data))
    ensures w.Contents() == old(w.Contents()) + TokenBytes(t)
  {
    ghost var before := w.Contents();
    w.WriteBytes(t.hash);
    WriteName(w, t.name);
    WriteSignature(w, t);
    Append3(before, t.hash, NameBytes(t.name), SignatureBytes(t));
  }

  /** The token count and the token loop. */
  method WriteTokens(w: Writer, tokens: seq<Token>)
    requires w.Valid()
    modifies w, w.data
    ensures w.Valid() && (w.data == old(w.data) || fresh(w.data))
    ensures w.Contents() == old(w.Contents()) + CountedTokens(tokens)
  {
    ghost var before := w.Contents();
    var length: Byte := |tokens| % 256;
    w.WriteBytes([length]);
    ghost var start := w.Contents();
    for i := 0 to |tokens|
      invariant w.Valid() && (w.data == old(w.data) || fresh(w.data))
      invariant w.Contents() == start + WriteAll(TokenBytes, tokens[..i])
    {
      WriteToken(w, tokens[i]);
      WriteNext(TokenBytes, tokens, i);
      Associate3(start, WriteAll(TokenBytes, tokens[..i]), TokenBytes(tokens[i]));
    }
    assert tokens[..|tokens|] == tokens;
    Associate3(before, [length], TokensBytes(tokens));
  }

  /** The part that `to_bytes` writes after the compiler field. */
  method WriteRest(w: Writer, f: File)
    requires w.Valid()
    modifies w, w.data
    ensures w.Valid() && (w.data == old(w.data) || fresh(w.data))
    ensures w.Contents() == old(w.Contents()) + RestBytes(f)
  {
    ghost var before := w.Contents();
    WriteName(w, f.header.source);
    w.WriteBytes(f.header.reserved);
    WriteTokens(w, f.tokens);
    ghost var middle := w.Contents();
    w.WriteBytes([f.header.reserved2]);
    w.WriteVarBytes(f.script);
    Associate3(middle, [f.header.reserved2], VarBytes(f.script));
    Append4(before, NameBytes(f.header.source), f.header.reserved, CountedTokens(f.tokens), EndBytes(f));
  }

  // The serializer inside `calculate_checksum` has its own loop.

  method WriteBodyToken(w: Writer, t: Token)
    requires w.Valid()
    modifies w, w.data
    ensures w.Valid() && (w.data == old(w.data) || fresh(w.data))
    ensures w.Contents() == old(w.Contents()) + BodyToken(t)
  {
    ghost var before := w.Contents();
    var text, hasReturn: Byte := Text(t.name), if t.hasReturn then 1 else 0;
    var length: Byte := |text| % 256;
    w.WriteBytes(t.hash);
    w.WriteBytes([length]);
    w.WriteBytes(text);
    ghost var middle := w.Contents();
    Append3(before, t.hash, [length], text);
    w.WriteNumber(t.parameters, 2);
    w.WriteBytes([hasReturn]);
    w.WriteBytes([t.flags]);
    Append4(before, t.hash + [length] + text, Little(t.parameters, 2), [hasReturn], [t.flags]);
  }

  method WriteBodyTokens(w: Writer, tokens: seq<Token>)
    requires w.Valid()
    modifies w, w.data
    ensures w.Valid() && (w.data == old(w.data) || fresh(w.data))
    ensures w.Contents() == old(w.Contents()) + WriteAll(BodyToken, tokens)
  {
    ghost var start := w.Contents();
    for i := 0 to |tokens|
      invariant w.Valid() && (w.data == old(w.data) || fresh(w.data))
      invariant w.Contents() == start + WriteAll(BodyToken, tokens[..i])
    {
      WriteBodyToken(w, tokens[i]);
      WriteNext(BodyToken, tokens, i);
      Associate3(start, WriteAll(BodyToken, tokens[..i]), BodyToken(tokens[i]));
    }
    assert tokens[..|tokens|] == tokens;
  }

  method WriteBodyRest(w: Writer, f: File)
    requires w.Valid()
    modifies w, w.data
    ensures w.Valid() && (w.data == old(w.data) || fresh(w.data))
    ensures w.Contents() == old(w.Contents()) + BodyRest(f)
  {
    ghost var before := w.Contents();
    var text := Text(f.header.source);
    var length: Byte, count: Byte := |text| % 256, |f.tokens| % 256;
    w.WriteBytes([length]);
    w.WriteBytes(text);
    w.WriteBytes(f.header.reserved);
    Append3(before, [length], text, f.header.reserved);
    w.WriteBytes([count]);
    WriteBodyTokens(w, f.tokens);
    w.WriteBytes([f.header.reserved2]);
    w.WriteVarBytes(f.script);
    Append5(before, [length] + text + f.header.reserved, [count], WriteAll(BodyToken, f.tokens), [f.header.reserved2],
            VarBytes(f.script));
  }

  lemma Append5(c: seq<Byte>, a: seq<Byte>, b: seq<Byte>, d: seq<Byte>, e: seq<Byte>, f: seq<Byte>)
    ensures c + a + b + d + e + f == c + (a + b + d + e + f)
  {
  }

  /** The serializer inside `calculate_checksum`, and the digest of what it wrote. */
  method CalculateChecksum(f: File, sha: seq<Byte> -> seq<Byte>) returns (checksum: seq<Byte>)
    ensures checksum == Checksum(f, sha)
  {
    var w := new Writer(1024);
    w.WriteNumber(f.header.magic, 4);
    w.WriteBytes(f.header.compiler);
    WriteBodyRest(w, f);
    var written := w.data[..w.position];
    Append3([], Little(f.header.magic, 4), f.header.compiler, BodyRest(f));
    assert [] + Body(f) == Body(f);
    return sha(sha(written));
  }

  /** `neoc_nef_file_to_bytes`. */
  method WriteFile(f: File) returns (bytes: seq<Byte>)
    ensures bytes == ToBytes(f)
  {
    var w := new Writer(1024);
    w.WriteNumber(f.header.magic, 4);
    w.WriteBytes(CompilerField(f.header.compiler));
    WriteRest(w, f);
    w.WriteBytes(f.checksum);
    bytes := w.data[..w.position];
    Append4([], Little(f.header.magic, 4), CompilerField(f.header.compiler), RestBytes(f), f.checksum);
    assert [] + ToBytes(f) == ToBytes(f);
  }

  // ----- Reading ------------------------------------------------------------------------------

  method ReadToken(reader: Reader) returns (r: Result<Token>)
    requires reader.Valid()
    modifies reader
    ensures reader.Valid() && Reads(r, reader.Rest(), TakeToken(old(reader.Rest())))
  {
    var hash :- reader.ReadBytes(20);
    var name :- ReadName(reader);
    r := ReadSignature(reader, hash, name);
  }

  method ReadName(reader: Reader) returns (r: Result<seq<Byte>>)
    requires reader.Valid()
    modifies reader
    ensures reader.Valid() && Reads(r, reader.Rest(), TakeName(old(reader.Rest())))
  {
    var length :- reader.ReadByte();
    if length >= 32 {
      return Err(InvalidFormat);
    }
    TakeLength(reader.Rest(), length);
    var name :- reader.ReadBytes(length);
    return Ok(Padded(name, 32));
  }

  method ReadSignature(reader: Reader, hash: seq<Byte>, name: seq<Byte>) returns (r: Result<Token>)
    requires reader.Valid()
    modifies reader
    ensures reader.Valid() && Reads(r, reader.Rest(), TakeSignature(old(reader.Rest()), hash, name))
  {
    var parameters :- reader.ReadNumber(2);
    var hasReturn :- reader.ReadByte();
    var flags :- reader.ReadByte();
    return Ok(Token(hash, name, parameters, hasReturn != 0, flags));
  }

  method ReadSource(reader: Reader) returns (r: Result<seq<Byte>>)
    requires reader.Valid()
    modifies reader
    ensures reader.Valid() && Reads(r, reader.Rest(), TakeSource(old(reader.Rest())))
  {
    var length :- reader.ReadByte();
    if length >= 255 {
      return Err(InvalidFormat);
    }
    TakeLength(reader.Rest(), length);
    var source :- reader.ReadBytes(length);
    return Ok(Padded(source, 256));
  }

  /** With `tokens` read and `n` to come from `rest`, the result will be `spec`. */
  ghost predicate Pending(spec: Result<Parsed<seq<Token>>>, tokens: seq<Token>, rest: seq<Byte>, n: nat) {
    TakeMore(TakeToken, tokens, rest, n) == spec
  }

  lemma PendingStart(rest: seq<Byte>, n: nat)
    ensures Pending(TakeTokens(rest, n), [], rest, n)
  {
    TakeMoreStart(TakeToken, rest, n);
  }

  /** One turn of the token loop: what the next token makes of the result. */
  lemma PendingTurn(spec: Result<Parsed<seq<Token>>>, tokens: seq<Token>, rest: seq<Byte>, n: nat, r: Result<Token>, rest': seq<Byte>)
    requires n > 0 && Pending(spec, tokens, rest, n) && Reads(r, rest', TakeToken(rest))
    ensures r.Ok? ==> Pending(spec, tokens + [r.value], rest', n - 1)
    ensures r.Err? ==> spec == Err(r.error)
  {
    TakeMoreStep(TakeToken, tokens, rest, n);
  }

  lemma PendingEnd(spec: Result<Parsed<seq<Token>>>, tokens: seq<Token>, rest: seq<Byte>)
    requires Pending(spec, tokens, rest, 0)
    ensures spec == Ok(Parsed(tokens, rest))
  {
    TakeMoreEnd(TakeToken, tokens, rest);
  }

  /** Reads the next of `n` tokens. */
  method ReadNext(reader: Reader, ghost spec: Result<Parsed<seq<Token>>>, ghost tokens: seq<Token>, ghost n: nat)
    returns (r: Result<Token>)
    requires reader.Valid() && n > 0 && Pending(spec, tokens, reader.Rest(), n)
    modifies reader
    ensures reader.Valid()
    ensures r.Ok? ==> Pending(spec, tokens + [r.value], reader.Rest(), n - 1)
    ensures r.Err? ==> spec == Err(r.error)
  {
    ghost var rest := reader.Rest();
    r := ReadToken(reader);
    PendingTurn(spec, tokens, rest, n, r, reader.Rest());
  }

  /** The token loop. */
  method ReadTokens(reader: Reader, n: nat) returns (r: Result<seq<Token>>)
    requires reader.Valid()
    modifies reader
    ensures reader.Valid() && Reads(r, reader.Rest(), TakeTokens(old(reader.Rest()), n))
  {
    ghost var spec := TakeTokens(reader.Rest(), n);
    PendingStart(reader.Rest(), n);
    r := ReadAll(reader, n, spec);
  }

  method ReadAll(reader: Reader, n: nat, ghost spec: Result<Parsed<seq<Token>>>) returns (r: Result<seq<Token>>)
    requires reader.Valid() && Pending(spec, [], reader.Rest(), n)
    modifies reader
    ensures reader.Valid() && Reads(r, reader.Rest(), spec)
  {
    var tokens, left := [], n;
    while left > 0
      invariant reader.Valid() && Pending(spec, tokens, reader.Rest(), left)
    {
      var token := ReadNext(reader, spec, tokens, left);
      if token.Err? {
        return Err(token.error);
      }
      tokens, left := tokens + [token.value], left - 1;
    }
    PendingEnd(spec, tokens, reader.Rest());
    return Ok(tokens);
  }

  /** What a reader yields behind the tokens. */
  method ReadEnd(reader: Reader, header: Header, tokens: seq<Token>, memory: Memory) returns (r: Result<File>)
    requires reader.Valid()
    modifies reader
    ensures r == TakeEnd(old(reader.Rest()), header, tokens, memory)
  {
    var reserved2 :- reader.ReadByte();
    var script :- reader.ReadVarBytes(memory);
    var checksum :- reader.ReadBytes(32);
    return Ok(File(header.(reserved2 := reserved2), tokens, script, checksum));
  }

  method ReadRest(reader: Reader, compiler: seq<Byte>, memory: Memory) returns (r: Result<File>)
    requires reader.Valid()
    modifies reader
    ensures r == TakeRest(old(reader.Rest()), compiler, memory)
  {
    var source :- ReadSource(reader);
    var reserved :- reader.ReadBytes(2);
    var count :- reader.ReadByte();
    var tokens :- ReadTokens(reader, count);
    r := ReadEnd(reader, Header(MAGIC, compiler, source, reserved, 0), tokens, memory);
  }

  /** `neoc_nef_file_from_bytes`. */
  method ReadFile(bytes: seq<Byte>, memory: Memory) returns (r: Result<File>)
    ensures r == FromBytes(bytes, memory)
  {
    if |bytes| < HEADER_SIZE {
      return Err(InvalidFormat);
    }
    var reader := new Reader(bytes);
    var magic :- reader.ReadNumber(4);
    if magic != MAGIC {
      return Err(InvalidFormat);
    }
    var compiler :- reader.ReadBytes(64);
    r := ReadRest(reader, compiler, memory);
  }

  // ----- The file object ----------------------------------------------------------------------

  class NefFile {
    var header: Header
    var tokens: array<Token>
    var count: nat
    var capacity: nat
    var script: seq<Byte>
    var checksum: seq<Byte>
    /** The token block was released by a failed resize. */
    var dangling: bool

    /** The recorded capacity is that of the token block, except that a parsed file records none. */
    ghost predicate Valid()
      reads this
    {
      && !dangling
      && count <= tokens.Length
      && (capacity == tokens.Length <= MAX_TOKENS || capacity == 0)
    }

    ghost function Value(): (f: File)
      requires Valid()
      reads this, tokens
    {
      File(header, tokens[..count], script, checksum)
    }

    constructor (f: File, slots: nat, recorded: nat)
      requires |f.tokens| <= slots && (recorded == slots <= MAX_TOKENS || recorded == 0)
      ensures Valid() && fresh(tokens) && Value() == f && capacity == recorded
    {
      header, script, checksum := f.header, f.script, f.checksum;
      count, capacity, dangling := |f.tokens|, recorded, false;
      tokens := new Token[slots](i => if 0 <= i < |f.tokens| then f.tokens[i] else Token([], [], 0, false, 0));
      new;
      assert tokens[..count] == f.tokens;
    }

    /** `neoc_nef_file_create`. */
    static method CreateFile(compiler: seq<Byte>, source: seq<Byte>, code: seq<Byte>, sha: seq<Byte> -> seq<Byte>)
      returns (r: Result<NefFile>)
      ensures r.Ok? ==> fresh(r.value) && fresh(r.value.tokens) && r.value.Valid() && r.value.capacity == 10
      ensures match Create(compiler, source, code, sha)
              case Ok(f) => r.Ok? && r.value.Value() == f
              case Err(e) => r == Err(e)
    {
      if |code| > MAX_SCRIPT || |compiler| > 63 || |source| > MAX_SOURCE {
        return Err(InvalidSize);
      }
      if code == [] {
        return Err(OutOfMemory);
      }
      var f := File(Header(MAGIC, Padded(compiler, 64), Padded(source, 256), [0, 0], 0), [], code, []);
      var sum := CalculateChecksum(f, sha);
      var file := new NefFile(f.(checksum := sum), 10, 10);
      return Ok(file);
    }

    /** Doubles the token block, up to the maximum; the tokens are kept. */
    method Grow()
      requires Valid() && 0 < capacity == count < MAX_TOKENS
      modifies this`tokens, this`capacity
      ensures Valid() && Value() == old(Value()) && fresh(tokens)
      ensures count < capacity == tokens.Length
    {
      var larger := if capacity * 2 > MAX_TOKENS then MAX_TOKENS else capacity * 2;
      var kept := tokens[..count];
      tokens := new Token[larger](i => if 0 <= i < |kept| then kept[i] else Token([], [], 0, false, 0));
      capacity := larger;
      assert tokens[..count] == kept;
    }

    /** Fills the next slot and refreshes the checksum. */
    method Append(t: Token, sha: seq<Byte> -> seq<Byte>)
      requires Valid() && count < capacity
      modifies this`count, this`checksum, tokens
      ensures Valid()
      ensures var f := old(Value()).(tokens := old(Value()).tokens + [t]);
              Value() == f.(checksum := Checksum(f, sha))
    {
      ghost var before := tokens[..count];
      tokens[count] := t;
      count := count + 1;
      assert tokens[..count] == before + [t];
      checksum := CalculateChecksum(File(header, tokens[..count], script, checksum), sha);
    }

    /**
     * `neoc_nef_file_add_method_token`. On a parsed file the doubled capacity is still zero: the resize fails, and
     * if there were tokens it has released them.
     */
    method AddMethodToken(q: Request, sha: seq<Byte> -> seq<Byte>) returns (r: Result<()>)
      requires Valid()
      modifies this, tokens
      ensures header == old(header) && script == old(script)
      ensures tokens == old(tokens) || fresh(tokens)
      ensures old(AddToken(Value(), q, sha)).Err? ==>
                r == Err(old(AddToken(Value(), q, sha)).error) && Valid() && Value() == old(Value())
      ensures old(AddToken(Value(), q, sha)).Ok? && old(capacity) > 0 ==>
                r == Ok(()) && Valid() && capacity > 0 && Value() == old(AddToken(Value(), q, sha)).value
      ensures old(AddToken(Value(), q, sha)).Ok? && old(capacity) == 0 ==>
                r == Err(OutOfMemory) && dangling == (old(count) > 0)
    {
      if |q.name| > 31 || count >= MAX_TOKENS {
        return Err(InvalidSize);
      }
      if count >= capacity {
        if capacity == 0 {
          dangling := count > 0;
          return Err(OutOfMemory);
        }
        Grow();
      }
      Append(NewToken(q), sha);
      return Ok(());
    }

    /** `neoc_nef_file_verify_checksum`. */
    method Verify(sha: seq<Byte> -> seq<Byte>) returns (ok: bool)
      requires Valid()
      ensures ok == VerifyChecksum(Value(), sha)
      ensures ZeroPadded(header.compiler) && |checksum| == 32 ==> ok == EndsInDigest(ToBytes(Value()), sha)
    {
      if ZeroPadded(header.compiler) && |checksum| == 32 {
        VerifyMeans(Value(), sha);
      }
      var sum := CalculateChecksum(File(header, tokens[..count], script, checksum), sha);
      return sum == checksum;
    }

    method Serialize() returns (bytes: seq<Byte>)
      requires Valid()
      ensures bytes == ToBytes(Value())
    {
      bytes := WriteFile(File(header, tokens[..count], script, checksum));
    }

    static method Parse(bytes: seq<Byte>, memory: Memory) returns (r: Result<NefFile>)
      ensures r.Ok? ==> fresh(r.value) && r.value.Valid() && r.value.capacity == 0
      ensures match FromBytes(bytes, memory)
              case Ok(f) => r.Ok? && r.value.Value() == f
              case Err(e) => r == Err(e)
    {
      var f :- ReadFile(bytes, memory);
      var file := new NefFile(f, |f.tokens|, 0);
      return Ok(file);
    }
  }
}
