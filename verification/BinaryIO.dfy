/** The growing writer and the bounds-checked reader of `src/serialization/`. */
module BinaryIO {
  import opened Prelude
  import opened Endian

  // ----- What is written ----------------------------------------------------------------------

  /** A number of up to 64 bits, with a prefix that tells its width. */
  function VarInt(v: nat): seq<Byte> {
    if v < 0xFD then [v]
    else if v <= 0xFFFF then [0xFD] + Little(v, 2)
    else if v <= 0xFFFF_FFFF then [0xFE] + Little(v, 4)
    else [0xFF] + Little(v, 8)
  }

  function VarBytes(bytes: seq<Byte>): seq<Byte> { VarInt(|bytes|) + bytes }

  /** The elements written one after the other. */
  function WriteAll<T>(write: T -> seq<Byte>, xs: seq<T>): seq<Byte> {
    if xs == [] then [] else WriteAll(write, xs[..|xs| - 1]) + write(xs[|xs| - 1])
  }

  lemma WriteNext<T>(write: T -> seq<Byte>, xs: seq<T>, i: nat)
    requires i < |xs|
    ensures WriteAll(write, xs[..i + 1]) == WriteAll(write, xs[..i]) + write(xs[i])
  {
    assert xs[..i + 1][..i] == xs[..i];
  }

  lemma {:induction false} WriteFirst<T>(write: T -> seq<Byte>, x: T, xs: seq<T>)
    ensures WriteAll(write, [x] + xs) == write(x) + WriteAll(write, xs)
  {
    if xs == [] {
      assert [x] + xs == [x] && [x][..0] == [];
    } else {
      var init := xs[..|xs| - 1];
      assert ([x] + xs)[..|xs|] == [x] + init;
      WriteFirst(write, x, init);
    }
  }

  // ----- What is read -------------------------------------------------------------------------

  /** A value and the bytes after it. */
  datatype Parsed<+T> = Parsed(value: T, rest: seq<Byte>)

  function Take(bytes: seq<Byte>, n: nat): Result<Parsed<seq<Byte>>> {
    if n <= |bytes| then Ok(Parsed(bytes[..n], bytes[n..])) else Err(EndOfStream)
  }

  function TakeByte(bytes: seq<Byte>): Result<Parsed<Byte>> {
    if bytes != [] then Ok(Parsed(bytes[0], bytes[1..])) else Err(EndOfStream)
  }

  function TakeNumber(bytes: seq<Byte>, n: nat): Result<Parsed<nat>> {
    var p :- Take(bytes, n);
    Ok(Parsed(FromLittle(p.value), p.rest))
  }

  function TakeVarInt(bytes: seq<Byte>): Result<Parsed<nat>> {
    var p :- TakeByte(bytes);
    if p.value < 0xFD then Ok(p)
    else if p.value == 0xFD then TakeNumber(p.rest, 2)
    else if p.value == 0xFE then TakeNumber(p.rest, 4)
    else TakeNumber(p.rest, 8)
  }

  /** Which sizes the system allocates. */
  type Memory = nat -> bool

  function TakeVarBytes(bytes: seq<Byte>, memory: Memory): Result<Parsed<seq<Byte>>> {
    var p :- TakeVarInt(bytes);
    if p.value > 0 && !memory(p.value) then Err(OutOfMemory) else Take(p.rest, p.value)
  }

  /** `n` elements, read one after the other. */
  function TakeAll<T>(take: seq<Byte> -> Result<Parsed<T>>, bytes: seq<Byte>, n: nat): (r: Result<Parsed<seq<T>>>)
    ensures r.Ok? ==> |r.value.value| == n
    decreases n
  {
    if n == 0 then Ok(Parsed([], bytes))
    else
      var first :- take(bytes);
      var others :- TakeAll(take, first.rest, n - 1);
      Ok(Parsed([first.value] + others.value, others.rest))
  }

  /** What holds of every element that can be read holds of every element of a list. */
  lemma {:induction false} TakeAllHold<T>(take: seq<Byte> -> Result<Parsed<T>>, good: T -> bool, bytes: seq<Byte>, n: nat, i: nat)
    requires forall b {:trigger take(b)} :: take(b).Ok? ==> good(take(b).value.value)
    requires TakeAll(take, bytes, n).Ok? && i < n
    ensures good(TakeAll(take, bytes, n).value.value[i])
    decreases n
  {
    if i > 0 {
      TakeAllHold(take, good, take(bytes).value.rest, n - 1, i - 1);
    }
  }

  /** What reading comes to once `done` is read, and `n` elements are to be read from `bytes`. */
  function TakeMore<T>(take: seq<Byte> -> Result<Parsed<T>>, done: seq<T>, bytes: seq<Byte>, n: nat): Result<Parsed<seq<T>>> {
    var others :- TakeAll(take, bytes, n);
    Ok(Parsed(done + others.value, others.rest))
  }

  lemma TakeMoreStep<T>(take: seq<Byte> -> Result<Parsed<T>>, done: seq<T>, bytes: seq<Byte>, n: nat)
    requires n > 0
    ensures TakeMore(take, done, bytes, n)
         == (var first := take(bytes);
             if first.Err? then Err(first.error)
             else TakeMore(take, done + [first.value.value], first.value.rest, n - 1))
  {
    if take(bytes).Ok? {
      var first := take(bytes).value;
      var others := TakeAll(take, first.rest, n - 1);
      if others.Ok? {
        assert done + ([first.value] + others.value.value) == done + [first.value] + others.value.value;
      }
    }
  }

  lemma TakeMoreStart<T>(take: seq<Byte> -> Result<Parsed<T>>, bytes: seq<Byte>, n: nat)
    ensures TakeMore(take, [], bytes, n) == TakeAll(take, bytes, n)
  {
    var others := TakeAll(take, bytes, n);
    if others.Ok? {
      assert [] + others.value.value == others.value.value;
    }
  }

  lemma TakeMoreEnd<T>(take: seq<Byte> -> Result<Parsed<T>>, done: seq<T>, bytes: seq<Byte>)
    ensures TakeMore(take, done, bytes, 0) == Ok(Parsed(done, bytes))
  {
    assert done + [] == done;
  }

  // ----- Reading undoes writing ---------------------------------------------------------------

  lemma TakeWritten(a: seq<Byte>, rest: seq<Byte>)
    ensures Take(a + rest, |a|) == Ok(Parsed(a, rest))
  {
    assert (a + rest)[..|a|] == a && (a + rest)[|a|..] == rest;
  }

  lemma TakeWrittenByte(b: Byte, rest: seq<Byte>)
    ensures TakeByte([b] + rest) == Ok(Parsed(b, rest))
  {
    assert ([b] + rest)[1..] == rest;
  }

  lemma TakeWrittenNumber(v: nat, n: nat, rest: seq<Byte>)
    requires v < Pow256(n)
    ensures TakeNumber(Little(v, n) + rest, n) == Ok(Parsed(v, rest))
  {
    TakeWritten(Little(v, n), rest);
    LittleRoundTrip(v, n);
  }

  lemma TakePrefixed(prefix: Byte, v: nat, n: nat, rest: seq<Byte>)
    requires v < Pow256(n)
    requires (prefix == 0xFD && n == 2) || (prefix == 0xFE && n == 4) || (prefix == 0xFF && n == 8)
    ensures TakeVarInt([prefix] + Little(v, n) + rest) == Ok(Parsed(v, rest))
  {
    assert [prefix] + Little(v, n) + rest == [prefix] + (Little(v, n) + rest);
    TakeWrittenByte(prefix, Little(v, n) + rest);
    TakeWrittenNumber(v, n, rest);
  }

  /** Every 64-bit number is read back from its variable-width form. */
  lemma TakeWrittenVarInt(v: nat, rest: seq<Byte>)
    requires v < 0x1_0000_0000_0000_0000
    ensures TakeVarInt(VarInt(v) + rest) == Ok(Parsed(v, rest))
  {
    Powers();
    if v < 0xFD {
      TakeWrittenByte(v, rest);
    } else if v <= 0xFFFF {
      TakePrefixed(0xFD, v, 2, rest);
    } else if v <= 0xFFFF_FFFF {
      TakePrefixed(0xFE, v, 4, rest);
    } else {
      TakePrefixed(0xFF, v, 8, rest);
    }
  }

  function Two(low: nat, high: nat): nat { low + 256 * high }

  /** The forms of a variable-width number: the prefix tells the width, and the bytes behind it the number. */
  lemma VarIntShape(v: nat)
    requires v < 0x1_0000_0000_0000_0000
    ensures var b := VarInt(v);
            if v < 253 then b == [v]
            else if v < 65536 then |b| == 3 && b[0] == 253 && Two(b[1], b[2]) == v
            else |b| == (if v < 4294967296 then 5 else 9) && b[0] == (if v < 4294967296 then 254 else 255) && FromLittle(b[1..]) == v
  {
    Powers();
    if 253 <= v < 65536 {
      LittleTwo(v);
    } else if 65536 <= v < 4294967296 {
      LittleRoundTrip(v, 4);
      assert VarInt(v)[1..] == Little(v, 4);
    } else if v >= 4294967296 {
      LittleRoundTrip(v, 8);
      assert VarInt(v)[1..] == Little(v, 8);
    }
  }

  lemma LittleTwo(v: nat)
    requires v < 65536
    ensures Little(v, 2) == [v % 256, v / 256]
  {
    assert Little(v / 256, 1) == [v / 256] + Little(v / 256 / 256, 0);
  }

  lemma TakeWrittenVarBytes(bytes: seq<Byte>, rest: seq<Byte>, memory: Memory)
    requires |bytes| < 0x1_0000_0000_0000_0000
    ensures TakeVarBytes(VarBytes(bytes) + rest, memory)
         == if bytes != [] && !memory(|bytes|) then Err(OutOfMemory) else Ok(Parsed(bytes, rest))
  {
    assert VarBytes(bytes) + rest == VarInt(|bytes|) + (bytes + rest);
    TakeWrittenVarInt(|bytes|, bytes + rest);
    TakeWritten(bytes, rest);
  }

  // ----- The writer ---------------------------------------------------------------------------

  class Writer {
    var data: array<Byte>
    var position: nat

    ghost predicate Valid()
      reads this
    {
      position <= data.Length && data.Length > 0
    }

    ghost function Contents(): (s: seq<Byte>)
      requires Valid()
      reads this, data
    {
      data[..position]
    }

    constructor (capacity: nat)
      ensures Valid() && fresh(data) && Contents() == []
    {
      data := new Byte[if capacity > 16 then capacity else 16](_ => 0);
      position := 0;
    }

    /** Doubles the capacity until `required` more bytes fit; the bytes written so far are kept. */
    method EnsureCapacity(required: nat)
      requires Valid()
      modifies this`data
      ensures Valid() && position + required <= data.Length
      ensures data == old(data) || fresh(data)
      ensures Contents() == old(Contents())
    {
      if position + required <= data.Length {
        return;
      }
      var capacity := data.Length * 2;
      while capacity < position + required
        invariant capacity >= data.Length * 2
        decreases position + required - capacity
      {
        capacity := capacity * 2;
      }
      var written := data[..position];
      data := new Byte[capacity](i => if 0 <= i < |written| then written[i] else 0);
      assert data[..position] == written;
    }

    method WriteBytes(bytes: seq<Byte>)
      requires Valid()
      modifies this, data
      ensures Valid() && (data == old(data) || fresh(data))
      ensures Contents() == old(Contents()) + bytes
    {
      EnsureCapacity(|bytes|);
      ghost var before := Contents();
      forall i | 0 <= i < |bytes| { data[position + i] := bytes[i]; }
      position := position + |bytes|;
      assert data[..position - |bytes|] == before;
      assert data[position - |bytes|..position] == bytes;
    }

    /** The low `n` bytes of a number, one by one. */
    method WriteNumber(v: nat, n: nat)
      requires Valid()
      modifies this, data
      ensures Valid() && (data == old(data) || fresh(data))
      ensures Contents() == old(Contents()) + Little(v, n)
    {
      EnsureCapacity(n);
      ghost var before := Contents();
      var left := v;
      for i := 0 to n
        invariant Valid() && position == |before| + i && |before| + n <= data.Length
        invariant data == old(data) || fresh(data)
        invariant Contents() + Little(left, n - i) == before + Little(v, n)
      {
        ghost var c, rest := Contents(), Little(left / 256, n - i - 1);
        data[position] := left % 256;
        position := position + 1;
        assert Contents() == c + [left % 256];
        assert c + ([left % 256] + rest) == c + [left % 256] + rest;
        left := left / 256;
      }
    }

    method WriteVarInt(v: nat)
      requires Valid()
      modifies this, data
      ensures Valid() && (data == old(data) || fresh(data))
      ensures Contents() == old(Contents()) + VarInt(v)
    {
      ghost var before := Contents();
      if v < 0xFD {
        WriteBytes([v]);
        return;
      }
      var prefix: Byte, n: nat := if v <= 0xFFFF then 0xFD else if v <= 0xFFFF_FFFF then 0xFE else 0xFF,
                                  if v <= 0xFFFF then 2 else if v <= 0xFFFF_FFFF then 4 else 8;
      WriteBytes([prefix]);
      WriteNumber(v, n);
      assert before + [prefix] + Little(v, n) == before + ([prefix] + Little(v, n));
    }

    method WriteVarBytes(bytes: seq<Byte>)
      requires Valid()
      modifies this, data
      ensures Valid() && (data == old(data) || fresh(data))
      ensures Contents() == old(Contents()) + VarBytes(bytes)
    {
      ghost var before := Contents();
      WriteVarInt(|bytes|);
      WriteBytes(bytes);
      assert before + VarInt(|bytes|) + bytes == before + VarBytes(bytes);
    }
  }

  // ----- The reader ---------------------------------------------------------------------------

  /** A read returned what the specification takes, and left the cursor behind it. */
  ghost predicate Reads<T(!new)>(r: Result<T>, rest: seq<Byte>, spec: Result<Parsed<T>>) {
    if spec.Ok? then r == Ok(spec.value.value) && rest == spec.value.rest else r == Err(spec.error)
  }

  class Reader {
    const data: seq<Byte>
    var position: nat

    ghost predicate Valid()
      reads this
    {
      position <= |data|
    }

    ghost function Rest(): seq<Byte>
      requires Valid()
      reads this
    {
      data[position..]
    }

    constructor (bytes: seq<Byte>)
      ensures Valid() && Rest() == bytes
    {
      data := bytes;
      position := 0;
    }

    method ReadByte() returns (r: Result<Byte>)
      requires Valid()
      modifies this
      ensures Valid() && Reads(r, Rest(), TakeByte(old(Rest())))
    {
      if position >= |data| {
        return Err(EndOfStream);
      }
      position := position + 1;
      return Ok(data[position - 1]);
    }

    method ReadBytes(n: nat) returns (r: Result<seq<Byte>>)
      requires Valid()
      modifies this
      ensures Valid() && Reads(r, Rest(), Take(old(Rest()), n))
    {
      if position + n > |data| {
        return Err(EndOfStream);
      }
      position := position + n;
      assert old(Rest())[..n] == data[position - n..position];
      return Ok(data[position - n..position]);
    }

    method ReadNumber(n: nat) returns (r: Result<nat>)
      requires Valid()
      modifies this
      ensures Valid() && Reads(r, Rest(), TakeNumber(old(Rest()), n))
    {
      var bytes :- ReadBytes(n);
      return Ok(FromLittle(bytes));
    }

    method ReadVarInt() returns (r: Result<nat>)
      requires Valid()
      modifies this
      ensures Valid() && Reads(r, Rest(), TakeVarInt(old(Rest())))
    {
      var prefix :- ReadByte();
      if prefix < 0xFD {
        return Ok(prefix);
      }
      r := ReadNumber(if prefix == 0xFD then 2 else if prefix == 0xFE then 4 else 8);
    }

    method ReadVarBytes(memory: Memory) returns (r: Result<seq<Byte>>)
      requires Valid()
      modifies this
      ensures Valid() && Reads(r, Rest(), TakeVarBytes(old(Rest()), memory))
    {
      var n :- ReadVarInt();
      if n > 0 && !memory(n) {
        return Err(OutOfMemory);
      }
      r := ReadBytes(n);
    }
  }
}
