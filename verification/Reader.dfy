/**
 The moving cursor every decoder reads from, and the pure parse steps that
 specify it: a step maps the unread input to a value and what is left.
 */
module Reader {
  import opened Bytes

  function ParseByte(s: bytes): Result<Parsed<byte>> {
    if s == [] then Err(Eof) else Ok(Parsed(s[0], s[1..]))
  }

  function ParseN(s: bytes, n: int): Result<Parsed<bytes>> {
    if n < 0 || n > |s| then Err(Eof) else Ok(Parsed(s[..n], s[n..]))
  }

  function ParseUntilNull(s: bytes): Result<Parsed<bytes>> {
    var i := IndexByte(s, 0);
    if i < 0 then Err(Eof) else Ok(Parsed(s[..i + 1], s[i + 1..]))
  }

  /** A byte already consumed becomes the head of the result. */
  function ParseUntilNullFrom(first: byte, s: bytes): Result<Parsed<bytes>> {
    var p :- ParseUntilNull(s);
    Ok(Parsed([first] + p.value, p.rest))
  }

  /** A terminated string is read back whole, whatever follows it. */
  lemma ParseUntilNullOf(x: bytes, rest: bytes)
    requires 0 !in x
    ensures ParseUntilNull(x + [0] + rest) == Ok(Parsed(x + [0], rest))
  {
    var s := x + [0] + rest;
    var i := IndexByte(s, 0);
    assert s[|x|] == 0;
    assert 0 in s;
    assert forall k | 0 <= k < |x| :: s[k] == x[k];
    assert forall k | 0 <= k < i :: s[..i][k] == s[k];
    assert s[..|x| + 1] == x + [0];
    assert s[|x| + 1..] == rest;
  }

  /** What ParseUntilNull returns is the input up to its first NUL. */
  lemma ParseUntilNullSound(s: bytes)
    ensures ParseUntilNull(s).Err? <==> 0 !in s
    ensures ParseUntilNull(s).Ok? ==>
              var p := ParseUntilNull(s).value;
              && s == p.value + p.rest
              && p.value != [] && p.value[|p.value| - 1] == 0
              && 0 !in p.value[..|p.value| - 1]
  {
    var i := IndexByte(s, 0);
    if 0 <= i {
      assert s[..i + 1][..i] == s[..i];
      assert s[..i + 1][i] == 0;
    }
  }

  class ByteReader {
    const data: bytes
    var pos: nat

    ghost predicate Valid()
      reads this
    {
      pos <= |data|
    }

    ghost function Rest(): bytes
      requires Valid()
      reads this
    {
      data[pos..]
    }

    /** The outcome and the new position are those of the parse step. */
    ghost predicate Yields<T>(step: Result<Parsed<T>>, outcome: Result<T>)
      requires Valid()
      reads this
    {
      match step
      case Ok(p) => outcome == Ok(p.value) && Rest() == p.rest
      case Err(e) => outcome == Err(e)
    }

    constructor (data: bytes)
      ensures Valid() && this.data == data && pos == 0 && Rest() == data
    {
      this.data := data;
      pos := 0;
    }

    function Remaining(): int
      reads this
    {
      |data| - pos
    }

    method ReadByte() returns (r: Result<byte>)
      requires Valid()
      modifies `pos
      ensures Valid() && Yields(ParseByte(old(Rest())), r)
      ensures old(pos) <= pos && (r.Err? ==> pos == old(pos))
    {
      if pos >= |data| {
        return Err(Eof);
      }
      r := Ok(data[pos]);
      pos := pos + 1;
    }

    method ReadN(n: int) returns (r: Result<bytes>)
      requires Valid()
      modifies `pos
      ensures Valid() && Yields(ParseN(old(Rest()), n), r)
      ensures old(pos) <= pos && (r.Err? ==> pos == old(pos))
    {
      if n < 0 || pos + n > |data| {
        return Err(Eof);
      }
      r := Ok(data[pos..pos + n]);
      assert data[pos..][..n] == data[pos..pos + n] && data[pos..][n..] == data[pos + n..];
      pos := pos + n;
    }

    method ReadUntilNull() returns (r: Result<bytes>)
      requires Valid()
      modifies `pos
      ensures Valid() && Yields(ParseUntilNull(old(Rest())), r)
      ensures old(pos) <= pos && (r.Err? ==> pos == old(pos))
    {
      var i := IndexByte(data[pos..], 0);
      if i < 0 {
        return Err(Eof);
      }
      r := Ok(data[pos..pos + i + 1]);
      assert data[pos..][..i + 1] == data[pos..pos + i + 1];
      assert data[pos..][i + 1..] == data[pos + i + 1..];
      pos := pos + i + 1;
    }

    method ReadUntilNullFrom(first: byte) returns (r: Result<bytes>)
      requires Valid()
      modifies `pos
      ensures Valid() && Yields(ParseUntilNullFrom(first, old(Rest())), r)
      ensures old(pos) <= pos && (r.Err? ==> pos == old(pos))
    {
      var tail := ReadUntilNull();
      match tail
      case Err(e) => r := Err(e);
      case Ok(t) => r := Ok([first] + t);
    }
  }
}
