// A buffered reader over a finite stream of bytes.
module ByteReader {
  import opened Wrappers

  datatype ReadError = EOF | UnexpectedEOF

  datatype ReadResult<T> = Ok(value: T) | Err(error: ReadError)

  class Reader {
    const data: seq<byte>
    var pos: nat

    ghost predicate Valid()
      reads this
    {
      pos <= |data|
    }

    ghost function Rest(): (rest: seq<byte>)
      requires Valid()
      reads this
      ensures |rest| == |data| - pos
    {
      data[pos..]
    }

    constructor (bytes: seq<byte>)
      ensures Valid() && Rest() == bytes && data == bytes
    {
      data, pos := bytes, 0;
    }

    method ReadByte() returns (r: ReadResult<byte>)
      requires Valid()
      modifies this
      ensures Valid()
      ensures if old(Rest()) == [] then r == Err(EOF) && Rest() == []
              else r == Ok(old(Rest())[0]) && Rest() == old(Rest())[1..]
    {
      if pos == |data| { return Err(EOF); }
      r := Ok(data[pos]);
      assert data[pos..][1..] == data[pos + 1..];
      pos := pos + 1;
    }

    // The next n bytes, without consuming them.
    method Peek(n: nat) returns (r: ReadResult<seq<byte>>)
      requires Valid()
      ensures r == if |Rest()| < n then Err(EOF) else Ok(Rest()[..n])
    {
      if |data| - pos < n { return Err(EOF); }
      r := Ok(data[pos..pos + n]);
      assert data[pos..][..n] == data[pos..pos + n];
    }

    // io.ReadFull: EOF if nothing could be read, UnexpectedEOF if only part could.
    method ReadFull(n: nat) returns (r: ReadResult<seq<byte>>)
      requires Valid()
      modifies this
      ensures Valid()
      ensures |old(Rest())| >= n ==> r == Ok(old(Rest())[..n]) && Rest() == old(Rest())[n..]
      ensures |old(Rest())| < n ==> Rest() == [] && r == Err(if old(Rest()) == [] then EOF else UnexpectedEOF)
    {
      if |data| - pos >= n {
        r := Ok(data[pos..pos + n]);
        assert data[pos..][..n] == data[pos..pos + n] && data[pos..][n..] == data[pos + n..];
        pos := pos + n;
      } else {
        r := Err(if pos == |data| then EOF else UnexpectedEOF);
        pos := |data|;
      }
    }
  }
}
