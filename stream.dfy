/** The part of the byte-stream interface the MRG decoder uses: a byte
    sequence and one cursor, with absolute seek, relative skip and
    little-endian reads that fail rather than run past the end. */
module Io {
  import opened Bytes
  import opened Outcomes

  class Stream {
    /** The stream's bytes; the decoder never writes to its input. */
    const data: seq<Byte>
    /** The cursor. */
    var pos: nat

    ghost predicate Valid()
      reads this
    {
      pos <= |data|
    }

    constructor (bytes: seq<Byte>)
      ensures Valid()
      ensures data == bytes && pos == 0
    {
      data := bytes;
      pos := 0;
    }

    /** size() */
    function Size(): nat
    {
      |data|
    }

    /** seek(offset): fails for a position past the end; the cursor only
        moves on success. */
    method Seek(offset: int) returns (r: Result<()>)
      requires Valid()
      modifies this
      ensures Valid()
      ensures r.Success? <==> 0 <= offset <= |data|
      ensures r.Failure? ==> r.error == UnexpectedEof
      ensures pos == if r.Success? then offset else old(pos)
    {
      if 0 <= offset <= |data| {
        pos := offset;
        r := Success(());
      } else {
        r := Failure(UnexpectedEof);
      }
    }

    /** skip(delta): a seek relative to the cursor. */
    method Skip(delta: int) returns (r: Result<()>)
      requires Valid()
      modifies this
      ensures Valid()
      ensures r.Success? <==> old(pos) + delta <= |data| && 0 <= old(pos) + delta
      ensures r.Failure? ==> r.error == UnexpectedEof
      ensures pos == if r.Success? then old(pos) + delta else old(pos)
    {
      r := Seek(pos + delta);
    }

    /** read(n): exactly n bytes from the cursor, or a failure when fewer
        than n remain. */
    method Read(n: nat) returns (r: Result<seq<Byte>>)
      requires Valid()
      modifies this
      ensures Valid()
      ensures r.Success? <==> old(pos) + n <= |data|
      ensures r.Failure? ==> r.error == UnexpectedEof && pos == old(pos)
      ensures r.Success? ==> r.value == data[old(pos)..old(pos) + n] && pos == old(pos) + n
    {
      if pos + n <= |data| {
        r := Success(data[pos..pos + n]);
        pos := pos + n;
      } else {
        r := Failure(UnexpectedEof);
      }
    }

    /** read_u8() */
    method ReadU8() returns (r: Result<Byte>)
      requires Valid()
      modifies this
      ensures Valid()
      ensures r.Success? <==> old(pos) + 1 <= |data|
      ensures r.Failure? ==> r.error == UnexpectedEof && pos == old(pos)
      ensures r.Success? ==> r.value == data[old(pos)] && pos == old(pos) + 1
    {
      var bytes :- Read(1);
      r := Success(bytes[0]);
    }

    /** read_u32_le() */
    method ReadU32Le() returns (r: Result<U32>)
      requires Valid()
      modifies this
      ensures Valid()
      ensures r.Success? <==> old(pos) + 4 <= |data|
      ensures r.Failure? ==> r.error == UnexpectedEof && pos == old(pos)
      ensures r.Success? ==> r.value == LE32(data, old(pos)) && pos == old(pos) + 4
    {
      var bytes :- Read(4);
      r := Success(LE32(bytes, 0));
    }

    /** read_to_zero(n): reads a field of n bytes and keeps the bytes before
        its first zero byte. */
    method ReadToZero(n: nat) returns (r: Result<seq<Byte>>)
      requires Valid()
      modifies this
      ensures Valid()
      ensures r.Success? <==> old(pos) + n <= |data|
      ensures r.Failure? ==> r.error == UnexpectedEof && pos == old(pos)
      ensures r.Success? ==> r.value == TrimAtZero(data[old(pos)..old(pos) + n]) && pos == old(pos) + n
    {
      var field :- Read(n);
      r := Success(TrimAtZero(field));
    }
  }
}
