/**
 * The binary reader the GFD parsers read through: a cursor over the bytes of
 * a file. Integers are little-endian, records are densely packed, a read
 * past the end of the data fails, and a C string is read up to and
 * including its NUL terminator.
 */
module BinaryReader {
  import opened Wrappers
  import opened Bytes

  datatype ReadError =
    | EndOfData      // a read needed bytes beyond the end of the stream
    | NegativeCount  // a record count read from the file was negative

  class Reader {
    const data: seq<byte>
    var pos: nat

    constructor (data: seq<byte>)
      ensures this.data == data && pos == 0
    {
      this.data := data;
      pos := 0;
    }

    /** Moves the stream position; a position past the end is allowed until a read. */
    method Seek(p: nat)
      modifies this
      ensures pos == p
    {
      pos := p;
    }

    method ReadBytes(n: nat) returns (r: Result<seq<byte>, ReadError>)
      modifies this
      ensures old(pos) + n <= |data| ==> r == Ok(data[old(pos) .. old(pos) + n]) && pos == old(pos) + n
      ensures old(pos) + n > |data| ==> r == Err(EndOfData) && pos == old(pos)
    {
      if pos + n <= |data| {
        r := Ok(data[pos .. pos + n]);
        pos := pos + n;
      } else {
        r := Err(EndOfData);
      }
    }

    method ReadByte() returns (r: Result<byte, ReadError>)
      modifies this
      ensures old(pos) < |data| ==> r == Ok(data[old(pos)]) && pos == old(pos) + 1
      ensures old(pos) >= |data| ==> r == Err(EndOfData) && pos == old(pos)
    {
      if pos < |data| {
        r := Ok(data[pos]);
        pos := pos + 1;
      } else {
        r := Err(EndOfData);
      }
    }

    method ReadUInt32() returns (r: Result<u32, ReadError>)
      modifies this
      ensures old(pos) + 4 <= |data| ==> r == Ok(U32Of(data[old(pos) .. old(pos) + 4])) && pos == old(pos) + 4
      ensures old(pos) + 4 > |data| ==> r == Err(EndOfData) && pos == old(pos)
    {
      var b :- ReadBytes(4);
      r := Ok(U32Of(b));
    }

    method ReadInt32() returns (r: Result<i32, ReadError>)
      modifies this
      ensures old(pos) + 4 <= |data| ==> r == Ok(I32Of(data[old(pos) .. old(pos) + 4])) && pos == old(pos) + 4
      ensures old(pos) + 4 > |data| ==> r == Err(EndOfData) && pos == old(pos)
    {
      var b :- ReadBytes(4);
      r := Ok(I32Of(b));
    }

    /** The bytes before the next NUL; the NUL is consumed; no NUL before the end fails. */
    method ReadCStringA() returns (r: Result<seq<byte>, ReadError>)
      modifies this
      ensures NulIndex(data, old(pos)).None? ==> r == Err(EndOfData)
      ensures NulIndex(data, old(pos)).Some? ==>
        var z := NulIndex(data, old(pos)).value;
        r == Ok(data[old(pos) .. z]) && pos == z + 1
    {
      var start := pos;
      var text: seq<byte> := [];
      while true
        invariant start == pos || start < pos <= |data|
        invariant |text| == pos - start
        invariant forall j :: start <= j < pos ==> text[j - start] == data[j] && data[j] != 0
        decreases |data| - pos
      {
        var b := ReadByte();
        if b.Err? {
          NulIndexNone(data, start);
          return Err(EndOfData);
        }
        if b.value == 0 {
          NulIndexIs(data, start, pos - 1);
          assert text == data[start .. pos - 1];
          return Ok(text);
        }
        text := text + [b.value];
      }
    }

    /** `count` consecutive records of `size` bytes each. */
    method ReadMultiple(count: int, size: nat) returns (r: Result<seq<seq<byte>>, ReadError>)
      requires pos <= |data|
      modifies this
      ensures count < 0 ==> r == Err(NegativeCount)
      ensures count >= 0 && old(pos) + Span(count, size) <= |data| ==>
        r == Ok(Blocks(data, old(pos), count, size)) && pos == old(pos) + Span(count, size)
      ensures count >= 0 && old(pos) + Span(count, size) > |data| ==> r == Err(EndOfData)
    {
      if count < 0 {
        return Err(NegativeCount);
      }
      var start := pos;
      var items: seq<seq<byte>> := [];
      var i := 0;
      while i < count
        invariant 0 <= i <= count
        invariant pos == start + Span(i, size) <= |data|
        invariant items == Blocks(data, start, i, size)
      {
        var b := ReadBytes(size);
        if b.Err? {
          BlocksFitWithin(start, i, count, size, |data|);
          return Err(EndOfData);
        }
        BlocksSnoc(data, start, i, size);
        items := items + [b.value];
        i := i + 1;
        assert pos == start + Span(i, size);
      }
      r := Ok(items);
    }
  }

  /** If all `count` blocks would fit, so does the one after the first `i`. */
  lemma BlocksFitWithin(start: nat, i: nat, count: nat, size: nat, len: nat)
    requires i < count && start + Span(i, size) + size > len
    ensures start + Span(count, size) > len
  {
    SpanMono(i + 1, count, size);
  }
}
