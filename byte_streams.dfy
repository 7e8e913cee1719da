/** The byte cursors the patch applier reads and writes through: an input
    cursor over a read-only buffer, an output cursor that appends to a
    vector, and a stream that is both at once over the same vector. */
module ByteStreams {
  import opened Bytes
  import opened SafeAssign
  import opened Varint

  /** byte_istream: a read-only buffer and a position in it. The position
      may be moved past the end; only reads are checked. */
  class ByteIStream {
    var data: seq<byte>
    var pos: nat

    constructor (data: seq<byte>)
      ensures this.data == data && pos == 0
    {
      this.data := data;
      pos := 0;
    }

    /** eof: the position is at or past the end of the buffer. */
    predicate Eof()
      reads this
    {
      pos >= |data|
    }

    /** seek: unchecked absolute move. */
    method Seek(newPos: nat)
      modifies this
      ensures data == old(data) && pos == newPos
    {
      pos := newPos;
    }

    /** advance: unchecked forward move. */
    method Advance(delta: nat)
      modifies this
      ensures data == old(data) && pos == old(pos) + delta
    {
      pos := pos + delta;
    }

    /** rewind: backward move, refused when it would go before the start. */
    method Rewind(delta: nat) returns (r: Result<(), StreamError>)
      modifies this
      ensures data == old(data)
      ensures delta > old(pos) ==> r == Err(OutOfRange) && pos == old(pos)
      ensures delta <= old(pos) ==> r == Ok(()) && pos == old(pos) - delta
    {
      if delta > pos {
        return Err(OutOfRange);
      }
      pos := pos - delta;
      return Ok(());
    }

    /** read(): the byte at the position, which then moves past it; at the
        end of the buffer it fails and nothing moves. */
    method Read() returns (r: Result<byte, StreamError>)
      modifies this
      ensures data == old(data)
      ensures old(Eof()) ==> r == Err(OutOfRange) && pos == old(pos)
      ensures !old(Eof()) ==> r == Ok(data[old(pos)]) && pos == old(pos) + 1
    {
      if pos >= |data| {
        return Err(OutOfRange);
      }
      r := Ok(data[pos]);
      pos := pos + 1;
    }

    /** read_from(idx): the byte at an absolute index; the position stays. */
    method ReadFrom(idx: nat) returns (r: Result<byte, StreamError>)
      ensures idx >= |data| ==> r == Err(OutOfRange)
      ensures idx < |data| ==> r == Ok(data[idx])
    {
      if idx >= |data| {
        return Err(OutOfRange);
      }
      return Ok(data[idx]);
    }

    /** read(size): the next `size` bytes, which the position then moves
        past; when fewer remain it fails and nothing moves. */
    method ReadN(size: nat) returns (r: Result<seq<byte>, StreamError>)
      modifies this
      ensures data == old(data)
      ensures old(pos) + size > |data| ==> r == Err(OutOfRange) && pos == old(pos)
      ensures old(pos) + size <= |data| ==>
        r == Ok(data[old(pos)..old(pos) + size]) && pos == old(pos) + size
    {
      if pos + size > |data| {
        return Err(OutOfRange);
      }
      r := Ok(data[pos..pos + size]);
      pos := pos + size;
    }

    /** read_from(idx, size): `size` bytes from an absolute index; the
        position stays. */
    method ReadFromN(idx: nat, size: nat) returns (r: Result<seq<byte>, StreamError>)
      ensures idx + size > |data| ==> r == Err(OutOfRange)
      ensures idx + size <= |data| ==> r == Ok(data[idx..idx + size])
    {
      if idx + size > |data| {
        return Err(OutOfRange);
      }
      return Ok(data[idx..idx + size]);
    }

    /** read_le32: four single-byte reads assembled least significant
        first. A read that fails leaves the position where it stopped: at
        the end of the buffer, or where it was if that was already past. */
    method ReadLe32() returns (r: Result<bv32, StreamError>)
      modifies this
      ensures data == old(data)
      ensures old(pos) + 4 <= |data| ==>
        r == Ok(Le32(data[old(pos)..old(pos) + 4])) && pos == old(pos) + 4
      ensures old(pos) + 4 > |data| ==>
        r == Err(OutOfRange) && pos == (if old(pos) < |data| then |data| else old(pos))
    {
      ghost var start := pos;
      var b0 :- Read();
      var b1 :- Read();
      var b2 :- Read();
      var b3 :- Read();
      assert data[start..start + 4] == [b0, b1, b2, b3];
      var val: bv32 := b0 as bv32;
      val := val | ((b1 as bv32) << 8);
      val := val | ((b2 as bv32) << 16);
      val := val | ((b3 as bv32) << 24);
      return Ok(val);
    }

    /** read_varint: one BPS varint from the position, decoded in the
        64-bit word with checked shifts and adds. */
    method ReadVarint() returns (r: Result<u64, StreamError>)
      modifies this
      ensures data == old(data)
      ensures r == Decode(data, old(pos)).result && pos == Decode(data, old(pos)).next
    {
      ghost var k: nat := 0;
      var shifted: nat := 0;
      var result: u64 := 0;
      ByteFitsWord();
      while true
        invariant data == old(data) && shifted == 7 * k
        invariant Decode(data, old(pos)) == DecodeFrom(data, pos, k, result)
        decreases |data| - pos
      {
        var next :- Read();
        var val: u64 := (next & 0x7f) as int;
        if shifted > 0 {
          val := val + 1;
        }
        assert val == Digit(next, k);
        var ok;
        ok, val := SafeAssignLshift(val, shifted);
        if !ok {
          return Err(BadEncoding);
        }
        ok, result := SafeAssignAdd(result, val);
        if !ok {
          return Err(Overflow);
        }
        if next & 0x80 != 0 {
          return Ok(result);
        }
        shifted := shifted + 7;
        k := k + 1;
      }
    }
  }

  /** byte_ostream: appends to a vector. */
  class ByteOStream {
    var vec: seq<byte>

    constructor (vec: seq<byte>)
      ensures this.vec == vec
    {
      this.vec := vec;
    }

    /** write(b): one byte at the end. */
    method Write(b: byte)
      modifies this
      ensures vec == old(vec) + [b]
    {
      vec := vec + [b];
    }

    /** write(blob): each byte of `blob` at the end, in order. */
    method WriteAll(blob: seq<byte>)
      modifies this
      ensures vec == old(vec) + blob
    {
      for i := 0 to |blob|
        invariant vec == old(vec) + blob[..i]
      {
        Write(blob[i]);
        assert blob[..i + 1] == blob[..i] + [blob[i]];
      }
      assert blob[..|blob|] == blob;
    }
  }

  /** byte_stream: an output cursor and an input cursor over one vector.
      Every write points the input cursor at the grown vector again, so a
      byte just written can be read back at once. */
  class ByteStream {
    const writer: ByteOStream
    const reader: ByteIStream

    /** The input cursor reads exactly what has been written. */
    ghost predicate Valid()
      reads this, writer, reader
    {
      reader.data == writer.vec
    }

    constructor (vec: seq<byte>)
      ensures fresh(writer) && fresh(reader)
      ensures writer.vec == vec && reader.pos == 0 && Valid()
    {
      writer := new ByteOStream(vec);
      reader := new ByteIStream(vec);
    }

    /** write(b): append, then refresh the read view. */
    method Write(b: byte)
      requires Valid()
      modifies writer, reader
      ensures Valid() && writer.vec == old(writer.vec) + [b] && reader.pos == old(reader.pos)
    {
      writer.Write(b);
      reader.data := writer.vec;
    }

    /** write(blob): append all of `blob`, then refresh the read view. */
    method WriteAll(blob: seq<byte>)
      requires Valid()
      modifies writer, reader
      ensures Valid() && writer.vec == old(writer.vec) + blob && reader.pos == old(reader.pos)
    {
      writer.WriteAll(blob);
      reader.data := writer.vec;
    }
  }
}
