/** get_info and apply as the source writes them: byte cursors over the
    patch, the source and the output, moved step by step, each method
    proved to compute what module Bps specifies. */
module BpsApply {
  import opened Bytes
  import opened Crc32
  import opened Varint
  import opened ByteStreams
  import opened Bps

  /** get_info through an input cursor over the whole patch. */
  method GetInfo(patch: seq<byte>) returns (r: Result<Info, Error>)
    ensures r == ParseHeader(patch)
  {
    if |patch| < MinPatchSize {
      return Err(Incomplete);
    }
    var stream := new ByteIStream(patch);
    var magic := stream.ReadN(4);
    if magic.value != Magic {
      return Err(BadMagic);
    }
    var sizes := ReadSizes(stream);
    if sizes.Err? {
      return Err(InvalidSize);
    }
    var (sizeIn, sizeOut, metaSize, p2, p3) := sizes.value;
    var metaStart := stream.pos;
    var dataStart := AddWrap(stream.pos, metaSize);
    var crcIn, crcOut, crcPatch := ReadChecksums(stream);
    HeaderOfParts(patch, sizeIn, sizeOut, metaSize, p2, p3, metaStart, crcIn, crcOut, crcPatch);
    return Ok(Info(sizeIn, sizeOut, metaStart, dataStart, crcIn, crcOut, crcPatch));
  }

  /** The three size varints of get_info, read one after another; any
      failure among them is reported as one. */
  method ReadSizes(stream: ByteIStream) returns (r: Result<(u64, u64, u64, nat, nat), StreamError>)
    modifies stream
    ensures stream.data == old(stream.data)
    ensures var d := stream.data; var a := Decode(d, old(stream.pos)); var b := Decode(d, a.next);
      var c := Decode(d, b.next);
      if a.result.Err? || b.result.Err? || c.result.Err? then r.Err?
      else r == Ok((a.result.value, b.result.value, c.result.value, a.next, b.next)) && stream.pos == c.next
  {
    var sizeIn := stream.ReadVarint();
    if sizeIn.Err? {
      return Err(sizeIn.error);
    }
    var p2 := stream.pos;
    var sizeOut := stream.ReadVarint();
    if sizeOut.Err? {
      return Err(sizeOut.error);
    }
    var p3 := stream.pos;
    var metaSize := stream.ReadVarint();
    if metaSize.Err? {
      return Err(metaSize.error);
    }
    return Ok((sizeIn.value, sizeOut.value, metaSize.value, p2, p3));
  }

  /** What get_info has read, once every read succeeded, is the header
      ParseHeader specifies. */
  lemma HeaderOfParts(patch: seq<byte>, sizeIn: u64, sizeOut: u64, metaSize: u64, p2: nat, p3: nat, p4: nat,
                      crcIn: bv32, crcOut: bv32, crcPatch: bv32)
    requires |patch| >= MinPatchSize && patch[..4] == Magic
    requires Decode(patch, 4) == Scan(Ok(sizeIn), p2)
    requires Decode(patch, p2) == Scan(Ok(sizeOut), p3)
    requires Decode(patch, p3) == Scan(Ok(metaSize), p4)
    requires var n := |patch|;
      crcIn == Le32(patch[n - 12..n - 8]) && crcOut == Le32(patch[n - 8..n - 4]) && crcPatch == Le32(patch[n - 4..n])
    ensures ParseHeader(patch) == Ok(Info(sizeIn, sizeOut, p4, AddWrap(p4, metaSize), crcIn, crcOut, crcPatch))
  {
  }

  /** The end of get_info: the three little-endian checksums in the last
      12 bytes, read in order after a seek. */
  method ReadChecksums(stream: ByteIStream) returns (crcIn: bv32, crcOut: bv32, crcPatch: bv32)
    requires |stream.data| >= 12
    modifies stream
    ensures stream.data == old(stream.data)
    ensures var d := stream.data; var n := |d|;
      crcIn == Le32(d[n - 12..n - 8]) && crcOut == Le32(d[n - 8..n - 4]) && crcPatch == Le32(d[n - 4..n])
  {
    stream.Seek(|stream.data| - 12);
    var r := stream.ReadLe32();
    crcIn := r.value;
    r := stream.ReadLe32();
    crcOut := r.value;
    r := stream.ReadLe32();
    crcPatch := r.value;
  }

  /** The three cursors of apply are distinct objects. */
  predicate Separate(p: ByteIStream, s: ByteIStream, t: ByteStream) {
    p != s && p != t.reader && s != t.reader
  }

  /** The interpreter state the cursors hold. */
  ghost function State(p: ByteIStream, s: ByteIStream, t: ByteStream, index: nat): Machine
    reads p, s, t.writer, t.reader
  {
    Machine(p.pos, s.pos, t.writer.vec, t.reader.pos, index)
  }

  /** A method's outcome paired with the state it leaves. */
  function Lift<E>(r: Result<(), E>, m: Machine): Result<Machine, E> {
    if r.Err? then Err(r.error) else Ok(m)
  }

  /** The signed move both copy actions make: rewind by half of `delta`
      when its low bit is set, advance by half of it otherwise. */
  method MoveBy(c: ByteIStream, delta: nat) returns (r: Result<(), StreamError>)
    modifies c
    ensures c.data == old(c.data)
    ensures Move(old(c.pos), delta).Err? ==> r == Err(Move(old(c.pos), delta).error)
    ensures Move(old(c.pos), delta).Ok? ==> r == Ok(()) && c.pos == Move(old(c.pos), delta).value
  {
    if delta % 2 == 1 {
      r := c.Rewind(delta / 2);
    } else {
      c.Advance(delta / 2);
      r := Ok(());
    }
  }

  /** The SourceRead case. */
  method DoSourceRead(p: ByteIStream, s: ByteIStream, t: ByteStream, length: nat, ghost index: nat)
    returns (r: Result<(), StreamError>)
    requires Separate(p, s, t) && t.Valid()
    modifies t.writer, t.reader
    ensures t.Valid()
    ensures Lift(r, State(p, s, t, index)) == SourceReadStep(s.data, old(State(p, s, t, index)), length)
  {
    var blob := s.ReadFromN(|t.writer.vec|, length);
    if blob.Err? {
      return Err(blob.error);
    }
    t.WriteAll(blob.value);
    return Ok(());
  }

  /** The TargetRead case. */
  method DoTargetRead(p: ByteIStream, s: ByteIStream, t: ByteStream, length: nat, ghost index: nat)
    returns (r: Result<(), StreamError>)
    requires Separate(p, s, t) && t.Valid()
    modifies p, t.writer, t.reader
    ensures t.Valid() && p.data == old(p.data)
    ensures Lift(r, State(p, s, t, index)) == TargetReadStep(p.data, old(State(p, s, t, index)), length)
  {
    var blob := p.ReadN(length);
    if blob.Err? {
      return Err(blob.error);
    }
    t.WriteAll(blob.value);
    return Ok(());
  }

  /** The SourceCopy case. */
  method DoSourceCopy(p: ByteIStream, s: ByteIStream, t: ByteStream, length: nat, ghost index: nat)
    returns (r: Result<(), StreamError>)
    requires Separate(p, s, t) && t.Valid()
    modifies p, s, t.writer, t.reader
    ensures t.Valid() && p.data == old(p.data) && s.data == old(s.data)
    ensures Lift(r, State(p, s, t, index)) == SourceCopyStep(p.data, s.data, old(State(p, s, t, index)), length)
  {
    var delta := p.ReadVarint();
    if delta.Err? {
      return Err(delta.error);
    }
    var moved := MoveBy(s, delta.value);
    if moved.Err? {
      return Err(moved.error);
    }
    var blob := s.ReadN(length);
    if blob.Err? {
      return Err(blob.error);
    }
    t.WriteAll(blob.value);
    return Ok(());
  }

  /** The inner loop of TargetCopy: read a byte at the output cursor and
      append it, `length` times; a byte appended is readable at once. */
  method CopyBack(t: ByteStream, length: nat) returns (r: Result<(), StreamError>)
    requires t.Valid()
    modifies t.writer, t.reader
    ensures t.Valid()
    ensures var out := old(t.writer.vec); var tp := old(t.reader.pos);
      if length > 0 && tp >= |out| then r == Err(OutOfRange)
      else r == Ok(()) && t.writer.vec == CopyRun(out, tp, length) && t.reader.pos == tp + length
  {
    ghost var out := t.writer.vec;
    ghost var tp := t.reader.pos;
    var i := 0;
    while i < length
      invariant i <= length && t.Valid()
      invariant t.reader.pos == tp + i && |t.writer.vec| == |out| + i
      invariant i == 0 ==> t.writer.vec == out
      invariant i > 0 ==> tp < |out|
      invariant length == 0 || tp < |out| ==>
        CopyRun(out, tp, length) == CopyRun(t.writer.vec, t.reader.pos, length - i)
    {
      var b :- t.reader.Read();
      t.Write(b);
      i := i + 1;
    }
    return Ok(());
  }

  /** The TargetCopy case. */
  method DoTargetCopy(p: ByteIStream, s: ByteIStream, t: ByteStream, length: nat, ghost index: nat)
    returns (r: Result<(), StreamError>)
    requires Separate(p, s, t) && t.Valid() && length >= 1
    modifies p, t.writer, t.reader
    ensures t.Valid() && p.data == old(p.data)
    ensures Lift(r, State(p, s, t, index)) == TargetCopyStep(p.data, old(State(p, s, t, index)), length)
  {
    var delta := p.ReadVarint();
    if delta.Err? {
      return Err(delta.error);
    }
    var moved := MoveBy(t.reader, delta.value);
    if moved.Err? {
      return Err(moved.error);
    }
    r := CopyBack(t, length);
  }

  /** One pass of the instruction loop: the instruction word, then its action. */
  method Execute(p: ByteIStream, s: ByteIStream, t: ByteStream, index: nat) returns (r: Result<(), Error>)
    requires Separate(p, s, t) && t.Valid()
    modifies p, s, t.writer, t.reader
    ensures t.Valid() && p.data == old(p.data) && s.data == old(s.data)
    ensures Lift(r, State(p, s, t, index + 1)) == Step(p.data, s.data, old(State(p, s, t, index)))
  {
    var instr := p.ReadVarint();
    if instr.Err? {
      return Err(InstructionError(instr.error));
    }
    var act := ActionOf(instr.value);
    var length := LengthOf(instr.value);
    var a: Result<(), StreamError>;
    match act {
      case SourceRead => a := DoSourceRead(p, s, t, length, index);
      case TargetRead => a := DoTargetRead(p, s, t, length, index);
      case SourceCopy => a := DoSourceCopy(p, s, t, length, index);
      case TargetCopy => a := DoTargetCopy(p, s, t, length, index);
    }
    if a.Err? {
      return Err(ActionFailed(index, act, a.error));
    }
    return Ok(());
  }

  /** apply: the checks before, the instruction loop, the checks after. */
  method Apply(patch: seq<byte>, input: seq<byte>) returns (r: Result<seq<byte>, Error>)
    ensures r == ApplySpec(patch, input)
  {
    var info :- GetInfo(patch);
    var patchCrc := CalcCrc32(patch[..|patch| - 4], 0);
    if patchCrc != info.crcPatch {
      return Err(PatchCrcMismatch);
    }
    if |input| != info.sizeIn {
      return Err(InputSizeMismatch);
    }
    var inputCrc := CalcCrc32(input, 0);
    if inputCrc != info.crcIn {
      return Err(InputCrcMismatch);
    }
    if info.dataStart + 12 > |patch| {
      return Err(DataStartOutOfRange);
    }
    var body := patch[info.dataStart..|patch| - 4];
    var limit := |patch| - info.dataStart - 12;
    assert body == Body(patch, info) && limit == Limit(patch, info);
    var p := new ByteIStream(body);
    var s := new ByteIStream(input);
    var t := new ByteStream([]);
    var index := 0;
    while p.pos < limit
      invariant Separate(p, s, t) && t.Valid() && p.data == body && s.data == input
      invariant Run(body, input, Start, limit) == Run(body, input, State(p, s, t, index), limit)
      decreases limit - p.pos
    {
      var e := Execute(p, s, t, index);
      if e.Err? {
        return Err(e.error);
      }
      index := index + 1;
    }
    var output := t.writer.vec;
    if |output| != info.sizeOut {
      return Err(OutputSizeMismatch);
    }
    var outputCrc := CalcCrc32(output, 0);
    if outputCrc != info.crcOut {
      return Err(OutputCrcMismatch);
    }
    return Ok(output);
  }
}
