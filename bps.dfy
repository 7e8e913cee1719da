/** The BPS patch format as pure functions: the header, the four actions,
    the instruction loop and the checks around it. The methods in module
    BpsApply run the same steps through byte cursors and are proved equal
    to these functions. */
module Bps {
  import opened Bytes
  import opened Varint
  import opened Crc32

  /** The four instruction kinds, by the value of an instruction's low two bits. */
  datatype Action = SourceRead | TargetRead | SourceCopy | TargetCopy

  /** The header fields of a patch (the info record). */
  datatype Info = Info(
    sizeIn: u64,
    sizeOut: u64,
    metaStart: nat,
    dataStart: u64,
    crcIn: bv32,
    crcOut: bv32,
    crcPatch: bv32)

  /** Why a patch could not be applied. InstructionError is a failure to
      read an instruction word, which the source lets escape as the cursor's
      own exception; ActionFailed carries the index and kind of the
      instruction whose execution failed. */
  datatype Error =
    | Incomplete
    | BadMagic
    | InvalidSize
    | PatchCrcMismatch
    | InputSizeMismatch
    | InputCrcMismatch
    | DataStartOutOfRange
    | InstructionError(cause: StreamError)
    | ActionFailed(index: nat, action: Action, cause: StreamError)
    | OutputSizeMismatch
    | OutputCrcMismatch

  /** "BPS1" in ASCII. */
  const Magic: seq<byte> := [0x42, 0x50, 0x53, 0x31]

  /** The magic, three varints and three checksums take at least this many bytes. */
  const MinPatchSize: nat := 4 + 3 + 12

  // ---------------------------------------------------------------------
  // Header

  /** get_info: length and magic checks, the three size varints after the
      magic, and the three little-endian checksums in the last 12 bytes.
      The data start is the 64-bit sum of the metadata start and size, so
      it wraps modulo 2^64. */
  function ParseHeader(patch: seq<byte>): (r: Result<Info, Error>)
    ensures r.Ok? ==> |patch| >= MinPatchSize && patch[..4] == Magic
    ensures r.Ok? ==> 7 <= r.value.metaStart <= |patch|
  {
    if |patch| < MinPatchSize then Err(Incomplete)
    else if patch[..4] != Magic then Err(BadMagic)
    else
      var a := Decode(patch, 4);
      var b := Decode(patch, a.next);
      var c := Decode(patch, b.next);
      if a.result.Err? || b.result.Err? || c.result.Err? then Err(InvalidSize)
      else
        var n := |patch|;
        Ok(Info(a.result.value, b.result.value, c.next, AddWrap(c.next, c.result.value),
                Le32(patch[n - 12..n - 8]), Le32(patch[n - 8..n - 4]), Le32(patch[n - 4..n])))
  }

  // ---------------------------------------------------------------------
  // Instructions

  /** The interpreter's state between instructions: the three cursors,
      the output so far and the number of instructions executed. */
  datatype Machine = Machine(
    patchPos: nat,
    sourcePos: nat,
    output: seq<byte>,
    targetPos: nat,
    index: nat)

  const Start: Machine := Machine(0, 0, [], 0, 0)

  function ActionOf(instr: nat): Action {
    match instr % 4
    case 0 => SourceRead
    case 1 => TargetRead
    case 2 => SourceCopy
    case _ => TargetCopy
  }

  /** The number of bytes an instruction produces: its bits above the low two, plus one. */
  function LengthOf(instr: nat): (n: nat)
    ensures n >= 1
  {
    instr / 4 + 1
  }

  /** The signed distance a move word stands for: its bits above the low
      one, negated when the low bit is set. */
  function Rel(delta: nat): int {
    if delta % 2 == 1 then -(delta / 2) else delta / 2
  }

  /** A relative cursor move: the low bit of `delta` is the sign, the rest
      the distance. Moving back before the start fails; moving forward is
      unchecked. */
  function Move(pos: nat, delta: nat): (r: Result<nat, StreamError>)
    ensures r.Ok? <==> pos + Rel(delta) >= 0
    ensures r.Ok? ==> r.value == pos + Rel(delta)
    ensures r.Err? ==> r.error == OutOfRange
  {
    if delta % 2 == 1 then
      if delta / 2 > pos then Err(OutOfRange) else Ok(pos - delta / 2)
    else Ok(pos + delta / 2)
  }

  /** The output after `n` bytes are copied one at a time from `tp` onwards
      of the output itself, each appended before the next is read. */
  function CopyRun(out: seq<byte>, tp: nat, n: nat): (r: seq<byte>)
    requires n == 0 || tp < |out|
    ensures |r| == |out| + n && r[..|out|] == out
    decreases n
  {
    if n == 0 then out else CopyRun(out + [out[tp]], tp + 1, n - 1)
  }

  /** SourceRead: `length` bytes of the source at the offset equal to the
      current output length. The source cursor is not used. */
  function SourceReadStep(input: seq<byte>, m: Machine, length: nat): (r: Result<Machine, StreamError>)
    ensures r.Ok? <==> |m.output| + length <= |input|
    ensures r.Err? ==> r.error == OutOfRange
    ensures r.Ok? ==> (|r.value.output| == |m.output| + length && r.value.output[..|m.output|] == m.output
      && r.value.(output := m.output) == m)
  {
    var o := |m.output|;
    if o + length > |input| then Err(OutOfRange)
    else Ok(m.(output := m.output + input[o..o + length]))
  }

  /** TargetRead: the next `length` bytes of the patch, literally. */
  function TargetReadStep(body: seq<byte>, m: Machine, length: nat): (r: Result<Machine, StreamError>)
    ensures r.Ok? <==> m.patchPos + length <= |body|
    ensures r.Err? ==> r.error == OutOfRange
    ensures r.Ok? ==> (|r.value.output| == |m.output| + length && r.value.output[..|m.output|] == m.output
      && r.value.(output := m.output, patchPos := m.patchPos) == m && r.value.patchPos == m.patchPos + length)
  {
    var p := m.patchPos;
    if p + length > |body| then Err(OutOfRange)
    else Ok(m.(patchPos := p + length, output := m.output + body[p..p + length]))
  }

  /** SourceCopy: a signed move of the source cursor, then `length` bytes
      from there. */
  function SourceCopyStep(body: seq<byte>, input: seq<byte>, m: Machine, length: nat): (r: Result<Machine, StreamError>)
    ensures r.Ok? ==> (|r.value.output| == |m.output| + length && r.value.output[..|m.output|] == m.output
      && m.patchPos < r.value.patchPos <= |body| && length <= r.value.sourcePos <= |input|
      && r.value.targetPos == m.targetPos && r.value.index == m.index)
  {
    var d := Decode(body, m.patchPos);
    if d.result.Err? then Err(d.result.error)
    else
      var sp :- Move(m.sourcePos, d.result.value);
      if sp + length > |input| then Err(OutOfRange)
      else Ok(m.(patchPos := d.next, sourcePos := sp + length, output := m.output + input[sp..sp + length]))
  }

  /** TargetCopy: a signed move of the output cursor, then `length` bytes
      copied one at a time from the output itself. */
  function TargetCopyStep(body: seq<byte>, m: Machine, length: nat): (r: Result<Machine, StreamError>)
    requires length >= 1
    ensures r.Ok? ==> (|r.value.output| == |m.output| + length && r.value.output[..|m.output|] == m.output
      && m.patchPos < r.value.patchPos <= |body| && r.value.targetPos < |r.value.output|
      && r.value.sourcePos == m.sourcePos && r.value.index == m.index)
  {
    var d := Decode(body, m.patchPos);
    if d.result.Err? then Err(d.result.error)
    else
      var tp :- Move(m.targetPos, d.result.value);
      if tp >= |m.output| then Err(OutOfRange)
      else Ok(m.(patchPos := d.next, targetPos := tp + length, output := CopyRun(m.output, tp, length)))
  }

  /** One instruction of the loop: read the instruction word, run its action. */
  function Step(body: seq<byte>, input: seq<byte>, m: Machine): (r: Result<Machine, Error>)
    ensures r.Ok? ==> r.value.patchPos > m.patchPos && r.value.index == m.index + 1
  {
    var s := Decode(body, m.patchPos);
    if s.result.Err? then Err(InstructionError(s.result.error))
    else
      var instr := s.result.value;
      var act := ActionOf(instr);
      var length := LengthOf(instr);
      var m1 := m.(patchPos := s.next);
      var a := match act
        case SourceRead => SourceReadStep(input, m1, length)
        case TargetRead => TargetReadStep(body, m1, length)
        case SourceCopy => SourceCopyStep(body, input, m1, length)
        case TargetCopy => TargetCopyStep(body, m1, length);
      if a.Err? then Err(ActionFailed(m.index, act, a.error))
      else Ok(a.value.(index := m.index + 1))
  }

  /** The instruction loop: steps while the patch cursor is below `limit`. */
  function Run(body: seq<byte>, input: seq<byte>, m: Machine, limit: nat): (r: Result<Machine, Error>)
    ensures r.Ok? ==> r.value.patchPos >= limit && r.value.index >= m.index
    ensures r.Ok? && m.patchPos < limit ==> r.value.index > m.index
    decreases limit - m.patchPos
  {
    if m.patchPos >= limit then Ok(m)
    else
      match Step(body, input, m)
      case Err(e) => Err(e)
      case Ok(m') => Run(body, input, m', limit)
  }

  /** The instruction area: from the data start up to, but not including,
      the patch checksum. */
  function Body(patch: seq<byte>, info: Info): (r: seq<byte>)
    requires info.dataStart + 12 <= |patch|
    ensures |r| + 4 == |patch| - info.dataStart
  {
    patch[info.dataStart..|patch| - 4]
  }

  /** Instructions start only below this offset of the instruction area;
      the last eight bytes of it are the input and output checksums. */
  function Limit(patch: seq<byte>, info: Info): (n: nat)
    requires info.dataStart + 12 <= |patch|
    ensures n + 8 == |Body(patch, info)|
  {
    |patch| - info.dataStart - 12
  }

  /** apply: the header, the patch checksum, the input size and checksum,
      the instruction loop, then the output size and checksum. */
  function ApplySpec(patch: seq<byte>, input: seq<byte>): (r: Result<seq<byte>, Error>)
    ensures r.Ok? ==> ParseHeader(patch).Ok? && |r.value| == ParseHeader(patch).value.sizeOut
  {
    var info :- ParseHeader(patch);
    if Checksum(patch[..|patch| - 4], 0) != info.crcPatch then Err(PatchCrcMismatch)
    else if |input| != info.sizeIn then Err(InputSizeMismatch)
    else if Checksum(input, 0) != info.crcIn then Err(InputCrcMismatch)
    else if info.dataStart + 12 > |patch| then Err(DataStartOutOfRange)
    else
      var m :- Run(Body(patch, info), input, Start, Limit(patch, info));
      if |m.output| != info.sizeOut then Err(OutputSizeMismatch)
      else if Checksum(m.output, 0) != info.crcOut then Err(OutputCrcMismatch)
      else Ok(m.output)
  }
}
