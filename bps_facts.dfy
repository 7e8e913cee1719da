/** What the BPS functions promise: the header a writer produces parses
    back to its fields, instruction words round-trip, each instruction
    appends exactly its length, TargetCopy repeats the window it copies,
    and apply checks what it checks in the order it checks it. */
module BpsFacts {
  import opened Arith
  import opened Bytes
  import opened Varint
  import opened Crc32
  import opened Bps

  // ---------------------------------------------------------------------
  // Header

  /** A header as a writer lays it out: the magic, the input size, the
      output size and the metadata length as varints, then the metadata. */
  function HeaderBytes(sizeIn: nat, sizeOut: nat, meta: seq<byte>): seq<byte> {
    Magic + Encode(sizeIn) + Encode(sizeOut) + Encode(|meta|) + meta
  }

  /** The 12 bytes that close a patch: input, output and patch checksums. */
  function Trailer(crcIn: bv32, crcOut: bv32, crcPatch: bv32): seq<byte> {
    Le32Bytes(crcIn) + Le32Bytes(crcOut) + Le32Bytes(crcPatch)
  }

  lemma ShortPatchIncomplete(patch: seq<byte>)
    requires |patch| < 19
    ensures ParseHeader(patch) == Err(Incomplete)
  {
  }

  lemma BadMagicRejected(patch: seq<byte>)
    requires |patch| >= 19 && patch[..4] != [0x42, 0x50, 0x53, 0x31]
    ensures ParseHeader(patch) == Err(BadMagic)
  {
  }

  /** A patch whose magic is right but one of whose three size varints
      fails to decode, whichever way it fails, is rejected as an invalid size. */
  lemma BadSizeRejected(patch: seq<byte>)
    requires |patch| >= 19 && patch[..4] == [0x42, 0x50, 0x53, 0x31]
    requires var a := Decode(patch, 4); var b := Decode(patch, a.next); var c := Decode(patch, b.next);
      a.result.Err? || b.result.Err? || c.result.Err?
    ensures ParseHeader(patch) == Err(InvalidSize)
  {
  }

  /** The three trailing words of any patch of at least 12 bytes. */
  lemma TrailerWords(front: seq<byte>, crcIn: bv32, crcOut: bv32, crcPatch: bv32)
    ensures var patch := front + Trailer(crcIn, crcOut, crcPatch); var n := |patch|;
      Le32(patch[n - 12..n - 8]) == crcIn && Le32(patch[n - 8..n - 4]) == crcOut && Le32(patch[n - 4..n]) == crcPatch
  {
    var patch := front + Trailer(crcIn, crcOut, crcPatch);
    var n := |patch|;
    assert patch[n - 12..n - 8] == Le32Bytes(crcIn);
    assert patch[n - 8..n - 4] == Le32Bytes(crcOut);
    assert patch[n - 4..n] == Le32Bytes(crcPatch);
    Le32RoundTrip(crcIn);
    Le32RoundTrip(crcOut);
    Le32RoundTrip(crcPatch);
  }

  /** Whatever precedes them, the three trailing words of a patch are the
      checksums its header reports. */
  lemma HeaderChecksums(front: seq<byte>, crcIn: bv32, crcOut: bv32, crcPatch: bv32)
    requires ParseHeader(front + Trailer(crcIn, crcOut, crcPatch)).Ok?
    ensures var info := ParseHeader(front + Trailer(crcIn, crcOut, crcPatch)).value;
      info.crcIn == crcIn && info.crcOut == crcOut && info.crcPatch == crcPatch
  {
    TrailerWords(front, crcIn, crcOut, crcPatch);
  }

  /** The header a writer produces parses back to the sizes it was built
      from, whatever follows it: the metadata starts after the third varint
      and the instructions after the metadata. */
  lemma ParseHeaderRoundTrip(sizeIn: u64, sizeOut: u64, meta: seq<byte>, tail: seq<byte>)
    requires |meta| < WordLimit && |tail| >= 12
    ensures var h := HeaderBytes(sizeIn, sizeOut, meta); var r := ParseHeader(h + tail);
      r.Ok? && r.value.sizeIn == sizeIn && r.value.sizeOut == sizeOut
    ensures var h := HeaderBytes(sizeIn, sizeOut, meta); var r := ParseHeader(h + tail);
      r.Ok? && r.value.metaStart == |h| - |meta|
    ensures var h := HeaderBytes(sizeIn, sizeOut, meta); var r := ParseHeader(h + tail);
      r.Ok? && r.value.dataStart == AddWrap(r.value.metaStart, |meta|)
  {
    var e1, e2, e3 := Encode(sizeIn), Encode(sizeOut), Encode(|meta|);
    var h := HeaderBytes(sizeIn, sizeOut, meta);
    var patch := h + tail;
    var rest := meta + tail;
    assert |Magic| == 4;
    HeaderLayout(Magic, e1, e2, e3, meta, tail);
    DecodeInside(Magic, sizeIn, e2 + e3 + rest);
    DecodeInside(Magic + e1, sizeOut, e3 + rest);
    DecodeInside(Magic + e1 + e2, |meta|, rest);
    PrefixOf(Magic, e1 + e2 + e3 + rest);
    var p2, p3, p4 := 4 + |e1|, 4 + |e1| + |e2|, |h| - |meta|;
    assert |Magic + e1 + e2| == p3;
    assert Decode(patch, p3) == Scan(Ok(|meta|), p3 + |e3|);
    assert |h| == 4 + |e1| + |e2| + |e3| + |meta|;
    HeaderFields(patch, sizeIn, sizeOut, |meta|, p2, p3, p4);
  }

  /** A metadata size of 2^64 - 1 makes the 64-bit data start wrap around
      to one byte before the metadata start, in any patch that fits in memory. */
  lemma MetaSizeWraps(patch: seq<byte>)
    requires |patch| >= MinPatchSize && patch[..4] == Magic && |patch| < WordLimit
    requires var a := Decode(patch, 4); var b := Decode(patch, a.next); var c := Decode(patch, b.next);
      a.result.Ok? && b.result.Ok? && c.result == Ok(WordLimit - 1)
    ensures ParseHeader(patch).Ok? && ParseHeader(patch).value.dataStart + 1 == ParseHeader(patch).value.metaStart
  {
  }

  /** The ways of grouping a header and what follows it that the proof above needs. */
  lemma HeaderLayout(m: seq<byte>, e1: seq<byte>, e2: seq<byte>, e3: seq<byte>,
                     meta: seq<byte>, tail: seq<byte>)
    ensures var rest := meta + tail; var whole := m + e1 + e2 + e3 + meta + tail;
      whole == m + e1 + e2 + e3 + rest
      && whole == m + (e1 + e2 + e3 + rest)
      && whole == m + e1 + (e2 + e3 + rest)
      && whole == m + e1 + e2 + (e3 + rest)
  {
  }

  lemma PrefixOf(a: seq<byte>, b: seq<byte>)
    ensures (a + b)[..|a|] == a
  {
  }

  /** A varint inside a patch decodes to its value, whatever surrounds it. */
  lemma DecodeInside(pre: seq<byte>, v: u64, post: seq<byte>)
    ensures Decode(pre + Encode(v) + post, |pre|) == Scan(Ok(v), |pre| + |Encode(v)|)
  {
    var e := Encode(v);
    Middle(pre, e, post);
    RoundTrip(pre + e + post, |pre|, v);
  }

  lemma Middle(a: seq<byte>, b: seq<byte>, c: seq<byte>)
    ensures (a + b + c)[|a|..|a| + |b|] == b
  {
  }

  /** ParseHeader once the magic and the three varints are known. */
  lemma HeaderFields(patch: seq<byte>, sizeIn: u64, sizeOut: u64, metaSize: u64, p2: nat, p3: nat, p4: nat)
    requires |patch| >= MinPatchSize && patch[..4] == Magic
    requires Decode(patch, 4) == Scan(Ok(sizeIn), p2)
    requires Decode(patch, p2) == Scan(Ok(sizeOut), p3)
    requires Decode(patch, p3) == Scan(Ok(metaSize), p4)
    ensures var r := ParseHeader(patch);
      r.Ok? && r.value.sizeIn == sizeIn && r.value.sizeOut == sizeOut
      && r.value.metaStart == p4 && r.value.dataStart == AddWrap(r.value.metaStart, metaSize)
  {
  }

  // ---------------------------------------------------------------------
  // Instruction words

  /** The enumerator value of each action, as the source's enum declares it. */
  function ActionCode(act: Action): (c: nat)
    ensures c < 4
  {
    match act
    case SourceRead => 0
    case TargetRead => 1
    case SourceCopy => 2
    case TargetCopy => 3
  }

  /** The instruction word a writer emits for `act` over `length` bytes. */
  function Instruction(act: Action, length: nat): nat
    requires length >= 1
  {
    4 * (length - 1) + ActionCode(act)
  }

  /** Instruction words round-trip: the low two bits give the action back,
      the rest the length. */
  lemma InstructionRoundTrip(act: Action, length: nat)
    requires length >= 1
    ensures ActionOf(Instruction(act, length)) == act
    ensures LengthOf(Instruction(act, length)) == length
  {
    var w := Instruction(act, length);
    DivModUnique(w, 4, length - 1, ActionCode(act));
  }

  /** Every word is the instruction of its action and length. */
  lemma InstructionOfWord(w: nat)
    ensures Instruction(ActionOf(w), LengthOf(w)) == w
  {
  }

  // ---------------------------------------------------------------------
  // One instruction

  /** A successful instruction appends exactly its length to the output
      and leaves what was there in place. */
  lemma StepAppends(body: seq<byte>, input: seq<byte>, m: Machine)
    requires Step(body, input, m).Ok?
    ensures var s := Decode(body, m.patchPos); var m' := Step(body, input, m).value;
      s.result.Ok? && |m'.output| == |m.output| + LengthOf(s.result.value)
      && m'.output[..|m.output|] == m.output
  {
  }

  /** A SourceRead instruction appends the source bytes at the current
      output length, whatever the source cursor is, and does not move it. */
  lemma SourceReadCopiesAtOutputLength(body: seq<byte>, input: seq<byte>, m: Machine)
    requires Step(body, input, m).Ok?
    requires Decode(body, m.patchPos).result.Ok?
    requires ActionOf(Decode(body, m.patchPos).result.value) == SourceRead
    ensures var o := |m.output|; var m' := Step(body, input, m).value;
      var length := LengthOf(Decode(body, m.patchPos).result.value);
      o + length <= |input| && m'.output == m.output + input[o..o + length] && m'.sourcePos == m.sourcePos
  {
  }

  /** A SourceRead instruction longer than what remains of the source
      past the current output length fails with the source cursor's
      out-of-range error. */
  lemma SourceReadPastEnd(body: seq<byte>, input: seq<byte>, m: Machine)
    requires Decode(body, m.patchPos).result.Ok?
    requires ActionOf(Decode(body, m.patchPos).result.value) == SourceRead
    requires |m.output| + LengthOf(Decode(body, m.patchPos).result.value) > |input|
    ensures Step(body, input, m) == Err(ActionFailed(m.index, SourceRead, OutOfRange))
  {
  }

  /** A SourceCopy instruction reads a move word after the instruction
      word, moves the source cursor by it, appends the source bytes from
      there and leaves the source cursor just past them. */
  lemma SourceCopyAppends(body: seq<byte>, input: seq<byte>, m: Machine)
    requires Step(body, input, m).Ok?
    requires Decode(body, m.patchPos).result.Ok?
    requires ActionOf(Decode(body, m.patchPos).result.value) == SourceCopy
    ensures var d := Decode(body, Decode(body, m.patchPos).next);
      d.result.Ok? && Move(m.sourcePos, d.result.value).Ok?
    ensures var s := Decode(body, m.patchPos); var d := Decode(body, s.next);
      var sp := Move(m.sourcePos, d.result.value).value; var length := LengthOf(s.result.value);
      var m' := Step(body, input, m).value;
      sp + length <= |input| && m'.output == m.output + input[sp..sp + length]
      && m'.sourcePos == sp + length && m'.patchPos == d.next && m'.targetPos == m.targetPos
  {
  }

  /** A SourceCopy instruction whose move lands where fewer than its length
      of source bytes remain fails with the source cursor's out-of-range error. */
  lemma SourceCopyPastEnd(body: seq<byte>, input: seq<byte>, m: Machine)
    requires Decode(body, m.patchPos).result.Ok?
    requires ActionOf(Decode(body, m.patchPos).result.value) == SourceCopy
    requires var s := Decode(body, m.patchPos); var d := Decode(body, s.next);
      d.result.Ok? && Move(m.sourcePos, d.result.value).Ok?
      && Move(m.sourcePos, d.result.value).value + LengthOf(s.result.value) > |input|
    ensures Step(body, input, m) == Err(ActionFailed(m.index, SourceCopy, OutOfRange))
  {
  }

  /** A SourceCopy instruction whose move would take the source cursor
      before the start fails with the out-of-range error of the rewind. */
  lemma SourceCopyBeforeStart(body: seq<byte>, input: seq<byte>, m: Machine)
    requires Decode(body, m.patchPos).result.Ok?
    requires ActionOf(Decode(body, m.patchPos).result.value) == SourceCopy
    requires var d := Decode(body, Decode(body, m.patchPos).next);
      d.result.Ok? && m.sourcePos + Rel(d.result.value) < 0
    ensures Step(body, input, m) == Err(ActionFailed(m.index, SourceCopy, OutOfRange))
  {
  }

  /** A TargetRead instruction longer than what remains of the patch fails
      with the patch cursor's out-of-range error. */
  lemma TargetReadPastEnd(body: seq<byte>, input: seq<byte>, m: Machine)
    requires Decode(body, m.patchPos).result.Ok?
    requires ActionOf(Decode(body, m.patchPos).result.value) == TargetRead
    requires Decode(body, m.patchPos).next + LengthOf(Decode(body, m.patchPos).result.value) > |body|
    ensures Step(body, input, m) == Err(ActionFailed(m.index, TargetRead, OutOfRange))
  {
  }

  /** An instruction word that cannot be read ends the loop with the
      varint's own error, untagged. */
  lemma InstructionWordFails(body: seq<byte>, input: seq<byte>, m: Machine)
    requires Decode(body, m.patchPos).result.Err?
    ensures Step(body, input, m) == Err(InstructionError(Decode(body, m.patchPos).result.error))
  {
  }

  /** A decoded TargetRead word followed by its literal appends the literal
      and moves the patch cursor past both. */
  lemma StepTargetRead(body: seq<byte>, input: seq<byte>, m: Machine, w: u64, q: nat, lit: seq<byte>)
    requires Decode(body, m.patchPos) == Scan(Ok(w), q)
    requires ActionOf(w) == TargetRead && LengthOf(w) == |lit|
    requires q + |lit| <= |body| && body[q..q + |lit|] == lit
    ensures Step(body, input, m)
      == Ok(m.(patchPos := q + |lit|, output := m.output + lit, index := m.index + 1))
  {
    var m1 := m.(patchPos := q);
    assert TargetReadStep(body, m1, |lit|) == Ok(m1.(patchPos := q + |lit|, output := m.output + lit));
  }

  /** The word a writer encodes for an action and a length decodes, where it
      sits in the patch, back to that action and that length, and the
      cursor lands right after it. */
  lemma InstructionDecodes(body: seq<byte>, pos: nat, act: Action, length: nat)
    requires length >= 1 && Instruction(act, length) < WordLimit
    requires var e := Encode(Instruction(act, length));
      pos + |e| <= |body| && body[pos..pos + |e|] == e
    ensures var w := Instruction(act, length);
      Decode(body, pos) == Scan(Ok(w), pos + |Encode(w)|)
      && ActionOf(w) == act && LengthOf(w) == length
  {
    var w := Instruction(act, length);
    RoundTrip(body, pos, w);
    InstructionRoundTrip(act, length);
  }

  // ---------------------------------------------------------------------
  // Overlapping copies

  /** Each byte a TargetCopy appends equals the byte one window back, the
      window being the distance between the copy cursor and the end. */
  lemma {:induction false} CopyRunPeriodic(out: seq<byte>, tp: nat, n: nat, k: nat)
    requires tp < |out| && |out| <= k < |out| + n
    ensures CopyRun(out, tp, n)[k] == CopyRun(out, tp, n)[k - (|out| - tp)]
    decreases n
  {
    var out' := out + [out[tp]];
    var r := CopyRun(out', tp + 1, n - 1);
    assert CopyRun(out, tp, n) == r;
    if k == |out| {
      assert r[..|out'|] == out';
      assert r[k] == out'[k] && r[tp] == out'[tp];
    } else {
      CopyRunPeriodic(out', tp + 1, n - 1, k);
    }
  }

  /** Splits `j` into whole windows of width `d` and a remainder. */
  lemma ModStep(j: nat, d: nat)
    requires 0 < d <= j
    ensures (j - d) % d == j % d
  {
    var q, r := (j - d) / d, (j - d) % d;
    assert j - d == q * d + r;
    assert j == (q + 1) * d + r;
    DivModUnique(j, d, q + 1, r);
  }

  /** The bytes a TargetCopy appends cycle through the window from the copy
      cursor to the end of the output as it was. */
  lemma {:induction false} CopyRunCycles(out: seq<byte>, tp: nat, n: nat, j: nat)
    requires tp < |out| && j < n
    ensures CopyRun(out, tp, n)[|out| + j] == out[tp + j % (|out| - tp)]
    decreases j
  {
    var d := |out| - tp;
    var r := CopyRun(out, tp, n);
    CopyRunPeriodic(out, tp, n, |out| + j);
    if j < d {
      ModOfSmall(j, d);
      assert r[..|out|] == out;
      assert r[tp + j] == out[tp + j];
    } else {
      CopyRunCycles(out, tp, n, j - d);
      ModStep(j, d);
    }
  }

  /** Copying from one byte before the end repeats the last byte. */
  lemma CopyRunRepeatsLast(out: seq<byte>, n: nat)
    requires out != []
    ensures CopyRun(out, |out| - 1, n) == out + seq(n, _ => out[|out| - 1])
  {
    var r := CopyRun(out, |out| - 1, n);
    var e := out + seq(n, _ => out[|out| - 1]);
    forall k | 0 <= k < |r|
      ensures r[k] == e[k]
    {
      if k < |out| {
        assert r[..|out|] == out;
        assert r[k] == out[k];
      } else {
        CopyRunCycles(out, |out| - 1, n, k - |out|);
      }
    }
  }

  /** A TargetCopy whose move puts the output cursor one byte before the
      end appends `length` copies of the last output byte. */
  lemma TargetCopyRunLength(body: seq<byte>, m: Machine, length: nat)
    requires length >= 1 && m.output != []
    requires Decode(body, m.patchPos).result.Ok?
    requires Move(m.targetPos, Decode(body, m.patchPos).result.value) == Ok(|m.output| - 1)
    ensures TargetCopyStep(body, m, length).Ok?
    ensures TargetCopyStep(body, m, length).value.output
      == m.output + seq(length, _ => m.output[|m.output| - 1])
  {
    CopyRunRepeatsLast(m.output, length);
  }

  /** A TargetCopy instruction reads a move word after the instruction
      word, moves the output cursor by it to a byte already written, copies
      `length` bytes one at a time from there and leaves the cursor just
      past the bytes it read. */
  lemma TargetCopyAppends(body: seq<byte>, input: seq<byte>, m: Machine)
    requires Step(body, input, m).Ok?
    requires Decode(body, m.patchPos).result.Ok?
    requires ActionOf(Decode(body, m.patchPos).result.value) == TargetCopy
    ensures var d := Decode(body, Decode(body, m.patchPos).next);
      d.result.Ok? && Move(m.targetPos, d.result.value).Ok?
      && Move(m.targetPos, d.result.value).value < |m.output|
    ensures var s := Decode(body, m.patchPos); var d := Decode(body, s.next);
      var tp := Move(m.targetPos, d.result.value).value; var length := LengthOf(s.result.value);
      var m' := Step(body, input, m).value;
      m'.output == CopyRun(m.output, tp, length)
      && m'.targetPos == tp + length && m'.patchPos == d.next && m'.sourcePos == m.sourcePos
  {
  }

  /** A TargetCopy instruction whose move lands at or past the end of the
      output fails with the output cursor's out-of-range error. */
  lemma TargetCopyPastEnd(body: seq<byte>, input: seq<byte>, m: Machine)
    requires Decode(body, m.patchPos).result.Ok?
    requires ActionOf(Decode(body, m.patchPos).result.value) == TargetCopy
    requires var d := Decode(body, Decode(body, m.patchPos).next);
      d.result.Ok? && Move(m.targetPos, d.result.value).Ok?
      && Move(m.targetPos, d.result.value).value >= |m.output|
    ensures Step(body, input, m) == Err(ActionFailed(m.index, TargetCopy, OutOfRange))
  {
  }

  /** A TargetCopy instruction whose move would take the output cursor
      before the start fails with the out-of-range error of the rewind. */
  lemma TargetCopyBeforeStart(body: seq<byte>, input: seq<byte>, m: Machine)
    requires Decode(body, m.patchPos).result.Ok?
    requires ActionOf(Decode(body, m.patchPos).result.value) == TargetCopy
    requires var d := Decode(body, Decode(body, m.patchPos).next);
      d.result.Ok? && m.targetPos + Rel(d.result.value) < 0
    ensures Step(body, input, m) == Err(ActionFailed(m.index, TargetCopy, OutOfRange))
  {
  }

  /** A copy instruction whose move word cannot be read fails with the
      varint's own error, tagged with the instruction's index and action. */
  lemma MoveWordFails(body: seq<byte>, input: seq<byte>, m: Machine)
    requires Decode(body, m.patchPos).result.Ok?
    requires ActionOf(Decode(body, m.patchPos).result.value) in {SourceCopy, TargetCopy}
    requires Decode(body, Decode(body, m.patchPos).next).result.Err?
    ensures var act := ActionOf(Decode(body, m.patchPos).result.value);
      Step(body, input, m) == Err(ActionFailed(m.index, act, Decode(body, Decode(body, m.patchPos).next).result.error))
  {
  }

  // ---------------------------------------------------------------------
  // The instruction loop

  /** The loop only ever appends to the output, and it stops with the
      patch cursor at or past the limit. */
  lemma {:induction false} RunExtends(body: seq<byte>, input: seq<byte>, m: Machine, limit: nat)
    requires Run(body, input, m, limit).Ok?
    ensures var m' := Run(body, input, m, limit).value;
      |m.output| <= |m'.output| && m'.output[..|m.output|] == m.output && m'.patchPos >= limit
    decreases limit - m.patchPos
  {
    if m.patchPos < limit {
      StepAppends(body, input, m);
      var m1 := Step(body, input, m).value;
      RunExtends(body, input, m1, limit);
      var m' := Run(body, input, m1, limit).value;
      assert m'.output[..|m.output|] == m'.output[..|m1.output|][..|m.output|];
    }
  }

  // ---------------------------------------------------------------------
  // apply

  /** A patch applied successfully had a valid header and matching patch
      and input checksums, and its output has the size and checksum the
      header records. */
  lemma ApplySuccess(patch: seq<byte>, input: seq<byte>)
    requires ApplySpec(patch, input).Ok?
    ensures ParseHeader(patch).Ok?
    ensures var info := ParseHeader(patch).value; var out := ApplySpec(patch, input).value;
      Checksum(patch[..|patch| - 4], 0) == info.crcPatch
      && |input| == info.sizeIn && Checksum(input, 0) == info.crcIn
      && |out| == info.sizeOut && Checksum(out, 0) == info.crcOut
  {
  }

  /** A header that does not parse is the error apply reports. */
  lemma ApplyHeaderFirst(patch: seq<byte>, input: seq<byte>)
    requires ParseHeader(patch).Err?
    ensures ApplySpec(patch, input) == Err(ParseHeader(patch).error)
  {
  }

  /** The checks after the header, in order: the first that fails
      decides the error. */
  lemma ApplyCheckOrder(patch: seq<byte>, input: seq<byte>, info: Info)
    requires ParseHeader(patch) == Ok(info)
    ensures Checksum(patch[..|patch| - 4], 0) != info.crcPatch
      ==> ApplySpec(patch, input) == Err(PatchCrcMismatch)
    ensures Checksum(patch[..|patch| - 4], 0) == info.crcPatch && |input| != info.sizeIn
      ==> ApplySpec(patch, input) == Err(InputSizeMismatch)
    ensures Checksum(patch[..|patch| - 4], 0) == info.crcPatch && |input| == info.sizeIn
      && Checksum(input, 0) != info.crcIn
      ==> ApplySpec(patch, input) == Err(InputCrcMismatch)
  {
  }

  /** Output checks: once the loop has run, the size is checked before the
      checksum. */
  lemma ApplyOutputChecks(patch: seq<byte>, input: seq<byte>, info: Info, m: Machine)
    requires ParseHeader(patch) == Ok(info)
    requires Checksum(patch[..|patch| - 4], 0) == info.crcPatch
    requires |input| == info.sizeIn && Checksum(input, 0) == info.crcIn
    requires info.dataStart + 12 <= |patch|
    requires Run(Body(patch, info), input, Start, Limit(patch, info)) == Ok(m)
    ensures |m.output| != info.sizeOut ==> ApplySpec(patch, input) == Err(OutputSizeMismatch)
    ensures |m.output| == info.sizeOut && Checksum(m.output, 0) != info.crcOut
      ==> ApplySpec(patch, input) == Err(OutputCrcMismatch)
    ensures |m.output| == info.sizeOut && Checksum(m.output, 0) == info.crcOut
      ==> ApplySpec(patch, input) == Ok(m.output)
  {
  }

  /** The patch a writer emits to reproduce `input` unchanged: a header of
      two equal sizes and no metadata, one SourceRead over the whole input,
      then the input checksum twice and the checksum of everything before. */
  function WholeSourcePatch(input: seq<byte>): seq<byte>
    requires 1 <= |input| <= 0x4000_0000_0000_0000
  {
    var c := Checksum(input, 0);
    Sealed(HeaderBytes(|input|, |input|, []) + Encode(Instruction(SourceRead, |input|))
      + Le32Bytes(c) + Le32Bytes(c))
  }

  /** A patch closed by the checksum of everything before it. */
  function Sealed(front: seq<byte>): seq<byte> {
    front + Le32Bytes(Checksum(front, 0))
  }

  /** Applying the whole-source patch to its input gives the input back. */
  lemma ApplyWholeSource(input: seq<byte>)
    requires 1 <= |input| <= 0x4000_0000_0000_0000
    ensures ApplySpec(WholeSourcePatch(input), input) == Ok(input)
  {
    var patch := WholeSourcePatch(input);
    var info := WholeSourceHeader(input);
    var c := Checksum(input, 0);
    WholeSourceRun(input, Le32Bytes(c) + Le32Bytes(c));
    ApplyOutputChecks(patch, input, info, Start.(patchPos := Limit(patch, info), output := input, index := 1));
  }

  /** The loop of the whole-source patch copies the whole input in one
      instruction, whatever follows the instruction word. */
  lemma WholeSourceRun(input: seq<byte>, rest: seq<byte>)
    requires 1 <= |input| <= 0x4000_0000_0000_0000
    ensures var e := Encode(Instruction(SourceRead, |input|));
      Run(e + rest, input, Start, |e|) == Ok(Start.(patchPos := |e|, output := input, index := 1))
  {
    var n := |input|;
    var w := Instruction(SourceRead, n);
    assert w < WordLimit;
    var e := Encode(w);
    var body := e + rest;
    assert body[0..|e|] == e;
    InstructionDecodes(body, 0, SourceRead, n);
    RunOneSourceRead(body, input, w, |e|);
    assert input[0..n] == input;
  }

  /** The header of the whole-source patch, and where its instructions lie. */
  lemma WholeSourceHeader(input: seq<byte>) returns (info: Info)
    requires 1 <= |input| <= 0x4000_0000_0000_0000
    ensures var n := |input|; var c := Checksum(input, 0); var patch := WholeSourcePatch(input);
      var e := Encode(Instruction(SourceRead, n));
      ParseHeader(patch) == Ok(info) && info.sizeIn == n && info.sizeOut == n
      && info.crcIn == c && info.crcOut == c
      && Checksum(patch[..|patch| - 4], 0) == info.crcPatch
      && info.dataStart + 12 <= |patch|
      && Body(patch, info) == e + (Le32Bytes(c) + Le32Bytes(c)) && Limit(patch, info) == |e|
  {
    var n := |input|;
    var c := Checksum(input, 0);
    var w := Instruction(SourceRead, n);
    assert w < WordLimit;
    var h := HeaderBytes(n, n, []);
    var e := Encode(w);
    var front := h + e + Le32Bytes(c) + Le32Bytes(c);
    EncodeLength(n);
    EncodeSmall(0);
    assert |Magic| == 4;
    assert |h| == 4 + |Encode(n)| + |Encode(n)| + |Encode(0)|;
    assert AddWrap(|h|, 0) == |h|;
    info := Info(n, n, |h|, |h|, c, c, Checksum(front, 0));
    SealedLayout(h, e, c, c);
    ParseSealed(n, n, e, c, c);
  }

  /** How a sealed patch splits into header, instructions and checksums. */
  lemma SealedLayout(h: seq<byte>, e: seq<byte>, crcIn: bv32, crcOut: bv32)
    ensures var front := h + e + Le32Bytes(crcIn) + Le32Bytes(crcOut); var patch := Sealed(front);
      |patch| == |h| + |e| + 12
      && Checksum(patch[..|patch| - 4], 0) == Checksum(front, 0)
      && patch[|h|..|patch| - 4] == e + (Le32Bytes(crcIn) + Le32Bytes(crcOut))
  {
    var front := h + e + Le32Bytes(crcIn) + Le32Bytes(crcOut);
    var patch := Sealed(front);
    assert |Le32Bytes(crcIn)| == 4 && |Le32Bytes(crcOut)| == 4 && |Le32Bytes(Checksum(front, 0))| == 4;
    assert patch[..|patch| - 4] == front;
  }

  /** A header without metadata, any instructions, then the two checksums
      of a sealed patch parse to the header's sizes and the three checksums. */
  lemma ParseSealed(sizeIn: u64, sizeOut: u64, e: seq<byte>, crcIn: bv32, crcOut: bv32)
    ensures var h := HeaderBytes(sizeIn, sizeOut, []);
      var front := h + e + Le32Bytes(crcIn) + Le32Bytes(crcOut);
      ParseHeader(Sealed(front)) == Ok(Info(sizeIn, sizeOut, |h|, AddWrap(|h|, 0), crcIn, crcOut, Checksum(front, 0)))
  {
    var h := HeaderBytes(sizeIn, sizeOut, []);
    var front := h + e + Le32Bytes(crcIn) + Le32Bytes(crcOut);
    var p := Checksum(front, 0);
    assert Sealed(front) == h + e + Trailer(crcIn, crcOut, p);
    ParseTrailed(sizeIn, sizeOut, e, crcIn, crcOut, p);
  }

  /** A header without metadata, any instructions, then a trailer parse to
      the header's sizes and the trailer's checksums. */
  lemma ParseTrailed(sizeIn: u64, sizeOut: u64, e: seq<byte>, crcIn: bv32, crcOut: bv32, crcPatch: bv32)
    ensures var h := HeaderBytes(sizeIn, sizeOut, []);
      ParseHeader(h + e + Trailer(crcIn, crcOut, crcPatch))
        == Ok(Info(sizeIn, sizeOut, |h|, AddWrap(|h|, 0), crcIn, crcOut, crcPatch))
  {
    var h := HeaderBytes(sizeIn, sizeOut, []);
    var t := Trailer(crcIn, crcOut, crcPatch);
    assert |t| == 12;
    HeaderThenInstructions(sizeIn, sizeOut, e, t);
    TrailerWords(h + e, crcIn, crcOut, crcPatch);
    HeaderOfFields(h + e + t, Info(sizeIn, sizeOut, |h|, AddWrap(|h|, 0), crcIn, crcOut, crcPatch));
  }

  /** A header without metadata followed by instructions and at least 12
      more bytes parses to the header's sizes, with the instructions right
      after the header. */
  lemma HeaderThenInstructions(sizeIn: u64, sizeOut: u64, e: seq<byte>, t: seq<byte>)
    requires |t| >= 12
    ensures var h := HeaderBytes(sizeIn, sizeOut, []); var r := ParseHeader(h + e + t);
      r.Ok? && r.value.sizeIn == sizeIn && r.value.sizeOut == sizeOut
      && r.value.metaStart == |h| && r.value.dataStart == AddWrap(|h|, 0)
  {
    var h := HeaderBytes(sizeIn, sizeOut, []);
    assert h + e + t == h + (e + t);
    ParseHeaderRoundTrip(sizeIn, sizeOut, [], e + t);
  }

  /** A header that parses, with every field as given, is that header. */
  lemma HeaderOfFields(patch: seq<byte>, info: Info)
    requires |patch| >= 12
    requires var r := ParseHeader(patch);
      r.Ok? && r.value.sizeIn == info.sizeIn && r.value.sizeOut == info.sizeOut
      && r.value.metaStart == info.metaStart && r.value.dataStart == info.dataStart
    requires var n := |patch|;
      Le32(patch[n - 12..n - 8]) == info.crcIn && Le32(patch[n - 8..n - 4]) == info.crcOut
      && Le32(patch[n - 4..n]) == info.crcPatch
    ensures ParseHeader(patch) == Ok(info)
  {
  }

  /** A loop of a single SourceRead whose length is the whole input copies
      the input and stops after the instruction word. */
  lemma RunOneSourceRead(body: seq<byte>, input: seq<byte>, w: u64, q: nat)
    requires Decode(body, 0) == Scan(Ok(w), q)
    requires ActionOf(w) == SourceRead && LengthOf(w) == |input|
    ensures Run(body, input, Start, q)
      == Ok(Start.(patchPos := q, output := input[0..|input|], index := 1))
  {
    var m1 := Start.(patchPos := q);
    assert SourceReadStep(input, m1, |input|) == Ok(m1.(output := input[0..|input|]));
  }
}
