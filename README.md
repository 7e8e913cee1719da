# BPS patch applier and CRC-32, modelled in Dafny

This project models the part of System Font Replacer's helper application
that applies BPS binary patches (`helper-app/src/bps.cpp`), together with the
table-driven CRC-32 that the applier uses (`helper-app/src/crc32.cpp`).

Each part is modelled in the same form as its C++ code, and then proved
equal to a pure specification:

- **Checksum** (`crc32.dfy`). `MakeTable` fills a 256-entry array with two
  nested loops. `CalcCrc32` complements the seed, folds each byte in through
  the table, and complements the result. Both are proved equal to a
  specification:
  - `Checksum` complements a working `Register`, folds every byte into it
    with one table step (`Update`), and complements it again;
  - each table entry is eight rounds of polynomial division starting from
    its index (`TableEntry`).

  `crc32_standard.dfy` evaluates this specification on known values: four
  standard table entries, and the catalogued check value 0xCBF43926 for
  "123456789".
- **Checked arithmetic** (`safe_assign.dfy`). `safe_assign_lshift` and
  `safe_assign_add` work on the 64-bit `uintmax_t`. The model makes the
  wrap-around explicit, modulo 2^64.
- **Byte cursors** (`byte_streams.dfy`). Each C++ type becomes a class:
  - `byte_istream` becomes `ByteIStream`, with fields `data` and `pos`;
  - `byte_ostream` becomes `ByteOStream`, with a field `vec`;
  - `byte_stream` becomes `ByteStream`, which composes one of each over the
    same vector. Its invariant `Valid()` ties the read view to the written
    vector, which is what the source's "refresh after every write" achieves.

  `ReadVarint` keeps the source's loop, with checked shifts and checked adds.
  It is proved equal to `Varint.Decode`, a decoder specified in unbounded
  arithmetic (`varint.dfy`). That decoder is in turn proved to be the inverse
  of `Encode`, the writer's encoding, and that encoding is shown to be the
  only one each number has.
- **Patch format** (`bps.dfy`). Pure functions state what a patch means:
  - `ParseHeader` is `get_info`;
  - a `Machine` holds the three cursors, the output and the instruction index;
  - `Step` and `Run` are one instruction and the instruction loop, with one
    step function per action;
  - `ApplySpec` is `apply`, with every check in the source's order.
- **Applier** (`bps_apply.dfy`). `GetInfo` and `Apply` run the same steps as
  the source, as methods over the cursor classes:
  - the while loop over the patch cursor;
  - one method per action;
  - the byte-at-a-time `CopyBack` loop of TargetCopy.

  Each method is proved to compute its counterpart in `Bps`:
  - `GetInfo` computes `ParseHeader`;
  - `Apply` computes `ApplySpec`;
  - `Execute` computes `Step`;
  - the action methods compute the step functions (`DoSourceRead`
    computes `SourceReadStep`, and so on);
  - `MoveBy` computes `Move`.
- **Properties** (`bps_facts.dfy`):
  - a header a writer builds parses back to its sizes, and a size that
    fails to decode is an invalid size;
  - the trailing checksums are read back;
  - instruction words round-trip;
  - every successful instruction appends exactly its length;
  - SourceRead ignores the source cursor, and SourceCopy copies from where
    its move lands and leaves the cursor after the copy;
  - TargetCopy copies from where its move lands inside the output, and an
    overlapping TargetCopy repeats its window, and a copy from one byte
    before the end repeats the last byte;
  - each failing instruction reports the error the source reports, tagged
    with its index and action except when the instruction word itself
    cannot be read;
  - the loop only appends;
  - apply succeeds only with every checksum and size matching, and its
    checks run in the source's order.

Errors are values, not exceptions:

- a cursor reports `StreamError`: `OutOfRange`, `BadEncoding` or `Overflow`,
  standing for `std::out_of_range`, `std::runtime_error` and
  `std::overflow_error`;
- the applier reports `Bps.Error`:
  - most constructors stand for one `bps::error` message of `get_info` or
    `apply`;
  - `InstructionError` is the raw cursor exception that escapes `apply` when
    an instruction word cannot be read; it is not a `bps::error`;
  - the four per-action messages share one constructor, `ActionFailed`. It
    keeps the instruction index, the action and the cursor's error;
  - `DataStartOutOfRange` has no counterpart in the source. It is explained
    under "Left out".

## Model

| member | source | states |
|---|---|---|
| SafeAssign.ShiftBack | helper-app/src/bps.cpp:55-57 | shifting the 64-bit shifted word back recovers the operand exactly when the exact product a·2^b fits below 2^64 |
| SafeAssign.SafeAssignLshift | helper-app/src/bps.cpp:47-63 | success exactly when the shift is narrower than the word and no bit is lost; the new value is 0 for a shift of 64 or more, otherwise the wrapped shift, and on success the exact product |
| SafeAssign.SafeAssignAdd | helper-app/src/bps.cpp:66-77 | success exactly when a+b < 2^64; the new value is the sum modulo 2^64, and on success the exact sum |
| ByteStreams.ByteIStream.constructor | helper-app/src/bps.cpp:86-88 | the cursor holds the given buffer, at position 0 |
| ByteStreams.ByteIStream.Eof | helper-app/src/bps.cpp:208-213 | the cursor is at or past the end of its buffer; ByteIStream.Read fails exactly when it holds |
| ByteStreams.ByteIStream.Seek | helper-app/src/bps.cpp:91-95 | the position becomes the given one, unchecked; the buffer is unchanged |
| ByteStreams.ByteIStream.Advance | helper-app/src/bps.cpp:98-102 | the position grows by delta, unchecked, even past the end |
| ByteStreams.ByteIStream.Rewind | helper-app/src/bps.cpp:105-111 | fails with out of range and leaves the position when delta > pos; otherwise succeeds with pos − delta |
| ByteStreams.ByteIStream.Read | helper-app/src/bps.cpp:114-121 | at or past the end it fails and nothing moves; otherwise it returns data[pos] and the position moves by one |
| ByteStreams.ByteIStream.ReadFrom | helper-app/src/bps.cpp:124-132 | data[idx] when idx < size, otherwise out of range; the position is not touched |
| ByteStreams.ByteIStream.ReadN | helper-app/src/bps.cpp:135-146 | data[pos..pos+size] and pos+size when pos+size ≤ size of the buffer, otherwise out of range with the position unchanged |
| ByteStreams.ByteIStream.ReadFromN | helper-app/src/bps.cpp:149-159 | data[idx..idx+size] when it fits, otherwise out of range; the position is not touched |
| ByteStreams.ByteIStream.ReadLe32 | helper-app/src/bps.cpp:163-177 | with four bytes left, their little-endian word and the position moved by 4; otherwise out of range, the position left where the failing read stopped |
| ByteStreams.ByteIStream.ReadVarint | helper-app/src/bps.cpp:180-205 | the result and final position are exactly those of the varint decoder Varint.Decode from the starting position, including which error and where it stops |
| ByteStreams.ByteOStream.constructor | helper-app/src/bps.cpp:222-224 | the output cursor writes to the given vector |
| ByteStreams.ByteOStream.Write | helper-app/src/bps.cpp:227-238 | the byte is appended to the vector |
| ByteStreams.ByteOStream.WriteAll | helper-app/src/bps.cpp:241-246 | the vector becomes the old vector followed by the whole blob, in order |
| ByteStreams.ByteStream.constructor | helper-app/src/bps.cpp:253-256 | both cursors start over the same vector, the read position at 0 |
| ByteStreams.ByteStream.Write | helper-app/src/bps.cpp:259-271 | the byte is appended, the read view again equals the vector, and the read position is unchanged |
| ByteStreams.ByteStream.WriteAll | helper-app/src/bps.cpp:274-279 | the blob is appended, the read view again equals the vector, and the read position is unchanged |
| Varint.Decode | helper-app/src/bps.cpp:180-205 | read_varint from a position: it never moves backwards, a success consumes at least one byte within the data, and at or past the end it is out of range without moving; DecodeSound, DecodeComplete, DecodeRejectsLarge, DecodeTruncated and RoundTrip state what it decodes |
| Varint.Low | helper-app/src/bps.cpp:188 | the payload of a byte is below 128 |
| Varint.DecodeFrom | helper-app/src/bps.cpp:186-198 | a decode never moves backwards, stops within the data when it reads anything, and consumes at least one byte when it succeeds |
| Varint.DecodeSound | helper-app/src/bps.cpp:186-198 | a successful decode consumed exactly one varint (continuation bytes, then one byte with 0x80 set), and its result is that varint's number: group k adds (payload + 1 if k > 0)·2^(7k) |
| Varint.DecodeComplete | helper-app/src/bps.cpp:186-198 | conversely, every varint in the data whose number fits in 64 bits decodes to that number, and the cursor ends just after its final byte |
| Varint.DecodeRejectsLarge | helper-app/src/bps.cpp:191-194 | a varint whose number does not fit in 64 bits fails with the bad-encoding or the overflow error |
| Varint.DecodeTruncated | helper-app/src/bps.cpp:187 | data that ends before a final byte, and whose groups so far fit in 64 bits, fails out of range with the cursor at the end |
| Varint.EncodeIsVarint | helper-app/src/bps.cpp:180-205 | the writer's encoding of a number is one varint that stands for that number |
| Varint.RoundTrip | helper-app/src/bps.cpp:180-205 | decoding the writer's encoding of any 64-bit number, wherever it sits, gives the number back and ends right after it |
| Varint.EncodeCanonical | helper-app/src/bps.cpp:188-190 | every varint is the writer's encoding of its number, so the +1 per group leaves each number exactly one encoding |
| Bytes.Le32RoundTrip | helper-app/src/bps.cpp:163-177 | assembling the four little-endian bytes of a word gives the word back |
| Bytes.Le32 | helper-app/src/bps.cpp:164-171 | read_le32's assembly of four bytes, lowest first; Le32RoundTrip makes it the inverse of the writer's Le32Bytes and Le32Injective makes distinct byte groups give distinct words |
| Bytes.Le32Injective | helper-app/src/bps.cpp:163-177 | different four-byte groups give different words |
| Crc32.MakeEntry | helper-app/src/crc32.cpp:27-33 | the inner loop computes eight rounds of the division from the index |
| Crc32.Round | helper-app/src/crc32.cpp:28-32 | one round of the division: shift right and xor in 0xEDB88320 when the bit shifted out was set; MakeEntry runs it as the loop body, and StandardTableEntries pins its eight-fold result |
| Crc32.Rounds | helper-app/src/crc32.cpp:28-32 | k rounds in sequence; MakeEntry's loop invariant is Rounds of the index after k passes |
| Crc32.TableEntry | helper-app/src/crc32.cpp:27-33 | the entry at an index is eight rounds from it; MakeTable fills every entry with it and StandardTableEntries checks four of them against the standard table |
| Crc32.Update | helper-app/src/crc32.cpp:50-51 | one byte through the table: the entry at the low byte of register xor byte, xored with the register shifted right by 8; LookupFoldIsFold ties the lookups in the built table to it |
| Crc32.Fold | helper-app/src/crc32.cpp:49-51 | every byte folded in order; LookupFoldIsFold and CalcCrc32 prove the source loop computes it, and ChecksumAppend splits it at any point |
| Crc32.MakeTable | helper-app/src/crc32.cpp:22-36 | the result has 256 entries, and entry i is eight rounds from i (shift right, xor 0xEDB88320 when the bit shifted out was set) |
| Crc32.Checksum | helper-app/src/crc32.cpp:47-53 | for empty data the result is the seed, because the two complements cancel |
| Crc32.LookupFoldIsFold | helper-app/src/crc32.cpp:49-51 | folding bytes through any buffer that holds the table is the byte-wise division |
| Crc32.CalcCrc32 | helper-app/src/crc32.cpp:41-54 | the loop's result is the checksum of the data from the seed |
| Crc32.ChecksumAppend | helper-app/src/crc32.cpp:41-54 | incremental accumulation: the checksum of a+b from a seed is the checksum of b seeded with the checksum of a |
| Crc32Standard.StandardTableEntries | helper-app/src/crc32.cpp:22-36 | the table has the standard CRC-32 entries at 0, 1, 128 and 255 |
| Crc32Standard.CheckValue | helper-app/src/crc32.cpp:41-54 | the checksum of ASCII "123456789" from seed 0 is 0xCBF43926, the CRC-32/ISO-HDLC check value |
| Bytes.AddWrap | helper-app/src/bps.cpp:309 | the sum of two unsigned 64-bit values: exact below 2^64, and reduced by 2^64 when it reaches it |
| Bps.LengthOf | helper-app/src/bps.cpp:369 | an instruction's length is at least 1 |
| Bps.ActionOf | helper-app/src/bps.cpp:367 | the action of `instr & 3`, in enumerator order; InstructionRoundTrip shows it gives back the action a writer encoded |
| Bps.Rel | helper-app/src/bps.cpp:415-417 | the signed distance of a move word, delta >> 1 negated when the low bit is set; Move's contract lands the cursor at pos + Rel(delta) |
| Bps.Body | helper-app/src/bps.cpp:356-357 | the instruction area runs from data_start to size − 4, so it holds size − data_start − 4 bytes, the two trailing checksums included |
| Bps.Limit | helper-app/src/bps.cpp:359 | the loop bound size − data_start − 12 stops instructions 8 bytes short of the end of the instruction area, before the input and output checksums |
| Bps.CopyRun | helper-app/src/bps.cpp:439-440 | a byte-at-a-time copy of n bytes grows the output by n and leaves the old output as its prefix |
| Bps.Move | helper-app/src/bps.cpp:408-411 | a move succeeds exactly when the position plus the signed distance Rel(delta) is not negative, and then lands there; otherwise out of range |
| Bps.SourceReadStep | helper-app/src/bps.cpp:374-377 | succeeds exactly when the source holds length bytes past the current output length, otherwise out of range; on success the output grows by length with the old output as its prefix, and nothing else changes |
| Bps.TargetReadStep | helper-app/src/bps.cpp:390-392 | succeeds exactly when length bytes of the patch are left, otherwise out of range; on success the output grows by length with the old output as its prefix, the patch cursor moves by length, and nothing else changes |
| Bps.SourceCopyStep | helper-app/src/bps.cpp:404-412 | on success the output grows by length with the old output as its prefix, the patch cursor moves forward within the patch, the source cursor ends within the source, and the output cursor and index stay |
| Bps.TargetCopyStep | helper-app/src/bps.cpp:429-440 | on success the output grows by length with the old output as its prefix, the patch cursor moves forward within the patch, the output cursor stays within the output, and the source cursor and index stay; TargetCopyAppends, TargetCopyPastEnd, TargetCopyBeforeStart and MoveWordFails give the bytes, the final cursor and every failure |
| Bps.Step | helper-app/src/bps.cpp:366-459 | a successful instruction moves the patch cursor forward and counts one more instruction |
| Bps.Run | helper-app/src/bps.cpp:366-460 | a successful loop stops with the patch cursor at or past the limit and never lowers the instruction count, which grows when the loop starts below the limit; RunExtends states that it only appends |
| Bps.ParseHeader | helper-app/src/bps.cpp:284-321 | get_info: a parsed header had at least 19 bytes and the magic, and its metadata starts after the magic and three varints, within the patch; ShortPatchIncomplete, BadMagicRejected, BadSizeRejected, HeaderFields, MetaSizeWraps, ParseHeaderRoundTrip, HeaderChecksums and ParseTrailed state its errors and fields |
| Bps.ApplySpec | helper-app/src/bps.cpp:333-471 | apply: a success had a valid header and produced size_out bytes; ApplySuccess, ApplyHeaderFirst, ApplyCheckOrder, ApplyOutputChecks and ApplyWholeSource state the rest |
| BpsApply.GetInfo | helper-app/src/bps.cpp:284-321 | the cursor-based get_info returns exactly ParseHeader of the patch, errors included |
| BpsApply.ReadSizes | helper-app/src/bps.cpp:304-309 | the three consecutive varint reads: all three decoded values with the positions between them and the cursor after the third, or an error when any of the three decodes fails |
| BpsApply.HeaderOfParts | helper-app/src/bps.cpp:304-318 | the magic, three successful decodes and the three trailing words read by get_info make up exactly the header that ParseHeader specifies, meta_start after the third varint and data_start its 64-bit wrapped sum with the metadata size |
| BpsApply.ReadChecksums | helper-app/src/bps.cpp:315-318 | after seeking to size−12, the three reads return the little-endian words at size−12, size−8 and size−4 |
| BpsApply.MoveBy | helper-app/src/bps.cpp:408-411 | rewind by delta/2 when delta is odd, otherwise advance; the result and the new position are those of Bps.Move |
| BpsApply.DoSourceRead | helper-app/src/bps.cpp:374-388 | the outcome and the cursors' new state are those of the SourceRead step |
| BpsApply.DoTargetRead | helper-app/src/bps.cpp:390-402 | the outcome and the cursors' new state are those of the TargetRead step |
| BpsApply.DoSourceCopy | helper-app/src/bps.cpp:404-427 | the outcome and the cursors' new state are those of the SourceCopy step |
| BpsApply.CopyBack | helper-app/src/bps.cpp:439-440 | out of range when the output cursor is at or past the end; otherwise the output becomes the byte-at-a-time copy, and the cursor moves by length |
| BpsApply.DoTargetCopy | helper-app/src/bps.cpp:429-455 | the outcome and the cursors' new state are those of the TargetCopy step |
| BpsApply.Execute | helper-app/src/bps.cpp:366-459 | one loop pass: the outcome and new state are those of Bps.Step, with instruction-word failures raw and action failures tagged with index and action |
| BpsApply.Apply | helper-app/src/bps.cpp:333-471 | the cursor-based apply returns exactly ApplySpec: the same output or the same error |
| BpsFacts.ShortPatchIncomplete | helper-app/src/bps.cpp:293-294 | any patch shorter than 19 bytes is incomplete, whatever it holds |
| BpsFacts.BadMagicRejected | helper-app/src/bps.cpp:298-300 | a patch of 19 bytes or more that does not start with "BPS1" has a bad magic, before any size is read |
| BpsFacts.HeaderFields | helper-app/src/bps.cpp:304-310 | after the magic, the three consecutive varints give size_in and size_out; meta_start is just after the third, and data_start is meta_start plus the third varint's value, modulo 2^64 |
| BpsFacts.ParseHeaderRoundTrip | helper-app/src/bps.cpp:293-310 | a header built from the magic, three encoded sizes and the metadata, followed by at least 12 bytes, parses to those sizes, with meta_start after the third varint and data_start the 64-bit sum of meta_start and the metadata length |
| BpsFacts.BadSizeRejected | helper-app/src/bps.cpp:303-312 | a patch with the magic in which any of the three size varints fails to decode, for any reason, is an invalid size |
| BpsFacts.MetaSizeWraps | helper-app/src/bps.cpp:307-309 | a metadata size of 2^64 − 1 wraps data_start around to one byte before meta_start |
| BpsFacts.HeaderChecksums | helper-app/src/bps.cpp:315-318 | in any patch whose header parses, the three checksums of the header are the three words of its last 12 bytes |
| BpsFacts.TrailerWords | helper-app/src/bps.cpp:315-318 | the three words read from the last 12 bytes are the input, output and patch checksums a writer appended |
| BpsFacts.ActionCode | helper-app/src/bps.cpp:325-330 | each action's enumerator is one of the four values of two bits |
| BpsFacts.InstructionRoundTrip | helper-app/src/bps.cpp:367-369 | the word for an action and a length gives back that action from instr & 3 and that length from (instr >> 2) + 1 |
| BpsFacts.InstructionOfWord | helper-app/src/bps.cpp:367-369 | every word is the instruction for its own action and length |
| BpsFacts.InstructionDecodes | helper-app/src/bps.cpp:367-369 | an encoded instruction word in the patch decodes back to its action and length, and the cursor ends right after it |
| BpsFacts.StepAppends | helper-app/src/bps.cpp:367-457 | a successful instruction appends exactly its length to the output and keeps the old output as a prefix |
| BpsFacts.SourceReadCopiesAtOutputLength | helper-app/src/bps.cpp:374-377 | a successful SourceRead appends input[|output|..|output|+length] and leaves the source cursor where it was |
| BpsFacts.SourceReadPastEnd | helper-app/src/bps.cpp:376-386 | a SourceRead reaching past the source fails as that instruction's SourceRead with out of range |
| BpsFacts.SourceCopyAppends | helper-app/src/bps.cpp:404-412 | a successful SourceCopy reads a move word, moves the source cursor to sp by it, appends input[sp..sp+length], leaves the source cursor at sp+length and the patch cursor after the move word, and keeps the output cursor |
| BpsFacts.SourceCopyPastEnd | helper-app/src/bps.cpp:412-426 | a SourceCopy whose move lands fewer than length bytes before the end of the source fails as that instruction's SourceCopy with out of range |
| BpsFacts.SourceCopyBeforeStart | helper-app/src/bps.cpp:408-426 | a SourceCopy whose move would go before the start of the source fails as that instruction's SourceCopy with out of range |
| BpsFacts.StepTargetRead | helper-app/src/bps.cpp:390-392 | a TargetRead word followed by its literal appends the literal and moves the patch cursor past both |
| BpsFacts.TargetReadPastEnd | helper-app/src/bps.cpp:390-401 | a TargetRead longer than what remains of the patch fails as that instruction's TargetRead with out of range |
| BpsFacts.InstructionWordFails | helper-app/src/bps.cpp:366 | an instruction word that cannot be read fails with the varint's own error, untagged by index or action |
| BpsFacts.CopyRunPeriodic | helper-app/src/bps.cpp:437-440 | in an overlapping TargetCopy each appended byte equals the byte one window back, the window being from the cursor to the old end |
| BpsFacts.CopyRunCycles | helper-app/src/bps.cpp:437-440 | the j-th appended byte is the old output at cursor + j mod the window |
| BpsFacts.CopyRunRepeatsLast | helper-app/src/bps.cpp:437-440 | copying from one byte before the end appends n copies of the last byte |
| BpsFacts.TargetCopyRunLength | helper-app/src/bps.cpp:429-440 | a TargetCopy whose move lands one byte before the end succeeds and appends length copies of the last output byte |
| BpsFacts.TargetCopyAppends | helper-app/src/bps.cpp:431-440 | a successful TargetCopy reads a move word, moves the output cursor to tp by it with tp inside the output, makes the output CopyRun(output, tp, length), leaves the output cursor at tp + length and the patch cursor after the move word, and keeps the source cursor |
| BpsFacts.TargetCopyPastEnd | helper-app/src/bps.cpp:438-453 | a TargetCopy whose move lands at or past the end of the output fails as that instruction's TargetCopy with out of range |
| BpsFacts.TargetCopyBeforeStart | helper-app/src/bps.cpp:433-453 | a TargetCopy whose move would go before the start of the output fails as that instruction's TargetCopy with out of range |
| BpsFacts.MoveWordFails | helper-app/src/bps.cpp:404-455 | a SourceCopy or TargetCopy whose move word cannot be read fails as that instruction, carrying the varint's error |
| BpsFacts.RunExtends | helper-app/src/bps.cpp:366-460 | a successful instruction loop only appends to the output and stops with the patch cursor at or past the limit |
| BpsFacts.ApplySuccess | helper-app/src/bps.cpp:337-470 | a successful apply had a valid header, matching patch CRC, input size and input CRC, and its output has size_out bytes and CRC crc_out |
| BpsFacts.ApplyHeaderFirst | helper-app/src/bps.cpp:337 | a header error is the error apply reports, before any checksum |
| BpsFacts.ApplyCheckOrder | helper-app/src/bps.cpp:339-349 | after the header: patch CRC, then input size, then input CRC; the first mismatch is the error |
| BpsFacts.ApplyOutputChecks | helper-app/src/bps.cpp:463-470 | after the loop: a wrong output size fails, then a wrong output CRC fails, and otherwise the output is returned |
| BpsFacts.ApplyWholeSource | helper-app/src/bps.cpp:333-471 | end-to-end identity: a patch of one SourceRead over the whole input, with the input's size and checksum declared for both input and output, applies to that input and returns it unchanged |

## Left out

- `helper-app/src/main.cpp` and `src/main.cpp` are left out. They are file
  and console I/O, controller polling, plugin hooks and configuration, all
  foreign calls. The Python FontForge scripts are left out for the same
  reason.
- Diagnostic message strings are not modelled. Errors are datatype values:
  an error keeps its kind, plus the instruction index and action where the
  source prints them. The cursor positions and lengths in the messages are
  dropped.
- The model assumes a `size_t` at least as wide as `uintmax_t`. The helper
  app is built for the Wii U, where `size_t` is 32 bits and `uintmax_t` is
  64, and two consequences are not modelled:
  - Positions and lengths are unbounded naturals. So `pos + size`, `idx +
    size` and `advance` cannot wrap past 2^32. (The sum
    `stream.pos + meta_size` is a `uintmax_t`; it wraps modulo 2^64 in the
    source, and the model computes it with the same wrap.)
  - 64-bit varint values are not truncated modulo 2^32 where the source
    passes them as a `size_t`. These are the `length` and `delta >> 1`
    arguments of `read`, `read_from`, `rewind` and `advance` in the four
    actions, `data_start` in the `subspan` call, and `size_out` in
    `reserve`. The model uses the full values. For example, a SourceRead of
    length 2^32 + 1 copies one byte in the source, but fails out of range in
    the model.

  Varint values themselves are bounded by 2^64, as `uintmax_t` bounds them.
- Bps.ApplySpec: when `data_start`, after its 64-bit wrap, lies beyond
  `size − 12`, the source computes a wrapped `patch_data_size` (and, beyond
  `size − 4`, an out-of-bounds subspan). The model instead reports
  `DataStartOutOfRange`, after the input checksum check and before the
  loop. In the source such a patch never produces output either. Between
  `size − 12` and `size − 4` the instruction area holds fewer than 8 bytes
  but the loop's bound is huge, so the loop runs until a read fails; beyond
  `size − 4` the subspan is undefined behaviour. A `data_start` that wraps
  to a value within the patch, as MetaSizeWraps shows for a metadata size of
  2^64 − 1, is not an error in either: the loop runs from there.
- Bps.ParseHeader: its contract does not say that the metadata starts no
  later than the data, because the 64-bit wrap of `data_start` breaks that
  (MetaSizeWraps).
- `output.reserve(size_out)` is left out, and with it its error path. In the
  source it throws `std::length_error` when `size_out` exceeds the vector's
  maximum size, and `std::bad_alloc` when the memory cannot be allocated.
  Either way a patch declaring a huge `size_out` fails before any
  instruction runs. The model has no memory limit, so it runs the loop, and
  may even return a result. Memory exhaustion in general is not modelled.
- The static caching of the CRC table affects performance only. The model
  builds the table on each call.
- The seed of `calc_crc32` defaults to 0. The model passes it explicitly,
  and every call in `apply` passes 0.
- A varint cut off by the end of the buffer is modelled as the code
  behaves: the out-of-range error, which `get_info` then reports as an
  invalid size. It is not modelled as an encoding error.
- BpsFacts.ParseHeaderRoundTrip: states the four size and offset fields of
  the parsed header only. The three checksums come from the last 12 bytes
  and are stated separately by BpsFacts.TrailerWords.
- It is not proved that changing one byte of a patch changes its CRC-32,
  so that `apply` rejects every single-byte corruption. That would need the
  table step to be linear and injective; the model states the checksum's
  value on known data and its incremental form instead.
- The table is not proved equal to a bit-at-a-time CRC over whole messages.
  The model checks it against known entries and the standard check value
  instead.
