/** The BPS variable-length integer: seven bits per byte, least
    significant group first, a set high bit on the last byte, and every
    group after the first offset by one so that each number has exactly
    one encoding. */
module Varint {
  import opened Arith
  import opened Bytes

  /** Whether `b` ends a varint: its high bit is set. */
  predicate IsFinal(b: byte) {
    b & 0x80 != 0
  }

  /** The seven payload bits of `b`. */
  function Low(b: byte): (r: nat)
    ensures r < 128
  {
    (b & 0x7f) as nat
  }

  /** The addend of group `k` before it is shifted into place: the payload,
      plus one for every group after the first. */
  function Digit(b: byte, k: nat): nat {
    Low(b) + (if k > 0 then 1 else 0)
  }

  /** The contribution of `b` as group `k`: its digit shifted left by
      seven bits per group before it. */
  function Place(b: byte, k: nat): nat {
    Digit(b, k) * Pow2(7 * k)
  }

  /** Every byte of `g` but the last continues the varint, and the last ends it. */
  predicate Terminated(g: seq<byte>) {
    g != [] && IsFinal(g[|g| - 1]) && forall i :: 0 <= i < |g| - 1 ==> !IsFinal(g[i])
  }

  /** The number the groups `g` stand for, read from the first group. */
  function Value(g: seq<byte>): nat
    requires g != []
    decreases |g|
  {
    if |g| == 1 then Low(g[0]) else Low(g[0]) + 128 * (Value(g[1..]) + 1)
  }

  /** The groups `g` taken as groups k, k+1, ...: each digit shifted left
      by seven bits per group, summed — the arithmetic the decoder performs. */
  function ShiftedSum(g: seq<byte>, k: nat): nat
    decreases |g|
  {
    if g == [] then 0 else Place(g[0], k) + ShiftedSum(g[1..], k + 1)
  }

  /** Where a decode ends: its result and the position after the last byte read. */
  datatype Scan = Scan(result: Result<u64, StreamError>, next: nat)

  /** Decoding from `data[pos]` as group `k`, where `acc` is the exact sum
      of the groups before: bytes are consumed until one ends the varint;
      a shift that loses bits or reaches the word width is a bad encoding,
      a sum that does not fit is an overflow, and running out of bytes is
      out of range. */
  function DecodeFrom(data: seq<byte>, pos: nat, k: nat, acc: nat): (s: Scan)
    ensures pos <= s.next
    ensures s.next > pos ==> s.next <= |data|
    ensures s.result.Ok? ==> pos < s.next
    decreases |data| - pos
  {
    if pos >= |data| then Scan(Err(OutOfRange), pos)
    else
      var v := Place(data[pos], k);
      if 7 * k >= WordBits || v >= WordLimit then Scan(Err(BadEncoding), pos + 1)
      else if acc + v >= WordLimit then Scan(Err(Overflow), pos + 1)
      else if IsFinal(data[pos]) then Scan(Ok(acc + v), pos + 1)
      else DecodeFrom(data, pos + 1, k + 1, acc + v)
  }

  /** The varint that starts at `data[pos]`. */
  function Decode(data: seq<byte>, pos: nat): (s: Scan)
    ensures pos <= s.next && (s.next > pos ==> s.next <= |data|)
    ensures s.result.Ok? ==> pos < s.next
    ensures pos >= |data| ==> s == Scan(Err(OutOfRange), pos)
  {
    DecodeFrom(data, pos, 0, 0)
  }

  /** The BPS writer's encoding of `v`: the low seven bits, then the rest
      less one, until the rest fits in the final byte. */
  function Encode(v: nat): (g: seq<byte>)
    ensures g != []
    decreases v
  {
    if v < 128 then [(v + 128) as byte] else [(v % 128) as byte] + Encode(v / 128 - 1)
  }

  // ---------------------------------------------------------------------
  // The shifted sum is the value

  lemma Pow2Group(k: nat)
    ensures Pow2(7 * (k + 1)) == Pow2(7 * k) * 128
  {
    Pow2Add(7 * k, 7);
    Pow2Seven();
  }

  lemma Factor(sum: nat, l: nat, p: nat, q: nat, rest: nat, v: nat, value: nat)
    requires q == p * 128 && rest == q * (v + 1)
    requires sum == (l + 1) * p + rest && value == l + 128 * (v + 1)
    ensures sum == p * (value + 1)
  {
  }

  lemma {:induction false} ShiftedSumLater(g: seq<byte>, k: nat)
    requires g != [] && k > 0
    ensures ShiftedSum(g, k) == Pow2(7 * k) * (Value(g) + 1)
    decreases |g|
  {
    var p := Pow2(7 * k);
    var l := Low(g[0]);
    if |g| == 1 {
      assert g[1..] == [];
      assert ShiftedSum(g, k) == (l + 1) * p;
      assert (l + 1) * p == p * (l + 1);
    } else {
      var rest := ShiftedSum(g[1..], k + 1);
      ShiftedSumLater(g[1..], k + 1);
      Pow2Group(k);
      Factor(ShiftedSum(g, k), l, p, Pow2(7 * (k + 1)), rest, Value(g[1..]), Value(g));
    }
  }

  /** Summing the shifted digits from the first group gives the value. */
  lemma ShiftedSumIsValue(g: seq<byte>)
    requires g != []
    ensures ShiftedSum(g, 0) == Value(g)
  {
    if |g| > 1 {
      ShiftedSumLater(g[1..], 1);
    } else {
      assert g[1..] == [];
    }
  }

  // ---------------------------------------------------------------------
  // What the decoder accepts and rejects

  /** A group whose shifted digit fits in the word is shifted by less than the width. */
  lemma ShiftInRange(b: byte, k: nat)
    requires Place(b, k) < WordLimit
    ensures 7 * k < WordBits
  {
    if 7 * k >= WordBits {
      WordLimitIsPow2();
      Pow2Monotone(WordBits, 7 * k);
      MulAtLeastOne(Digit(b, k), Pow2(7 * k));
    }
  }

  lemma ShiftedSumFirst(data: seq<byte>, pos: nat, end: nat, k: nat)
    requires pos < end <= |data|
    ensures ShiftedSum(data[pos..end], k)
         == Place(data[pos], k) + ShiftedSum(data[pos + 1..end], k + 1)
  {
    assert data[pos..end][1..] == data[pos + 1..end];
  }

  lemma ShiftedSumLast(data: seq<byte>, pos: nat, k: nat)
    requires pos < |data|
    ensures ShiftedSum(data[pos..pos + 1], k) == Place(data[pos], k)
  {
    ShiftedSumFirst(data, pos, pos + 1, k);
    assert data[pos + 1..pos + 1] == [];
  }

  /** A varint of two or more bytes is a continuation byte followed by a varint. */
  lemma TerminatedTail(data: seq<byte>, pos: nat, end: nat)
    requires pos + 1 < end <= |data| && Terminated(data[pos..end])
    ensures !IsFinal(data[pos]) && Terminated(data[pos + 1..end])
  {
    var whole := data[pos..end];
    var tail := data[pos + 1..end];
    assert data[pos] == whole[0];
    forall i | 0 <= i < |tail| - 1
      ensures !IsFinal(tail[i])
    {
      assert tail[i] == whole[i + 1];
    }
    assert tail[|tail| - 1] == whole[|whole| - 1];
  }

  /** A continuation byte followed by a varint is a varint. */
  lemma TerminatedCons(data: seq<byte>, pos: nat, end: nat)
    requires pos + 1 < end <= |data| && !IsFinal(data[pos]) && Terminated(data[pos + 1..end])
    ensures Terminated(data[pos..end])
  {
    var whole := data[pos..end];
    var tail := data[pos + 1..end];
    forall i | 0 <= i < |whole| - 1
      ensures !IsFinal(whole[i])
    {
      if i > 0 {
        assert whole[i] == tail[i - 1];
      }
    }
    assert whole[|whole| - 1] == tail[|tail| - 1];
  }

  /** A final byte on its own is a varint. */
  lemma TerminatedSingle(data: seq<byte>, pos: nat)
    requires pos < |data| && IsFinal(data[pos])
    ensures Terminated(data[pos..pos + 1])
  {
    assert data[pos..pos + 1][0] == data[pos];
  }

  lemma {:induction false} DecodeFromGroups(data: seq<byte>, pos: nat, k: nat, acc: nat, end: nat)
    requires pos < end <= |data| && Terminated(data[pos..end])
    requires acc + ShiftedSum(data[pos..end], k) < WordLimit
    ensures DecodeFrom(data, pos, k, acc) == Scan(Ok(acc + ShiftedSum(data[pos..end], k)), end)
    decreases end - pos
  {
    var v := Place(data[pos], k);
    ShiftedSumFirst(data, pos, end, k);
    ShiftInRange(data[pos], k);
    if pos + 1 == end {
      ShiftedSumLast(data, pos, k);
      assert data[pos] == data[pos..end][0];
    } else {
      TerminatedTail(data, pos, end);
      DecodeFromGroups(data, pos + 1, k + 1, acc + v, end);
    }
  }

  lemma {:induction false} DecodeFromTooLarge(data: seq<byte>, pos: nat, k: nat, acc: nat, end: nat)
    requires pos < end <= |data| && Terminated(data[pos..end])
    requires acc < WordLimit <= acc + ShiftedSum(data[pos..end], k)
    ensures DecodeFrom(data, pos, k, acc).result in {Err(BadEncoding), Err(Overflow)}
    decreases end - pos
  {
    var v := Place(data[pos], k);
    ShiftedSumFirst(data, pos, end, k);
    if pos + 1 == end {
      ShiftedSumLast(data, pos, k);
    } else if 7 * k < WordBits && v < WordLimit && acc + v < WordLimit {
      TerminatedTail(data, pos, end);
      DecodeFromTooLarge(data, pos + 1, k + 1, acc + v, end);
    }
  }

  lemma {:induction false} DecodeFromSound(data: seq<byte>, pos: nat, k: nat, acc: nat)
    requires DecodeFrom(data, pos, k, acc).result.Ok?
    ensures var s := DecodeFrom(data, pos, k, acc);
      Terminated(data[pos..s.next]) && s.result.value == acc + ShiftedSum(data[pos..s.next], k)
    decreases |data| - pos
  {
    var s := DecodeFrom(data, pos, k, acc);
    var v := Place(data[pos], k);
    if IsFinal(data[pos]) {
      ShiftedSumLast(data, pos, k);
      TerminatedSingle(data, pos);
    } else {
      DecodeFromSound(data, pos + 1, k + 1, acc + v);
      ShiftedSumFirst(data, pos, s.next, k);
      TerminatedCons(data, pos, s.next);
    }
  }

  lemma {:induction false} DecodeFromRunsOut(data: seq<byte>, pos: nat, k: nat, acc: nat)
    requires pos <= |data|
    requires forall i :: pos <= i < |data| ==> !IsFinal(data[i])
    requires acc + ShiftedSum(data[pos..], k) < WordLimit
    ensures DecodeFrom(data, pos, k, acc) == Scan(Err(OutOfRange), |data|)
    decreases |data| - pos
  {
    if pos < |data| {
      ShiftedSumFirst(data, pos, |data|, k);
      assert data[pos..|data|] == data[pos..];
      assert data[pos + 1..|data|] == data[pos + 1..];
      ShiftInRange(data[pos], k);
      DecodeFromRunsOut(data, pos + 1, k + 1, acc + Place(data[pos], k));
    }
  }

  /** A successful decode read exactly one varint — continuation bytes,
      then one final byte — and returns the number it stands for. */
  lemma DecodeSound(data: seq<byte>, pos: nat)
    requires Decode(data, pos).result.Ok?
    ensures var s := Decode(data, pos);
      Terminated(data[pos..s.next]) && s.result.value == Value(data[pos..s.next])
  {
    var s := Decode(data, pos);
    DecodeFromSound(data, pos, 0, 0);
    ShiftedSumIsValue(data[pos..s.next]);
  }

  /** A varint whose number fits in the word decodes to that number and
      leaves the cursor just after its final byte. */
  lemma DecodeComplete(data: seq<byte>, pos: nat, end: nat)
    requires pos < end <= |data| && Terminated(data[pos..end])
    requires Value(data[pos..end]) < WordLimit
    ensures Decode(data, pos) == Scan(Ok(Value(data[pos..end])), end)
  {
    ShiftedSumIsValue(data[pos..end]);
    DecodeFromGroups(data, pos, 0, 0, end);
  }

  /** A varint whose number does not fit is rejected, as a bad encoding or
      as an overflow. */
  lemma DecodeRejectsLarge(data: seq<byte>, pos: nat, end: nat)
    requires pos < end <= |data| && Terminated(data[pos..end])
    requires Value(data[pos..end]) >= WordLimit
    ensures Decode(data, pos).result in {Err(BadEncoding), Err(Overflow)}
  {
    ShiftedSumIsValue(data[pos..end]);
    DecodeFromTooLarge(data, pos, 0, 0, end);
  }

  /** Input that ends before a final byte, and whose groups so far fit,
      is out of range, with the cursor at the end. */
  lemma DecodeTruncated(data: seq<byte>, pos: nat)
    requires pos <= |data|
    requires forall i :: pos <= i < |data| ==> !IsFinal(data[i])
    requires pos < |data| ==> Value(data[pos..]) < WordLimit
    ensures Decode(data, pos) == Scan(Err(OutOfRange), |data|)
  {
    if pos < |data| {
      ShiftedSumIsValue(data[pos..]);
    } else {
      assert data[pos..] == [];
    }
    DecodeFromRunsOut(data, pos, 0, 0);
  }

  // ---------------------------------------------------------------------
  // The writer's encoding

  /** The final byte the writer emits for `v` below 128. */
  lemma FinalByte(v: nat)
    requires v < 128
    ensures IsFinal((v + 128) as byte) && Low((v + 128) as byte) == v
  {
    ByteValue(v + 128);
    HighBit((v + 128) as byte);
    LowSeven((v + 128) as byte);
  }

  /** A continuation byte the writer emits for `v`. */
  lemma ContinuationByte(v: nat)
    ensures !IsFinal((v % 128) as byte) && Low((v % 128) as byte) == v % 128
  {
    ByteValue(v % 128);
    HighBit((v % 128) as byte);
    LowSeven((v % 128) as byte);
  }

  /** The writer's encoding is one varint, and it stands for the number encoded. */
  lemma {:induction false} EncodeIsVarint(v: nat)
    ensures Terminated(Encode(v)) && Value(Encode(v)) == v
    decreases v
  {
    var g := Encode(v);
    if v < 128 {
      FinalByte(v);
    } else {
      var rest := Encode(v / 128 - 1);
      EncodeIsVarint(v / 128 - 1);
      ContinuationByte(v);
      assert g[1..] == rest;
      assert Value(g) == v % 128 + 128 * (v / 128);
      forall i | 0 <= i < |g| - 1
        ensures !IsFinal(g[i])
      {
        if i > 0 {
          assert g[i] == rest[i - 1];
        }
      }
      assert g[|g| - 1] == rest[|rest| - 1];
    }
  }

  /** Decoding what the writer encoded gives the number back, whatever
      surrounds it, and stops just after it. */
  lemma RoundTrip(data: seq<byte>, pos: nat, v: u64)
    requires pos + |Encode(v)| <= |data| && data[pos..pos + |Encode(v)|] == Encode(v)
    ensures Decode(data, pos) == Scan(Ok(v), pos + |Encode(v)|)
  {
    EncodeIsVarint(v);
    DecodeComplete(data, pos, pos + |Encode(v)|);
  }

  /** A byte is determined by its payload and whether it is final. */
  lemma ByteFromParts(b: byte)
    ensures IsFinal(b) ==> (Low(b) + 128) as byte == b
    ensures !IsFinal(b) ==> Low(b) as byte == b
  {
    HighBit(b);
    LowSeven(b);
    ByteOfValue(b);
  }

  /** The writer never spends more bytes on a number than the number plus one. */
  lemma {:induction false} EncodeLength(v: nat)
    ensures |Encode(v)| <= v + 1
    decreases v
  {
    if v >= 128 {
      EncodeLength(v / 128 - 1);
    }
  }

  lemma EncodeSmall(v: nat)
    requires v < 128
    ensures Encode(v) == [(v + 128) as byte]
  {
  }

  lemma EncodeLarge(v: nat)
    requires v >= 128
    ensures Encode(v) == [(v % 128) as byte] + Encode(v / 128 - 1)
  {
  }

  lemma CanonicalFinal(b: byte)
    requires IsFinal(b)
    ensures Encode(Value([b])) == [b]
  {
    var l := Low(b);
    assert Value([b]) == l;
    EncodeSmall(l);
    ByteFromParts(b);
  }

  lemma CanonicalContinuation(b: byte, tail: seq<byte>)
    requires !IsFinal(b) && tail != [] && Encode(Value(tail)) == tail
    ensures Encode(Value([b] + tail)) == [b] + tail
  {
    var g := [b] + tail;
    var l := Low(b);
    var w := Value(tail);
    assert g[1..] == tail;
    var v := Value(g);
    assert v == l + 128 * (w + 1);
    DivModUnique(v, 128, w + 1, l);
    EncodeLarge(v);
    ByteFromParts(b);
  }

  /** Every varint is the writer's encoding of its number: no number has
      two encodings. */
  lemma {:induction false} EncodeCanonical(g: seq<byte>)
    requires Terminated(g)
    ensures Encode(Value(g)) == g
    decreases |g|
  {
    if |g| == 1 {
      assert g == [g[0]];
      CanonicalFinal(g[0]);
    } else {
      var tail := g[1..];
      assert Terminated(tail) by {
        forall i | 0 <= i < |tail| - 1
          ensures !IsFinal(tail[i])
        {
          assert tail[i] == g[i + 1];
        }
        assert tail[|tail| - 1] == g[|g| - 1];
      }
      EncodeCanonical(tail);
      assert g == [g[0]] + tail;
      CanonicalContinuation(g[0], tail);
    }
  }
}
