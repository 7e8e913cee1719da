/** The reflected CRC-32 of ISO/IEC 3309 and IEEE 802.3 (CRC-32/ISO-HDLC),
    computed byte by byte through a 256-entry lookup table. */
module Crc32 {
  import opened Bytes

  /** The reversed generator polynomial. */
  const Polynomial: bv32 := 0xEDB8_8320

  /** One bit of polynomial division: shift right, and fold the polynomial
      back in when the bit shifted out was set. */
  function Round(c: bv32): bv32 {
    if c & 1 == 1 then Polynomial ^ (c >> 1) else c >> 1
  }

  /** `k` rounds applied to `c`. */
  function Rounds(c: bv32, k: nat): bv32 {
    if k == 0 then c else Round(Rounds(c, k - 1))
  }

  /** The entry the table holds at index `i`: eight rounds from `i`. */
  function TableEntry(i: byte): bv32 {
    Rounds(i as bv32, 8)
  }

  /** `t` is the complete lookup table. */
  ghost predicate IsTable(t: seq<bv32>) {
    |t| == 256 && forall i: byte :: t[i as int] == TableEntry(i)
  }

  /** The table index for folding byte `b` into `c`: the low byte of their xor. */
  function TableIndex(c: bv32, b: byte): byte {
    ((c ^ (b as bv32)) & 0xff) as byte
  }

  /** The working value of the division, between bytes. It is kept as a
      one-field record so that reasoning about sequences of steps compares
      records rather than 32-bit words. */
  datatype Register = Register(bits: bv32)

  /** A table entry xored with the three high bytes of the working value. */
  function Combine(entry: bv32, c: bv32): Register {
    Register(entry ^ (c >> 8))
  }

  /** Folds one byte into the working value: the table entry picked by the
      low byte of their xor, combined with the remaining high bytes. */
  function Update(c: Register, b: byte): Register {
    Combine(TableEntry(TableIndex(c.bits, b)), c.bits)
  }

  /** The working value after folding every byte of `data` into `c`, in order. */
  function Fold(c: Register, data: seq<byte>): Register
    decreases |data|
  {
    if data == [] then c else Update(Fold(c, data[..|data| - 1]), data[|data| - 1])
  }

  /** The checksum of `data`, continuing from `seed` (0 to start afresh):
      the working value starts and ends complemented. */
  function Checksum(data: seq<byte>, seed: bv32): (r: bv32)
    ensures data == [] ==> r == seed
  {
    !Fold(Register(!seed), data).bits
  }

  /** One byte folded in through a buffer `t` that holds a table. */
  function LookupStep(t: seq<bv32>, c: Register, b: byte): Register
    requires |t| == 256
  {
    Combine(t[TableIndex(c.bits, b) as int], c.bits)
  }

  /** Every byte of `data` folded into `c` through the buffer `t`. */
  function LookupFold(t: seq<bv32>, c: Register, data: seq<byte>): Register
    requires |t| == 256
    decreases |data|
  {
    if data == [] then c else LookupStep(t, LookupFold(t, c, data[..|data| - 1]), data[|data| - 1])
  }

  /** The inner loop of make_crc32_table: eight rounds on a working copy
      of the index. */
  method MakeEntry(i: byte) returns (c: bv32)
    ensures c == TableEntry(i)
  {
    c := i as bv32;
    var k := 0;
    while k < 8
      invariant k <= 8
      invariant c == Rounds(i as bv32, k)
    {
      if c & 1 == 1 {
        c := Polynomial ^ (c >> 1);
      } else {
        c := c >> 1;
      }
      k := k + 1;
    }
  }

  /** make_crc32_table: every entry of a 256-entry buffer, filled in index
      order and returned by value. */
  method MakeTable() returns (table: seq<bv32>)
    ensures IsTable(table)
  {
    var a := new bv32[256];
    for idx := 0 to 256
      invariant forall j :: 0 <= j < idx ==> a[j] == TableEntry(j as byte)
    {
      a[idx] := MakeEntry(idx as byte);
    }
    table := a[..];
  }

  lemma LookupFoldNext(t: seq<bv32>, c: Register, data: seq<byte>, i: nat, crc: bv32)
    requires |t| == 256 && i < |data| && Register(crc) == LookupFold(t, c, data[..i])
    ensures LookupFold(t, c, data[..i + 1]) == Register(t[TableIndex(crc, data[i]) as int] ^ (crc >> 8))
  {
    assert data[..i + 1][..i] == data[..i];
  }

  /** Looking a byte up in a buffer that holds the table is a step of the division. */
  lemma LookupStepIsUpdate(t: seq<bv32>, c: Register, b: byte)
    requires IsTable(t)
    ensures LookupStep(t, c, b) == Update(c, b)
  {
    var j := TableIndex(c.bits, b);
    assert t[j as int] == TableEntry(j);
  }

  lemma {:induction false} LookupFoldIsFold(t: seq<bv32>, c: Register, data: seq<byte>)
    requires IsTable(t)
    ensures LookupFold(t, c, data) == Fold(c, data)
    decreases |data|
  {
    if data != [] {
      var n := |data| - 1;
      LookupFoldIsFold(t, c, data[..n]);
      LookupStepIsUpdate(t, Fold(c, data[..n]), data[n]);
    }
  }

  lemma LookupChecksum(t: seq<bv32>, seed: bv32, data: seq<byte>, crc: bv32)
    requires IsTable(t) && Register(crc) == LookupFold(t, Register(!seed), data)
    ensures !crc == Checksum(data, seed)
  {
    LookupFoldIsFold(t, Register(!seed), data);
  }

  /** calc_crc32: complement the seed, fold in each byte in order through
      the table, complement the result. */
  method CalcCrc32(data: seq<byte>, seed: bv32) returns (crc: bv32)
    ensures crc == Checksum(data, seed)
  {
    var table := MakeTable();
    crc := !seed;
    var i := 0;
    while i < |data|
      invariant i <= |data|
      invariant Register(crc) == LookupFold(table, Register(!seed), data[..i])
    {
      LookupFoldNext(table, Register(!seed), data, i, crc);
      var idx := TableIndex(crc, data[i]);
      crc := table[idx as int] ^ (crc >> 8);
      i := i + 1;
    }
    assert data[..i] == data;
    LookupChecksum(table, seed, data, crc);
    crc := !crc;
  }

  // ---------------------------------------------------------------------
  // Incremental accumulation

  lemma {:induction false} FoldAppend(c: Register, a: seq<byte>, b: seq<byte>)
    ensures Fold(c, a + b) == Fold(Fold(c, a), b)
    decreases |b|
  {
    if b == [] {
      assert a + b == a;
    } else {
      var n := |b| - 1;
      assert (a + b)[..|a + b| - 1] == a + b[..n];
      FoldAppend(c, a, b[..n]);
    }
  }

  /** Seeding a checksum with the complement of a working value resumes
      the division from that working value. */
  lemma Resume(c: Register, b: seq<byte>)
    ensures Checksum(b, !c.bits) == !Fold(c, b).bits
  {
    assert Register(!(!c.bits)) == c;
  }

  /** Feeding the checksum of a prefix back in as the seed continues it:
      the closing complement of one call cancels the opening complement of
      the next. */
  lemma ChecksumAppend(a: seq<byte>, b: seq<byte>, seed: bv32)
    ensures Checksum(a + b, seed) == Checksum(b, Checksum(a, seed))
  {
    var mid := Fold(Register(!seed), a);
    FoldAppend(Register(!seed), a, b);
    Resume(mid, b);
  }
}
