/** Shared vocabulary of the patch applier: bytes, the 64-bit word the
    varint decoder works in, powers of two, little-endian words, the
    errors a byte cursor reports and the result type that stands for the
    source's exceptions. */
module Bytes {
  import opened Arith

  /** One octet of a patch, a source or an output buffer. */
  type byte = bv8

  /** Width in bits of uintmax_t, the type varints are decoded into. */
  const WordBits: nat := 64

  /** Every uintmax_t value is below this: 2^64. */
  const WordLimit: nat := 0x1_0000_0000_0000_0000

  /** A value of type uintmax_t. */
  type u64 = x: nat | x < WordLimit

  /** The unsigned 64-bit sum of `a` and `b`, which wraps modulo 2^64. */
  function AddWrap(a: nat, b: u64): (r: u64)
    ensures a + b < WordLimit ==> r == a + b
    ensures a < WordLimit && a + b >= WordLimit ==> r == a + b - WordLimit
  {
    (a + b) % WordLimit
  }

  /** The failures of a byte cursor, after the exception types the source
      throws: std::out_of_range for a read or rewind past either end,
      std::runtime_error for a varint whose shift loses bits, and
      std::overflow_error for a varint whose sum does not fit. */
  datatype StreamError = OutOfRange | BadEncoding | Overflow

  /** Success with a value, or failure with an error kind. */
  datatype Result<+T, +E> = Ok(value: T) | Err(error: E) {
    predicate IsFailure() {
      Err?
    }

    function PropagateFailure<U>(): Result<U, E>
      requires Err?
    {
      Err(error)
    }

    function Extract(): T
      requires Ok?
    {
      value
    }
  }

  /** The word limit is the power of two of the word width. */
  lemma WordLimitIsPow2()
    ensures WordLimit == Pow2(WordBits)
  {
    assert Pow2(8) == 256;
    Pow2Square(8, 256);
    Pow2Square(16, 0x1_0000);
    Pow2Square(32, 0x1_0000_0000);
  }

  /** A byte value, and anything up to 2^8, fits in a word. */
  lemma ByteFitsWord()
    ensures 256 < WordLimit
  {
    assert Pow2(8) == 256;
    Pow2Monotone(9, WordBits);
    WordLimitIsPow2();
  }

  /** The byte holding `x`, assembled bit by bit with shifts, so that its
      value can be reasoned about without converting an integer to a byte. */
  function ByteOf(x: nat): byte
    requires x < 256
    decreases x
  {
    if x == 0 then 0 else (ByteOf(x / 2) << 1) | (if x % 2 == 1 then 1 else 0)
  }

  /** Shifting a byte below 128 left by one and setting the low bit to `c`
      doubles its value and adds `c`. */
  lemma ShiftInBit(b: byte, c: byte)
    requires b as int < 128 && c as int < 2
    ensures ((b << 1) | c) as int == 2 * (b as int) + c as int
  {
  }

  lemma {:induction false} ByteOfIsValue(x: nat)
    requires x < 256
    ensures ByteOf(x) as int == x
    decreases x
  {
    if x > 0 {
      var h, c: byte := ByteOf(x / 2), if x % 2 == 1 then 1 else 0;
      assert ByteOf(x) == (h << 1) | c;
      ByteOfIsValue(x / 2);
      ShiftInBit(h, c);
      assert x == 2 * (x / 2) + c as int;
    }
  }

  /** Converting a number below 256 to a byte and back gives it back. */
  lemma ByteValue(x: int)
    requires 0 <= x < 256
    ensures (x as byte) as int == x
  {
    ByteOfIsValue(x);
    ByteOfValue(ByteOf(x));
  }

  /** Converting a byte to a number and back gives it back. */
  lemma ByteOfValue(b: byte)
    ensures (b as int) as byte == b
  {
  }

  /** The low seven bits of a byte, as a number. */
  lemma LowSeven(b: byte)
    ensures (b & 0x7f) as int == b as int % 128
  {
  }

  /** The high bit of a byte is set exactly when its value is at least 128. */
  lemma HighBit(b: byte)
    ensures (b & 0x80 != 0) <==> b as int >= 128
  {
  }

  /** Little-endian assembly of four bytes, as read_le32 does it. */
  function Le32(bs: seq<byte>): bv32
    requires |bs| == 4
  {
    (bs[0] as bv32) | ((bs[1] as bv32) << 8) | ((bs[2] as bv32) << 16) | ((bs[3] as bv32) << 24)
  }

  /** The four little-endian bytes of a word (the writer's side of Le32). */
  function Le32Bytes(w: bv32): (bs: seq<byte>)
    ensures |bs| == 4
  {
    [(w & 0xff) as bv8, ((w >> 8) & 0xff) as bv8, ((w >> 16) & 0xff) as bv8, ((w >> 24) & 0xff) as bv8]
  }

  lemma Le32RoundTrip(w: bv32)
    ensures Le32(Le32Bytes(w)) == w
  {
  }

  lemma Le32Injective(a: seq<byte>, b: seq<byte>)
    requires |a| == 4 && |b| == 4 && a != b
    ensures Le32(a) != Le32(b)
  {
    var i :| 0 <= i < 4 && a[i] != b[i];
  }
}
