/** The checked shift and add the varint decoder builds on: each updates
    its 64-bit operand in place and reports whether the exact result fit. */
module SafeAssign {
  import opened Arith
  import opened Bytes

  /** `a << b` in uintmax_t for a shift narrower than the word: the bits
      pushed past the top are dropped. */
  function ShiftLeft(a: u64, b: nat): u64
    requires b < WordBits
  {
    (a * Pow2(b)) % WordLimit
  }

  /** Shifting back recovers the operand exactly when no bit was lost:
      the test safe_assign_lshift makes, stated as the exact product fitting. */
  lemma ShiftBack(a: u64, b: nat)
    requires b < WordBits
    ensures ShiftLeft(a, b) / Pow2(b) == a <==> a * Pow2(b) < WordLimit
  {
    WordLimitIsPow2();
    Pow2Add(b, WordBits - b);
    ScaleBack(a, Pow2(b), Pow2(WordBits - b));
  }

  /** safe_assign_lshift: returns whether `a << b` kept every bit, and the
      new value of `a` — zero for a shift as wide as the word or wider,
      otherwise the shifted word even when bits were lost. */
  method SafeAssignLshift(a: u64, b: nat) returns (ok: bool, a': u64)
    ensures ok <==> b < WordBits && a * Pow2(b) < WordLimit
    ensures b >= WordBits ==> a' == 0
    ensures b < WordBits ==> a' == ShiftLeft(a, b)
    ensures ok ==> a' == a * Pow2(b)
  {
    if b >= WordBits {
      return false, 0;
    }
    var sa := ShiftLeft(a, b);
    ShiftBack(a, b);
    if sa / Pow2(b) != a {
      return false, sa;
    }
    ModOfSmall(a * Pow2(b), WordLimit);
    return true, sa;
  }

  /** safe_assign_add: returns whether `a + b` fits, and the new value of
      `a`, the sum taken modulo 2^64 as __builtin_add_overflow stores it. */
  method SafeAssignAdd(a: u64, b: u64) returns (ok: bool, a': u64)
    ensures ok <==> a + b < WordLimit
    ensures a' == (a + b) % WordLimit
    ensures ok ==> a' == a + b
  {
    var c := (a + b) % WordLimit;
    if a + b >= WordLimit {
      return false, c;
    }
    ModOfSmall(a + b, WordLimit);
    return true, c;
  }
}
