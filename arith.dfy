/** Powers of two and the facts about multiplication, division and
    remainder that the word arithmetic of the decoder rests on. */
module Arith {

  /** 2^n. */
  function Pow2(n: nat): (r: nat)
    ensures r >= 1
  {
    if n == 0 then 1 else 2 * Pow2(n - 1)
  }

  lemma {:induction false} Pow2Add(a: nat, b: nat)
    ensures Pow2(a + b) == Pow2(a) * Pow2(b)
  {
    if b > 0 {
      Pow2Add(a, b - 1);
      assert Pow2(a + b) == 2 * Pow2(a + b - 1);
    }
  }

  /** Doubling the exponent squares the power. */
  lemma Pow2Square(n: nat, v: nat)
    requires Pow2(n) == v
    ensures Pow2(n + n) == v * v
  {
    Pow2Add(n, n);
  }

  lemma {:induction false} Pow2Monotone(a: nat, b: nat)
    requires a <= b
    ensures Pow2(a) <= Pow2(b)
  {
    if a < b {
      Pow2Monotone(a, b - 1);
    }
  }

  lemma MulAtLeastOne(d: nat, p: nat)
    requires d >= 1
    ensures d * p >= p
  {
  }

  lemma Pow2Seven()
    ensures Pow2(7) == 128
  {
  }

  lemma ModOfSmall(x: nat, m: nat)
    requires x < m
    ensures x % m == x
  {
  }

  lemma MulAtLeast(k: int, m: int)
    requires m > 0 && k >= 1
    ensures k * m >= m
  {
  }

  lemma MulStrict(a: nat, b: nat, p: nat)
    requires a < b && p > 0
    ensures a * p < b * p
  {
    MulAtLeast(b - a, p);
  }

  /** Division is unique: a quotient and a remainder in range are the ones. */
  lemma DivModUnique(x: int, m: int, q: int, r: int)
    requires m > 0 && 0 <= r < m && x == q * m + r
    ensures x % m == r && x / m == q
  {
    var q' := x / m;
    var r' := x % m;
    assert x == q' * m + r';
    assert (q - q') * m == r' - r;
    if q > q' {
      MulAtLeast(q - q', m);
    } else if q < q' {
      MulAtLeast(q' - q, m);
    }
  }

  lemma MulDivCancel(a: nat, p: nat)
    requires p > 0
    ensures (a * p) / p == a
  {
    DivModUnique(a * p, p, a, 0);
  }

  /** Splitting `a` by `q` splits `a * p` by `p * q`. */
  lemma ScaleSplit(a: nat, q: nat, p: nat)
    requires q > 0
    ensures a * p == (a / q) * (p * q) + (a % q) * p
  {
    var d := a / q;
    var r := a % q;
    assert a == d * q + r;
    calc {
      a * p;
      (d * q + r) * p;
      d * q * p + r * p;
      d * (p * q) + r * p;
    }
  }

  /** Multiplying by `p` and reducing modulo `p * q` loses nothing exactly
      when the product is below the modulus. */
  lemma ScaleBack(a: nat, p: nat, q: nat)
    requires p > 0 && q > 0
    ensures ((a * p) % (p * q)) / p == a <==> a * p < p * q
  {
    if a * p < p * q {
      ModOfSmall(a * p, p * q);
      MulDivCancel(a, p);
    } else {
      if a < q {
        MulStrict(a, q, p);
      }
      var r := a % q;
      ScaleSplit(a, q, p);
      MulStrict(r, q, p);
      DivModUnique(a * p, p * q, a / q, r * p);
      MulDivCancel(r, p);
    }
  }

}
