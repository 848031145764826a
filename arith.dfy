/** Facts about multiplication and Euclidean division on non-negative operands,
    used by the block arithmetic and by the sieve. */
module Arith {

  /** a * b, written as repeated addition. The block formulas use it (and Quot) so that the
      prover meets them as linear recursive definitions; ProdIsMul recovers the product. */
  function Prod(a: nat, b: nat): nat
  {
    if b == 0 then 0 else Prod(a, b - 1) + a
  }

  lemma {:induction false} ProdIsMul(a: nat, b: nat)
    ensures Prod(a, b) == a * b
  {
    if b > 0 {
      ProdIsMul(a, b - 1);
      assert a * b == a * (b - 1) + a;
    }
  }

  /** x / d for x >= 0 and d > 0, written as repeated subtraction; QuotIsDiv recovers the quotient. */
  function Quot(x: nat, d: int): nat
    requires d > 0
    decreases x
  {
    if x < d then 0 else 1 + Quot(x - d, d)
  }

  lemma {:induction false} QuotIsDiv(x: nat, d: int)
    requires d > 0
    ensures Quot(x, d) == x / d
    decreases x
  {
    if x < d {
      ModUnique(x, d, 0, x);
    } else {
      QuotIsDiv(x - d, d);
      var q := (x - d) / d;
      assert x - d == d * q + (x - d) % d;
      ModUnique(x, d, q + 1, (x - d) % d);
    }
  }

  lemma {:induction false} MulMono(a: int, b: int, c: int)
    requires a <= b && 0 <= c
    ensures a * c <= b * c
  {
    assert b * c - a * c == (b - a) * c;
  }

  /** Squaring is monotone on non-negative numbers. */
  lemma {:induction false} SquareMono(a: int, b: int)
    requires 0 <= a <= b
    ensures a * a <= b * b
  {
    MulMono(a, b, a);
    MulMono(a, b, b);
    assert a * b == b * a;
  }

  /** k * d <= x means k is at most the quotient. */
  lemma {:induction false} DivLower(x: int, d: int, k: int)
    requires d > 0 && k * d <= x
    ensures k <= x / d
  {
    var q := x / d;
    assert x == d * q + x % d;
    if q < k {
      MulMono(q, k - 1, d);
      assert false;
    }
  }

  /** x < k * d means the quotient is below k. */
  lemma {:induction false} DivUpper(x: int, d: int, k: int)
    requires d > 0 && x < k * d
    ensures x / d < k
  {
    var q := x / d;
    assert x == d * q + x % d;
    if q >= k {
      MulMono(k, q, d);
      assert false;
    }
  }

  lemma {:induction false} DivMono(x: int, y: int, d: int)
    requires d > 0 && x <= y
    ensures x / d <= y / d
  {
    assert x == d * (x / d) + x % d;
    DivLower(y, d, x / d);
  }

  /** Quotient and remainder are determined by x == d * q + r with 0 <= r < d. */
  lemma {:induction false} ModUnique(x: int, d: int, q: int, r: int)
    requires d > 0 && x == d * q + r && 0 <= r < d
    ensures x / d == q && x % d == r
  {
    DivLower(x, d, q);
    DivUpper(x, d, q + 1);
  }

  lemma {:induction false} MultipleMod(d: int, q: int)
    requires d > 0
    ensures (d * q) % d == 0
  {
    ModUnique(d * q, d, q, 0);
  }

  /** The difference of two multiples of d is a multiple of d. */
  lemma {:induction false} ModDiff(a: int, b: int, d: int)
    requires d > 0 && a % d == 0 && b % d == 0
    ensures (a - b) % d == 0
  {
    assert a == d * (a / d) && b == d * (b / d);
    assert a - b == d * (a / d - b / d);
    MultipleMod(d, a / d - b / d);
  }

  /** A multiple of d plus a multiple of d is a multiple of d. */
  lemma {:induction false} ModAdd(a: int, b: int, d: int)
    requires d > 0 && a % d == 0 && b % d == 0
    ensures (a + b) % d == 0
  {
    assert a == d * (a / d) && b == d * (b / d);
    assert a + b == d * (a / d + b / d);
    MultipleMod(d, a / d + b / d);
  }
}
