/** Primality and the reference count of sexy prime pairs. */
module Primes {
  import opened Arith

  /** x is prime: at least 2 and no divisor strictly between 1 and x. */
  predicate IsPrime(x: int) {
    x >= 2 && forall d :: 2 <= d < x ==> x % d != 0
  }

  /** The least divisor of v that is at least d, given that none below d divides v. */
  ghost function LeastDivisor(v: int, d: int): (r: int)
    requires 2 <= d <= v
    requires forall c :: 2 <= c < d ==> v % c != 0
    ensures d <= r <= v && v % r == 0
    ensures forall c :: 2 <= c < r ==> v % c != 0
    decreases v - d
  {
    if v % d == 0 then d
    else
      ModUnique(v, v, 1, 0);
      LeastDivisor(v, d + 1)
  }

  lemma {:induction false} DividesTrans(a: int, b: int, c: int)
    requires a >= 0 && b >= 1 && c >= 1 && a % b == 0 && b % c == 0
    ensures a % c == 0
  {
    var k, l := a / b, b / c;
    assert a == b * k;
    assert b == c * l;
    assert a == c * (l * k);
    MultipleMod(c, l * k);
  }

  /** The least divisor of v above 1 is prime. */
  lemma {:induction false} LeastDivisorIsPrime(v: int)
    requires v >= 2
    ensures IsPrime(LeastDivisor(v, 2))
  {
    var r := LeastDivisor(v, 2);
    forall c | 2 <= c < r
      ensures r % c != 0
    {
      if r % c == 0 {
        DividesTrans(v, r, c);
      }
    }
  }

  /** If r is the least divisor of v above 1 and v = r * e with e >= 2, then r <= e. */
  lemma {:induction false} LeastDivisorSquare(v: int, r: int)
    requires v >= 2 && 2 <= r < v && v % r == 0
    requires forall c :: 2 <= c < r ==> v % c != 0
    ensures r * r <= v
  {
    var e := v / r;
    assert v == r * e;
    if e < 2 {
      MulMono(e, 1, r);
      assert false;
    }
    ModUnique(v, e, r, 0);
    assert v % e == 0;
    assert r <= e;
    MulMono(r, e, r);
  }

  /** Every composite v has a prime factor whose square is at most v. */
  lemma {:induction false} PrimeFactor(v: int) returns (r: int)
    requires v >= 2 && !IsPrime(v)
    ensures IsPrime(r) && v % r == 0 && r * r <= v && r < v
  {
    r := LeastDivisor(v, 2);
    LeastDivisorIsPrime(v);
    var d :| 2 <= d < v && v % d == 0;
    assert r <= d;
    LeastDivisorSquare(v, r);
  }

  /** No d with from <= d and d * d <= x divides x: trial division up to the square root, which the
      prover evaluates on literals. */
  predicate NoDivisorFrom(x: int, from: int)
    decreases x - from
  {
    from >= 2 && (x < from * from || (from < x && x % from != 0 && NoDivisorFrom(x, from + 1)))
  }

  lemma {:induction false} NoDivisorFromHolds(x: int, from: int)
    requires NoDivisorFrom(x, from)
    ensures forall d :: from <= d && d * d <= x ==> x % d != 0
    decreases x - from
  {
    if x < from * from {
      forall d | from <= d && d * d <= x
        ensures false
      {
        SquareMono(from, d);
      }
    } else {
      NoDivisorFromHolds(x, from + 1);
    }
  }

  /** Trial division up to the square root decides primality. */
  lemma {:induction false} PrimeByTrial(x: int)
    requires x >= 2 && NoDivisorFrom(x, 2)
    ensures IsPrime(x)
  {
    NoDivisorFromHolds(x, 2);
    if !IsPrime(x) {
      var r := PrimeFactor(x);
      assert false;
    }
  }

  /** Number of p with 2 <= p < hi, p + 6 <= n and both p and p + 6 prime. */
  function SexyPairsBelow(n: int, hi: int): nat
    decreases hi
  {
    if hi <= 2 then 0
    else SexyPairsBelow(n, hi - 1)
         + (if hi - 1 + 6 <= n && IsPrime(hi - 1) && IsPrime(hi + 5) then 1 else 0)
  }

  /** Number of sexy prime pairs (p, p + 6) with both members at most n. */
  function SexyCount(n: int): nat {
    SexyPairsBelow(n, n + 1)
  }
}
