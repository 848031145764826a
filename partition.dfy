/** Block decomposition of the integers 2..n over p workers (the BLOCK_* macros),
    the "too many processes" check, and the integer square root it uses.
    Blocks are stated over the m = n - 1 item indices; item j stands for the integer j + 2. */
module Partition {
  import opened Arith
  import opened Primes

  function Min(a: int, b: int): int {
    if a < b then a else b
  }

  /** BLOCK_LOW: the first item of block id. */
  function BlockLow(id: int, p: int, m: int): int
    requires 0 <= id && 0 < p && 0 <= m
  {
    Quot(Prod(id, m), p)
  }

  /** BLOCK_HIGH: the last item of block id, clamped to m as the macro does. */
  function BlockHigh(id: int, p: int, m: int): int
    requires 0 <= id && 0 < p && 0 <= m
  {
    Min(BlockLow(id + 1, p, m) - 1, m)
  }

  /** BLOCK_SIZE: the number of items of block id. */
  function BlockSize(id: int, p: int, m: int): int
    requires 0 <= id && 0 < p && 0 <= m
  {
    BlockLow(id + 1, p, m) - BlockLow(id, p, m)
  }

  /** BLOCK_OWNER: the block that holds item j, computed without any search. */
  function BlockOwner(j: int, p: int, m: int): int
    requires 0 <= j && 0 < p && 0 < m
  {
    Quot(Prod(p, j) + p - 1, m)
  }

  /** low_value, high_value and size of worker id for the integers 2..n. */
  function LowValue(id: int, p: int, n: int): int
    requires 0 <= id && 0 < p && 1 <= n
  {
    2 + BlockLow(id, p, n - 1)
  }

  function HighValue(id: int, p: int, n: int): int
    requires 0 <= id && 0 < p && 1 <= n
  {
    2 + BlockHigh(id, p, n - 1)
  }

  function Size(id: int, p: int, n: int): int
    requires 0 <= id && 0 < p && 1 <= n
  {
    BlockSize(id, p, n - 1)
  }

  /** BLOCK_LOW(id, p, m) is id * m / p. */
  lemma {:induction false} LowFormula(id: int, p: int, m: int)
    requires 0 <= id && 0 < p && 0 <= m
    ensures BlockLow(id, p, m) == id * m / p
  {
    ProdIsMul(id, m);
    QuotIsDiv(id * m, p);
  }

  /** BLOCK_OWNER(j, p, m) is (p * (j + 1) - 1) / m. */
  lemma {:induction false} OwnerFormula(j: int, p: int, m: int)
    requires 0 <= j && 0 < p && 0 < m
    ensures BlockOwner(j, p, m) == (p * (j + 1) - 1) / m
  {
    ProdIsMul(p, j);
    assert p * j + p - 1 == p * (j + 1) - 1;
    QuotIsDiv(p * (j + 1) - 1, m);
  }

  lemma {:induction false} LowMono(a: int, b: int, p: int, m: int)
    requires 0 <= a <= b && 0 < p && 0 <= m
    ensures BlockLow(a, p, m) <= BlockLow(b, p, m)
  {
    LowFormula(a, p, m);
    LowFormula(b, p, m);
    MulMono(a, b, m);
    DivMono(a * m, b * m, p);
  }

  /** Block boundaries run from 0 up to m. */
  lemma {:induction false} LowBounds(id: int, p: int, m: int)
    requires 0 <= id <= p && 0 < p && 0 <= m
    ensures BlockLow(0, p, m) == 0 && BlockLow(p, p, m) == m
    ensures 0 <= BlockLow(id, p, m) <= m
  {
    LowFormula(0, p, m);
    LowFormula(p, p, m);
    ModUnique(p * m, p, m, 0);
    LowMono(0, id, p, m);
    LowMono(id, p, p, m);
  }

  /** The blocks tile the items 0..m-1: the first starts at 0, each ends just before
      the next begins, the last ends at m - 1, and the size is high - low + 1. */
  lemma {:induction false} BlocksTile(id: int, p: int, m: int)
    requires 0 <= id < p && 0 <= m
    ensures BlockLow(0, p, m) == 0
    ensures BlockHigh(id, p, m) + 1 == BlockLow(id + 1, p, m)
    ensures 0 <= BlockSize(id, p, m) == BlockHigh(id, p, m) - BlockLow(id, p, m) + 1
    ensures BlockLow(id + 1, p, m) <= m
    ensures id == p - 1 ==> BlockHigh(id, p, m) == m - 1
  {
    LowBounds(id + 1, p, m);
    LowMono(id, id + 1, p, m);
  }

  /** Worker id's integers: low_value..high_value inside 2..n, with size = high_value - low_value + 1. */
  lemma {:induction false} WorkerRange(id: int, p: int, n: int)
    requires 0 <= id < p && n >= 1
    ensures 2 <= LowValue(id, p, n) && HighValue(id, p, n) <= n
    ensures 0 <= Size(id, p, n) == HighValue(id, p, n) - LowValue(id, p, n) + 1
  {
    BlocksTile(id, p, n - 1);
    LowBounds(id, p, n - 1);
  }

  /** The owner of item j is a valid worker id. */
  lemma {:induction false} OwnerInRange(j: int, p: int, m: int)
    requires 0 <= j < m && 0 < p
    ensures 0 <= BlockOwner(j, p, m) < p
  {
    var o := BlockOwner(j, p, m);
    OwnerFormula(j, p, m);
    var x := p * (j + 1) - 1;
    MulMono(1, j + 1, p);
    MulMono(j + 1, m, p);
    assert x == m * o + x % m;
    if o >= p {
      MulMono(p, o, m);
      assert false;
    }
  }

  lemma {:induction false} LowBelowArith(j: int, p: int, m: int, o: int)
    requires 0 <= j < m && 0 < p && o == (p * (j + 1) - 1) / m
    ensures o * m / p <= j
  {
    var x := p * (j + 1) - 1;
    MulMono(1, j + 1, p);
    assert x == m * o + x % m;
    assert o * m == m * o && (j + 1) * p == p * (j + 1);
    assert o * m <= x < (j + 1) * p;
    DivUpper(o * m, p, j + 1);
  }

  /** The owner's block starts at or before item j. */
  lemma {:induction false} OwnerLowBelow(j: int, p: int, m: int)
    requires 0 <= j < m && 0 < p
    ensures BlockLow(BlockOwner(j, p, m), p, m) <= j
  {
    var o := BlockOwner(j, p, m);
    OwnerFormula(j, p, m);
    LowFormula(o, p, m);
    LowBelowArith(j, p, m, o);
  }

  lemma {:induction false} NextAboveArith(j: int, p: int, m: int, o: int)
    requires 0 <= j < m && 0 < p && o == (p * (j + 1) - 1) / m
    ensures j < (o + 1) * m / p
  {
    var x := p * (j + 1) - 1;
    MulMono(1, j + 1, p);
    assert x == m * o + x % m;
    assert (o + 1) * m == m * o + m;
    assert (j + 1) * p <= (o + 1) * m;
    DivLower((o + 1) * m, p, j + 1);
  }

  /** The block after the owner's starts after item j. */
  lemma {:induction false} OwnerNextAbove(j: int, p: int, m: int)
    requires 0 <= j < m && 0 < p
    ensures j < BlockLow(BlockOwner(j, p, m) + 1, p, m)
  {
    var o := BlockOwner(j, p, m);
    OwnerFormula(j, p, m);
    OwnerInRange(j, p, m);
    LowFormula(o + 1, p, m);
    NextAboveArith(j, p, m, o);
  }

  /** BLOCK_OWNER inverts the decomposition: for every item j, the owner is a valid id whose
      block holds j, and it is the only such id. */
  lemma {:induction false} OwnerInverse(j: int, q: int, p: int, m: int)
    requires 0 <= j < m && 0 <= q < p
    ensures 0 <= BlockOwner(j, p, m) < p
    ensures BlockLow(q, p, m) <= j <= BlockHigh(q, p, m) <==> q == BlockOwner(j, p, m)
  {
    var o := BlockOwner(j, p, m);
    OwnerInRange(j, p, m);
    OwnerLowBelow(j, p, m);
    OwnerNextAbove(j, p, m);
    BlocksTile(o, p, m);
    BlocksTile(q, p, m);
    if q < o {
      LowMono(q + 1, o, p, m);
    } else if q > o {
      LowMono(o + 1, q, p, m);
    }
  }

  /** Worker 0 holds the integers 2..1 + (n-1)/p, so proc0_size is its block size. */
  lemma {:induction false} CoordinatorBlock(p: int, n: int)
    requires p >= 1 && n >= 1
    ensures LowValue(0, p, n) == 2
    ensures Size(0, p, n) == (n - 1) / p
    ensures HighValue(0, p, n) == 1 + (n - 1) / p
  {
    BlocksTile(0, p, n - 1);
    LowFormula(1, p, n - 1);
    assert 1 * (n - 1) == n - 1;
  }

  /** The integer square root, standing for (int)sqrt((double)n). */
  function Isqrt(n: nat): (r: nat)
    ensures r * r <= n < (r + 1) * (r + 1)
  {
    if n == 0 then 0
    else
      var s := Isqrt(n - 1);
      if (s + 1) * (s + 1) <= n then s + 1 else s
  }

  /** The square root bracket determines the root. */
  lemma {:induction false} IsqrtUnique(n: nat, r: nat)
    requires r * r <= n < (r + 1) * (r + 1)
    ensures r == Isqrt(n)
  {
    var s := Isqrt(n);
    assert s * s <= n < (s + 1) * (s + 1);
    if r < s {
      SquareMono(r + 1, s);
      assert false;
    } else if s < r {
      SquareMono(s + 1, r);
      assert false;
    }
  }

  /** isqrt(n) is at most c exactly when (c + 1) * (c + 1) exceeds n. */
  lemma {:induction false} RootBound(n: nat, c: nat)
    ensures Isqrt(n) <= c <==> (c + 1) * (c + 1) > n
  {
    var r := Isqrt(n);
    if r <= c {
      SquareMono(r + 1, c + 1);
    } else {
      SquareMono(c + 1, r);
    }
  }

  /** The check of d3-1.c:46 and d3-2.c:47: the run goes on unless 2 + proc0_size is below isqrt(n),
      that is, unless the square of 3 + proc0_size is at most n. */
  function Feasible(n: int, p: int): (ok: bool)
    requires n >= 1 && p >= 1
    ensures ok <==> (3 + (n - 1) / p) * (3 + (n - 1) / p) > n
  {
    RootBound(n, 2 + (n - 1) / p);
    2 + (n - 1) / p >= Isqrt(n)
  }

  /** Worker 0's block holds a prime above 2 whose square exceeds n. This is what worker 0's
      unchecked scan `while (marked[++index])` needs to stay inside its buffer in every round. */
  predicate ScanFits(n: int, p: int)
    requires n >= 1 && p >= 1
  {
    exists q :: 3 <= q <= HighValue(0, p, n) && IsPrime(q) && q * q > n
  }

  /** ScanFits is stronger than the source's check: every configuration it admits passes it. */
  lemma {:induction false} ScanFitsImpliesFeasible(n: int, p: int)
    requires n >= 1 && p >= 1 && ScanFits(n, p)
    ensures Feasible(n, p)
  {
    var q :| 3 <= q <= HighValue(0, p, n) && IsPrime(q) && q * q > n;
    CoordinatorBlock(p, n);
    var r := Isqrt(n);
    if q <= r {
      MulMono(q, r, q);
      MulMono(q, r, r);
      assert false;
    }
  }

  /** The source's check admits n = 25 with 6 workers, although worker 0 holds only 2..5:
      the round for prime 5 still runs (25 <= 25) and its scan then steps past cell 3, the last. */
  lemma {:induction false} CheckAdmitsScanOverrun()
    ensures Feasible(25, 6) && !ScanFits(25, 6)
    ensures Size(0, 6, 25) == 4 && HighValue(0, 6, 25) == 5
    ensures IsPrime(5) && 5 * 5 <= 25
  {
    CoordinatorBlock(6, 25);
    IsqrtUnique(25, 5);
    PrimeByTrial(5);
    forall q | 3 <= q <= HighValue(0, 6, 25)
      ensures q * q <= 25
    {
      MulMono(q, 5, q);
      MulMono(q, 5, 5);
    }
  }

  /** The check also admits n = 10 with 3 workers: worker 0 holds 2..4, the round for prime 3 runs
      (9 <= 10), and the scan passes the struck cell 2 (the value 4) and steps past it. */
  lemma {:induction false} CheckAdmitsScanOverrunTen()
    ensures Feasible(10, 3) && !ScanFits(10, 3)
  {
    assert Feasible(10, 3) by {
      IsqrtUnique(10, 3);
    }
    assert !ScanFits(10, 3) by {
      CoordinatorTen();
      NoScanPrimeTen();
    }
  }

  /** Worker 0 of 3 over 2..10 holds 2..4: size 3, high_value 4. */
  lemma {:induction false} CoordinatorTen()
    ensures Size(0, 3, 10) == 3 && HighValue(0, 3, 10) == 4
  {
    CoordinatorBlock(3, 10);
    assert (10 - 1) / 3 == 3;
  }

  /** The only prime of 3..4 is 3, and its square is at most 10, so the round for 3 runs. */
  lemma {:induction false} NoScanPrimeTen()
    ensures IsPrime(3) && 3 * 3 <= 10 && !IsPrime(4)
    ensures forall q :: 3 <= q <= 4 && IsPrime(q) ==> q * q <= 10
  {
    PrimeByTrial(3);
    assert !IsPrime(4) by { assert 4 % 2 == 0; }
    forall q | 3 <= q <= 4 && IsPrime(q)
      ensures q * q <= 10
    {
      assert q == 3;
    }
  }
}
