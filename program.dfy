/** The two complete programs of the repository, d3-1.c (message passing) and d3-2.c (one-sided
    remote reads), as one run each: the process-count check, the shared segmented sieve, and the
    strategy's pair count with its reduction. Both report the number of sexy prime pairs up to n
    whenever the check passes and worker 0's block holds every sieving prime and the next. */
module SexyCouples {
  import opened Arith
  import opened Primes
  import opened Partition
  import opened Sieve
  import opened PairCount
  import opened RemoteRead
  import opened MessagePassing

  /** What worker 0 reports: the "Too many processes" exit, or the global count it prints. */
  datatype Outcome = TooManyProcesses | Counted(total: nat)

  /** The setup and sieve the two programs share (d3-1.c:40-81, d3-2.c:41-82): p workers with
      cleared buffers, the marking rounds, and the finished buffers. Every buffer agrees with the
      primality table of 2..n. */
  method SieveAll(p: int, n: int) returns (views: seq<seq<bool>>)
    requires n >= 1 && p >= 1 && ScanFits(n, p)
    ensures Published(views, Table(n), p, n - 1)
  {
    var ws := Spawn(p, n);
    ghost var ks := SieveRounds(ws, p, n);
    views := Publish(ws);
    ghost var g := Table(n);
    forall k | 0 <= k < p
      ensures |views[k]| == BlockSize(k, p, n - 1)
      ensures forall i :: 0 <= i < |views[k]| ==>
                0 <= BlockLow(k, p, n - 1) + i < n - 1 && views[k][i] == g[BlockLow(k, p, n - 1) + i]
    {
      WorkerRange(k, p, n);
      BlocksTile(k, p, n - 1);
    }
  }

  /** d3-2.c as a whole: a run the check rejects reports "Too many processes"; a run it lets through,
      whose worker 0 holds a prime q >= 3 with q * q > n, reports the number of sexy prime pairs up to n. */
  method RunRemoteRead(n: int, p: int) returns (r: Outcome)
    requires n >= 1 && p >= 1 && (Feasible(n, p) ==> ScanFits(n, p))
    ensures r == if Feasible(n, p) then Counted(SexyCount(n)) else TooManyProcesses
  {
    if !Feasible(n, p) {
      return TooManyProcesses;
    }
    var views := SieveAll(p, n);
    var total := GlobalCountRemoteRead(p, n, views, Table(n));
    TableCount(n);
    r := Counted(total);
  }

  /** d3-1.c as a whole: the same report through the message exchange. */
  method RunMessagePassing(n: int, p: int) returns (r: Outcome)
    requires n >= 1 && p >= 1 && (Feasible(n, p) ==> ScanFits(n, p))
    ensures r == if Feasible(n, p) then Counted(SexyCount(n)) else TooManyProcesses
  {
    if !Feasible(n, p) {
      return TooManyProcesses;
    }
    var views := SieveAll(p, n);
    var total := GlobalCountMessagePassing(p, n, views, Table(n));
    TableCount(n);
    r := Counted(total);
  }

  // ---------------------------------------------------------------- concrete runs

  /** Up to 20 the sexy prime pairs are (5, 11), (7, 13), (11, 17) and (13, 19). */
  lemma {:induction false} SexyCountTwenty()
    ensures SexyCount(20) == 4
  {
    PrimeByTrial(5);
    PrimeByTrial(7);
    PrimeByTrial(11);
    PrimeByTrial(13);
    PrimeByTrial(17);
    PrimeByTrial(19);
    assert !IsPrime(4) && !IsPrime(6) && !IsPrime(8) && !IsPrime(10) && !IsPrime(12) && !IsPrime(14)
      by { assert 4 % 2 == 0 && 6 % 2 == 0 && 8 % 2 == 0 && 10 % 2 == 0 && 12 % 2 == 0 && 14 % 2 == 0; }
    assert !IsPrime(9) by { assert 9 % 3 == 0; }
    assert SexyPairsBelow(20, 5) == 0;
    assert SexyPairsBelow(20, 6) == 1;
    assert SexyPairsBelow(20, 8) == 2;
    assert SexyPairsBelow(20, 12) == 3;
    assert SexyPairsBelow(20, 14) == 4;
    assert SexyPairsBelow(20, 21) == 4;
  }

  /** Up to 10 no prime has a prime partner 6 higher. */
  lemma {:induction false} SexyCountTen()
    ensures SexyCount(10) == 0
  {
    assert !IsPrime(4) && !IsPrime(8) && !IsPrime(9) && !IsPrime(10)
      by { assert 4 % 2 == 0 && 8 % 2 == 0 && 9 % 3 == 0 && 10 % 2 == 0; }
  }

  lemma {:induction false} TwentyRoot()
    ensures Isqrt(20) == 4 && IsPrime(5)
  {
    IsqrtUnique(20, 4);
    PrimeByTrial(5);
  }

  /** With 1, 2 or 4 workers over 2..20 the check passes and worker 0's block holds 5, whose square exceeds 20. */
  lemma {:induction false} TwentyFits(p: int)
    requires p == 1 || p == 2 || p == 4
    ensures Feasible(20, p) && ScanFits(20, p)
  {
    TwentyRoot();
    CoordinatorBlock(p, 20);
    DivLower(19, p, 4);
    assert 3 <= 5 <= HighValue(0, p, 20) && 5 * 5 > 20;
  }

  /** 5000 workers over 2..10000 are rejected: worker 0 would hold only 2..2, below isqrt(10000) = 100. */
  lemma {:induction false} TooManyWorkers()
    ensures !Feasible(10000, 5000)
  {
    IsqrtUnique(10000, 100);
  }

  /** Both programs report 4 pairs up to 20 with 1, 2 or 4 workers. */
  method RunTwenty(p: int) returns (viaMessages: Outcome, viaReads: Outcome)
    requires p == 1 || p == 2 || p == 4
    ensures viaMessages == viaReads == Counted(4)
  {
    TwentyFits(p);
    SexyCountTwenty();
    viaMessages := RunMessagePassing(20, p);
    viaReads := RunRemoteRead(20, p);
  }
}
