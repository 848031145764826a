/** The segmented sieve of d3-1.c:58-81 and d3-2.c:59-82: every worker clears its buffer,
    then in rounds strikes the multiples of the current prime in place, and worker 0 scans
    its own buffer for the next prime, which the broadcast hands to every worker. */
module Sieve {
  import opened Arith
  import opened Primes
  import opened Partition

  /** Striking with k marks v: v is a multiple of k and at least k * k. */
  predicate Hit(v: int, k: int) {
    k >= 2 && v % k == 0 && v >= k * k
  }

  /** v has been struck by one of the primes ks broadcast so far. */
  ghost predicate Sieved(v: int, ks: seq<int>) {
    exists t :: 0 <= t < |ks| && Hit(v, ks[t])
  }

  /** The offset `first` of the first cell to strike (d3-2.c:65-71). */
  function FirstOffset(low: int, prime: int): (first: int)
    requires low >= 0 && prime >= 2
    ensures first >= 0 && Hit(low + first, prime)
  {
    if prime * prime > low then
      MultipleMod(prime, prime);
      prime * prime - low
    else if low % prime == 0 then
      0
    else
      AlignUp(low, prime);
      prime - low % prime
  }

  /** Rounding low up to the next multiple of prime lands on a struck value. */
  lemma {:induction false} AlignUp(low: int, prime: int)
    requires low >= 0 && prime >= 2 && prime * prime <= low && low % prime != 0
    ensures Hit(low + (prime - low % prime), prime)
  {
    var c := low / prime;
    assert low == prime * c + low % prime;
    assert low + (prime - low % prime) == prime * (c + 1);
    MultipleMod(prime, c + 1);
  }

  /** Cell i lies on the stroke that starts at `first` and steps by prime. */
  predicate OnStroke(i: int, first: int, prime: int)
    requires prime >= 1
  {
    first <= i && (i - first) % prime == 0
  }

  /** No offset below `first` is a multiple of prime that is at least prime * prime. */
  lemma {:induction false} FirstOffsetLeast(low: int, prime: int, f: int)
    requires low >= 0 && prime >= 2 && 0 <= f < FirstOffset(low, prime)
    ensures !Hit(low + f, prime)
  {
    if prime * prime <= low && low % prime != 0 {
      ModUnique(low + f, prime, low / prime, low % prime + f);
    }
  }

  /** The stroke first, first + prime, ... hits exactly the multiples of prime that are at least prime * prime. */
  lemma {:induction false} StrokeIsHit(low: int, prime: int, i: int)
    requires low >= 0 && prime >= 2 && i >= 0
    ensures OnStroke(i, FirstOffset(low, prime), prime) <==> Hit(low + i, prime)
  {
    var first := FirstOffset(low, prime);
    if first <= i && (i - first) % prime == 0 {
      ModAdd(low + first, i - first, prime);
    }
    if Hit(low + i, prime) {
      if i < first {
        FirstOffsetLeast(low, prime, i);
      }
      ModDiff(low + i, low + first, prime);
    }
  }

  /** Between two consecutive stroke positions no cell is on the stroke. */
  lemma {:induction false} StrideGap(first: int, prime: int, i: int, k: int)
    requires prime >= 1 && OnStroke(i, first, prime) && i < k < i + prime
    ensures !OnStroke(k, first, prime)
  {
    ModUnique(k - first, prime, (i - first) / prime, k - i);
  }

  lemma {:induction false} PrimeNeverHit(v: int, k: int)
    requires IsPrime(v)
    ensures !Hit(v, k)
  {
    if k >= 2 && v >= k * k {
      MulMono(2, k, k);
      assert 2 <= k < v;
    }
  }

  lemma {:induction false} PrimeNeverSieved(v: int, ks: seq<int>)
    requires IsPrime(v)
    ensures !Sieved(v, ks)
  {
    forall t | 0 <= t < |ks|
      ensures !Hit(v, ks[t])
    {
      PrimeNeverHit(v, ks[t]);
    }
  }

  lemma {:induction false} SievedSnoc(v: int, ks: seq<int>, k: int)
    ensures Sieved(v, ks + [k]) <==> Sieved(v, ks) || Hit(v, k)
  {
    if Hit(v, k) {
      assert (ks + [k])[|ks|] == k;
    }
    if Sieved(v, ks) {
      var t :| 0 <= t < |ks| && Hit(v, ks[t]);
      assert (ks + [k])[t] == ks[t];
    }
    if Sieved(v, ks + [k]) {
      var t :| 0 <= t < |ks| + 1 && Hit(v, (ks + [k])[t]);
      if t < |ks| {
        assert (ks + [k])[t] == ks[t];
      }
    }
  }

  /** A broadcast prime f dividing v with f * f <= v strikes v. */
  lemma {:induction false} FactorStrikes(v: int, f: int, ks: seq<int>)
    requires f in ks && f >= 2 && v % f == 0 && f * f <= v
    ensures Sieved(v, ks)
  {
    var t :| 0 <= t < |ks| && ks[t] == f;
    assert Hit(v, ks[t]);
  }

  /** The cell after the last broadcast prime that the coordinator's scan stops at is the next prime,
      and every prime below it has been broadcast. */
  lemma {:induction false} ScanFindsNextPrime(ks: seq<int>, prime: int, next: int)
    requires 2 <= prime < next
    requires forall r :: 2 <= r <= prime && IsPrime(r) ==> r in ks
    requires forall v :: prime < v < next ==> Sieved(v, ks)
    requires !Sieved(next, ks)
    ensures IsPrime(next)
    ensures forall r :: 2 <= r < next && IsPrime(r) ==> r in ks
  {
    if !IsPrime(next) {
      var f := PrimeFactor(next);
      if f <= prime {
        FactorStrikes(next, f, ks);
        assert false;
      } else {
        assert Sieved(f, ks);
        PrimeNeverSieved(f, ks);
      }
    }
    forall r | 2 <= r < next && IsPrime(r)
      ensures r in ks
    {
      if r > prime {
        PrimeNeverSieved(r, ks);
      }
    }
  }

  /** Once every prime whose square is at most n has been broadcast, struck is the same as composite. */
  lemma {:induction false} SieveComplete(v: int, ks: seq<int>, n: int)
    requires 2 <= v <= n
    requires forall r :: 2 <= r && r * r <= n && IsPrime(r) ==> r in ks
    ensures Sieved(v, ks) <==> !IsPrime(v)
  {
    if IsPrime(v) {
      PrimeNeverSieved(v, ks);
    } else {
      var f := PrimeFactor(v);
      FactorStrikes(v, f, ks);
    }
  }

  /** One worker: its block of the integers 2..n and its buffer `marked`. */
  class Worker {
    const id: int
    const p: int
    const n: int
    const lowValue: int
    const highValue: int
    const size: int
    /** marked[i] stands for lowValue + i: false while it may be prime, true once struck. */
    const marked: array<bool>
    /** The coordinator's cursor into its own buffer; only worker 0 uses it. */
    var index: int

    ghost predicate Valid() {
      && 0 <= id < p && n >= 1
      && lowValue == LowValue(id, p, n)
      && highValue == HighValue(id, p, n)
      && size == Size(id, p, n)
      && marked.Length == size
      && highValue == lowValue + size - 1
      && 2 <= lowValue && highValue <= n
    }

    /** The buffer agrees with the primes ks broadcast so far. */
    ghost predicate SievedBy(ks: seq<int>)
      reads marked
    {
      forall i :: 0 <= i < marked.Length ==> marked[i] == Sieved(lowValue + i, ks)
    }

    /** Partition setup (d3-2.c:41-43), the clearing loop (d3-2.c:59), and the cursor, which only
        the coordinator sets (d3-2.c:61). */
    constructor (id: int, p: int, n: int)
      requires 0 <= id < p && n >= 1
      ensures Valid() && this.id == id && this.p == p && this.n == n && (id == 0 ==> index == 0)
      ensures fresh(marked)
      ensures forall i :: 0 <= i < size ==> !marked[i]
    {
      WorkerRange(id, p, n);
      var lo, hi, sz := LowValue(id, p, n), HighValue(id, p, n), Size(id, p, n);
      this.id, this.p, this.n := id, p, n;
      lowValue, highValue, size := lo, hi, sz;
      marked := new bool[sz];
      if id == 0 {
        index := 0;
      }
      new;
      for i := 0 to sz
        invariant forall k :: 0 <= k < i ==> !marked[k]
        modifies marked
      {
        marked[i] := false;
      }
    }

    /** One marking stroke (d3-2.c:65-73): exactly the cells first, first + prime, ... below size
        are set, every other cell keeps its value, and no cell is cleared. */
    method Strike(prime: int)
      requires Valid() && prime >= 2
      modifies marked
      ensures forall i :: 0 <= i < size ==>
        marked[i] == (old(marked[i]) || OnStroke(i, FirstOffset(lowValue, prime), prime))
      ensures forall i :: 0 <= i < size ==> marked[i] == (old(marked[i]) || Hit(lowValue + i, prime))
    {
      var first := FirstOffset(lowValue, prime);
      var i := first;
      while i < size
        invariant OnStroke(i, first, prime)
        invariant forall k :: 0 <= k < size ==> marked[k] == (old(marked[k]) || (k < i && OnStroke(k, first, prime)))
      {
        marked[i] := true;
        forall k | i < k < i + prime
          ensures !OnStroke(k, first, prime)
        {
          StrideGap(first, prime, i, k);
        }
        MultipleMod(prime, 1);
        ModAdd(i - first, prime, prime);
        i := i + prime;
      }
      forall k | 0 <= k < size
        ensures OnStroke(k, first, prime) <==> Hit(lowValue + k, prime)
      {
        StrokeIsHit(lowValue, prime, k);
      }
    }

    /** The coordinator's scan `while (marked[++index]);` (d3-2.c:76-77): the cursor moves forward,
        every cell it passes is marked, it stops on an unmarked cell, and prime is that cell's value. */
    method Scan() returns (prime: int)
      requires Valid() && id == 0 && 0 <= index
      requires exists j :: index < j < size && !marked[j]
      modifies this
      ensures old(index) < index < size
      ensures forall j :: old(index) < j < index ==> marked[j]
      ensures !marked[index]
      ensures prime == index + 2 == lowValue + index
    {
      CoordinatorBlock(p, n);
      ghost var w :| index < w < size && !marked[w];
      index := index + 1;
      while marked[index]
        invariant old(index) < index <= w
        invariant forall j :: old(index) < j < index ==> marked[j]
        decreases w - index
      {
        index := index + 1;
      }
      prime := index + 2;
    }
  }

  /** The workers 0..p-1 of one run, each with its own buffer. */
  ghost predicate Cluster(ws: seq<Worker>, p: int, n: int) {
    && p >= 1 && n >= 1 && |ws| == p
    && (forall k :: 0 <= k < p ==> ws[k].Valid() && ws[k].id == k && ws[k].p == p && ws[k].n == n)
    && (forall a, b :: 0 <= a < b < p ==> ws[a].marked != ws[b].marked)
  }

  /** Start p workers over 2..n, each with a cleared buffer of its own. */
  method Spawn(p: int, n: int) returns (ws: seq<Worker>)
    requires p >= 1 && n >= 1
    ensures Cluster(ws, p, n) && ws[0].index == 0
    ensures forall k :: 0 <= k < p ==> fresh(ws[k]) && fresh(ws[k].marked)
    ensures forall k, i :: 0 <= k < p && 0 <= i < ws[k].marked.Length ==> !ws[k].marked[i]
  {
    ws := [];
    while |ws| < p
      invariant |ws| <= p
      invariant forall k :: 0 <= k < |ws| ==> ws[k].Valid() && ws[k].id == k && ws[k].p == p && ws[k].n == n
      invariant forall a, b :: 0 <= a < b < |ws| ==> ws[a].marked != ws[b].marked
      invariant forall k :: 0 <= k < |ws| ==> fresh(ws[k]) && fresh(ws[k].marked)
      invariant forall k, i :: 0 <= k < |ws| && 0 <= i < ws[k].marked.Length ==> !ws[k].marked[i]
      invariant |ws| > 0 ==> ws[0].index == 0
    {
      var w := new Worker(|ws|, p, n);
      ws := ws + [w];
    }
  }

  /** One worker's stroke for the broadcast prime takes its buffer from the primes ks to ks + [prime]. */
  method StrikeOne(w: Worker, prime: int, ghost ks: seq<int>)
    requires w.Valid() && prime >= 2 && w.SievedBy(ks)
    modifies w.marked
    ensures w.SievedBy(ks + [prime])
  {
    ghost var before := w.marked[..];
    w.Strike(prime);
    forall i | 0 <= i < w.marked.Length
      ensures w.marked[i] == Sieved(w.lowValue + i, ks + [prime])
    {
      assert before[i] == Sieved(w.lowValue + i, ks);
      SievedSnoc(w.lowValue + i, ks, prime);
    }
  }

  /** One marking round: every worker strikes the multiples of the broadcast prime (d3-2.c:65-73). */
  method StrikeAll(ws: seq<Worker>, p: int, n: int, prime: int, ghost ks: seq<int>)
    requires Cluster(ws, p, n) && prime >= 2
    requires forall k :: 0 <= k < p ==> ws[k].SievedBy(ks)
    modifies set k | 0 <= k < p :: ws[k].marked
    ensures forall k :: 0 <= k < p ==> ws[k].SievedBy(ks + [prime])
  {
    var k := 0;
    while k < p
      invariant 0 <= k <= p
      invariant forall k' :: 0 <= k' < k ==> ws[k'].SievedBy(ks + [prime])
      invariant forall k' :: k <= k' < p ==> ws[k'].SievedBy(ks)
    {
      StrikeOne(ws[k], prime, ks);
      k := k + 1;
    }
  }

  /** A round runs only while prime is 2 or prime * prime <= n, so it runs below any prime q with q * q > n, q >= 3. */
  lemma {:induction false} RoundBelowBound(prime: int, q: int, n: int)
    requires 2 <= prime && 3 <= q && q * q > n
    requires prime == 2 || prime * prime <= n
    ensures prime < q
  {
    if prime >= q {
      MulMono(q, prime, q);
      MulMono(q, prime, prime);
    }
  }

  /** What the coordinator's scan establishes, stated over the values of its buffer (its low value is 2):
      the cell it stops on holds the next prime, at most q, and every smaller prime has been broadcast. */
  lemma {:induction false} ScanOutcome(cells: seq<bool>, ks: seq<int>, prime: int, next: int, q: int)
    requires forall i :: 0 <= i < |cells| ==> cells[i] == Sieved(2 + i, ks)
    requires 2 <= prime < next && next - 2 < |cells|
    requires forall j :: prime - 2 < j < next - 2 ==> cells[j]
    requires !cells[next - 2]
    requires IsPrime(q) && prime < q && q - 2 < |cells|
    requires forall r :: 2 <= r <= prime && IsPrime(r) ==> r in ks
    ensures IsPrime(next) && next <= q
    ensures forall r :: 2 <= r < next && IsPrime(r) ==> r in ks
  {
    PrimeNeverSieved(q, ks);
    assert !cells[q - 2];
    if next > q {
      assert false;
    }
    forall v | prime < v < next
      ensures Sieved(v, ks)
    {
      assert cells[v - 2];
    }
    ScanFindsNextPrime(ks, prime, next);
  }

  /** Once the loop stops (prime * prime > n), every prime whose square is at most n has been broadcast. */
  lemma {:induction false} AllSievingPrimes(ks: seq<int>, prime: int, n: int)
    requires prime >= 2 && prime * prime > n
    requires forall r :: 2 <= r < prime && IsPrime(r) ==> r in ks
    ensures forall r :: 2 <= r && r * r <= n && IsPrime(r) ==> r in ks
  {
    forall r | 2 <= r && r * r <= n && IsPrime(r)
      ensures r in ks
    {
      if r >= prime {
        MulMono(prime, r, prime);
        MulMono(prime, r, r);
      }
    }
  }

  /** One pass of the do-while of d3-2.c:64-81: all workers strike the current prime, then the
      coordinator scans to the next unmarked cell, which holds the next prime, at most q. */
  method Round(ws: seq<Worker>, p: int, n: int, prime: int, ghost ks: seq<int>, ghost q: int)
    returns (next: int, ghost ks': seq<int>)
    requires Cluster(ws, p, n)
    requires ws[0].lowValue == 2 && 3 <= q && q - 2 < ws[0].size && IsPrime(q) && q * q > n
    requires 2 <= prime && IsPrime(prime) && (prime == 2 || prime * prime <= n)
    requires ws[0].index == prime - 2
    requires forall r :: 2 <= r < prime && IsPrime(r) ==> r in ks
    requires forall k :: 0 <= k < p ==> ws[k].SievedBy(ks)
    modifies (set k | 0 <= k < p :: ws[k].marked), ws[0]
    ensures ks' == ks + [prime]
    ensures prime < next <= q && IsPrime(next) && ws[0].index == next - 2
    ensures forall r :: prime < r < next ==> !IsPrime(r)
    ensures forall r :: 2 <= r < next && IsPrime(r) ==> r in ks'
    ensures forall k :: 0 <= k < p ==> ws[k].SievedBy(ks')
  {
    StrikeAll(ws, p, n, prime, ks);
    ks' := ks + [prime];
    RoundBelowBound(prime, q, n);
    PrimeNeverSieved(q, ks');
    assert ws[0].marked[q - 2] == Sieved(ws[0].lowValue + (q - 2), ks');
    assert ws[0].index < q - 2 < ws[0].size && !ws[0].marked[q - 2];
    next := ws[0].Scan();
    ghost var cells := ws[0].marked[..];
    assert forall i :: 0 <= i < |cells| ==> cells[i] == Sieved(2 + i, ks');
    assert forall j :: prime - 2 < j < next - 2 ==> cells[j];
    ScanOutcome(cells, ks', prime, next, q);
    forall r | prime < r < next
      ensures !IsPrime(r)
    {
      assert cells[r - 2];
      if IsPrime(r) {
        PrimeNeverSieved(r, ks');
      }
    }
  }

  /** The do-while of d3-2.c:64-82, the broadcast being the assignment of the coordinator's scan
      result to `prime` before the next round. When it ends every buffer holds the primality of
      its block: a cell is unmarked exactly when its value is prime. */
  method SieveRounds(ws: seq<Worker>, p: int, n: int) returns (ghost ks: seq<int>)
    requires Cluster(ws, p, n) && ScanFits(n, p)
    requires forall k, i :: 0 <= k < p && 0 <= i < ws[k].marked.Length ==> !ws[k].marked[i]
    requires ws[0].index == 0
    modifies (set k | 0 <= k < p :: ws[k].marked), ws[0]
    ensures forall k, i :: 0 <= k < p && 0 <= i < ws[k].size ==>
      ws[k].marked[i] == !IsPrime(ws[k].lowValue + i)
  {
    CoordinatorBlock(p, n);
    ghost var q :| 3 <= q <= HighValue(0, p, n) && IsPrime(q) && q * q > n;
    assert ws[0].lowValue == 2 && q - 2 < ws[0].size;
    var prime := 2;
    ks := [];
    var done := false;
    while !done
      invariant 2 <= prime <= q && IsPrime(prime)
      invariant forall r :: 2 <= r < prime && IsPrime(r) ==> r in ks
      invariant !done ==> prime == 2 || prime * prime <= n
      invariant done ==> prime * prime > n
      invariant ws[0].index == prime - 2
      invariant forall k :: 0 <= k < p ==> ws[k].SievedBy(ks)
      decreases q - prime + (if done then 0 else 1)
    {
      prime, ks := Round(ws, p, n, prime, ks, q);
      done := prime * prime > n;
    }
    AllSievingPrimes(ks, prime, n);
    forall k, i | 0 <= k < p && 0 <= i < ws[k].size
      ensures ws[k].marked[i] == !IsPrime(ws[k].lowValue + i)
    {
      SieveComplete(ws[k].lowValue + i, ks, n);
    }
  }

  /** The finished buffers as values: what the one-sided window exposes after the fence. */
  method Publish(ws: seq<Worker>) returns (views: seq<seq<bool>>)
    ensures |views| == |ws|
    ensures forall k :: 0 <= k < |ws| ==> views[k] == ws[k].marked[..]
  {
    views := [];
    for k := 0 to |ws|
      invariant |views| == k
      invariant forall k' :: 0 <= k' < k ==> views[k'] == ws[k'].marked[..]
    {
      views := views + [ws[k].marked[..]];
    }
  }
}
