/** Sexy pairs over the marking table of all items, and the finished buffers as the
    one-sided window publishes them. Item j of the table stands for the integer j + 2. */
module PairCount {
  import opened Primes
  import opened Partition

  /** Item a starts a pair: a and a + 6 are both items and both unmarked. */
  predicate IsPair(g: seq<bool>, a: int) {
    0 <= a && a + 6 < |g| && !g[a] && !g[a + 6]
  }

  /** Number of items a with lo <= a < hi that start a pair. */
  function Pairs(g: seq<bool>, lo: int, hi: int): nat
    decreases hi - lo
  {
    if hi <= lo then 0 else Pairs(g, lo, hi - 1) + (if IsPair(g, hi - 1) then 1 else 0)
  }

  /** Counting over adjacent ranges adds up. */
  lemma {:induction false} PairsSplit(g: seq<bool>, lo: int, mid: int, hi: int)
    requires lo <= mid <= hi
    ensures Pairs(g, lo, mid) + Pairs(g, mid, hi) == Pairs(g, lo, hi)
    decreases hi - mid
  {
    if hi > mid {
      PairsSplit(g, lo, mid, hi - 1);
    }
  }

  lemma {:induction false} PairsNone(g: seq<bool>, lo: int, hi: int)
    requires forall a :: lo <= a < hi ==> !IsPair(g, a)
    ensures Pairs(g, lo, hi) == 0
    decreases hi - lo
  {
    if hi > lo {
      PairsNone(g, lo, hi - 1);
    }
  }

  /** Counting the pairs of a..x-1 up to item j: one more item j adds j's pair exactly when a <= j < x. */
  lemma {:induction false} PairsUpTo(g: seq<bool>, a: int, x: int, j: int)
    ensures Pairs(g, a, Min(j + 1, x)) == Pairs(g, a, Min(j, x)) + (if a <= j < x && IsPair(g, j) then 1 else 0)
  {
    if j < x && j < a {
      PairsNone(g, a, j + 1);
      PairsNone(g, a, j);
    }
  }

  /** Counting pairs by their second member (items -6..m-7 shifted) gives the same total as by their first. */
  lemma {:induction false} PairsShift(g: seq<bool>)
    ensures Pairs(g, -6, |g| - 6) == Pairs(g, 0, |g|)
  {
    var m := |g|;
    if m >= 6 {
      PairsSplit(g, -6, 0, m - 6);
      PairsNone(g, -6, 0);
      PairsSplit(g, 0, m - 6, m);
      PairsNone(g, m - 6, m);
    } else {
      PairsNone(g, -6, m - 6);
      PairsNone(g, 0, m);
    }
  }

  /** The table the finished sieve leaves: item j is marked exactly when j + 2 is not prime. */
  ghost function Table(n: int): seq<bool>
    requires n >= 1
  {
    seq(n - 1, j => !IsPrime(j + 2))
  }

  lemma {:induction false} TablePairs(n: int, hi: int)
    requires n >= 1 && 0 <= hi <= n - 1
    ensures Pairs(Table(n), 0, hi) == SexyPairsBelow(n, hi + 2)
  {
    if hi > 0 {
      TablePairs(n, hi - 1);
      var a := hi - 1;
      if a + 6 < n - 1 {
        assert Table(n)[a] == !IsPrime(a + 2) && Table(n)[a + 6] == !IsPrime(a + 8);
      }
    }
  }

  /** Over the sieve's table, all pairs of items 0..n-2 are exactly the sexy prime pairs up to n. */
  lemma {:induction false} TableCount(n: int)
    requires n >= 1
    ensures Pairs(Table(n), 0, n - 1) == SexyCount(n)
  {
    TablePairs(n, n - 1);
  }

  /** A worker's buffer shows table g from item lo on: cell i holds item lo + i. */
  ghost predicate ShowsTable(marked: seq<bool>, g: seq<bool>, lo: int) {
    && 0 <= lo && lo + |marked| <= |g|
    && forall i :: 0 <= i < |marked| ==> marked[i] == g[lo + i]
  }

  /** The finished buffers agree with table g: cell i of worker k holds item BlockLow(k) + i. */
  ghost predicate Published(views: seq<seq<bool>>, g: seq<bool>, p: int, m: int) {
    && p >= 1 && m >= 0 && |views| == p && |g| == m
    && (forall k :: 0 <= k < p ==> |views[k]| == BlockSize(k, p, m))
    && (forall k, i :: 0 <= k < p && 0 <= i < |views[k]| ==>
          0 <= BlockLow(k, p, m) + i < m && views[k][i] == g[BlockLow(k, p, m) + i])
  }

  /** Each published buffer shows the table from the start of its block. */
  lemma {:induction false} PublishedShows(views: seq<seq<bool>>, g: seq<bool>, p: int, m: int, k: int)
    requires Published(views, g, p, m) && 0 <= k < p
    ensures |views[k]| == BlockSize(k, p, m) && ShowsTable(views[k], g, BlockLow(k, p, m))
  {
    BlocksTile(k, p, m);
    LowBounds(k, p, m);
  }
}
