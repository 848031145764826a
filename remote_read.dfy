/** The pair count of d3-2.c:90-119: pairs inside a block are counted from the worker's own buffer;
    a pair whose partner lies in a later block is resolved by reading the owning worker's cell
    through the one-sided window, and the counts are summed at worker 0. */
module RemoteRead {
  import opened Partition
  import opened PairCount

  /** The partner of a boundary item j is owned by a later worker, at an index inside that
      worker's buffer, and that cell holds the partner's mark (d3-2.c:102-106). */
  lemma {:induction false} RemoteTarget(views: seq<seq<bool>>, g: seq<bool>, id: int, p: int, m: int, j: int)
    requires Published(views, g, p, m) && 0 <= id < p
    requires BlockLow(id, p, m) <= j < BlockLow(id + 1, p, m) <= j + 6 < m
    ensures id < BlockOwner(j + 6, p, m) < p
    ensures 0 <= j + 6 - BlockLow(BlockOwner(j + 6, p, m), p, m) < |views[BlockOwner(j + 6, p, m)]|
    ensures views[BlockOwner(j + 6, p, m)][j + 6 - BlockLow(BlockOwner(j + 6, p, m), p, m)] == g[j + 6]
  {
    var t := BlockOwner(j + 6, p, m);
    OwnerInRange(j + 6, p, m);
    OwnerLowBelow(j + 6, p, m);
    OwnerNextAbove(j + 6, p, m);
    if t <= id {
      LowMono(t + 1, id + 1, p, m);
    }
    assert |views[t]| == BlockLow(t + 1, p, m) - BlockLow(t, p, m);
  }

  /** One step of the count (d3-2.c:95-112): the test the loop makes at cell i of worker id's buffer
      succeeds exactly when item low_value - 2 + i starts a pair. Inside the block it is the local
      test on cells i and i + 6; past the block, up to n, it is the local cell and the owner's cell
      at target_index, both in bounds; beyond n no pair starts there. */
  lemma {:induction false} CountStep(views: seq<seq<bool>>, g: seq<bool>, id: int, p: int, n: int, i: int)
    requires n >= 1 && 0 <= id < p && Published(views, g, p, n - 1) && 0 <= i < |views[id]|
    ensures LowValue(id, p, n) + i + 6 <= HighValue(id, p, n) ==>
      && i + 6 < |views[id]|
      && (IsPair(g, LowValue(id, p, n) - 2 + i) <==> !views[id][i] && !views[id][i + 6])
    ensures HighValue(id, p, n) < LowValue(id, p, n) + i + 6 <= n ==>
      var t := BlockOwner(LowValue(id, p, n) + i + 6 - 2, p, n - 1);
      var x := LowValue(id, p, n) + i + 6 - BlockLow(t, p, n - 1) - 2;
      && id < t < p && 0 <= x < |views[t]|
      && (IsPair(g, LowValue(id, p, n) - 2 + i) <==> !views[id][i] && !views[t][x])
    ensures n < LowValue(id, p, n) + i + 6 ==> !IsPair(g, LowValue(id, p, n) - 2 + i)
  {
    WorkerRange(id, p, n);
    BlocksTile(id, p, n - 1);
    var lo := BlockLow(id, p, n - 1);
    assert LowValue(id, p, n) == lo + 2 && HighValue(id, p, n) == lo + |views[id]| + 1;
    if HighValue(id, p, n) < LowValue(id, p, n) + i + 6 <= n {
      RemoteTarget(views, g, id, p, n - 1, lo + i);
    }
  }

  /** Worker id's count (d3-2.c:90-114): the pairs whose first member lies in its block.
      Every read, local or remote, is in bounds. */
  method CountRemoteRead(id: int, p: int, n: int, views: seq<seq<bool>>, ghost g: seq<bool>)
    returns (count: nat)
    requires n >= 1 && 0 <= id < p && Published(views, g, p, n - 1)
    ensures count == Pairs(g, BlockLow(id, p, n - 1), BlockLow(id + 1, p, n - 1))
  {
    WorkerRange(id, p, n);
    BlocksTile(id, p, n - 1);
    var marked := views[id];
    var lowValue, highValue, size := LowValue(id, p, n), HighValue(id, p, n), Size(id, p, n);
    ghost var lo := BlockLow(id, p, n - 1);
    assert lowValue == lo + 2 && size == |marked| && lo + size == BlockLow(id + 1, p, n - 1);
    assert forall i :: 0 <= i < size ==> 0 <= lo + i < n - 1 && marked[i] == g[lo + i];
    count := 0;
    for i := 0 to size
      invariant count == Pairs(g, lo, lo + i)
    {
      CountStep(views, g, id, p, n, i);
      var targetNumber := lowValue + i + 6;
      if targetNumber <= highValue {
        if !marked[i] && !marked[i + 6] {
          count := count + 1;
        }
      } else if targetNumber <= n {
        if !marked[i] {
          var targetProcess := BlockOwner(targetNumber - 2, p, n - 1);
          var targetIndex := targetNumber - BlockLow(targetProcess, p, n - 1) - 2;
          var targetMarked := views[targetProcess][targetIndex];
          if !targetMarked {
            count := count + 1;
          }
        }
      }
    }
  }

  /** MPI_Reduce of the per-worker counts (d3-2.c:119): the total is the number of pairs over all items,
      each counted once, by the owner of its first member. */
  method GlobalCountRemoteRead(p: int, n: int, views: seq<seq<bool>>, ghost g: seq<bool>)
    returns (globalCount: nat)
    requires n >= 1 && p >= 1 && Published(views, g, p, n - 1)
    ensures globalCount == Pairs(g, 0, n - 1)
  {
    globalCount := 0;
    LowBounds(0, p, n - 1);
    for id := 0 to p
      invariant globalCount == Pairs(g, 0, BlockLow(id, p, n - 1))
    {
      var count := CountRemoteRead(id, p, n, views, g);
      BlocksTile(id, p, n - 1);
      LowBounds(id, p, n - 1);
      PairsSplit(g, 0, BlockLow(id, p, n - 1), BlockLow(id + 1, p, n - 1));
      globalCount := globalCount + count;
    }
    LowBounds(p, p, n - 1);
  }
}
