/** The pair count of d3-1.c:83-115. Inside a block a worker counts from its own buffer; for a pair
    whose partner lies in a later block it sends one integer to the partner's owner: the partner's
    value when its own member is unmarked, 0 otherwise. The receiver counts the pair when that
    partner is unmarked in its buffer. Messages are received from any source, in any order. */
module MessagePassing {
  import opened Partition
  import opened PairCount

  /** One point-to-point message: destination worker and the integer sent. */
  datatype Message = Message(dest: int, value: int)

  function Max(a: int, b: int): int {
    if a < b then b else a
  }

  /** The number of integers in lo..hi-1, or 0 when the range is empty. */
  function Span(lo: int, hi: int): nat {
    if hi <= lo then 0 else hi - lo
  }

  /** Item j's partner j + 6 is an item owned by another worker, so j's owner sends a message for j. */
  predicate Crosses(p: int, m: int, j: int)
    requires p >= 1
  {
    0 <= j && j + 6 < m && BlockOwner(j + 6, p, m) != BlockOwner(j, p, m)
  }

  /** What is sent for item j (d3-1.c:103-110): the partner's value j + 8 when j is unmarked, else 0. */
  function SentValue(g: seq<bool>, j: int): (r: int)
    requires 0 <= j < |g|
    ensures r == 0 <==> g[j]
    ensures r != 0 ==> r == j + 8
  {
    if !g[j] then j + 8 else 0
  }

  /** MPI_Send for item j: the message its owner sends, addressed to the partner's owner. */
  function SendFor(g: seq<bool>, p: int, m: int, j: int): (msg: Message)
    requires p >= 1 && |g| == m && 0 <= j && j + 6 < m
    ensures 0 <= msg.dest < p
    ensures BlockLow(msg.dest, p, m) <= j + 6 < BlockLow(msg.dest + 1, p, m)
    ensures msg.value == 0 <==> g[j]
  {
    OwnerInRange(j + 6, p, m);
    OwnerLowBelow(j + 6, p, m);
    OwnerNextAbove(j + 6, p, m);
    Message(BlockOwner(j + 6, p, m), SentValue(g, j))
  }

  /** All messages sent for items lo..hi-1, in item order. */
  ghost function Sends(g: seq<bool>, p: int, m: int, lo: int, hi: int): seq<Message>
    requires p >= 1 && |g| == m && 0 <= lo
    decreases hi - lo
  {
    if hi <= lo then []
    else Sends(g, p, m, lo, hi - 1) + (if Crosses(p, m, hi - 1) then [SendFor(g, p, m, hi - 1)] else [])
  }

  /** The values among msgs addressed to worker q. */
  function Inbox(msgs: seq<Message>, q: int): multiset<int>
  {
    if msgs == [] then multiset{}
    else
      var last := msgs[|msgs| - 1];
      Inbox(msgs[..|msgs| - 1], q) + (if last.dest == q then multiset{last.value} else multiset{})
  }

  /** The receive condition of d3-1.c:87: worker id receives at cell i. */
  predicate ReceivesAt(id: int, lowValue: int, i: int): (r: bool)
    requires 0 <= i
    ensures r <==> id != 0 && Max(0, 8 - lowValue) <= i < 6
  {
    id != 0 && lowValue + i >= 6 + 2 && i < 6
  }

  /** The number of receives at cells 0..i-1. */
  function ReceivesBelow(id: int, lowValue: int, i: int): nat
    decreases i
  {
    if i <= 0 then 0 else ReceivesBelow(id, lowValue, i - 1) + (if ReceivesAt(id, lowValue, i - 1) then 1 else 0)
  }

  /** Counting the integers of a..x-1 up to j: one more j adds one exactly when a <= j < x. */
  lemma {:induction false} SpanUpTo(a: int, x: int, j: int)
    ensures Span(a, Min(j + 1, x)) == Span(a, Min(j, x)) + (if a <= j < x then 1 else 0)
  {
  }

  /** The number of MPI_Recv calls worker id makes. */
  function Receives(id: int, p: int, n: int): (r: nat)
    requires 0 <= id < p && 1 <= n
    ensures r == if id == 0 then 0 else Span(Max(0, 8 - LowValue(id, p, n)), Min(Size(id, p, n), 6))
  {
    WorkerRange(id, p, n);
    ReceivesSpan(id, LowValue(id, p, n), Size(id, p, n));
    ReceivesBelow(id, LowValue(id, p, n), Size(id, p, n))
  }

  /** Received values, with multiplicity, that the receiver counts: cell c of the buffer starting at
      lowValue, when unmarked, counts as many times as its value lowValue + c was received. */
  function Matched(bag: multiset<int>, marked: seq<bool>, lowValue: int, k: int): nat
    requires 0 <= k <= |marked|
  {
    if k == 0 then 0
    else Matched(bag, marked, lowValue, k - 1) + (if !marked[k - 1] then bag[lowValue + k - 1] else 0)
  }

  // ---------------------------------------------------------------- message algebra

  lemma {:induction false} InboxSnoc(msgs: seq<Message>, x: Message, q: int)
    ensures Inbox(msgs + [x], q) == Inbox(msgs, q) + (if x.dest == q then multiset{x.value} else multiset{})
  {
    assert (msgs + [x])[..|msgs + [x]| - 1] == msgs;
  }

  lemma {:induction false} InboxConcat(a: seq<Message>, b: seq<Message>, q: int)
    ensures Inbox(a + b, q) == Inbox(a, q) + Inbox(b, q)
    decreases |b|
  {
    if b == [] {
      assert a + b == a;
    } else {
      var b' := b[..|b| - 1];
      var x := b[|b| - 1];
      assert b == b' + [x];
      assert a + b == (a + b') + [x];
      InboxConcat(a, b', q);
      InboxSnoc(a + b', x, q);
      InboxSnoc(b', x, q);
    }
  }

  /** The messages of adjacent item ranges concatenate. */
  lemma {:induction false} SendsSplit(g: seq<bool>, p: int, m: int, lo: int, mid: int, hi: int)
    requires p >= 1 && |g| == m && 0 <= lo <= mid <= hi
    ensures Sends(g, p, m, lo, mid) + Sends(g, p, m, mid, hi) == Sends(g, p, m, lo, hi)
    decreases hi - mid
  {
    if hi > mid {
      SendsSplit(g, p, m, lo, mid, hi - 1);
    } else {
      assert Sends(g, p, m, mid, hi) == [];
    }
  }

  /** Every message goes to a valid worker id. */
  lemma {:induction false} SendsDestinations(g: seq<bool>, p: int, m: int, lo: int, hi: int)
    requires p >= 1 && |g| == m && 0 <= lo
    ensures forall t :: 0 <= t < |Sends(g, p, m, lo, hi)| ==> 0 <= Sends(g, p, m, lo, hi)[t].dest < p
    decreases hi - lo
  {
    if hi > lo {
      SendsDestinations(g, p, m, lo, hi - 1);
      if Crosses(p, m, hi - 1) {
        OwnerInRange(hi - 1 + 6, p, m);
      }
    }
  }

  // ---------------------------------------------------------------- who sends to whom

  /** The send rule of d3-1.c:96-101: for an item j of block id, a message is sent for j exactly when
      the partner j + 6 is an item past the end of the block. */
  lemma {:induction false} SendRule(id: int, p: int, m: int, j: int)
    requires 0 <= id < p && 0 <= m && BlockLow(id, p, m) <= j < BlockLow(id + 1, p, m)
    ensures Crosses(p, m, j) <==> BlockLow(id + 1, p, m) <= j + 6 < m
  {
    BlocksTile(id, p, m);
    OwnerInverse(j, id, p, m);
    if j + 6 < m {
      OwnerInverse(j + 6, id, p, m);
    }
  }

  /** The send rule for the items lo..hi-1: an item sends a message exactly when its partner is an item
      past hi - 1. The quantifier fires only on Crosses terms. */
  ghost predicate SendsPast(p: int, m: int, lo: int, hi: int)
    requires p >= 1
  {
    forall j {:trigger Crosses(p, m, j)} :: lo <= j < hi ==> (Crosses(p, m, j) <==> hi <= j + 6 < m)
  }

  /** Every block obeys the send rule. */
  lemma {:induction false} BlockSendsPast(id: int, p: int, m: int)
    requires 0 <= id < p && 0 <= m
    ensures SendsPast(p, m, BlockLow(id, p, m), BlockLow(id + 1, p, m))
  {
    forall j | BlockLow(id, p, m) <= j < BlockLow(id + 1, p, m)
      ensures Crosses(p, m, j) <==> BlockLow(id + 1, p, m) <= j + 6 < m
    {
      SendRule(id, p, m, j);
    }
  }

  /** The messages of the items lo..hi-1 grow, item by item, as the send rule says: item j adds the
      message of d3-1.c:101-110 when its partner is past hi - 1, and nothing otherwise. */
  lemma {:induction false} SendStep(g: seq<bool>, p: int, m: int, lo: int, hi: int, j: int)
    requires p >= 1 && |g| == m && 0 <= lo <= j < hi && SendsPast(p, m, lo, hi)
    ensures Sends(g, p, m, lo, j + 1)
         == Sends(g, p, m, lo, j)
            + (if hi <= j + 6 < m then [Message(BlockOwner(j + 6, p, m), if !g[j] then j + 8 else 0)] else [])
  {
    assert Crosses(p, m, j) <==> hi <= j + 6 < m;
  }

  /** An item j before block q sends to q exactly when its partner lies in block q. */
  lemma {:induction false} AddressedTo(p: int, m: int, q: int, j: int)
    requires 0 <= q < p && 0 <= m && 0 <= j < BlockLow(q, p, m)
    ensures (Crosses(p, m, j) && BlockOwner(j + 6, p, m) == q) <==> BlockLow(q, p, m) <= j + 6 < BlockLow(q + 1, p, m)
  {
    BlocksTile(q, p, m);
    OwnerInverse(j, q, p, m);
    if j + 6 < m {
      OwnerInverse(j + 6, q, p, m);
    }
  }

  /** An item at or after the start of block q never sends to q: its partner's owner comes after its own. */
  lemma {:induction false} NotAddressedBack(p: int, m: int, q: int, j: int)
    requires 0 <= q < p && 0 <= m && BlockLow(q, p, m) <= j && Crosses(p, m, j)
    ensures BlockOwner(j + 6, p, m) != q
  {
    var t := BlockOwner(j, p, m);
    var u := BlockOwner(j + 6, p, m);
    OwnerInRange(j, p, m);
    OwnerLowBelow(j, p, m);
    OwnerNextAbove(j, p, m);
    OwnerInRange(j + 6, p, m);
    OwnerLowBelow(j + 6, p, m);
    OwnerNextAbove(j + 6, p, m);
    if t < q {
      LowMono(t + 1, q, p, m);
    }
    if u < t {
      LowMono(u + 1, t, p, m);
    }
  }

  /** No message to worker q comes from its own block or a later one, so the workers' mail can be
      delivered in id order. */
  lemma {:induction false} NoLateMail(g: seq<bool>, p: int, m: int, q: int, lo: int, hi: int)
    requires 0 <= q < p && |g| == m && BlockLow(q, p, m) <= lo
    ensures Inbox(Sends(g, p, m, lo, hi), q) == multiset{}
    decreases hi - lo
  {
    LowBounds(q, p, m);
    if hi > lo {
      var j := hi - 1;
      NoLateMail(g, p, m, q, lo, j);
      var before := Sends(g, p, m, lo, j);
      if Crosses(p, m, j) {
        NotAddressedBack(p, m, q, j);
        assert Sends(g, p, m, lo, hi) == before + [SendFor(g, p, m, j)];
        InboxSnoc(before, SendFor(g, p, m, j), q);
      } else {
        assert Sends(g, p, m, lo, hi) == before;
      }
    }
  }

  // ---------------------------------------------------------------- counting received values

  lemma {:induction false} MatchedEmpty(marked: seq<bool>, lowValue: int, k: int)
    requires 0 <= k <= |marked|
    ensures Matched(multiset{}, marked, lowValue, k) == 0
  {
    if k > 0 {
      MatchedEmpty(marked, lowValue, k - 1);
    }
  }

  /** A bag with a positive size holds some value: an MPI_Recv that is due always finds a message. */
  lemma {:induction false} NonEmptyHolds(bag: multiset<int>)
    requires |bag| > 0
    ensures exists r :: r in bag
  {
    if forall r :: r !in bag {
      assert false;
    }
  }

  /** Taking one value r out of the bag lowers the count by one exactly when r names an unmarked cell. */
  lemma {:induction false} MatchedRemove(bag: multiset<int>, marked: seq<bool>, lowValue: int, k: int, r: int)
    requires 0 <= k <= |marked| && r in bag
    ensures Matched(bag, marked, lowValue, k)
         == Matched(bag - multiset{r}, marked, lowValue, k)
            + (if lowValue <= r < lowValue + k && !marked[r - lowValue] then 1 else 0)
  {
    if k > 0 {
      MatchedRemove(bag, marked, lowValue, k - 1, r);
    }
  }

  /** Adding one value v to the bag raises the count by one exactly when v names an unmarked cell. */
  lemma {:induction false} MatchedAdd(bag: multiset<int>, marked: seq<bool>, lowValue: int, v: int)
    ensures Matched(bag + multiset{v}, marked, lowValue, |marked|)
         == Matched(bag, marked, lowValue, |marked|)
            + (if lowValue <= v < lowValue + |marked| && !marked[v - lowValue] then 1 else 0)
  {
    MatchedRemove(bag + multiset{v}, marked, lowValue, |marked|, v);
    assert (bag + multiset{v}) - multiset{v} == bag;
  }

  /** The count a worker's receives add up to when its mail arrives in the order `arrivals`: one for each
      non-zero value that names an unmarked cell of its buffer (d3-1.c:89-93). */
  function ArrivalCount(arrivals: seq<int>, marked: seq<bool>, lowValue: int): nat
  {
    if arrivals == [] then 0
    else
      var r := arrivals[|arrivals| - 1];
      ArrivalCount(arrivals[..|arrivals| - 1], marked, lowValue)
        + (if r != 0 && lowValue <= r < lowValue + |marked| && !marked[r - lowValue] then 1 else 0)
  }

  /** Received in any order, the values add up to the count of their bag. */
  lemma {:induction false} ArrivalCountIsMatched(arrivals: seq<int>, marked: seq<bool>, lowValue: int)
    requires lowValue >= 1
    ensures ArrivalCount(arrivals, marked, lowValue) == Matched(multiset(arrivals), marked, lowValue, |marked|)
    decreases |arrivals|
  {
    if arrivals == [] {
      MatchedEmpty(marked, lowValue, |marked|);
    } else {
      var front := arrivals[..|arrivals| - 1];
      var r := arrivals[|arrivals| - 1];
      assert arrivals == front + [r];
      assert multiset(arrivals) == multiset(front) + multiset{r};
      ArrivalCountIsMatched(front, marked, lowValue);
      MatchedAdd(multiset(front), marked, lowValue, r);
    }
  }

  /** MPI_ANY_SOURCE: two arrival orders of the same mail give the same count. */
  lemma {:induction false} ArrivalOrderIrrelevant(first: seq<int>, second: seq<int>, marked: seq<bool>, lowValue: int)
    requires lowValue >= 1 && multiset(first) == multiset(second)
    ensures ArrivalCount(first, marked, lowValue) == ArrivalCount(second, marked, lowValue)
  {
    ArrivalCountIsMatched(first, marked, lowValue);
    ArrivalCountIsMatched(second, marked, lowValue);
  }

  /** The addressing rule for the mail of a block lo..b-1 of q: an item before lo sends to q exactly when
      its partner lies in lo..b-1. The quantifier fires only on Crosses terms. */
  ghost predicate MailRule(p: int, m: int, q: int, lo: int, b: int)
    requires p >= 1
  {
    forall j {:trigger Crosses(p, m, j)} :: 0 <= j < lo ==>
      ((Crosses(p, m, j) && BlockOwner(j + 6, p, m) == q) <==> lo <= j + 6 < b)
  }

  /** Every block obeys the addressing rule. */
  lemma {:induction false} BlockMailRule(p: int, m: int, q: int)
    requires 0 <= q < p && 0 <= m
    ensures MailRule(p, m, q, BlockLow(q, p, m), BlockLow(q + 1, p, m))
  {
    forall j | 0 <= j < BlockLow(q, p, m)
      ensures (Crosses(p, m, j) && BlockOwner(j + 6, p, m) == q) <==> BlockLow(q, p, m) <= j + 6 < BlockLow(q + 1, p, m)
    {
      AddressedTo(p, m, q, j);
    }
  }

  /** The value sent for item j, when j's partner lies in the buffer of lo..b-1, is counted there
      exactly when j starts a pair. */
  lemma {:induction false} SentValueMatches(g: seq<bool>, j: int, lo: int, b: int, marked: seq<bool>, bag: multiset<int>)
    requires 0 <= j && lo <= j + 6 < b && |marked| == b - lo && ShowsTable(marked, g, lo)
    ensures Matched(bag + multiset{SentValue(g, j)}, marked, lo + 2, |marked|)
         == Matched(bag, marked, lo + 2, |marked|) + (if IsPair(g, j) then 1 else 0)
  {
    MatchedAdd(bag, marked, lo + 2, SentValue(g, j));
    if !g[j] {
      assert marked[j + 6 - lo] == g[j + 6];
    }
  }

  /** One more item j before lo adds the value sent for j to q's mail exactly when j's partner lies in lo..b-1. */
  lemma {:induction false} InboxStep(g: seq<bool>, p: int, m: int, q: int, lo: int, b: int, j: int)
    requires p >= 1 && |g| == m && 0 <= j < lo <= b <= m && MailRule(p, m, q, lo, b)
    ensures Inbox(Sends(g, p, m, 0, j + 1), q)
         == Inbox(Sends(g, p, m, 0, j), q) + (if lo - 6 <= j < b - 6 then multiset{SentValue(g, j)} else multiset{})
  {
    var before := Sends(g, p, m, 0, j);
    if Crosses(p, m, j) {
      assert Sends(g, p, m, 0, j + 1) == before + [SendFor(g, p, m, j)];
      InboxSnoc(before, SendFor(g, p, m, j), q);
    } else {
      assert Sends(g, p, m, 0, j + 1) == before;
    }
  }

  /** Worker q gets one message for each item j < hi whose partner lies in lo..b-1. */
  lemma {:induction false} MailSize(g: seq<bool>, p: int, m: int, q: int, lo: int, b: int, hi: int)
    requires p >= 1 && |g| == m && 0 <= hi <= lo <= b <= m && MailRule(p, m, q, lo, b)
    ensures |Inbox(Sends(g, p, m, 0, hi), q)| == Span(Max(0, lo - 6), Min(hi, b - 6))
  {
    if hi == 0 {
      assert Sends(g, p, m, 0, hi) == [];
    } else {
      var j := hi - 1;
      MailSize(g, p, m, q, lo, b, j);
      InboxStep(g, p, m, q, lo, b, j);
      SpanUpTo(Max(0, lo - 6), b - 6, j);
      assert Max(0, lo - 6) <= j <==> lo - 6 <= j;
    }
  }

  /** Every non-zero value in q's mail names one of the integers lo + 2..b + 1. */
  lemma {:induction false} MailRange(g: seq<bool>, p: int, m: int, q: int, lo: int, b: int, hi: int)
    requires p >= 1 && |g| == m && 0 <= hi <= lo <= b <= m && MailRule(p, m, q, lo, b)
    ensures forall r :: r in Inbox(Sends(g, p, m, 0, hi), q) ==> r == 0 || lo + 2 <= r < b + 2
  {
    if hi == 0 {
      assert Sends(g, p, m, 0, hi) == [];
    } else {
      var j := hi - 1;
      var before, after := Inbox(Sends(g, p, m, 0, j), q), Inbox(Sends(g, p, m, 0, hi), q);
      MailRange(g, p, m, q, lo, b, j);
      InboxStep(g, p, m, q, lo, b, j);
      if lo - 6 <= j < b - 6 {
        assert after == before + multiset{SentValue(g, j)};
        assert SentValue(g, j) == 0 || lo + 2 <= SentValue(g, j) < b + 2;
      } else {
        assert after == before;
      }
    }
  }

  /** q counts, from the mail of items 0..hi-1 (all before lo), exactly the pairs whose first member
      lies in 0..hi-1 and whose second member lies in lo..b-1. */
  lemma {:induction false} MailCount(g: seq<bool>, p: int, m: int, q: int, lo: int, b: int, hi: int, marked: seq<bool>)
    requires p >= 1 && |g| == m && 0 <= hi <= lo <= b <= m && MailRule(p, m, q, lo, b)
    requires |marked| == b - lo && ShowsTable(marked, g, lo)
    ensures Matched(Inbox(Sends(g, p, m, 0, hi), q), marked, lo + 2, |marked|) == Pairs(g, lo - 6, Min(hi, b - 6))
  {
    if hi == 0 {
      assert Sends(g, p, m, 0, hi) == [];
      PairsNone(g, lo - 6, Min(hi, b - 6));
      MatchedEmpty(marked, lo + 2, |marked|);
    } else {
      var j := hi - 1;
      var before, after := Inbox(Sends(g, p, m, 0, j), q), Inbox(Sends(g, p, m, 0, hi), q);
      MailCount(g, p, m, q, lo, b, j, marked);
      InboxStep(g, p, m, q, lo, b, j);
      PairsUpTo(g, lo - 6, b - 6, j);
      if lo - 6 <= j < b - 6 {
        assert after == before + multiset{SentValue(g, j)};
        SentValueMatches(g, j, lo, b, marked, before);
      } else {
        assert after == before;
      }
    }
  }

  /** Mail for worker q from the items 0..hi-1 before its block: how many values, what they are,
      and how many of them q counts, namely the pairs whose first member lies before q's block and
      whose second member lies in it. */
  lemma {:induction false} MailFromBelow(g: seq<bool>, p: int, m: int, q: int, hi: int, marked: seq<bool>)
    requires 0 <= q < p && |g| == m && 0 <= hi <= BlockLow(q, p, m)
    requires |marked| == BlockSize(q, p, m) && ShowsTable(marked, g, BlockLow(q, p, m))
    ensures |Inbox(Sends(g, p, m, 0, hi), q)|
         == Span(Max(0, BlockLow(q, p, m) - 6), Min(hi, BlockLow(q + 1, p, m) - 6))
    ensures forall r :: r in Inbox(Sends(g, p, m, 0, hi), q) ==>
         r == 0 || BlockLow(q, p, m) + 2 <= r < BlockLow(q + 1, p, m) + 2
    ensures Matched(Inbox(Sends(g, p, m, 0, hi), q), marked, BlockLow(q, p, m) + 2, |marked|)
         == Pairs(g, BlockLow(q, p, m) - 6, Min(hi, BlockLow(q + 1, p, m) - 6))
  {
    var lo, b := BlockLow(q, p, m), BlockLow(q + 1, p, m);
    BlocksTile(q, p, m);
    BlockMailRule(p, m, q);
    MailSize(g, p, m, q, lo, b, hi);
    MailRange(g, p, m, q, lo, b, hi);
    MailCount(g, p, m, q, lo, b, hi, marked);
  }

  lemma {:induction false} ReceivesSpan(id: int, lowValue: int, i: int)
    requires i >= 0
    ensures ReceivesBelow(id, lowValue, i) == if id == 0 then 0 else Span(Max(0, 8 - lowValue), Min(i, 6))
  {
    if i > 0 {
      ReceivesSpan(id, lowValue, i - 1);
    }
  }

  lemma {:induction false} ReceivesMono(id: int, lowValue: int, i: int, k: int)
    requires 0 <= i <= k
    ensures ReceivesBelow(id, lowValue, i) <= ReceivesBelow(id, lowValue, k)
    decreases k - i
  {
    if i < k {
      ReceivesMono(id, lowValue, i, k - 1);
    }
  }

  /** Worker q is sent exactly as many messages by the workers before it as it receives, so every
      MPI_Recv is matched and no message is left over. This holds for any block sizes. */
  lemma {:induction false} MailComplete(g: seq<bool>, p: int, n: int, q: int)
    requires n >= 1 && 0 <= q < p && |g| == n - 1
    ensures |Inbox(Sends(g, p, n - 1, 0, BlockLow(q, p, n - 1)), q)| == Receives(q, p, n)
  {
    var m := n - 1;
    var lo, b := BlockLow(q, p, m), BlockLow(q + 1, p, m);
    LowBounds(q, p, m);
    BlocksTile(q, p, m);
    BlockMailRule(p, m, q);
    MailSize(g, p, m, q, lo, b, lo);
    ReceivesSpan(q, LowValue(q, p, n), Size(q, p, n));
  }

  /** Over the whole run, worker q gets exactly as many messages as it receives. */
  lemma {:induction false} Balance(g: seq<bool>, p: int, n: int, q: int)
    requires n >= 1 && 0 <= q < p && |g| == n - 1
    ensures |Inbox(Sends(g, p, n - 1, 0, n - 1), q)| == Receives(q, p, n)
  {
    MailComplete(g, p, n, q);
    var m := n - 1;
    LowBounds(q, p, m);
    SendsSplit(g, p, m, 0, BlockLow(q, p, m), m);
    InboxConcat(Sends(g, p, m, 0, BlockLow(q, p, m)), Sends(g, p, m, BlockLow(q, p, m), m), q);
    NoLateMail(g, p, m, q, BlockLow(q, p, m), m);
  }

  // ---------------------------------------------------------------- the workers

  /** Cell i of a buffer showing the table from lo adds a local pair exactly when its partner is in the buffer
      and both are unmarked. */
  lemma {:induction false} LocalStep(g: seq<bool>, marked: seq<bool>, lo: int, i: int)
    requires ShowsTable(marked, g, lo) && 0 <= lo && 0 <= i < |marked|
    ensures Pairs(g, lo, lo + Min(i + 1, |marked| - 6))
         == Pairs(g, lo, lo + Min(i, |marked| - 6)) + (if i + 6 < |marked| && !marked[i] && !marked[i + 6] then 1 else 0)
  {
    if i + 6 < |marked| {
      assert marked[i] == g[lo + i] && marked[i + 6] == g[lo + i + 6];
    }
  }

  /** MPI_Recv from any source and its test (d3-1.c:88-93): some value still in the bag arrives, and it
      counts when it is non-zero and names an unmarked cell of the buffer. */
  method Receive(bag: multiset<int>, marked: seq<bool>, lowValue: int) returns (rest: multiset<int>, hit: nat)
    requires |bag| > 0 && lowValue >= 1
    requires forall r :: r in bag ==> r == 0 || lowValue <= r < lowValue + |marked|
    ensures |rest| == |bag| - 1
    ensures forall r :: r in rest ==> r == 0 || lowValue <= r < lowValue + |marked|
    ensures exists r :: r in bag && rest == bag - multiset{r}
                     && hit == (if r != 0 && lowValue <= r < lowValue + |marked| && !marked[r - lowValue] then 1 else 0)
    ensures hit + Matched(rest, marked, lowValue, |marked|) == Matched(bag, marked, lowValue, |marked|)
  {
    NonEmptyHolds(bag);
    var receivedNumber :| receivedNumber in bag;
    MatchedRemove(bag, marked, lowValue, |marked|, receivedNumber);
    rest := bag - multiset{receivedNumber};
    hit := 0;
    if receivedNumber != 0 && !marked[receivedNumber - lowValue] {
      hit := 1;
    }
  }

  /** The partner test for cell i of the block lowValue..highValue (d3-1.c:96-111). A partner inside the
      block is looked up locally: `pair` is one exactly when cell i starts a pair lying inside the block.
      A partner past high_value, up to n, gets one message addressed to its owner, carrying its value
      when cell i is unmarked and 0 otherwise: `sent` is exactly the messages the send rule gives item i. */
  method CheckPartner(p: int, n: int, lowValue: int, highValue: int, marked: seq<bool>, i: int, ghost g: seq<bool>)
    returns (pair: nat, sent: seq<Message>)
    requires p >= 1 && |g| == n - 1 && 2 <= lowValue && |marked| == highValue - lowValue + 1 && 0 <= i < |marked|
    requires ShowsTable(marked, g, lowValue - 2) && SendsPast(p, n - 1, lowValue - 2, highValue - 1)
    ensures Pairs(g, lowValue - 2, lowValue - 2 + Min(i + 1, |marked| - 6))
         == Pairs(g, lowValue - 2, lowValue - 2 + Min(i, |marked| - 6)) + pair
    ensures Sends(g, p, n - 1, lowValue - 2, lowValue - 2 + i + 1)
         == Sends(g, p, n - 1, lowValue - 2, lowValue - 2 + i) + sent
  {
    LocalStep(g, marked, lowValue - 2, i);
    SendStep(g, p, n - 1, lowValue - 2, highValue - 1, lowValue - 2 + i);
    assert marked[i] == g[lowValue - 2 + i];
    pair, sent := 0, [];
    var targetNumber := lowValue + i + 6;
    if targetNumber <= highValue {
      if !marked[i] && !marked[i + 6] {
        pair := 1;
      }
    } else if targetNumber <= n {
      var targetProcess := BlockOwner(targetNumber - 2, p, n - 1);
      if !marked[i] {
        sent := [Message(targetProcess, targetNumber)];
      } else {
        sent := [Message(targetProcess, 0)];
      }
    }
  }

  /** The receive part of d3-1.c:87-94 at cell i: worker id receives here exactly when ReceivesAt says so,
      taking one value out of its bag; the bag then holds what the remaining receives take. */
  method ReceiveStep(id: int, lowValue: int, i: int, bag: multiset<int>, marked: seq<bool>)
    returns (rest: multiset<int>, hit: nat)
    requires 1 <= lowValue && 0 <= i < |marked|
    requires forall r :: r in bag ==> r == 0 || lowValue <= r < lowValue + |marked|
    requires |bag| + ReceivesBelow(id, lowValue, i) == ReceivesBelow(id, lowValue, |marked|)
    ensures forall r :: r in rest ==> r == 0 || lowValue <= r < lowValue + |marked|
    ensures |rest| + ReceivesBelow(id, lowValue, i + 1) == ReceivesBelow(id, lowValue, |marked|)
    ensures hit + Matched(rest, marked, lowValue, |marked|) == Matched(bag, marked, lowValue, |marked|)
  {
    rest, hit := bag, 0;
    if id != 0 && lowValue + i >= 6 + 2 && i < 6 {
      ReceivesMono(id, lowValue, i + 1, |marked|);
      assert ReceivesBelow(id, lowValue, i + 1) == ReceivesBelow(id, lowValue, i) + 1;
      rest, hit := Receive(bag, marked, lowValue);
    }
  }

  /** Worker id's counting loop (d3-1.c:83-112) over its block lowValue..highValue, with its mail given
      as a bag: each MPI_Recv with MPI_ANY_SOURCE takes an arbitrary value still in the bag. The messages
      it sends are those the send rule gives for its items, and its count is the pairs lying inside its
      block plus the received values that name an unmarked cell, whatever the arrival order. */
  method CountMessagePassing(id: int, p: int, n: int, lowValue: int, highValue: int, marked: seq<bool>,
                             inbox: multiset<int>, ghost g: seq<bool>)
    returns (count: nat, outbox: seq<Message>)
    requires p >= 1 && |g| == n - 1 && 2 <= lowValue && highValue <= n
    requires |marked| == highValue - lowValue + 1
    requires ShowsTable(marked, g, lowValue - 2) && SendsPast(p, n - 1, lowValue - 2, highValue - 1)
    requires |inbox| == ReceivesBelow(id, lowValue, |marked|)
    requires forall r :: r in inbox ==> r == 0 || lowValue <= r <= highValue
    ensures outbox == Sends(g, p, n - 1, lowValue - 2, highValue - 1)
    ensures count == Pairs(g, lowValue - 2, highValue - 7) + Matched(inbox, marked, lowValue, |marked|)
  {
    var bag := inbox;
    count := 0;
    outbox := [];
    for i := 0 to |marked|
      invariant forall r :: r in bag ==> r == 0 || lowValue <= r < lowValue + |marked|
      invariant |bag| + ReceivesBelow(id, lowValue, i) == ReceivesBelow(id, lowValue, |marked|)
      invariant count + Matched(bag, marked, lowValue, |marked|)
             == Pairs(g, lowValue - 2, lowValue - 2 + Min(i, |marked| - 6)) + Matched(inbox, marked, lowValue, |marked|)
      invariant outbox == Sends(g, p, n - 1, lowValue - 2, lowValue - 2 + i)
    {
      var hit;
      bag, hit := ReceiveStep(id, lowValue, i, bag, marked);
      var pair, sent := CheckPartner(p, n, lowValue, highValue, marked, i, g);
      count := count + hit + pair;
      outbox := outbox + sent;
    }
    assert bag == multiset{};
    MatchedEmpty(marked, lowValue, |marked|);
    assert Min(|marked|, |marked| - 6) == |marked| - 6;
  }

  /** Delivery of a worker's sends: each message joins its destination's mailbox. */
  method Post(mail: seq<multiset<int>>, out: seq<Message>) returns (delivered: seq<multiset<int>>)
    requires forall t :: 0 <= t < |out| ==> 0 <= out[t].dest < |mail|
    ensures |delivered| == |mail|
    ensures forall q :: 0 <= q < |mail| ==> delivered[q] == mail[q] + Inbox(out, q)
  {
    delivered := mail;
    for t := 0 to |out|
      invariant |delivered| == |mail|
      invariant forall q :: 0 <= q < |mail| ==> delivered[q] == mail[q] + Inbox(out[..t], q)
    {
      var msg := out[t];
      assert out[..t + 1] == out[..t] + [msg];
      forall q | 0 <= q < |mail|
        ensures Inbox(out[..t + 1], q) == Inbox(out[..t], q) + (if msg.dest == q then multiset{msg.value} else multiset{})
      {
        InboxSnoc(out[..t], msg, q);
      }
      delivered := delivered[msg.dest := delivered[msg.dest] + multiset{msg.value}];
    }
    assert out[..|out|] == out;
  }

  /** Worker id's share: its own pairs plus those it completes from its mail extend the pairs counted by
      workers 0..id-1 (those whose second member lies before block id) to the pairs whose second member
      lies before block id + 1. */
  lemma {:induction false} CountsCombine(g: seq<bool>, lo: int, hi: int)
    requires 0 <= lo <= hi
    ensures Pairs(g, -6, lo - 6) + Pairs(g, lo, hi - 6) + Pairs(g, lo - 6, Min(lo, hi - 6)) == Pairs(g, -6, hi - 6)
  {
    if hi - 6 >= lo {
      PairsSplit(g, lo - 6, lo, hi - 6);
    }
    PairsSplit(g, -6, lo - 6, hi - 6);
  }

  /** CountsCombine for the bounds of block id. */
  lemma {:induction false} BlockCountsCombine(g: seq<bool>, p: int, m: int, id: int)
    requires 0 <= id < p && 0 <= m
    ensures Pairs(g, -6, BlockLow(id, p, m) - 6)
            + (Pairs(g, BlockLow(id, p, m), BlockLow(id + 1, p, m) - 6)
               + Pairs(g, BlockLow(id, p, m) - 6, Min(BlockLow(id, p, m), BlockLow(id + 1, p, m) - 6)))
         == Pairs(g, -6, BlockLow(id + 1, p, m) - 6)
  {
    LowMono(id, id + 1, p, m);
    LowBounds(id, p, m);
    CountsCombine(g, BlockLow(id, p, m), BlockLow(id + 1, p, m));
  }

  /** Worker id's block lo..b-1 as low_value..high_value: its bounds, its buffer's length and its send rule. */
  lemma {:induction false} TurnBlock(id: int, p: int, n: int, lo: int, b: int, marked: seq<bool>, g: seq<bool>)
    requires n >= 1 && 0 <= id < p && |g| == n - 1
    requires lo == BlockLow(id, p, n - 1) && b == BlockLow(id + 1, p, n - 1)
    requires |marked| == BlockSize(id, p, n - 1)
    ensures LowValue(id, p, n) == lo + 2 && HighValue(id, p, n) == b + 1
    ensures 0 <= lo <= b <= n - 1 && |marked| == b - lo
    ensures SendsPast(p, n - 1, lo, b)
  {
    BlocksTile(id, p, n - 1);
    WorkerRange(id, p, n);
    BlockSendsPast(id, p, n - 1);
  }

  /** The mail worker id finds when its turn comes: as many values as it receives, each naming one of
      its integers lo + 2..b + 1 or 0, and worth exactly the pairs whose first member lies before its
      block and whose second member lies in it. */
  lemma {:induction false} TurnMail(id: int, p: int, n: int, lo: int, b: int, marked: seq<bool>, inbox: multiset<int>, g: seq<bool>)
    requires n >= 1 && 0 <= id < p && |g| == n - 1
    requires lo == BlockLow(id, p, n - 1) && b == BlockLow(id + 1, p, n - 1)
    requires |marked| == BlockSize(id, p, n - 1) && ShowsTable(marked, g, lo)
    requires inbox == Inbox(Sends(g, p, n - 1, 0, lo), id)
    ensures |inbox| == ReceivesBelow(id, lo + 2, b - lo)
    ensures forall r :: r in inbox ==> r == 0 || lo + 2 <= r <= b + 1
    ensures Matched(inbox, marked, lo + 2, b - lo) == Pairs(g, lo - 6, Min(lo, b - 6))
  {
    BlocksTile(id, p, n - 1);
    MailComplete(g, p, n, id);
    MailFromBelow(g, p, n - 1, id, lo, marked);
  }

  /** Delivering the sends of items lo..hi-1 to mail that held everything sent for items 0..lo-1 leaves
      every later worker's mail holding everything sent for items 0..hi-1. */
  lemma {:induction false} TurnDelivery(g: seq<bool>, p: int, m: int, id: int, lo: int, hi: int,
                     mail: seq<multiset<int>>, out: seq<Message>, delivered: seq<multiset<int>>)
    requires p >= 1 && |g| == m && 0 <= id && 0 <= lo <= hi && |mail| == p && |delivered| == p
    requires forall q :: id <= q < p ==> mail[q] == Inbox(Sends(g, p, m, 0, lo), q)
    requires out == Sends(g, p, m, lo, hi)
    requires forall q :: 0 <= q < p ==> delivered[q] == mail[q] + Inbox(out, q)
    ensures forall q :: id + 1 <= q < p ==> delivered[q] == Inbox(Sends(g, p, m, 0, hi), q)
  {
    SendsSplit(g, p, m, 0, lo, hi);
    forall q | id + 1 <= q < p
      ensures delivered[q] == Inbox(Sends(g, p, m, 0, hi), q)
    {
      InboxConcat(Sends(g, p, m, 0, lo), out, q);
    }
  }

  /** Worker id's turn in an id-order schedule: its mail holds everything workers 0..id-1 sent it; it
      counts, and its sends are delivered, so the mail of every later worker holds everything
      workers 0..id sent it. */
  method Turn(id: int, p: int, n: int, marked: seq<bool>, mail: seq<multiset<int>>,
              ghost g: seq<bool>, ghost lo: int, ghost b: int)
    returns (count: nat, delivered: seq<multiset<int>>)
    requires n >= 1 && 0 <= id < p && |g| == n - 1 && |mail| == p
    requires lo == BlockLow(id, p, n - 1) && b == BlockLow(id + 1, p, n - 1)
    requires |marked| == BlockSize(id, p, n - 1) && ShowsTable(marked, g, lo)
    requires forall q :: id <= q < p ==> mail[q] == Inbox(Sends(g, p, n - 1, 0, lo), q)
    ensures |delivered| == p
    ensures forall q :: id + 1 <= q < p ==> delivered[q] == Inbox(Sends(g, p, n - 1, 0, b), q)
    ensures count == Pairs(g, lo, b - 6) + Pairs(g, lo - 6, Min(lo, b - 6))
  {
    TurnBlock(id, p, n, lo, b, marked, g);
    TurnMail(id, p, n, lo, b, marked, mail[id], g);
    var lowValue, highValue := LowValue(id, p, n), HighValue(id, p, n);
    var out;
    count, out := CountMessagePassing(id, p, n, lowValue, highValue, marked, mail[id], g);
    SendsDestinations(g, p, n - 1, lo, b);
    delivered := Post(mail, out);
    TurnDelivery(g, p, n - 1, id, lo, b, mail, out, delivered);
  }

  /** The whole exchange and MPI_Reduce (d3-1.c:83-115), with the workers run in id order. Each worker's
      mail is complete when its turn comes (NoLateMail, MailComplete), so this is one schedule
      of the concurrent run, and since every worker's count is the same for any arrival order, the total is
      the same for every schedule: the number of pairs over all items, each counted once, by the owner of
      its second member. */
  method GlobalCountMessagePassing(p: int, n: int, marks: seq<seq<bool>>, ghost g: seq<bool>)
    returns (globalCount: nat)
    requires n >= 1 && p >= 1 && Published(marks, g, p, n - 1)
    ensures globalCount == Pairs(g, 0, n - 1)
  {
    ghost var m := n - 1;
    var mail: seq<multiset<int>> := seq(p, _ => multiset{});
    globalCount := 0;
    ghost var lo := 0;
    LowBounds(0, p, m);
    assert Sends(g, p, m, 0, 0) == [];
    for id := 0 to p
      invariant |mail| == p && lo == BlockLow(id, p, m)
      invariant forall q :: id <= q < p ==> mail[q] == Inbox(Sends(g, p, m, 0, lo), q)
      invariant globalCount == Pairs(g, -6, lo - 6)
    {
      var count;
      PublishedShows(marks, g, p, m, id);
      count, mail := Turn(id, p, n, marks[id], mail, g, lo, BlockLow(id + 1, p, m));
      BlockCountsCombine(g, p, m, id);
      globalCount := globalCount + count;
      lo := BlockLow(id + 1, p, m);
    }
    LowBounds(p, p, m);
    PairsShift(g);
  }
}
