# sexy-numbers: a verified model of the distributed sieve and pair count

The repository has two MPI programs, `d3-1.c` and `d3-2.c`. Each counts the sexy prime pairs
(p, p + 6) with both members prime and p + 6 <= n. It spreads the integers 2..n over p SPMD
workers in contiguous blocks, using the `BLOCK_LOW/HIGH/SIZE/OWNER` macros. The workers then run
a segmented sieve in rounds. Worker 0 holds 2..1 + (n-1)/p. Its cursor finds each next sieving
prime, and a broadcast hands that prime to every worker. Pairs inside a block are counted
locally. A pair whose partner lies in a later block is resolved in one of two ways:

- `d3-2.c` reads the partner's cell from the owner's finished buffer through a one-sided window.
- `d3-1.c` sends the partner's value, or the sentinel 0, to the owner. The owner receives it from
  any source and counts it.

In both programs a sum reduction forms the total.

The model has eight modules, one per file:

- `Arith` holds helper facts on multiplication and Euclidean division.
- `Primes` holds primality and the reference count `SexyCount(n)`.
- `Partition` holds the macros, the integer square root and the process-count check.
- `Sieve` holds the class `Worker` with its buffer `marked: array<bool>` and cursor `index`,
  updated in place, and the sequential simulation of the rounds.
- `PairCount` holds pair counting over a marking table of all items.
- `RemoteRead` models d3-2's count.
- `MessagePassing` models d3-1's count, with a per-destination multiset of messages.
- `SexyCouples` holds the two whole runs.

Item j stands for the integer j + 2, as in the source's `n-1` item space. The ghost table `g`,
with `|g| = n - 1`, holds every item's mark.

The main results:

- Both programs report "too many processes" exactly when the process-count check fails. They
  report `SexyCount(n)` whenever the check passes and worker 0's block holds a prime q >= 3 with
  q * q > n (`Partition.ScanFits`). The check alone does not guarantee this; see Findings.
- The two strategies therefore agree.
- The message-passing strategy counts each pair at the owner of its second member. Sends and
  receives balance for every block size.
- Every array and buffer access is in bounds. Dafny checks each index.

## Model

| member | source | states |
|---|---|---|
| Partition.LowFormula | d3-2.c:8 | BlockLow(id, p, m) is id * m / p (with C's division, which agrees with Euclidean division on these non-negative operands) |
| Partition.OwnerFormula | d3-2.c:11 | BlockOwner(j, p, m) is (p * (j + 1) - 1) / m |
| Partition.LowMono | d3-2.c:8 | block starts are monotone in id |
| Partition.LowBounds | d3-2.c:8 | the first block starts at 0, block p starts at m, and every start is in 0..m |
| Partition.BlocksTile | d3-2.c:8-10 | BLOCK_LOW(0) = 0; BLOCK_HIGH(id) + 1 = BLOCK_LOW(id + 1); BLOCK_SIZE = high - low + 1 >= 0; the last block ends at m - 1, so the blocks cover 0..m-1 with no gap or overlap |
| Partition.WorkerRange | d3-2.c:41-43 | each worker's 2 <= low_value and high_value <= n, with size = high_value - low_value + 1 |
| Partition.OwnerInRange | d3-2.c:11 | the owner of an item 0 <= j < m is a valid id |
| Partition.OwnerLowBelow | d3-2.c:11 | the owner's block starts at or before j |
| Partition.OwnerNextAbove | d3-2.c:11 | the block after the owner's starts after j |
| Partition.OwnerInverse | d3-2.c:11 | BLOCK_OWNER(j) is the unique id with BLOCK_LOW(id) <= j <= BLOCK_HIGH(id), for both directions of the equivalence |
| Partition.CoordinatorBlock | d3-2.c:41-44 | worker 0's low_value is 2, its size is proc0_size = (n-1)/p, and its high_value is 1 + (n-1)/p |
| Partition.Isqrt | d3-2.c:47 | the integer square root r satisfies r * r <= n < (r + 1) * (r + 1) |
| Partition.IsqrtUnique | d3-2.c:47 | any r in that bracket is the integer square root |
| Partition.RootBound | d3-2.c:47 | isqrt(n) <= c exactly when (c + 1) * (c + 1) > n |
| Partition.Feasible | d3-2.c:44-47 | the run goes on exactly when (3 + proc0_size) * (3 + proc0_size) > n, which is 2 + proc0_size >= isqrt(n) |
| Partition.ScanFitsImpliesFeasible | d3-2.c:47 | the scan condition assumed for the sieve implies the source's check |
| Partition.CheckAdmitsScanOverrun | d3-2.c:44-47 | the check admits n = 25, p = 6. Worker 0 then has size 4 and high_value 5, and 5 * 5 <= 25 starts one more round. The scan condition fails |
| Partition.CheckAdmitsScanOverrunTen | d3-1.c:43-50 | the check also admits n = 10, p = 3, while the scan condition fails |
| Partition.CoordinatorTen | d3-1.c:40-43 | with n = 10 and p = 3, worker 0 has size 3 and high_value 4 |
| Partition.NoScanPrimeTen | d3-1.c:74-81 | 3 is prime with 3 * 3 <= 10, so the round for 3 runs; 4 is not prime, so worker 0's block 2..4 holds no prime q >= 3 with q * q > 10 |
| Sieve.FirstOffset | d3-2.c:65-71 | `first` is non-negative, and low_value + first is a multiple of prime that is at least prime * prime |
| Sieve.FirstOffsetLeast | d3-2.c:65-71 | no smaller non-negative offset has that property, so `first` is the least one |
| Sieve.StrokeIsHit | d3-2.c:73 | the cells first, first + prime, ... are exactly the cells whose value is a multiple of prime that is at least prime * prime |
| Sieve.StrideGap | d3-2.c:73 | no cell strictly between two consecutive stroke positions is on the stroke |
| Sieve.PrimeNeverSieved | d3-2.c:65-73 | a prime's cell is never struck by any round |
| Sieve.PrimeNeverHit | d3-2.c:65-73 | a prime is never a multiple of a sieving prime k that is at least k * k |
| Sieve.SievedSnoc | d3-2.c:64-82 | after one more round, a value is struck iff it was struck before or this round's prime hits it |
| Sieve.FactorStrikes | d3-2.c:73 | a broadcast prime f dividing v with f * f <= v strikes v |
| Sieve.ScanFindsNextPrime | d3-2.c:76-77 | the first unstruck value after the current prime is prime, and every smaller prime has been broadcast |
| Sieve.SieveComplete | d3-2.c:82 | once every prime whose square is at most n is broadcast, a value in 2..n is struck iff it is not prime |
| Sieve.Worker.constructor | d3-2.c:53-61 | the worker's bounds are the partition's, its buffer has `size` fresh cells, every cell is cleared, and worker 0's cursor starts at 0 |
| Sieve.Worker.Strike | d3-2.c:65-73 | exactly the stroke cells below size are set; every other cell keeps its value; no cell goes from 1 back to 0; the set cells are the multiples of prime at least prime * prime |
| Sieve.Worker.Scan | d3-2.c:76-77 | the new index is greater than the old one. Every cell strictly between them is marked and marked[index] == 0. prime = index + 2 = low_value + index |
| Sieve.Spawn | d3-2.c:53-61 | p workers with ids 0..p-1 and separate cleared buffers, with worker 0's index at 0 |
| Sieve.StrikeOne | d3-2.c:65-73 | one worker's stroke for the broadcast prime leaves its buffer recording exactly the values struck by the primes so far plus this one |
| Sieve.StrikeAll | d3-2.c:65-73 | after a round, every buffer records exactly the values struck by the primes broadcast so far plus this one |
| Sieve.RoundBelowBound | d3-2.c:82 | a round only runs for a prime below any prime q with q * q > n |
| Sieve.ScanOutcome | d3-2.c:75-77 | the coordinator stops on the next prime, at most q, having broadcast all smaller primes |
| Sieve.AllSievingPrimes | d3-2.c:82 | when the do-while exits, every prime r with r * r <= n has been broadcast |
| Sieve.Round | d3-2.c:64-81 | one round: every worker strikes the current prime, then the broadcast prime is the next prime: it is prime, greater than the current one, and no prime lies strictly between them |
| Sieve.SieveRounds | d3-2.c:64-82 | when the loop exits, marked[i] == 0 exactly when low_value + i is prime, in every worker's buffer |
| Sieve.Publish | d3-2.c:86-87 | the published views are the finished buffers |
| PairCount.PairsSplit | d3-2.c:119 | pair counts over adjacent ranges add up, which is the sum reduction |
| PairCount.PairsNone | d3-2.c:95-99 | a range holding no pair start counts 0 |
| PairCount.PairsShift | d3-1.c:115 | counting pairs by their second member (d3-1's convention) gives the same total as counting by their first (d3-2's) |
| PairCount.TablePairs | d3-2.c:95-97 | over the primality table, the pairs starting below item hi are the sexy pairs with first member below hi + 2 |
| PairCount.TableCount | d3-1.c:115-122 | over the primality table, all pairs are exactly the sexy prime pairs up to n |
| PairCount.PublishedShows | d3-2.c:86-87 | each published view has its block's size and shows the table from the block's first item |
| RemoteRead.RemoteTarget | d3-2.c:102-106 | for a boundary item, target_process > id, 0 <= target_index < BLOCK_SIZE(target_process), and that cell holds the partner's mark |
| RemoteRead.CountStep | d3-2.c:95-112 | the loop's test at cell i succeeds exactly when item low_value - 2 + i starts a pair: inside the block it is !marked[i] && !marked[i + 6] with i + 6 < size; past the block up to n it is !marked[i] && !target_marked, with id < target_process < p and 0 <= target_index < BLOCK_SIZE(target_process); beyond n no pair starts |
| RemoteRead.CountRemoteRead | d3-2.c:90-114 | a worker's count is the number of pairs whose first member is in its block; every local and remote read is in bounds |
| RemoteRead.GlobalCountRemoteRead | d3-2.c:119 | the reduced count is the number of pairs over all items, each counted once, by the owner of p |
| MessagePassing.SentValue | d3-1.c:103-110 | the value sent for item j is the sentinel 0 exactly when j is marked, and otherwise the partner's value target_number = j + 8 |
| MessagePassing.SendFor | d3-1.c:101-110 | the message for item j goes to a valid worker whose block holds the partner j + 6, and carries 0 exactly when j is marked |
| MessagePassing.ReceivesAt | d3-1.c:87 | worker id receives at cell i exactly when id != 0 and max(0, 8 - low_value) <= i < 6 |
| MessagePassing.Receives | d3-1.c:85-89 | worker id makes no receive when id == 0, and otherwise one per cell in max(0, 8 - low_value)..min(size, 6) - 1 |
| MessagePassing.InboxConcat | d3-1.c:104-109 | the mail a worker gets from two message streams is the union of the two |
| MessagePassing.SendsSplit | d3-1.c:101-110 | the messages of adjacent item ranges concatenate |
| MessagePassing.SendsDestinations | d3-1.c:102 | every message is addressed to a valid worker |
| MessagePassing.SendRule | d3-1.c:96-101 | an item of block id sends a message iff high_value < target_number <= n |
| MessagePassing.BlockSendsPast | d3-1.c:96-101 | for every item of block id, a message is sent exactly when the partner is an item past the block |
| MessagePassing.SendStep | d3-1.c:101-110 | each such item sends exactly one message, to BLOCK_OWNER(target_number - 2, p, n - 1). It carries target_number if marked[i] == 0 and 0 otherwise |
| MessagePassing.AddressedTo | d3-1.c:102 | an item before block q sends to q iff its partner is in block q |
| MessagePassing.NotAddressedBack | d3-1.c:102 | an item at or after block q's start never sends to q |
| MessagePassing.NoLateMail | d3-1.c:102 | worker q gets no mail from its own block or a later one |
| MessagePassing.MatchedRemove | d3-1.c:89-91 | receiving a value r removes it from the bag and adds one to the count iff r names an unmarked cell |
| MessagePassing.MatchedAdd | d3-1.c:90 | adding a value raises the bag's count by one iff it names an unmarked cell |
| MessagePassing.ArrivalCountIsMatched | d3-1.c:89-93 | the count accumulated over any arrival sequence equals the count of its multiset |
| MessagePassing.ArrivalOrderIrrelevant | d3-1.c:89 | two arrival orders of the same mail give the same count (MPI_ANY_SOURCE) |
| MessagePassing.BlockMailRule | d3-1.c:102 | an item before block q addresses q exactly when its partner lies in block q |
| MessagePassing.InboxStep | d3-1.c:101-110 | one more item adds its sent value to q's mail exactly when its partner lies in q's block, and adds nothing otherwise |
| MessagePassing.MailSize | d3-1.c:104-109 | q gets one message per item before q's block whose partner lies in q's block |
| MessagePassing.MailRange | d3-1.c:90 | every non-zero value in q's mail names an integer of q's block |
| MessagePassing.MailCount | d3-1.c:90 | q counts, from its mail, exactly the pairs whose first member lies before its block and whose second member lies in it (the pairs wholly inside the block are counted locally) |
| MessagePassing.SentValueMatches | d3-1.c:90 | a value sent into block q is counted there iff the sending item starts a pair |
| MessagePassing.MailFromBelow | d3-1.c:90 | worker q's mail: its size; that every non-zero value lies in q's block, so received_number - low_value is a valid index; and that q counts exactly the pairs whose first member lies before its block and whose second member is in it |
| MessagePassing.ReceivesSpan | d3-1.c:85-87 | a worker with id != 0 receives once for each i < min(6, size) with low_value + i >= 8, and worker 0 never receives |
| MessagePassing.ReceivesMono | d3-1.c:85-87 | the number of receives so far only grows along the loop |
| MessagePassing.MailComplete | d3-1.c:87 | the workers before q send exactly as many messages to q as q receives |
| MessagePassing.Balance | d3-1.c:85-110 | over the whole run, the messages addressed to each worker equal its receives, for every block size |
| MessagePassing.LocalStep | d3-1.c:96-99 | cell i adds one local pair exactly when its partner is inside the buffer and both are unmarked |
| MessagePassing.Receive | d3-1.c:88-93 | one value still in the mail leaves it, and the hit is one exactly when that value is non-zero and names an unmarked cell |
| MessagePassing.CheckPartner | d3-1.c:96-111 | the local count grows by exactly the pair starting at cell i inside the block, and the messages sent are exactly the send rule's for item i |
| MessagePassing.ReceiveStep | d3-1.c:87-94 | a receive happens at cell i exactly when the receive condition holds, and the mail left over matches the receives still to come |
| MessagePassing.CountMessagePassing | d3-1.c:83-112 | a worker's sends are exactly those of the send rule. Its count is the pairs inside its block plus the received values naming an unmarked cell, whatever value each MPI_Recv yields |
| MessagePassing.Post | d3-1.c:104-109 | delivery adds each sent value to its destination's mail and nothing else |
| MessagePassing.CountsCombine | d3-1.c:115 | a worker's share extends the running total from pairs ending before its block to pairs ending before the next |
| MessagePassing.BlockCountsCombine | d3-1.c:115 | CountsCombine at the bounds of block id |
| MessagePassing.TurnBlock | d3-1.c:83-112 | low_value - 2 and high_value - 1 are the bounds of block id, the buffer's length is the block's size, and the block obeys the send rule |
| MessagePassing.TurnMail | d3-1.c:85-93 | the mail worker id finds holds as many values as it receives, each 0 or one of its integers, worth exactly the pairs whose first member lies before its block and whose second member lies in it |
| MessagePassing.TurnDelivery | d3-1.c:104-109 | delivering a worker's sends completes the mail of every later worker up to the end of its block |
| MessagePassing.Turn | d3-1.c:83-112 | in id order, a worker's turn completes the mail of every later worker |
| MessagePassing.GlobalCountMessagePassing | d3-1.c:115 | the reduced count is the number of pairs over all items |
| SexyCouples.SieveAll | d3-2.c:53-82 | after setup and sieve, every finished buffer agrees with the primality table of 2..n |
| SexyCouples.RunRemoteRead | d3-2.c:39-119 | the run reports "too many processes" exactly when the check fails, and SexyCount(n) when it passes, for runs where worker 0's block holds a prime q >= 3 with q * q > n |
| SexyCouples.RunMessagePassing | d3-1.c:38-115 | the same outcome as RunRemoteRead, under the same condition on worker 0's block: the strategies agree |
| SexyCouples.SexyCountTwenty | d3-1.c:122 | up to 20 there are 4 sexy pairs |
| SexyCouples.SexyCountTen | d3-1.c:122 | up to 10 there are none |
| SexyCouples.TwentyRoot | d3-1.c:46 | isqrt(20) = 4 |
| SexyCouples.TwentyFits | d3-1.c:46 | with 1, 2 or 4 workers over 2..20 the check passes and the scan condition holds |
| SexyCouples.TooManyWorkers | d3-1.c:46 | n = 10000 with 5000 workers is rejected |
| SexyCouples.RunTwenty | d3-1.c:115-122 | both programs report 4 pairs up to 20 with 1, 2 or 4 workers |

## Left out

- MPI plumbing is not modelled: `MPI_Init`, `MPI_Barrier`, `MPI_Comm_rank/size`, `MPI_Finalize`, window creation, fences and locks.
  - The broadcast is an assignment.
  - The reduction is a sum over workers.
  - `MPI_Get` indexes the owner's finished buffer.
- Concurrency and blocking are not modelled. The workers run one after another in id order, each delivering its sends before the next worker receives. That order is a real schedule only if `MPI_Send` buffers. With a synchronous send, a worker cannot finish its sends before the receiver posts its receives. What the model does establish is the same for every schedule that completes. `MessagePassing.NoLateMail` shows every message goes to a later worker. `MessagePassing.Balance` shows each worker gets exactly as many messages as it receives. `MessagePassing.ArrivalOrderIrrelevant` shows the count depends only on the multiset of mail. Deadlock itself is not modelled.
- `MPI_Wtime`, `printf` and the elapsed-time report are I/O and are not modelled.
- `argc`/`atoi` parsing and the usage error are not modelled; n is a parameter.
- Allocation failure of `malloc` is a resource error and is not modelled. The `Worker` constructor always allocates.
- The buffer is `char` in the source and `bool` here. Only the values 0 and 1 are ever stored.
- `(int)sqrt((double)n)` is floating point. It is replaced by the exact integer square root `Partition.Isqrt`.
- C `int` overflow of `id*(n-1)`, `p*(index+1)` and `prime*prime` is not modelled: all integers are unbounded.
- `BlockLow` and `BlockOwner` are computed through `Arith.Prod` and `Arith.Quot`, which are repeated addition and subtraction. `Partition.LowFormula` and `Partition.OwnerFormula` prove the C expressions.
- Sieve.Worker.Scan: requires an unmarked cell after the cursor inside the buffer. The source's `while (marked[++index])` has no bounds check.
- Sieve.SieveRounds: requires `Partition.ScanFits`, which says worker 0's block holds a prime q >= 3 with q * q > n. The source's check does not guarantee this; see Findings. Deriving it from a stronger check would need Bertrand's postulate.
- SexyCouples.RunRemoteRead: requires `Feasible(n, p) ==> ScanFits(n, p)`, for the reason above. Runs the check rejects need nothing.
- SexyCouples.RunMessagePassing: the same requirement as RunRemoteRead.
- The sequential schedule covers only the multiset of each worker's mail. Interleavings of sends and receives across workers are not modelled; `CountMessagePassing` lets each receive yield any value still in the mail.
- The balance and strategy-equivalence results do not assume that every block holds at least 6 integers. Smaller blocks just receive fewer messages.

## Findings

| source | as written | input that shows it | evidently intended | confidence | as-written member | corrected member |
|---|---|---|---|---|---|---|
| d3-2.c:47 (also d3-1.c:46) | the run goes on when `2 + (n-1)/p >= (int)sqrt(n)`. Worker 0's scan `while (marked[++index])` (d3-2.c:76) then assumes its block holds the next prime of every round | n = 25, p = 6. Worker 0 holds 2..5 (size 4). After the round for 5 (5 * 5 <= 25 keeps the loop going), the scan reads `marked[4]`, one past the buffer's end. Also n = 10, p = 3 (`Partition.CheckAdmitsScanOverrunTen`): worker 0 holds 2..4 (size 3), the round for 3 runs, and the scan passes the struck 4 and reads `marked[3]` | the run goes on only if worker 0's block holds a prime q >= 3 with q * q > n, so every scan stops inside the buffer | not executed | Partition.CheckAdmitsScanOverrun | Partition.ScanFits |

`Partition.ScanFitsImpliesFeasible` shows that `ScanFits` is stronger than the source's check.
`Sieve.SieveRounds` and both `Run*` methods assume it, and with it every scan stays inside the
buffer and the sieve is complete.
