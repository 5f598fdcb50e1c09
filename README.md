# MPI and OpenMP course kernels, modelled in Dafny

This project models the computational core of four programs from a
parallel-programming course repository (csci415_s25):

- **Nelson's hypercube matrix multiply** (`a3/nelson_complete.c`). It covers
  the dense kernel `MatrixMultiply`, which adds A×B into C. It also covers
  the per-process steps of `NelsonMultiply`: the base case, the mask, the
  two bit-flip partners, the four-process combine, the split into halves
  and the accumulate loop.
- **The custom prefix sum** (`scan.c`). It covers the local inclusive scan,
  the rounds with steps 1, 2, 4, … and their send/receive pairing, and the
  final offset loop.
- **Odd-even transposition sort** (`odd_even.c`). Each process holds one
  value. The model keeps the values of all ranks in one array indexed by
  rank, so each phase becomes one in-place pass. The model proves that the
  values are sorted after `size` phases and only permuted.
- **The Jacobi driver's set-up** (`a6/ompjacobi.c`). It covers the
  command-line scan `parse_arguments` and the grid fill of `read_input`.

These are message-passing programs, and the model follows one process at a
time:

- What `MPI_Sendrecv` or `MPI_Recv` delivers is a parameter.
- In the prefix sum, what a process hands to `MPI_Send` in each round is
  returned as a log. `NelsonMultiply`, its combine and the sort's rank loop
  return no such log, and what they send is not recorded.
- The recursive calls of `NelsonMultiply` on a sub-group are parameters
  too. Each such parameter is the contribution that the call adds into its
  target buffer.
- For the sort and the prefix sum, all-ranks functions then tie the
  processes together. There, the users of those functions state the values
  passed between the processes as preconditions.

The source's `double` arithmetic is modelled as exact `real` arithmetic.
The source's `int` arithmetic is modelled as unbounded `int` arithmetic.

A C bit-flip such as `rank ^ (1 << b)` on a rank that is not negative is
written out with an explicit parity test: `rank ^ 1` is `rank + 1` for
even ranks and `rank - 1` for odd ones.

Modules:

| module | models |
|---|---|
| `Wrappers` | `Option` and `Result` |
| `Powers` | `1 << d`, the powers of two shared by the group sizes and the round steps |
| `MatrixKernel` | `MatrixMultiply`, the row-major product, the accumulate loop |
| `Hypercube` | `NelsonMultiply` on one process: partners, mask, split, combine |
| `PrefixScan` | `custom_prefix_sum` on one process, plus the all-ranks totals |
| `OddEvenPhase` | partner rule, compare-exchange, one phase in place |
| `OddEvenSort` | the phase loop, and the proof of sortedness through the 0-1 principle |
| `JacobiArgs` | `parse_arguments` |
| `JacobiGrid` | the zeroed grid and the rectangle fill of `read_input` |

A group of two processes never reaches the recursive branch of
NelsonMultiply. Its vertical partner `rank ^ 2` is 2 or 3, which is outside
the group, so the second `MPI_Sendrecv` (a3/nelson_complete.c:43-44) is
given an invalid rank before any recursion. The model returns `InvalidPartner` for that case
(`Hypercube.NelsonMultiply`, with `Hypercube.VerticalPartnerOutsidePair`).

## Model

| member | source | states |
|---|---|---|
| `MatrixKernel.DotPrefix` | a3/nelson_complete.c:11-12 | the sum of a[i*n+k]*b[k*n+j] over k < m: what the k loop has added to c[i*n+j] after m passes |
| `MatrixKernel.Product` | a3/nelson_complete.c:8-13 | the n×n product A×B as a row-major buffer of length n*n; entry i*n+j is the whole dot product of row i of a and column j of b |
| `MatrixKernel.AccumulateEntry` | a3/nelson_complete.c:11-12 | the k loop adds the dot product of row i of a and column j of b to c[i*n+j] and changes no other entry |
| `MatrixKernel.DotPrefixStep` | a3/nelson_complete.c:11-12 | one pass of the k loop adds the term x*y, with x = a[i*n+k] and y = b[k*n+j], to the dot product over the first k indices |
| `MatrixKernel.MatrixMultiply` | a3/nelson_complete.c:8-13 | c ends as its old contents plus the product a×b, entry by entry; c is accumulated into, never overwritten, and nothing but c is written |
| `MatrixKernel.ProductEntry` | a3/nelson_complete.c:9-12 | entry (i, j) of the row-major product lies in the buffer and is the sum over k < n of a[i*n+k]*b[k*n+j] |
| `MatrixKernel.ProductExample` | a3/nelson_complete.c:8-13 | worked 2×2 product: [[1,2],[3,4]]×[[5,6],[7,8]] = [[19,22],[43,50]] |
| `MatrixKernel.Accumulate` | a3/nelson_complete.c:69-71 | C[i] becomes C_old[i] + tempC[i] for every i < n*n; tempC is only read |
| `Powers.Pow2` | a3/nelson_complete.c:26-27 | 2^d, that is 1 << d, which is at least 1 |
| `Hypercube.Mask` | a3/nelson_complete.c:26-27 | 1 << (dims - 1) for a group of 2^dims processes |
| `Hypercube.HorizontalPartner` | a3/nelson_complete.c:36 | rank ^ (1 << 0) for a rank that is not negative: rank + 1 for an even rank, rank - 1 for an odd one |
| `Hypercube.VerticalPartner` | a3/nelson_complete.c:37 | rank ^ (1 << 1): rank + 2 when bit 1 of rank is clear, rank - 2 when it is set |
| `Hypercube.Colour` | a3/nelson_complete.c:58 | the colour `rank < mask` that MPI_Comm_split is given |
| `Hypercube.SubRank` | a3/nelson_complete.c:58 | the rank in the new communicator: MPI_Comm_split orders the ranks of one colour by their key `rank`, so the new rank counts the smaller ranks of the same colour |
| `Hypercube.MaskIsHalf` | a3/nelson_complete.c:26-27 | for size = 2^d with d ≥ 1, mask = 1 << (d-1) is half the group |
| `Hypercube.PartnersFlipOneBit` | a3/nelson_complete.c:36-37 | rank^1 and rank^2 each differ from rank, and flipping the same bit twice gives rank back |
| `Hypercube.Pow2Small` | a3/nelson_complete.c:21-47 | group sizes 1, 2 and 4 are exactly dimensions 0, 1 and 2, and every larger dimension gives a group of at least 8 |
| `Hypercube.PartnersInRange` | a3/nelson_complete.c:36-44 | with size = 2^d and d ≥ 2 both partners are ranks of the group |
| `Hypercube.VerticalPartnerOutsidePair` | a3/nelson_complete.c:36-44 | with size 2 the horizontal partner is in the group and the vertical partner rank^2 is not |
| `Hypercube.CountColourClosed` | a3/nelson_complete.c:58 | closed form of how many ranks below k have colour rank < mask, and how many do not |
| `Hypercube.HalvesHaveMaskRanks` | a3/nelson_complete.c:58 | the colour rank < mask puts exactly mask ranks in each half |
| `Hypercube.SubRankKeepsOrder` | a3/nelson_complete.c:58 | for every rank of the group, with key rank, the new rank is rank in the lower half and rank - mask in the upper half and lies below mask, and every lower rank of the same half gets a smaller new rank |
| `Hypercube.CombineFour` | a3/nelson_complete.c:47-54 | ranks 0 and 3 end with C_old + A×tempB + tempA×B; ranks 1 and 2 end with C_old + A×B + tempA×tempB |
| `Hypercube.CombineHalves` | a3/nelson_complete.c:60-71 | as written: tempC gains the second call's contribution on top of what it held, and C gains the first contribution plus all of tempC |
| `Hypercube.UnclearedTempCReachesC` | a3/nelson_complete.c:31-71 | entry i of C ends as C_old + both contributions + the old tempC[i], so a nonzero leftover in the malloc'd tempC makes C wrong |
| `Hypercube.ClearedTempCAddsContributions` | a3/nelson_complete.c:60-71 | with tempC cleared first, C gains exactly the two contributions of the recursive calls |
| `Hypercube.NelsonMultiply` | a3/nelson_complete.c:16-79 | size 1: C gains exactly A×B; size 2: the call fails on the vertical partner and C is untouched; size 4: the combine by rank; size ≥ 8: the corrected call, with tempC cleared before the recursive calls, in which C gains exactly the two recursive contributions (as written, the malloc'd tempC of line 31 also reaches C: see Findings) |
| `PrefixScan.Sum` | scan.c:11-15 | local_sum after the local loop: the sum of the block |
| `PrefixScan.InclusiveScan` | scan.c:12-15 | recv_buffer after the local loop: entry i is the sum of the entries 0 .. i |
| `PrefixScan.Offset` | scan.c:30-31 | every entry of a scan raised by the same total |
| `PrefixScan.StepsFrom` | scan.c:18 | the values step takes from a given start while step < size, doubling each round |
| `PrefixScan.Schedule` | scan.c:18 | the steps of `for (step = 1; step < size; step <<= 1)`, one per round |
| `PrefixScan.SendPeer` | scan.c:24-25 | the rank sent to at a step: rank + step when it is below size, none otherwise |
| `PrefixScan.RecvPeer` | scan.c:21-22 | the rank received from at a step: rank - step when rank ≥ step, none otherwise |
| `PrefixScan.Outgoing` | scan.c:19-25 | what a rank hands to MPI_Send in a round: the value when it has a higher partner, nothing otherwise |
| `PrefixScan.ReceivedSum` | scan.c:17-27 | total after the first k rounds: recv_val is added in the rounds whose step is at most rank and is 0 in the others |
| `PrefixScan.SumAppend` | scan.c:12-15 | the sum of two blocks one after the other is the sum of their sums |
| `PrefixScan.SumRangeSplit` | scan.c:12-15 | the sum over an index range splits at any point inside it |
| `PrefixScan.SumRangeIsSum` | scan.c:12-15 | the sum over indices 0 .. hi-1 is the sum of the first hi elements |
| `PrefixScan.LocalInclusiveScan` | scan.c:10-15 | recv_buffer[i] is the sum of local_data[0..i] and local_sum is the sum of the whole block |
| `PrefixScan.AddOffset` | scan.c:30-32 | local_data[i] becomes recv_buffer[i] + total for every i < local_n |
| `PrefixScan.OutputSteps` | scan.c:30-31 | the first output is the first element plus total, and consecutive outputs differ by the original element |
| `PrefixScan.StepsFromAt` | scan.c:18 | from step 2^j on, round k uses step 2^(j+k), and that step is below size |
| `PrefixScan.StepsFromEnd` | scan.c:18 | from step 2^j on, the first power of two the rounds do not use is at least size |
| `PrefixScan.ScheduleIsPowersBelow` | scan.c:18 | round k uses step 2^k, every step is below size, and the next power is not: the steps are exactly the powers of two below size |
| `PrefixScan.ScheduleAt` | scan.c:18 | the step of round k is 2^k |
| `PrefixScan.SingleProcess` | scan.c:17-32 | with one process no round runs, total is 0 and the output is the local inclusive scan |
| `PrefixScan.PairingSymmetric` | scan.c:21-26 | at a step, rank r sends to q exactly when q receives from r, for ranks of the group |
| `PrefixScan.ExchangeRounds` | scan.c:17-28 | as written: total is the sum of the values received, 0 for a round without a receive, and the value sent in every round is the rank's own local_sum |
| `PrefixScan.AsWrittenRankThree` | scan.c:18-27 | as written, rank 3 of a group of four learns the block sums of ranks 1 and 2 only: its total misses rank 0's block |
| `PrefixScan.ExchangeRoundsForwarding` | scan.c:17-28 | corrected rounds: total is the sum of the values received, and the value sent in round k is local_sum plus the total after k rounds |
| `PrefixScan.CustomPrefixSum` | scan.c:5-35 | as written: the block becomes its inclusive scan plus the total received, and in every round that has a higher partner the log holds the block's own sum, local_sum |
| `PrefixScan.CustomPrefixSumForwarding` | scan.c:5-35 | corrected: the block becomes its inclusive scan plus the total received, and in round k the log holds local_sum plus the total of the earlier rounds for every round that has a higher partner |
| `PrefixScan.RunningWindow` | scan.c:18-27 | after k forwarding rounds every rank holds the sum of the block sums of the 2^k - 1 ranks below it, or of all of them if fewer |
| `PrefixScan.RankFollowsRunning` | scan.c:18-27 | when a rank receives what its partners send, its total after k rounds is its entry of the all-ranks totals |
| `PrefixScan.ForwardingTotalIsPrefix` | scan.c:17-28 | with the forwarding rounds a rank's total is the sum of the block sums of all lower ranks |
| `PrefixScan.ConcatSum` | scan.c:12-15 | the sum of all blocks laid end to end is the sum of the block sums |
| `PrefixScan.OutputIsGlobalPrefix` | scan.c:30-32 | with that total, entry i of a rank's output is the sum of the whole distributed array up to and including that entry |
| `OddEvenPhase.RawPartner` | odd_even.c:26-30 | the partner before the range check: in an even phase an even rank takes rank + 1 and an odd rank rank - 1, in an odd phase the other way round |
| `OddEvenPhase.Exchange` | odd_even.c:40-45 | the value a rank keeps: the received value when the lower rank holds the larger value or the higher rank the smaller, its own value otherwise and under MPI_PROC_NULL |
| `OddEvenPhase.Phase` | odd_even.c:24-45 | one phase run by all ranks at once: rank r keeps Exchange of its own value and its partner's value from before the phase |
| `OddEvenPhase.Run` | odd_even.c:23-46 | the values of all ranks after phases 0 .. t-1 |
| `OddEvenPhase.Partner` | odd_even.c:26-33 | a partner that is kept lies in [0, size); an out-of-range one becomes MPI_PROC_NULL |
| `OddEvenPhase.PartnerPairs` | odd_even.c:26-30 | the partner is rank+1 exactly when rank and phase have the same parity and rank-1 otherwise: even phases pair (0,1),(2,3),…, odd phases (1,2),(3,4),… |
| `OddEvenPhase.PartnerSymmetric` | odd_even.c:26-33 | the partner of an in-range partner is the rank itself |
| `OddEvenPhase.ExchangeKeepsMinMax` | odd_even.c:40-45 | the lower rank keeps the minimum, the higher the maximum, and a rank without partner keeps its value |
| `OddEvenPhase.PhaseEntry` | odd_even.c:26-45 | entry r of the all-ranks phase is what rank r computes from its own value and its partner's old value |
| `OddEvenPhase.PhaseAt` | odd_even.c:26-45 | entry r of a phase is the min of its pair if r is a left element, the max if a right element, and unchanged if unpaired |
| `OddEvenPhase.PhaseIsPairwiseMinMax` | odd_even.c:36-45 | one phase of all ranks puts the min of each pair on the left, the max on the right, and keeps unpaired values |
| `OddEvenPhase.CompareExchange` | odd_even.c:40-45 | the pair ends as (min, max), no other element changes, and the multiset is preserved |
| `OddEvenPhase.PhasePass` | odd_even.c:36-45 | the in-place pass over the pairs of a phase gives the simultaneous phase of all ranks and only permutes the values |
| `OddEvenSort.OddEvenSort` | odd_even.c:22-46 | after size phases the values of all ranks are the run of the phases, sorted in rank order, and a permutation of the initial values |
| `OddEvenSort.RankLoop` | odd_even.c:23-46 | one rank's loop, given the values its partners send, ends with that rank's entry of the all-ranks run |
| `OddEvenSort.ThresholdPhase` | odd_even.c:40-45 | mapping values to 0/1 by a threshold commutes with one phase |
| `OddEvenSort.ThresholdRun` | odd_even.c:23 | the threshold map commutes with any number of phases |
| `OddEvenSort.OnesBound` | odd_even.c:23 | in a 0-1 sequence the ones in a suffix are at most its length, with equality exactly when the suffix is all ones |
| `OddEvenSort.OnesPreserved` | odd_even.c:40-45 | a phase does not change the number of ones in a suffix that starts at a pair boundary |
| `OddEvenSort.AllOnesStable` | odd_even.c:40-45 | a block of ones at the right end stays in place in every phase |
| `OddEvenSort.LeftSlot` | odd_even.c:40-45 | under the invariant, the left element of a pair ends as a zero or at the head of the final block of ones |
| `OddEvenSort.StepAtLeft` | odd_even.c:40-45 | a one that ends at a left element with at most t + 1 ones from it on heads the final block |
| `OddEvenSort.RightIsFree` | odd_even.c:40-45 | a one that ends at a right element heads the final block or faces a zero in the next phase |
| `OddEvenSort.RightProgress` | odd_even.c:40-45 | such a one is no further left than t + 1 phases of progress allow |
| `OddEvenSort.StepAtRight` | odd_even.c:40-45 | both parts of the invariant hold after the phase at a right element |
| `OddEvenSort.InvStep` | odd_even.c:23-45 | one phase keeps the progress invariant of 0-1 sequences with the phase count advanced |
| `OddEvenSort.InvRun` | odd_even.c:23 | after t phases a 0-1 sequence is still 0-1 and satisfies the progress invariant for t |
| `OddEvenSort.ZeroOneSorted` | odd_even.c:23 | a 0-1 sequence is sorted after as many phases as it has elements |
| `OddEvenSort.RunSorts` | odd_even.c:22-23 | after size phases every sequence of values is sorted: the goal of the loop |
| `JacobiArgs.Items` | a6/ompjacobi.c:16-26 | the tokens from argv[i] on, read as the loop reads them: "-T" is a flag, "-i" and "-t" take the next token when there is one, and every other token, a last "-i" or "-t" included, is a file name |
| `JacobiArgs.Set` | a6/ompjacobi.c:17-25 | the assignment one item makes to the out-parameters |
| `JacobiArgs.Apply` | a6/ompjacobi.c:16-26 | the assignments of the items, made in order |
| `JacobiArgs.Scan` | a6/ompjacobi.c:16-26 | the loop as a recursion over the index i, with the ++i skip over an option's argument |
| `JacobiArgs.Parse` | a6/ompjacobi.c:10-32 | the scan from argv[1] starting from the values of lines 11-14 (timing off, one iteration, one thread, no file name), then NoInputFile when no file name was set |
| `JacobiArgs.ParseArguments` | a6/ompjacobi.c:10-32 | the loop with its in-body skip of the option argument gives the result of the token scan from argv[1], with failure when no file name was seen |
| `JacobiArgs.ApplyCons` | a6/ompjacobi.c:16-26 | one item changes the state and the rest is scanned from there |
| `JacobiArgs.ScanIsApply` | a6/ompjacobi.c:16-26 | the loop's index recursion, with its skip over option arguments, gives the same state as applying the scanned items in order |
| `JacobiArgs.ApplyTiming` | a6/ompjacobi.c:11-18 | timing ends on exactly when it started on or some "-T" was read as a flag |
| `JacobiArgs.ApplyIterations` | a6/ompjacobi.c:12-20 | the last "-i n" sets iterations to atoi(n); without any the value is unchanged |
| `JacobiArgs.ApplyThreads` | a6/ompjacobi.c:13-22 | the last "-t n" sets num_threads to atoi(n); without any the value is unchanged |
| `JacobiArgs.ApplyFilename` | a6/ompjacobi.c:14-24 | the last token read as a file name wins; without any the file name is unchanged |
| `JacobiArgs.FilenameSeen` | a6/ompjacobi.c:23-28 | a file name is set after the scan exactly when one was set before or some token was read as a file name |
| `JacobiArgs.ItemsFromTokens` | a6/ompjacobi.c:16-24 | every file name and every option argument is a token at the scan's start index or later |
| `JacobiArgs.ItemsOfSuffix` | a6/ompjacobi.c:16 | the scan from index i depends only on argv[i..] |
| `JacobiArgs.ProgramNameIgnored` | a6/ompjacobi.c:16 | argv[0] does not affect the result |
| `JacobiArgs.FlagsOnlyItems` | a6/ompjacobi.c:17-18 | a run of "-T" tokens yields nothing but timing flags |
| `JacobiArgs.FlagsOnlyFail` | a6/ompjacobi.c:28-31 | with no arguments or only "-T" flags the parser fails with no input file |
| `JacobiArgs.SuccessIffFile` | a6/ompjacobi.c:23-31 | the parser succeeds exactly when some token was read as a file name |
| `JacobiArgs.ExampleCommandLines` | a6/ompjacobi.c:16-31 | "-i 5 -T grid.txt" sets all three fields; a trailing "-t" becomes the file name; "-i -T" takes "-T" as the count and fails for want of a file |
| `JacobiGrid.Covers` | a6/ompjacobi.c:58-59 | whether the loops of a record write cell (i, j): x1 ≤ i ≤ x2 and y1 ≤ j ≤ y2 |
| `JacobiGrid.Cell` | a6/ompjacobi.c:50-63 | cell (i, j) after the records: the value of the last record covering it, and calloc's 0 when none does |
| `JacobiGrid.CellIsLastCover` | a6/ompjacobi.c:57-63 | a cell holds the value of the last record covering it, and 0 when none does |
| `JacobiGrid.CellUncovered` | a6/ompjacobi.c:50-63 | a cell that no record covers keeps the zero of calloc |
| `JacobiGrid.CellLastCover` | a6/ompjacobi.c:57-63 | a cell covered by record k and by no later record holds record k's value |
| `JacobiGrid.EmptyRecordChangesNothing` | a6/ompjacobi.c:58-59 | a record with x1 > x2 or y1 > y2 changes no cell |
| `JacobiGrid.LaterRecordOverrides` | a6/ompjacobi.c:57-63 | a later record sets every cell it covers and keeps every cell it does not |
| `JacobiGrid.FillRect` | a6/ompjacobi.c:58-62 | the cells with x1 ≤ i ≤ x2 and y1 ≤ j ≤ y2 get the value and every other cell keeps its own |
| `JacobiGrid.ReadInput` | a6/ompjacobi.c:45-63 | the grid is n×n, starts all zero, and ends with each cell holding the value of the last record covering it |

## Left out

- The MPI calls are left out: `MPI_Sendrecv`, `MPI_Send`/`MPI_Recv`, `MPI_Comm_split`/`MPI_Comm_free`, barriers, `MPI_Wtime`, init and finalize. They are communication and foreign library calls. Received values are parameters. Only the prefix sum returns a log of what it sends. The values the sort's partners send are stated in `RankLoop`'s precondition. The A and B that `NelsonMultiply` and its combine send (a3/nelson_complete.c:40-44) are not recorded.
- The global claim that the distributed `NelsonMultiply` equals the sequential product is not proved. It depends on what the other processes hold, which a per-process model cannot see.
- Hypercube.NelsonMultiply: the recursive calls on the sub-group (a3/nelson_complete.c:60-66) are not made. Their effects are the parameters `first` and `second`, so the model does not record which operands (A, tempB or tempA, B for the lower half; A, B or tempA, tempB for the upper half) they receive.
- Hypercube.NelsonMultiply: `log2(size)` (a3/nelson_complete.c:26) is not computed. The dimension d is given and size is 2^d, so group sizes that are not powers of two are not modelled.
- Hypercube.NelsonMultiply: an invalid partner is modelled as an `InvalidPartner` result. The abort of the MPI job under the default error handler is not modelled.
- Floating point is left out. `double` is modelled as exact `real`, so rounding and the order of summation are not modelled.
- The Jacobi stencil and convergence test (a6/ompjacobi.c:68-99) are left out, as are its OpenMP reductions and the thread-count handling. They are floating-point numerics and OpenMP runtime behaviour.
- The rest of `main` in each program is left out (the sort's phase loop in `main` is modelled), including the random or arithmetic initial values, the timing and the printing. The sort's values are any integers.
- a3/mm.c (a `getopt` and `random()` driver) is not part of this model, and neither is a5/quicksort.c (libc `qsort` with timing).
- C `int` overflow is left out. Integers and the iteration counts are unbounded.
- `free` and allocation failure (a6/ompjacobi.c:46-49) are left out. Two effects of allocation are modelled: the zeroed rows that `calloc` gives `read_input` (a6/ompjacobi.c:50-51; `JacobiGrid.ReadInput`, `JacobiGrid.CellUncovered`), and the uncleared `malloc` buffer `tempC` described under Findings.
- File I/O is left out: `fopen`, `fscanf` and `printf`. `read_input` takes n and the records as parameters instead of reading them, and the tolerance it reads is not modelled.
- JacobiArgs.ParseArguments: `atoi` is a parameter (any function from strings to integers), and `exit(EXIT_FAILURE)` with its message is the `Failure(NoInputFile)` result.
- JacobiGrid.FillRect: C does not check the bounds of a record. A non-empty record that reaches outside the n×n grid is undefined behaviour there and is excluded by a precondition.
- JacobiGrid.ReadInput: the same precondition applies to every record. The grid is square, as allocated.
- OddEvenSort.RankLoop: the rank's received values are required to match the all-ranks run. That the matching holds for every rank simultaneously is stated, not derived from a model of message delivery.

## Findings

| source | as written | input that shows it | evidently intended | confidence | as-written member | corrected member |
|---|---|---|---|---|---|---|
| a3/nelson_complete.c:31 | `tempC` comes from `malloc`. The second recursive call adds into it, and lines 69-71 then add all of it into C, so whatever the memory held is added to C. | A group of 8, n = 1, with the memory under `tempC` holding 1.0: C ends one larger than C_old + first + second. | `tempC` starts at zero (`calloc`), so C gains exactly the two recursive contributions. | not executed; high | `Hypercube.CombineHalves`, `Hypercube.UnclearedTempCReachesC` | `Hypercube.NelsonMultiply`, `Hypercube.ClearedTempCAddsContributions` |
| scan.c:19 | Each round sends the rank's own `local_sum` and never what it has gathered, so rank r learns only the blocks at distances 1, 2, 4, … below it. | Four processes, one element each, values 1, 0, 0, 0: rank 3 receives 0 from rank 2 and 0 from rank 1, so its total is 0 and its output 0, where the prefix sum (and `MPI_Scan`, which `main` offers as the alternative) gives 1. | Send `local_sum + total` (Hillis–Steele), so every rank's total is the sum of all lower ranks' blocks. | not executed; high | `PrefixScan.ExchangeRounds`, `PrefixScan.CustomPrefixSum`, `PrefixScan.AsWrittenRankThree` | `PrefixScan.ExchangeRoundsForwarding`, `PrefixScan.CustomPrefixSumForwarding`, `PrefixScan.ForwardingTotalIsPrefix` |
