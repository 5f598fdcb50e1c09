/** custom_prefix_sum of scan.c on one process. Each process holds a block of
    the distributed array; it scans its block, learns in rounds 1, 2, 4, ...
    the block sums of lower ranks, and adds what it learnt to every entry of
    its scan. What MPI_Recv delivers in each round is a parameter; what the
    process hands to MPI_Send is returned as a log, one entry per round. */
module PrefixScan {
  import opened Wrappers
  import opened Powers

  function Sum(s: seq<int>): int
  {
    if |s| == 0 then 0 else Sum(s[..|s| - 1]) + s[|s| - 1]
  }

  lemma {:induction false} SumAppend(x: seq<int>, y: seq<int>)
    ensures Sum(x + y) == Sum(x) + Sum(y)
    decreases |y|
  {
    if |y| > 0 {
      assert (x + y)[..|x + y| - 1] == x + y[..|y| - 1];
      assert (x + y)[|x + y| - 1] == y[|y| - 1];
      SumAppend(x, y[..|y| - 1]);
      assert Sum(x + y) == Sum(x + y[..|y| - 1]) + y[|y| - 1];
    } else {
      assert x + y == x;
    }
  }

  /** s[lo] + ... + s[hi - 1], by index. */
  function SumRange(s: seq<int>, lo: nat, hi: nat): int
    requires lo <= hi <= |s|
    decreases hi - lo
  {
    if lo == hi then 0 else SumRange(s, lo, hi - 1) + s[hi - 1]
  }

  lemma {:induction false} SumRangeSplit(s: seq<int>, lo: nat, mid: nat, hi: nat)
    requires lo <= mid <= hi <= |s|
    ensures SumRange(s, lo, hi) == SumRange(s, lo, mid) + SumRange(s, mid, hi)
    decreases hi - mid
  {
    if mid < hi {
      SumRangeSplit(s, lo, mid, hi - 1);
    }
  }

  lemma {:induction false} SumRangeIsSum(s: seq<int>, hi: nat)
    requires hi <= |s|
    ensures SumRange(s, 0, hi) == Sum(s[..hi])
  {
    if hi > 0 {
      SumRangeIsSum(s, hi - 1);
      assert s[..hi][..hi - 1] == s[..hi - 1];
    }
  }

  /** Entry i is the sum of the entries 0 .. i. */
  function InclusiveScan(s: seq<int>): (r: seq<int>)
    ensures |r| == |s|
  {
    seq(|s|, i requires 0 <= i < |s| => Sum(s[..i + 1]))
  }

  /** Every entry of a scan raised by the same offset. */
  function Offset(s: seq<int>, total: int): (r: seq<int>)
    ensures |r| == |s|
  {
    seq(|s|, i requires 0 <= i < |s| => s[i] + total)
  }

  // ---------------------------------------------------------------------
  // The local phases (scan.c:10-15 and 30-32)

  /** The first loop (scan.c:10-15): recv_buffer[i] is the sum of
      local_data[0 .. i], and local_sum is the sum of the whole block. */
  method LocalInclusiveScan(data: array<int>) returns (buffer: array<int>, localSum: int)
    ensures fresh(buffer)
    ensures buffer[..] == InclusiveScan(data[..])
    ensures localSum == Sum(data[..])
  {
    buffer := new int[data.Length];
    localSum := 0;
    for i := 0 to data.Length
      invariant localSum == Sum(data[..i])
      invariant forall q :: 0 <= q < i ==> buffer[q] == Sum(data[..q + 1])
    {
      assert data[..i + 1][..i] == data[..i];
      localSum := localSum + data[i];
      buffer[i] := localSum;
    }
    assert data[..data.Length] == data[..];
  }

  /** The last loop (scan.c:30-32): every entry of the block becomes its local
      prefix sum plus the total learnt from lower ranks. */
  method AddOffset(data: array<int>, buffer: array<int>, total: int)
    requires data.Length == buffer.Length && data != buffer
    modifies data
    ensures data[..] == Offset(buffer[..], total)
  {
    for i := 0 to data.Length
      invariant forall q :: 0 <= q < i ==> data[q] == buffer[q] + total
    {
      data[i] := buffer[i] + total;
    }
  }

  /** Consecutive outputs differ by the original element, and the first output
      is the first element plus the offset. */
  lemma OutputSteps(s: seq<int>, total: int, i: nat)
    requires i < |s|
    ensures i == 0 ==> Offset(InclusiveScan(s), total)[0] == s[0] + total
    ensures i > 0 ==> Offset(InclusiveScan(s), total)[i] - Offset(InclusiveScan(s), total)[i - 1] == s[i]
  {
    assert s[..1][..0] == [];
    assert Sum(s[..1]) == s[0];
    assert s[..i + 1][..i] == s[..i];
  }

  // ---------------------------------------------------------------------
  // The round schedule (scan.c:18-26)

  /** The values step takes from `step` on while it stays below size, doubling
      each time. */
  function StepsFrom(step: nat, size: nat): seq<nat>
    requires step >= 1
    decreases size - step
  {
    if step >= size then [] else [step] + StepsFrom(2 * step, size)
  }

  /** The values of step in `for (step = 1; step < size; step <<= 1)`. */
  function Schedule(size: nat): seq<nat>
  {
    StepsFrom(1, size)
  }

  /** From step 2^j on, round k uses step 2^(j+k), and that step is below size. */
  lemma {:induction false} StepsFromAt(j: nat, size: nat, k: nat)
    requires k < |StepsFrom(Pow2(j), size)|
    ensures StepsFrom(Pow2(j), size)[k] == Pow2(j + k) < size
    decreases k
  {
    var p := Pow2(j);
    assert p < size;
    assert StepsFrom(p, size) == [p] + StepsFrom(2 * p, size);
    if k > 0 {
      assert Pow2(j + 1) == 2 * p;
      StepsFromAt(j + 1, size, k - 1);
      assert j + 1 + (k - 1) == j + k;
    }
  }

  /** From step 2^j on, the first power of two the rounds do not use is at
      least size. */
  lemma {:induction false} StepsFromEnd(j: nat, size: nat)
    ensures Pow2(j + |StepsFrom(Pow2(j), size)|) >= size
    decreases size - Pow2(j)
  {
    var p := Pow2(j);
    if p < size {
      assert Pow2(j + 1) == 2 * p;
      StepsFromEnd(j + 1, size);
      assert |StepsFrom(p, size)| == 1 + |StepsFrom(2 * p, size)|;
    } else {
      assert StepsFrom(p, size) == [];
    }
  }

  /** Round k uses step 2^k, every step is below size, and the next power of
      two is not: step takes exactly the powers of two below size. */
  lemma ScheduleIsPowersBelow(size: nat)
    ensures forall k :: 0 <= k < |Schedule(size)| ==> Schedule(size)[k] == Pow2(k) < size
    ensures Pow2(|Schedule(size)|) >= size
  {
    assert Pow2(0) == 1;
    assert StepsFrom(Pow2(0), size) == Schedule(size);
    forall k | 0 <= k < |Schedule(size)|
      ensures Schedule(size)[k] == Pow2(k) < size
    {
      StepsFromAt(0, size, k);
    }
    StepsFromEnd(0, size);
  }

  lemma ScheduleAt(size: nat, k: nat)
    requires k < |Schedule(size)|
    ensures Schedule(size)[k] == Pow2(k)
  {
    ScheduleIsPowersBelow(size);
  }

  /** With one process the loop does not run, total stays 0, and the output
      is the local inclusive scan (scan.c:17-18, 30-31). */
  lemma SingleProcess(data: seq<int>, rank: nat, received: seq<int>)
    requires |received| == |Schedule(1)|
    ensures Schedule(1) == [] && ReceivedSum(rank, Schedule(1), received, |received|) == 0
    ensures Offset(InclusiveScan(data), ReceivedSum(rank, Schedule(1), received, |received|)) == InclusiveScan(data)
  {
  }

  /** Whom rank sends to at a step (scan.c:24-25). */
  function SendPeer(rank: nat, step: nat, size: nat): Option<nat>
  {
    if rank + step < size then Some(rank + step) else None
  }

  /** Whom rank receives from at a step (scan.c:21-22). */
  function RecvPeer(rank: nat, step: nat): Option<nat>
  {
    if rank >= step then Some(rank - step) else None
  }

  /** Every send at a step is matched by a receive of the same step, and every
      receive of a rank in the group by a send. */
  lemma PairingSymmetric(rank: nat, peer: nat, step: nat, size: nat)
    requires rank < size && peer < size
    ensures SendPeer(rank, step, size) == Some(peer) <==> RecvPeer(peer, step) == Some(rank)
  {
  }

  // ---------------------------------------------------------------------
  // The rounds of one process

  /** One more round: the step below size is the next entry of the schedule. */
  lemma NextStep(step: nat, size: nat, schedule: seq<nat>, k: nat)
    requires 1 <= step < size && k <= |schedule| && StepsFrom(step, size) == schedule[k..]
    ensures k < |schedule| && schedule[k] == step && StepsFrom(2 * step, size) == schedule[k + 1..]
  {
    assert schedule[k..] == [step] + StepsFrom(2 * step, size);
    assert schedule[k + 1..] == schedule[k..][1..];
  }

  /** What a rank hands to MPI_Send at a step: the value when it has a
      higher partner, nothing otherwise. */
  function Outgoing(rank: nat, step: nat, size: nat, value: int): Option<int>
  {
    if SendPeer(rank, step, size).Some? then Some(value) else None
  }

  /** total after the first k rounds: recv_val is added in the rounds where
      the rank receives and is 0 in the others (scan.c:20-23, 27). */
  function ReceivedSum(rank: nat, steps: seq<nat>, received: seq<int>, k: nat): int
    requires k <= |steps| == |received|
  {
    if k == 0 then 0
    else ReceivedSum(rank, steps, received, k - 1) + (if steps[k - 1] <= rank then received[k - 1] else 0)
  }

  /** The rounds as written (scan.c:17-28): `received[k]` is what MPI_Recv
      delivers in round k. The value sent is the rank's own local_sum in every
      round, and total is the sum of the values received. */
  method ExchangeRounds(rank: nat, size: nat, localSum: int, received: seq<int>)
      returns (total: int, sent: seq<Option<int>>)
    requires |received| == |Schedule(size)|
    ensures total == ReceivedSum(rank, Schedule(size), received, |received|)
    ensures |sent| == |Schedule(size)|
    ensures forall k :: 0 <= k < |sent| ==>
      sent[k] == Outgoing(rank, Schedule(size)[k], size, localSum)
  {
    ghost var schedule := Schedule(size);
    total := 0;
    sent := [];
    var step := 1;
    var k := 0;
    while step < size
      invariant 1 <= step && k <= |schedule| && |sent| == k
      invariant StepsFrom(step, size) == schedule[k..]
      invariant total == ReceivedSum(rank, schedule, received, k)
      invariant forall q :: 0 <= q < k ==>
        sent[q] == Outgoing(rank, schedule[q], size, localSum)
      decreases size - step
    {
      NextStep(step, size, schedule, k);
      ghost var before := sent;
      var sendVal := localSum;
      var recvVal := 0;
      if rank >= step {
        recvVal := received[k];
      }
      if rank + step < size {
        sent := sent + [Some(sendVal)];
      } else {
        sent := sent + [None];
      }
      assert forall q :: 0 <= q < k ==> sent[q] == before[q];
      assert ReceivedSum(rank, schedule, received, k + 1) == total + recvVal;
      total := total + recvVal;
      step := 2 * step;
      k := k + 1;
    }
    assert StepsFrom(step, size) == [];
  }

  /** The as-written total of rank 3 in a group of four, when every rank sends
      its block sum: it is the sum of the block sums of ranks 1 and 2, and the
      block of rank 0 is missing (scan.c:19, 25). */
  lemma AsWrittenRankThree(sums: seq<int>, received: seq<int>)
    requires |sums| == 4 && received == [sums[2], sums[1]]
    ensures |received| == |Schedule(4)|
    ensures ReceivedSum(3, Schedule(4), received, 2) == Sum(sums[..3]) - sums[0]
  {
    assert Schedule(4) == [1, 2];
    var p := sums[..3];
    assert p[..2] == sums[..2] && sums[..2][..1] == sums[..1] && sums[..1][..0] == [];
    assert Sum(sums[..1]) == sums[0];
    assert Sum(sums[..2]) == sums[0] + sums[1];
    assert Sum(p) == sums[0] + sums[1] + sums[2];
    assert ReceivedSum(3, Schedule(4), received, 1) == sums[2];
  }

  /** The rounds with each rank forwarding what it has gathered: the value
      sent in round k is local_sum plus the total after k rounds
      (see README, Findings). */
  method ExchangeRoundsForwarding(rank: nat, size: nat, localSum: int, received: seq<int>)
      returns (total: int, sent: seq<Option<int>>)
    requires |received| == |Schedule(size)|
    ensures total == ReceivedSum(rank, Schedule(size), received, |received|)
    ensures |sent| == |Schedule(size)|
    ensures forall k {:trigger sent[k]} :: 0 <= k < |sent| ==>
      sent[k] == Outgoing(rank, Schedule(size)[k], size, localSum + ReceivedSum(rank, Schedule(size), received, k))
  {
    ghost var schedule := Schedule(size);
    total := 0;
    sent := [];
    var step := 1;
    var k := 0;
    while step < size
      invariant 1 <= step && k <= |schedule| && |sent| == k
      invariant StepsFrom(step, size) == schedule[k..]
      invariant total == ReceivedSum(rank, schedule, received, k)
      invariant forall q {:trigger sent[q]} :: 0 <= q < k ==>
        sent[q] == Outgoing(rank, schedule[q], size, localSum + ReceivedSum(rank, schedule, received, q))
      decreases size - step
    {
      NextStep(step, size, schedule, k);
      ghost var before := sent;
      var sendVal := localSum + total;
      var recvVal := 0;
      if rank >= step {
        recvVal := received[k];
      }
      if rank + step < size {
        sent := sent + [Some(sendVal)];
      } else {
        sent := sent + [None];
      }
      assert sent == before + [Outgoing(rank, schedule[k], size, localSum + ReceivedSum(rank, schedule, received, k))];
      assert ReceivedSum(rank, schedule, received, k + 1) == total + recvVal;
      total := total + recvVal;
      step := 2 * step;
      k := k + 1;
    }
    assert StepsFrom(step, size) == [];
  }

  /** custom_prefix_sum (scan.c:5-35) as written: every round sends the
      rank's own local_sum. The block becomes its inclusive scan raised by
      the total received. */
  method CustomPrefixSum(data: array<int>, rank: nat, size: nat, received: seq<int>)
      returns (sent: seq<Option<int>>)
    requires |received| == |Schedule(size)|
    modifies data
    ensures data[..] == Offset(InclusiveScan(old(data[..])), ReceivedSum(rank, Schedule(size), received, |received|))
    ensures |sent| == |Schedule(size)|
    ensures forall k {:trigger sent[k]} :: 0 <= k < |sent| ==>
      sent[k] == Outgoing(rank, Schedule(size)[k], size, Sum(old(data[..])))
  {
    var buffer, localSum := LocalInclusiveScan(data);
    var total;
    total, sent := ExchangeRounds(rank, size, localSum, received);
    AddOffset(data, buffer, total);
  }

  /** custom_prefix_sum corrected to forward what a rank has gathered: round k
      sends local_sum plus the total of the earlier rounds. */
  method CustomPrefixSumForwarding(data: array<int>, rank: nat, size: nat, received: seq<int>)
      returns (sent: seq<Option<int>>)
    requires |received| == |Schedule(size)|
    modifies data
    ensures data[..] == Offset(InclusiveScan(old(data[..])), ReceivedSum(rank, Schedule(size), received, |received|))
    ensures |sent| == |Schedule(size)|
    ensures forall k {:trigger sent[k]} :: 0 <= k < |sent| ==>
      sent[k] == Outgoing(rank, Schedule(size)[k], size, Sum(old(data[..])) + ReceivedSum(rank, Schedule(size), received, k))
  {
    var buffer, localSum := LocalInclusiveScan(data);
    var total;
    total, sent := ExchangeRoundsForwarding(rank, size, localSum, received);
    AddOffset(data, buffer, total);
  }

  // ---------------------------------------------------------------------
  // All processes at once

  /** The first index of the window of block sums a rank has gathered after k
      forwarding rounds (without its own). */
  function WindowStart(rank: nat, k: nat): nat
  {
    if rank + 1 >= Pow2(k) then rank + 1 - Pow2(k) else 0
  }

  /** The total of rank r after k forwarding rounds when every rank runs
      them, given the block sums of all ranks: in round k rank r adds what
      rank r - 2^k sent, its block sum plus its own total so far. */
  function RunningAt(sums: seq<int>, k: nat, r: nat): int
    requires r < |sums|
  {
    if k == 0 then 0
    else
      var step := Pow2(k - 1);
      RunningAt(sums, k - 1, r) + (if r >= step then sums[r - step] + RunningAt(sums, k - 1, r - step) else 0)
  }

  /** After k rounds every rank holds the sum of the block sums of the
      2^k - 1 ranks below it (or of all ranks below it, if fewer). */
  lemma {:induction false} RunningWindow(sums: seq<int>, k: nat, r: nat)
    requires r < |sums|
    ensures WindowStart(r, k) <= r && RunningAt(sums, k, r) == SumRange(sums, WindowStart(r, k), r)
  {
    if k > 0 {
      var step := Pow2(k - 1);
      assert Pow2(k) == 2 * step;
      RunningWindow(sums, k - 1, r);
      if r >= step {
        var q := r - step;
        RunningWindow(sums, k - 1, q);
        var lo := WindowStart(q, k - 1);
        assert lo == WindowStart(r, k) && WindowStart(r, k - 1) == q + 1;
        SumRangeSplit(sums, lo, q + 1, r);
      } else {
        assert WindowStart(r, k - 1) == 0 == WindowStart(r, k);
      }
    }
  }

  /** When the received values are what the partners send in the forwarding
      rounds, the total of a rank after k rounds is the all-ranks total RunningAt. */
  lemma {:induction false} RankFollowsRunning(sums: seq<int>, rank: nat, received: seq<int>, k: nat)
    requires rank < |sums| && |received| == |Schedule(|sums|)| && k <= |received|
    requires forall m :: 0 <= m < |received| && Schedule(|sums|)[m] <= rank ==>
      received[m] == sums[rank - Schedule(|sums|)[m]] + RunningAt(sums, m, rank - Schedule(|sums|)[m])
    ensures ReceivedSum(rank, Schedule(|sums|), received, k) == RunningAt(sums, k, rank)
  {
    if k > 0 {
      ghost var schedule := Schedule(|sums|);
      RankFollowsRunning(sums, rank, received, k - 1);
      ScheduleAt(|sums|, k - 1);
      var step := schedule[k - 1];
      assert ReceivedSum(rank, schedule, received, k)
          == ReceivedSum(rank, schedule, received, k - 1) + (if step <= rank then received[k - 1] else 0);
    }
  }

  /** The forwarding rounds give every rank the sum of the block sums of all
      lower ranks, so its outputs are the prefix sums of the whole
      distributed array. */
  lemma ForwardingTotalIsPrefix(sums: seq<int>, rank: nat, received: seq<int>)
    requires rank < |sums| && |received| == |Schedule(|sums|)|
    requires forall m :: 0 <= m < |received| && Schedule(|sums|)[m] <= rank ==>
      received[m] == sums[rank - Schedule(|sums|)[m]] + RunningAt(sums, m, rank - Schedule(|sums|)[m])
    ensures ReceivedSum(rank, Schedule(|sums|), received, |received|) == Sum(sums[..rank])
  {
    RankFollowsRunning(sums, rank, received, |received|);
    RunningWindow(sums, |received|, rank);
    SumRangeIsSum(sums, rank);
    ScheduleIsPowersBelow(|sums|);
    assert WindowStart(rank, |received|) == 0;
  }

  /** The blocks of all ranks, one after another. */
  function Concat(blocks: seq<seq<int>>): seq<int>
  {
    if |blocks| == 0 then [] else Concat(blocks[..|blocks| - 1]) + blocks[|blocks| - 1]
  }

  /** The block sums of all ranks. */
  function BlockSums(blocks: seq<seq<int>>): (s: seq<int>)
    ensures |s| == |blocks|
  {
    seq(|blocks|, q requires 0 <= q < |blocks| => Sum(blocks[q]))
  }

  lemma {:induction false} ConcatSum(blocks: seq<seq<int>>)
    ensures Sum(Concat(blocks)) == Sum(BlockSums(blocks))
    decreases |blocks|
  {
    if |blocks| > 0 {
      var n := |blocks|;
      ConcatSum(blocks[..n - 1]);
      SumAppend(Concat(blocks[..n - 1]), blocks[n - 1]);
      assert BlockSums(blocks)[..n - 1] == BlockSums(blocks[..n - 1]);
    }
  }

  /** Entry i of rank r's output is the sum of the whole distributed array up
      to and including that entry. */
  lemma OutputIsGlobalPrefix(blocks: seq<seq<int>>, rank: nat, i: nat)
    requires rank < |blocks| && i < |blocks[rank]|
    ensures Offset(InclusiveScan(blocks[rank]), Sum(BlockSums(blocks)[..rank]))[i]
            == Sum(Concat(blocks[..rank]) + blocks[rank][..i + 1])
  {
    ConcatSum(blocks[..rank]);
    assert BlockSums(blocks)[..rank] == BlockSums(blocks[..rank]);
    SumAppend(Concat(blocks[..rank]), blocks[rank][..i + 1]);
  }
}
