/** The phase loop of odd_even.c and why it sorts: after `size` phases the
    values of ranks 0 .. size-1 are non-decreasing in rank order. The proof
    goes through the 0-1 principle: a threshold map commutes with every phase,
    so it is enough to show that every sequence of zeros and ones is sorted
    after as many phases as it has elements. */
module OddEvenSort {
  import opened Wrappers
  import opened OddEvenPhase

  // ---------------------------------------------------------------------
  // The main loop: all ranks, and one rank

  /** The phase loop of odd_even.c:23-46 over the values of all ranks. */
  method OddEvenSort(a: array<int>)
    modifies a
    ensures a[..] == Run(old(a[..]), a.Length)
    ensures Sorted(a[..])
    ensures multiset(a[..]) == multiset(old(a[..]))
  {
    for phase := 0 to a.Length
      invariant a[..] == Run(old(a[..]), phase)
      invariant multiset(a[..]) == multiset(old(a[..]))
    {
      PhasePass(a, phase);
    }
    RunSorts(old(a[..]));
  }

  /** The loop of odd_even.c:23-46 as one rank runs it: `received[phase]` is
      the value MPI_Sendrecv delivers in that phase. When every partner sends
      its value of that phase, the rank ends with its entry of the sequential
      run, so by RunSorts rank r holds the value of rank order r. */
  method RankLoop(initial: seq<int>, rank: nat, received: seq<int>) returns (myValue: int)
    requires rank < |initial| && |received| == |initial|
    requires forall phase {:trigger received[phase]} :: 0 <= phase < |initial| && Partner(phase, rank, |initial|).Some? ==>
      received[phase] == Run(initial, phase)[Partner(phase, rank, |initial|).value]
    ensures myValue == Run(initial, |initial|)[rank]
  {
    var size := |initial|;
    myValue := initial[rank];
    for phase := 0 to size
      invariant myValue == Run(initial, phase)[rank]
    {
      ghost var current := Run(initial, phase);
      var partner := Partner(phase, rank, size);
      var recvValue := if partner.Some? then received[phase] else 0;
      assert recvValue == if partner.Some? then current[partner.value] else 0;
      PhaseEntry(current, phase, rank);
      myValue := Exchange(rank, partner, myValue, recvValue);
    }
  }

  // ---------------------------------------------------------------------
  // The 0-1 principle

  /** 1 where the value is at least c, 0 elsewhere. */
  function Threshold(s: seq<int>, c: int): (r: seq<int>)
    ensures |r| == |s|
  {
    seq(|s|, i requires 0 <= i < |s| => if s[i] >= c then 1 else 0)
  }

  /** A threshold commutes with one phase. */
  lemma ThresholdPhase(s: seq<int>, c: int, phase: nat)
    ensures Threshold(Phase(s, phase), c) == Phase(Threshold(s, c), phase)
  {
    PhaseIsPairwiseMinMax(s, phase);
    PhaseIsPairwiseMinMax(Threshold(s, c), phase);
  }

  /** A threshold commutes with any number of phases. */
  lemma {:induction false} ThresholdRun(s: seq<int>, c: int, t: nat)
    ensures Threshold(Run(s, t), c) == Run(Threshold(s, c), t)
  {
    if t > 0 {
      ThresholdRun(s, c, t - 1);
      ThresholdPhase(Run(s, t - 1), c, t - 1);
    }
  }

  /** After as many phases as there are ranks the values are sorted
      (the claim of odd_even.c:22 and 50). */
  lemma RunSorts(s: seq<int>)
    ensures Sorted(Run(s, |s|))
  {
    var r := Run(s, |s|);
    forall i, j | 0 <= i < j < |r|
      ensures r[i] <= r[j]
    {
      var c := r[i];
      ThresholdRun(s, c, |s|);
      ZeroOneSorted(Threshold(s, c));
      assert Threshold(r, c)[i] <= Threshold(r, c)[j];
    }
  }

  // ---------------------------------------------------------------------
  // Sequences of zeros and ones

  ghost predicate ZeroOne(b: seq<int>)
  {
    forall i :: 0 <= i < |b| ==> b[i] == 0 || b[i] == 1
  }

  /** The number of ones in b[p..]; for a one at p this is its rank counted
      from the right end, and it is not changed by a phase that moves it. */
  function Ones(b: seq<int>, p: nat): int
    decreases |b| - p
  {
    if p >= |b| then 0 else b[p] + Ones(b, p + 1)
  }

  ghost predicate AllOnes(b: seq<int>, p: nat)
  {
    forall q :: p <= q < |b| ==> b[q] == 1
  }

  /** The one at p is compared with a zero on its right in phase t. */
  ghost predicate Free(b: seq<int>, p: nat, t: nat)
  {
    p % 2 == t % 2 && p + 1 < |b| && b[p + 1] == 0
  }

  /** The invariant after t phases: every one whose count from the right is at
      most t has reached its final block or moves right in phase t, and it is
      no further left than t phases of progress allow. */
  ghost predicate Inv(b: seq<int>, t: nat)
  {
    forall p :: 0 <= p < |b| && b[p] == 1 && Ones(b, p) <= t ==>
      (AllOnes(b, p) || Free(b, p, t)) && p + Ones(b, p) >= Min(|b|, t)
  }

  lemma {:induction false} OnesBound(b: seq<int>, p: nat)
    requires ZeroOne(b) && p <= |b|
    ensures 0 <= Ones(b, p) <= |b| - p
    ensures Ones(b, p) == |b| - p <==> AllOnes(b, p)
    decreases |b| - p
  {
    if p < |b| {
      OnesBound(b, p + 1);
    }
  }

  lemma PhaseZeroOne(b: seq<int>, t: nat)
    requires ZeroOne(b)
    ensures ZeroOne(Phase(b, t))
  {
    PhaseIsPairwiseMinMax(b, t);
  }

  /** A phase only exchanges within pairs, so the count of ones in a suffix
      that does not start in the middle of a pair is unchanged. */
  lemma {:induction false} OnesPreserved(b: seq<int>, t: nat, q: nat)
    requires q <= |b|
    requires q % 2 == t % 2 || q == 0
    ensures Ones(Phase(b, t), q) == Ones(b, q)
    decreases |b| - q
  {
    var b' := Phase(b, t);
    if q < |b| && q % 2 != t % 2 {
      // q == 0 in an odd phase: rank 0 has no partner
      PhaseAt(b, t, 0);
      OnesPreserved(b, t, 1);
    } else if q + 1 < |b| {
      PhaseAt(b, t, q);
      PhaseAt(b, t, q + 1);
      Parity(q);
      OnesPreserved(b, t, q + 2);
      assert Ones(b', q) == b'[q] + b'[q + 1] + Ones(b', q + 2);
      assert Ones(b, q) == b[q] + b[q + 1] + Ones(b, q + 2);
    } else if q < |b| {
      PhaseAt(b, t, q);
    }
  }

  /** A block of ones at the right end stays in place. */
  lemma AllOnesStable(b: seq<int>, t: nat, q: nat)
    requires ZeroOne(b) && AllOnes(b, q)
    ensures AllOnes(Phase(b, t), q)
  {
    PhaseIsPairwiseMinMax(b, t);
    forall k | q <= k < |b|
      ensures Phase(b, t)[k] == 1
    {
      assert Phase(b, t)[k] == PairwiseMinMax(b, t, k);
      assert b[k] == 1;
      if k + 1 < |b| {
        assert b[k + 1] == 1;
      }
    }
  }

  /** The left element of a pair ends as a zero or at the head of the final
      block of ones, when that is so for its old one. */
  lemma LeftSlot(b: seq<int>, t: nat, q: nat)
    requires ZeroOne(b) && Inv(b, t)
    requires q < |b| && q % 2 == t % 2
    requires b[q] == 1 ==> Ones(b, q) <= t
    ensures Phase(b, t)[q] == 0 || AllOnes(Phase(b, t), q)
  {
    PhaseIsPairwiseMinMax(b, t);
    if b[q] == 1 {
      if AllOnes(b, q) {
        AllOnesStable(b, t, q);
      } else {
        assert Free(b, q, t);
      }
    }
  }

  /** The invariant holds after phase t at a position p that is the left
      element of a pair or the unpaired last rank. */
  lemma StepAtLeft(b: seq<int>, t: nat, p: nat)
    requires ZeroOne(b) && Inv(b, t)
    requires p < |b| && Phase(b, t)[p] == 1 && Ones(Phase(b, t), p) <= t + 1
    requires p % 2 == t % 2
    ensures AllOnes(Phase(b, t), p)
  {
    PhaseIsPairwiseMinMax(b, t);
    if p + 1 < |b| {
      // both b[p] and b[p + 1] are one
      assert b[p] == 1 && b[p + 1] == 1;
      OnesPreserved(b, t, p);
      if Ones(b, p) > t {
        assert Ones(b, p + 1) == Ones(b, p) - 1;
        assert !Free(b, p + 1, t);
        assert AllOnes(b, p + 1);
      }
      AllOnesStable(b, t, p);
    }
  }

  /** A one at a right element p after phase t, with at most t + 1 ones from
      p on: it heads the final block or faces a zero in phase t + 1. */
  lemma RightIsFree(b: seq<int>, t: nat, p: nat)
    requires ZeroOne(b) && Inv(b, t)
    requires p < |b| && Phase(b, t)[p] == 1 && Ones(Phase(b, t), p) <= t + 1
    requires p % 2 != t % 2
    ensures AllOnes(Phase(b, t), p) || Free(Phase(b, t), p, t + 1)
  {
    var b' := Phase(b, t);
    assert (p + 1) % 2 == t % 2 && p % 2 == (t + 1) % 2;
    if p + 1 < |b| {
      OnesPreserved(b, t, p + 1);
      assert Ones(b', p) == 1 + Ones(b', p + 1);
      LeftSlot(b, t, p + 1);
      if b'[p + 1] != 0 {
        assert AllOnes(b', p + 1);
      }
    }
  }

  /** The same one has made the progress that t + 1 phases allow. */
  lemma RightProgress(b: seq<int>, t: nat, p: nat)
    requires ZeroOne(b) && Inv(b, t)
    requires p < |b| && Phase(b, t)[p] == 1 && Ones(Phase(b, t), p) <= t
    requires p % 2 != t % 2
    ensures p + Ones(Phase(b, t), p) >= Min(|b|, t + 1)
  {
    var b' := Phase(b, t);
    assert (p + 1) % 2 == t % 2;
    OnesPreserved(b, t, p + 1);
    assert Ones(b', p) == 1 + Ones(b', p + 1);
    PhaseAt(b, t, p);
    if b[p] == 1 {
      assert !Free(b, p, t);
      OnesBound(b, p);
    } else {
      assert b[p - 1] == 1 && Ones(b, p - 1) == 1 + Ones(b, p);
    }
  }

  /** The invariant holds after phase t at a position p that is the right
      element of a pair or rank 0 in an odd phase. */
  lemma StepAtRight(b: seq<int>, t: nat, p: nat)
    requires ZeroOne(b) && Inv(b, t)
    requires p < |b| && Phase(b, t)[p] == 1 && Ones(Phase(b, t), p) <= t + 1
    requires p % 2 != t % 2
    ensures AllOnes(Phase(b, t), p) || Free(Phase(b, t), p, t + 1)
    ensures p + Ones(Phase(b, t), p) >= Min(|b|, t + 1)
  {
    RightIsFree(b, t, p);
    if Ones(Phase(b, t), p) <= t {
      RightProgress(b, t, p);
    }
  }

  /** One phase keeps the invariant, with the phase count advanced. */
  lemma InvStep(b: seq<int>, t: nat)
    requires ZeroOne(b) && Inv(b, t)
    ensures Inv(Phase(b, t), t + 1)
  {
    forall p | 0 <= p < |b| && Phase(b, t)[p] == 1 && Ones(Phase(b, t), p) <= t + 1
      ensures (AllOnes(Phase(b, t), p) || Free(Phase(b, t), p, t + 1))
        && p + Ones(Phase(b, t), p) >= Min(|b|, t + 1)
    {
      PhaseZeroOne(b, t);
      if p % 2 == t % 2 {
        StepAtLeft(b, t, p);
        OnesBound(Phase(b, t), p);
      } else {
        StepAtRight(b, t, p);
      }
    }
  }

  lemma {:induction false} InvRun(b: seq<int>, t: nat)
    requires ZeroOne(b)
    ensures ZeroOne(Run(b, t)) && Inv(Run(b, t), t)
  {
    if t == 0 {
      forall p | 0 <= p < |b| && b[p] == 1
        ensures Ones(b, p) >= 1
      {
        OnesBound(b, p + 1);
      }
    } else {
      InvRun(b, t - 1);
      PhaseZeroOne(Run(b, t - 1), t - 1);
      InvStep(Run(b, t - 1), t - 1);
    }
  }

  /** A sequence of zeros and ones is sorted after as many phases as it has
      elements. */
  lemma ZeroOneSorted(b: seq<int>)
    requires ZeroOne(b)
    ensures Sorted(Run(b, |b|))
  {
    var r := Run(b, |b|);
    InvRun(b, |b|);
    forall i, j | 0 <= i < j < |r|
      ensures r[i] <= r[j]
    {
      if r[i] == 1 {
        OnesBound(r, i);
      }
    }
  }
}
