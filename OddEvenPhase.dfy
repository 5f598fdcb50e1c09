/** The compare-exchange rule of odd_even.c. Every MPI rank holds one value;
    the model keeps the values of all ranks in one sequence indexed by rank,
    so that one phase of the distributed sort becomes one function (and one
    in-place pass over an array) on that sequence. */
module OddEvenPhase {
  import opened Wrappers

  function Min(x: int, y: int): int { if x <= y then x else y }
  function Max(x: int, y: int): int { if x <= y then y else x }

  /** The partner rank before the range check (odd_even.c:26-30): in an even
      phase an even rank looks right and an odd rank looks left, in an odd
      phase the other way round. */
  function RawPartner(phase: nat, rank: nat): int
  {
    if phase % 2 == 0 then
      (if rank % 2 == 0 then rank + 1 else rank - 1)
    else
      (if rank % 2 == 0 then rank - 1 else rank + 1)
  }

  /** The partner after the range check (odd_even.c:32-33): a partner outside
      [0, size) becomes MPI_PROC_NULL, modelled as None. */
  function Partner(phase: nat, rank: nat, size: nat): (p: Option<nat>)
    ensures p.Some? ==> p.value < size
  {
    var q := RawPartner(phase, rank);
    if q < 0 || q >= size then None else Some(q)
  }

  /** The value a rank keeps after the exchange (odd_even.c:40-45); `received`
      is what MPI_Sendrecv delivered and is ignored for MPI_PROC_NULL. */
  function Exchange(rank: nat, partner: Option<nat>, mine: int, received: int): int
  {
    match partner
    case None => mine
    case Some(p) =>
      if (rank < p && mine > received) || (rank > p && mine < received) then received else mine
  }

  /** One phase run by every rank at once: rank r keeps Exchange of its own
      value and its partner's value from before the phase. */
  function Phase(s: seq<int>, phase: nat): (r: seq<int>)
    ensures |r| == |s|
  {
    seq(|s|, rank requires 0 <= rank < |s| =>
      var p := Partner(phase, rank, |s|);
      Exchange(rank, p, s[rank], if p.Some? then s[p.value] else 0))
  }

  /** Entry r of a phase, as rank r computes it from its own value and its
      partner's. */
  lemma PhaseEntry(s: seq<int>, phase: nat, r: nat)
    requires r < |s|
    ensures var p := Partner(phase, r, |s|);
      Phase(s, phase)[r] == Exchange(r, p, s[r], if p.Some? then s[p.value] else 0)
  {
  }

  /** The values after phases 0 .. t-1 (the loop at odd_even.c:23). */
  function Run(s: seq<int>, t: nat): (r: seq<int>)
    ensures |r| == |s|
  {
    if t == 0 then s else Phase(Run(s, t - 1), t - 1)
  }

  ghost predicate Sorted(s: seq<int>)
  {
    forall i, j :: 0 <= i < j < |s| ==> s[i] <= s[j]
  }

  // ---------------------------------------------------------------------
  // The partner function

  /** Even phases pair (0,1), (2,3), ...; odd phases pair (1,2), (3,4), ...;
      the partner is always one rank away. */
  lemma PartnerPairs(phase: nat, rank: nat)
    ensures RawPartner(phase, rank) == rank + 1 <==> rank % 2 == phase % 2
    ensures RawPartner(phase, rank) == rank - 1 <==> rank % 2 != phase % 2
  {
  }

  /** Partnering is symmetric: the partner of an in-range partner is the rank. */
  lemma PartnerSymmetric(phase: nat, rank: nat, size: nat)
    requires rank < size
    requires Partner(phase, rank, size).Some?
    ensures Partner(phase, Partner(phase, rank, size).value, size) == Some(rank)
  {
  }

  /** The lower rank of a pair keeps the minimum, the higher the maximum, and a
      rank without partner keeps its value. */
  lemma ExchangeKeepsMinMax(rank: nat, partner: Option<nat>, mine: int, received: int)
    ensures partner.None? ==> Exchange(rank, partner, mine, received) == mine
    ensures partner.Some? && rank < partner.value ==>
      Exchange(rank, partner, mine, received) == Min(mine, received)
    ensures partner.Some? && rank > partner.value ==>
      Exchange(rank, partner, mine, received) == Max(mine, received)
  {
  }

  /** What one phase puts at position r, stated without ranks: the left
      element of a pair takes the minimum, the right element the maximum, an
      unpaired element is kept. */
  function PairwiseMinMax(s: seq<int>, phase: nat, r: nat): int
    requires r < |s|
  {
    if r % 2 == phase % 2 && r + 1 < |s| then Min(s[r], s[r + 1])
    else if r % 2 != phase % 2 && r >= 1 then Max(s[r - 1], s[r])
    else s[r]
  }

  /** What rank r keeps after the phase is the pairwise compare-exchange. */
  lemma PhaseAt(s: seq<int>, phase: nat, r: nat)
    requires r < |s|
    ensures Phase(s, phase)[r] == PairwiseMinMax(s, phase, r)
  {
    PartnerPairs(phase, r);
  }

  /** Neighbouring ranks have different parities; ranks two apart the same. */
  lemma Parity(r: nat)
    ensures (r + 1) % 2 != r % 2 && (r + 2) % 2 == r % 2
  {
  }

  /** The phase run by every rank is the pairwise compare-exchange. */
  lemma PhaseIsPairwiseMinMax(s: seq<int>, phase: nat)
    ensures forall r :: 0 <= r < |s| ==> Phase(s, phase)[r] == PairwiseMinMax(s, phase, r)
  {
    forall r | 0 <= r < |s|
      ensures Phase(s, phase)[r] == PairwiseMinMax(s, phase, r)
    {
      PhaseAt(s, phase, r);
    }
  }

  // ---------------------------------------------------------------------
  // One phase in place

  /** Both sides of one pair apply the rule of odd_even.c:40-45 to each
      other's old value. */
  method CompareExchange(a: array<int>, lo: nat, hi: nat)
    requires lo < hi < a.Length
    modifies a
    ensures a[lo] == Min(old(a[lo]), old(a[hi])) && a[hi] == Max(old(a[lo]), old(a[hi]))
    ensures forall k :: 0 <= k < a.Length && k != lo && k != hi ==> a[k] == old(a[k])
    ensures multiset(a[..]) == multiset(old(a[..]))
  {
    var low := Exchange(lo, Some(hi), a[lo], a[hi]);
    var high := Exchange(hi, Some(lo), a[hi], a[lo]);
    if low == a[lo] {
      assert high == a[hi];
    } else {
      assert low == a[hi] && high == a[lo];
    }
    a[lo], a[hi] := low, high;
  }

  /** The pair (lo, lo + 1), the m-th pair of a phase: its left element takes
      the minimum and its right element the maximum. */
  lemma PairAt(s: seq<int>, phase: nat, lo: nat, m: nat)
    requires lo == phase % 2 + 2 * m && lo + 1 < |s|
    ensures PairwiseMinMax(s, phase, lo) == Min(s[lo], s[lo + 1])
    ensures PairwiseMinMax(s, phase, lo + 1) == Max(s[lo], s[lo + 1])
  {
    assert lo % 2 == phase % 2 && (lo + 1) % 2 != phase % 2;
  }

  /** The positions outside every pair of a phase: rank 0 in an odd phase,
      and the last rank when it would pair with a rank beyond the end. */
  lemma UnpairedAt(s: seq<int>, phase: nat, k: nat, m: nat)
    requires k < |s|
    requires (k == 0 && phase % 2 == 1) || (k == phase % 2 + 2 * m && k + 1 == |s|)
    ensures PairwiseMinMax(s, phase, k) == s[k]
  {
    assert k == phase % 2 + 2 * m ==> k % 2 == phase % 2;
  }

  /** One phase over the values of all ranks: the pairs of the phase are
      disjoint, so they are handled one after another. The result is the
      simultaneous phase, and the values are only permuted. */
  method PhasePass(a: array<int>, phase: nat)
    modifies a
    ensures a[..] == Phase(old(a[..]), phase)
    ensures multiset(a[..]) == multiset(old(a[..]))
  {
    ghost var s := a[..];
    ghost var m := 0;
    var lo := phase % 2;
    if lo == 1 && a.Length > 0 {
      UnpairedAt(s, phase, 0, 0);
    }
    while lo + 1 < a.Length
      invariant lo == phase % 2 + 2 * m && lo <= a.Length + 1
      invariant forall k :: 0 <= k < lo && k < a.Length ==> a[k] == PairwiseMinMax(s, phase, k)
      invariant forall k :: lo <= k < a.Length ==> a[k] == s[k]
      invariant multiset(a[..]) == multiset(s)
    {
      PairAt(s, phase, lo, m);
      CompareExchange(a, lo, lo + 1);
      lo := lo + 2;
      m := m + 1;
    }
    if lo < a.Length {
      UnpairedAt(s, phase, lo, m);
    }
    assert forall k :: 0 <= k < a.Length ==> a[k] == PairwiseMinMax(s, phase, k);
    PhaseIsPairwiseMinMax(s, phase);
  }
}
