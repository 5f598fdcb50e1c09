/** The per-process arithmetic of NelsonMultiply (a3/nelson_complete.c:16-79).
    A group of size = 2^d processes is a d-dimensional hypercube; `log2` is
    not modelled, the dimension d is given and size is Pow2(d). What
    MPI_Sendrecv delivers (tempA, tempB) and what the two recursive calls
    add into C and into tempC are parameters: they depend on the other
    processes of the group. */
module Hypercube {
  import opened MatrixKernel
  import opened Powers

  /** mask = 1 << (dims - 1) (a3/nelson_complete.c:26-27). */
  function Mask(d: nat): nat
    requires d >= 1
  {
    Pow2(d - 1)
  }

  /** The mask is half the group. */
  lemma MaskIsHalf(d: nat)
    requires d >= 1
    ensures 2 * Mask(d) == Pow2(d)
  {
  }

  // ---------------------------------------------------------------------
  // Partners along the hypercube (a3/nelson_complete.c:36-37)

  /** rank ^ (1 << 0), for a rank that is not negative. */
  function HorizontalPartner(rank: nat): nat
  {
    if rank % 2 == 0 then rank + 1 else rank - 1
  }

  /** rank ^ (1 << 1), for a rank that is not negative. */
  function VerticalPartner(rank: nat): nat
  {
    if (rank / 2) % 2 == 0 then rank + 2 else rank - 2
  }

  /** Each partner differs from the rank and flipping the same bit twice
      gives the rank back. */
  lemma PartnersFlipOneBit(rank: nat)
    ensures HorizontalPartner(rank) != rank && VerticalPartner(rank) != rank
    ensures HorizontalPartner(HorizontalPartner(rank)) == rank
    ensures VerticalPartner(VerticalPartner(rank)) == rank
  {
  }

  lemma {:induction false} Pow2Mod4(d: nat)
    requires d >= 2
    ensures Pow2(d) % 4 == 0
  {
    assert Pow2(d) == 4 * Pow2(d - 2);
  }

  /** Only the group sizes 1, 2 and 4 are taken by dimensions 0, 1 and 2. */
  lemma {:induction false} Pow2Small(d: nat)
    ensures Pow2(d) == 1 <==> d == 0
    ensures Pow2(d) == 2 <==> d == 1
    ensures Pow2(d) == 4 <==> d == 2
    ensures d >= 3 ==> Pow2(d) >= 8
  {
    if d >= 4 {
      Pow2Small(d - 1);
    } else if d > 0 {
      Pow2Small(d - 1);
    }
  }

  /** In a group of at least four processes both partners are group members. */
  lemma PartnersInRange(d: nat, rank: nat)
    requires d >= 2 && rank < Pow2(d)
    ensures HorizontalPartner(rank) < Pow2(d) && VerticalPartner(rank) < Pow2(d)
  {
    Pow2Mod4(d);
  }

  /** In a group of two processes, rank ^ 2 is 2 or 3: not a group member. */
  lemma VerticalPartnerOutsidePair(rank: nat)
    requires rank < Pow2(1)
    ensures VerticalPartner(rank) >= Pow2(1) && HorizontalPartner(rank) < Pow2(1)
  {
  }

  // ---------------------------------------------------------------------
  // The group split (a3/nelson_complete.c:58)

  /** The colour of MPI_Comm_split(comm, rank < mask, rank, &sub_comm). */
  function Colour(rank: nat, mask: nat): bool
  {
    rank < mask
  }

  /** The number of ranks q < k whose colour is `colour`. */
  function CountColour(mask: nat, colour: bool, k: nat): nat
  {
    if k == 0 then 0
    else CountColour(mask, colour, k - 1) + (if Colour(k - 1, mask) == colour then 1 else 0)
  }

  /** The rank in the sub-group: ranks of one colour are ordered by their key,
      which is the old rank, so the new rank counts the smaller ones of the
      same colour. */
  function SubRank(rank: nat, mask: nat): nat
  {
    CountColour(mask, Colour(rank, mask), rank)
  }

  lemma {:induction false} CountColourClosed(mask: nat, k: nat)
    ensures CountColour(mask, true, k) == if k <= mask then k else mask
    ensures CountColour(mask, false, k) == if k <= mask then 0 else k - mask
  {
    if k > 0 {
      CountColourClosed(mask, k - 1);
    }
  }

  /** Each half of the split holds exactly mask = size/2 ranks. */
  lemma HalvesHaveMaskRanks(d: nat)
    requires d >= 1
    ensures CountColour(Mask(d), true, Pow2(d)) == Mask(d)
    ensures CountColour(Mask(d), false, Pow2(d)) == Mask(d)
  {
    CountColourClosed(Mask(d), Pow2(d));
  }

  /** The sub-group rank is the old rank in the lower half and rank - mask in
      the upper half, it lies below mask, and the split keeps the relative
      order of the ranks of each half. */
  lemma SubRankKeepsOrder(d: nat, rank: nat)
    requires d >= 1 && rank < Pow2(d)
    ensures SubRank(rank, Mask(d)) == if rank < Mask(d) then rank else rank - Mask(d)
    ensures SubRank(rank, Mask(d)) < Mask(d)
    ensures forall q: nat :: q < rank && Colour(q, Mask(d)) == Colour(rank, Mask(d)) ==>
      SubRank(q, Mask(d)) < SubRank(rank, Mask(d))
  {
    CountColourClosed(Mask(d), rank);
    forall q: nat | q < rank && Colour(q, Mask(d)) == Colour(rank, Mask(d))
      ensures SubRank(q, Mask(d)) < SubRank(rank, Mask(d))
    {
      CountColourClosed(Mask(d), q);
    }
  }

  // ---------------------------------------------------------------------
  // One call of NelsonMultiply on one process

  /** How a call ends: normally, or with MPI_Sendrecv given a partner rank
      outside the group (a fatal MPI error under the default error handler). */
  datatype Status = Done | InvalidPartner(partner: nat)

  /** The four-process combine (a3/nelson_complete.c:47-54): the two
      diagonal ranks 0 and 3 add A*tempB and tempA*B, ranks 1 and 2 add A*B
      and tempA*tempB. */
  method CombineFour(n: nat, rank: nat, a: array<real>, b: array<real>,
                     tempA: array<real>, tempB: array<real>, c: array<real>)
    requires a.Length == n * n && b.Length == n * n && c.Length == n * n
    requires tempA.Length == n * n && tempB.Length == n * n
    requires c != a && c != b && c != tempA && c != tempB
    modifies c
    ensures rank == 0 || rank == 3 ==>
      c[..] == Add(Add(old(c[..]), Product(n, a[..], tempB[..])), Product(n, tempA[..], b[..]))
    ensures rank != 0 && rank != 3 ==>
      c[..] == Add(Add(old(c[..]), Product(n, a[..], b[..])), Product(n, tempA[..], tempB[..]))
  {
    if rank == 0 || rank == 3 {
      MatrixMultiply(n, a, tempB, c);
      MatrixMultiply(n, tempA, b, c);
    } else {
      MatrixMultiply(n, a, b, c);
      MatrixMultiply(n, tempA, tempB, c);
    }
  }

  /** The recursive branch after the split (a3/nelson_complete.c:60-71), with
      what was in tempC before it: the first recursive call adds `first` into
      C, the second adds `second` into tempC, and the accumulate loop adds
      tempC into C. */
  method CombineHalves(n: nat, c: array<real>, tempC: array<real>,
                       first: array<real>, second: array<real>)
    requires c.Length == n * n && tempC.Length == n * n
    requires first.Length == n * n && second.Length == n * n
    requires c != tempC && c != first && c != second && tempC != first && tempC != second
    modifies c, tempC
    ensures tempC[..] == Add(old(tempC[..]), second[..])
    ensures c[..] == Add(Add(old(c[..]), first[..]), tempC[..])
  {
    Accumulate(n, c, first);
    Accumulate(n, tempC, second);
    Accumulate(n, c, tempC);
  }

  /** tempC comes from malloc and is never cleared
      (a3/nelson_complete.c:31, 62, 65, 69-71): entry i of C ends with the old
      C, both contributions and whatever was left in tempC, so any nonzero
      value left in that memory makes C differ from the sum of the
      contributions. */
  lemma UnclearedTempCReachesC(c0: seq<real>, first: seq<real>, tempC0: seq<real>, second: seq<real>, i: nat)
    requires |c0| == |first| == |tempC0| == |second| && i < |c0|
    ensures Add(Add(c0, first), Add(tempC0, second))[i] == c0[i] + first[i] + second[i] + tempC0[i]
    ensures tempC0[i] != 0.0 ==> Add(Add(c0, first), Add(tempC0, second)) != Add(Add(c0, first), second)
  {
    if tempC0[i] != 0.0 {
      assert Add(Add(c0, first), Add(tempC0, second))[i] != Add(Add(c0, first), second)[i];
    }
  }

  /** Starting from a cleared tempC, the recursive branch adds exactly the two
      contributions of the recursive calls. */
  lemma ClearedTempCAddsContributions(c0: seq<real>, first: seq<real>, second: seq<real>)
    requires |c0| == |first| == |second|
    ensures Add(Add(c0, first), Add(Zeros(|c0|), second)) == Add(Add(c0, first), second)
  {
  }

  /** One call of NelsonMultiply on the process `rank` of a group of Pow2(d)
      processes. tempA and tempB are what MPI_Sendrecv delivers from the
      horizontal and the vertical partner; first and second are what the two
      recursive calls on the sub-group add into C and into tempC. tempC is
      allocated cleared here (see README, Findings). */
  method NelsonMultiply(n: nat, d: nat, rank: nat, a: array<real>, b: array<real>, c: array<real>,
                        tempA: array<real>, tempB: array<real>,
                        first: array<real>, second: array<real>) returns (status: Status)
    requires rank < Pow2(d)
    requires a.Length == n * n && b.Length == n * n && c.Length == n * n
    requires tempA.Length == n * n && tempB.Length == n * n
    requires first.Length == n * n && second.Length == n * n
    requires c != a && c != b && c != tempA && c != tempB && c != first && c != second
    modifies c
    ensures d == 0 ==> status == Done && c[..] == Add(old(c[..]), Product(n, a[..], b[..]))
    ensures d == 1 ==> status == InvalidPartner(VerticalPartner(rank)) && c[..] == old(c[..])
    ensures d == 2 && (rank == 0 || rank == 3) ==>
      status == Done &&
      c[..] == Add(Add(old(c[..]), Product(n, a[..], tempB[..])), Product(n, tempA[..], b[..]))
    ensures d == 2 && rank != 0 && rank != 3 ==>
      status == Done &&
      c[..] == Add(Add(old(c[..]), Product(n, a[..], b[..])), Product(n, tempA[..], tempB[..]))
    ensures d >= 3 ==> status == Done && c[..] == Add(Add(old(c[..]), first[..]), second[..])
  {
    var size := Pow2(d);
    Pow2Small(d);
    if size == 1 {
      MatrixMultiply(n, a, b, c);
      return Done;
    }
    var horizontal := HorizontalPartner(rank);
    var vertical := VerticalPartner(rank);
    if horizontal >= size {
      return InvalidPartner(horizontal);
    }
    if vertical >= size {
      return InvalidPartner(vertical);
    }
    PartnersInRange(d, rank);
    if size == 4 {
      CombineFour(n, rank, a, b, tempA, tempB, c);
    } else {
      var tempC := new real[n * n](_ => 0.0);
      ghost var c0 := c[..];
      assert tempC[..] == Zeros(n * n);
      CombineHalves(n, c, tempC, first, second);
      ClearedTempCAddsContributions(c0, first[..], second[..]);
    }
    status := Done;
  }
}
