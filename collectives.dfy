/**
 * The MPI collectives that generate_clusters relies on, as pure functions of
 * the per-rank contributions: element r of a sequence is what rank r passes
 * in. MPI_Allreduce(MPI_SUM) is Sum, MPI_Allreduce(MPI_MAX) is Max and
 * MPI_Scan(MPI_SUM) is Scan. IdOffset is the arithmetic that turns a rank's
 * scan result into the first global cluster id it hands out.
 */
module Collectives {

  /** Sum over all ranks (MPI_Allreduce with MPI_SUM). */
  function Sum(xs: seq<int>): int
  {
    if xs == [] then 0 else Sum(xs[..|xs| - 1]) + xs[|xs| - 1]
  }

  /** Inclusive prefix sum as rank r sees it (MPI_Scan with MPI_SUM). */
  function Scan(xs: seq<int>, r: nat): int
    requires r < |xs|
  {
    if r == 0 then xs[0] else Scan(xs, r - 1) + xs[r]
  }

  /** Maximum over all ranks (MPI_Allreduce with MPI_MAX): an upper bound that some rank attains. */
  function Max(xs: seq<int>): (m: int)
    requires |xs| > 0
    ensures forall r :: 0 <= r < |xs| ==> xs[r] <= m
    ensures exists r :: 0 <= r < |xs| && xs[r] == m
  {
    if |xs| == 1 then xs[0]
    else
      var m' := Max(xs[..|xs| - 1]);
      assert forall r :: 0 <= r < |xs| - 1 ==> xs[..|xs| - 1][r] == xs[r];
      if xs[|xs| - 1] <= m' then m' else xs[|xs| - 1]
  }

  /** First global id of rank r: the scan result minus the rank's own count, plus one. */
  function IdOffset(counts: seq<int>, r: nat): int
    requires r < |counts|
  {
    Scan(counts, r) - counts[r] + 1
  }

  /** Rank r owns the global ids IdOffset(counts, r) .. IdOffset(counts, r) + counts[r] - 1. */
  predicate InRange(counts: seq<int>, r: nat, g: int)
    requires r < |counts|
  {
    IdOffset(counts, r) <= g < IdOffset(counts, r) + counts[r]
  }

  predicate NonNegative(xs: seq<int>)
  {
    forall r :: 0 <= r < |xs| ==> xs[r] >= 0
  }

  /** The scan is the sum of the contributions of ranks 0..r. */
  lemma {:induction false} ScanIsPrefixSum(xs: seq<int>, r: nat)
    requires r < |xs|
    ensures Scan(xs, r) == Sum(xs[..r + 1])
  {
    assert xs[..r + 1][..r] == xs[..r];
    if r > 0 {
      ScanIsPrefixSum(xs, r - 1);
    } else {
      assert xs[..0] == [];
    }
  }

  /**
   * The offset is one more than the total count of the ranks before r, so
   * rank r hands out 1 + (n_0 + ... + n_{r-1}) .. n_0 + ... + n_r.
   */
  lemma IdOffsetIsExclusivePrefix(counts: seq<int>, r: nat)
    requires r < |counts|
    ensures IdOffset(counts, r) == 1 + Sum(counts[..r])
    ensures IdOffset(counts, r) + counts[r] - 1 == Sum(counts[..r + 1])
  {
    ScanIsPrefixSum(counts, r);
    assert counts[..r + 1][..r] == counts[..r];
  }

  /** The coordinator (rank 0) always starts at global id 1. */
  lemma CoordinatorOffset(counts: seq<int>)
    requires |counts| > 0
    ensures IdOffset(counts, 0) == 1
  {
  }

  /** Sums of non-negative contributions grow with the prefix. */
  lemma {:induction false} PrefixSumMonotone(xs: seq<int>, a: nat, b: nat)
    requires NonNegative(xs)
    requires a <= b <= |xs|
    ensures Sum(xs[..a]) <= Sum(xs[..b])
  {
    if a < b {
      PrefixSumMonotone(xs, a, b - 1);
      assert xs[..b][..b - 1] == xs[..b - 1];
    }
  }

  /** Ranges of distinct ranks never overlap: every id of rank r is below every id of a later rank s. */
  lemma IdRangesDisjoint(counts: seq<int>, r: nat, s: nat)
    requires NonNegative(counts)
    requires r < s < |counts|
    ensures IdOffset(counts, r) + counts[r] <= IdOffset(counts, s)
    ensures forall g :: InRange(counts, r, g) ==> !InRange(counts, s, g)
  {
    IdOffsetIsExclusivePrefix(counts, r);
    IdOffsetIsExclusivePrefix(counts, s);
    PrefixSumMonotone(counts, r + 1, s);
  }

  /** The ranges of the first k ranks lie within, and cover, 1 .. Sum(counts[..k]). */
  lemma {:induction false} IdRangesCoverPrefix(counts: seq<int>, k: nat, g: int)
    requires NonNegative(counts)
    requires k <= |counts|
    ensures 1 <= g <= Sum(counts[..k]) <==> exists r :: 0 <= r < k && InRange(counts, r, g)
  {
    if k == 0 {
      assert counts[..0] == [];
    } else {
      IdRangesCoverPrefix(counts, k - 1, g);
      IdOffsetIsExclusivePrefix(counts, k - 1);
      assert counts[..k][..k - 1] == counts[..k - 1];
      if 1 <= g <= Sum(counts[..k]) && g > Sum(counts[..k - 1]) {
        assert InRange(counts, k - 1, g);
      }
      if exists r :: 0 <= r < k && InRange(counts, r, g) {
        var r :| 0 <= r < k && InRange(counts, r, g);
        IdOffsetIsExclusivePrefix(counts, r);
        PrefixSumMonotone(counts, 0, r);
        PrefixSumMonotone(counts, r + 1, k);
        assert counts[..0] == [];
      }
    }
  }

  /** Together the ranges of all ranks are exactly the ids 1 .. the global cluster count. */
  lemma IdRangesCover(counts: seq<int>, g: int)
    requires NonNegative(counts)
    ensures 1 <= g <= Sum(counts) <==> exists r :: 0 <= r < |counts| && InRange(counts, r, g)
  {
    IdRangesCoverPrefix(counts, |counts|, g);
    assert counts[..|counts|] == counts;
  }
}
