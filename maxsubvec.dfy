/**
 * Maximum subvector of geo/maxsubvec.cpp.  subvec_ineffic tries every non-empty range
 * [start, end) in order of start and then end, and keeps the first one with the largest sum;
 * subvec_sweep makes one pass, keeping the best sum of a range that ends at the current index,
 * and may also return the empty range (0, 0) with sum 0.  Elements and sums are unbounded
 * integers here; the source sums in a wider integer type (int64 for int32 data).
 */
module MaxSubvec {

  /** The largest value of the sum type (int64 in the test driver); subvec_ineffic starts from its
    * negation. */
  const LargestSum: int := 0x7FFF_FFFF_FFFF_FFFF

  /** Σ a[s..e). */
  function Sum(a: seq<int>, s: nat, e: nat): int
    requires s <= e <= |a|
    decreases e - s
  {
    if s == e then 0 else Sum(a, s, e - 1) + a[e - 1]
  }

  /** A range sum splits at any point in between. */
  lemma {:induction false} SumSplit(a: seq<int>, s: nat, m: nat, e: nat)
    requires s <= m <= e <= |a|
    ensures Sum(a, s, e) == Sum(a, s, m) + Sum(a, m, e)
    decreases e - m
  {
    if m < e {
      SumSplit(a, s, m, e - 1);
    }
  }

  /** subvec_ineffic: (start, end, sum) of the first range, in order of start and then end, whose
    * sum is the largest of all non-empty ranges; (0, 0, -LargestSum) when there is no range with a
    * larger sum than that. */
  method SubvecIneffic(arr: seq<int>) returns (startIdx: nat, endIdx: nat, val: int)
    ensures val >= -LargestSum
    ensures forall s, e :: 0 <= s < e <= |arr| ==> Sum(arr, s, e) <= val
    ensures val == -LargestSum ==> startIdx == 0 && endIdx == 0
    ensures val > -LargestSum ==> startIdx < endIdx <= |arr| && Sum(arr, startIdx, endIdx) == val
    ensures val > -LargestSum ==> forall s, e :: 0 <= s < e <= |arr| && (s < startIdx || (s == startIdx && e < endIdx)) ==>
      Sum(arr, s, e) < val
  {
    startIdx, endIdx := 0, 0;
    val := -LargestSum;
    for start := 0 to |arr|
      invariant val >= -LargestSum
      invariant val == -LargestSum ==> startIdx == 0 && endIdx == 0
      invariant val > -LargestSum ==> startIdx < endIdx <= |arr| && startIdx < start && Sum(arr, startIdx, endIdx) == val
      invariant forall s, e :: 0 <= s < start && s < e <= |arr| ==> Sum(arr, s, e) <= val
      invariant val > -LargestSum ==> forall s, e :: 0 <= s < e <= |arr| && (s < startIdx || (s == startIdx && e < endIdx)) ==>
        Sum(arr, s, e) < val
    {
      for end := start + 1 to |arr| + 1
        invariant val >= -LargestSum
        invariant val == -LargestSum ==> startIdx == 0 && endIdx == 0
        invariant val > -LargestSum ==> startIdx < endIdx <= |arr| && Sum(arr, startIdx, endIdx) == val
        invariant val > -LargestSum ==> startIdx < start || (startIdx == start && endIdx < end)
        invariant forall s, e :: 0 <= s < e <= |arr| && (s < start || (s == start && e < end)) ==> Sum(arr, s, e) <= val
        invariant val > -LargestSum ==> forall s, e :: 0 <= s < e <= |arr| && (s < startIdx || (s == startIdx && e < endIdx)) ==>
          Sum(arr, s, e) < val
      {
        var sum := Sum(arr, start, end);
        if sum > val {
          val := sum;
          startIdx := start;
          endIdx := end;
        }
      }
    }
  }

  /** subvec_sweep: (start, end, sum) of a range with the largest sum, the empty range counting
    * with sum 0.  The end is the first at which that sum is reached, and the start the first that
    * reaches it with that end; a largest sum of 0 gives (0, 0, 0). */
  method SubvecSweep(arr: seq<int>) returns (startIdx: nat, endIdx: nat, val: int)
    ensures startIdx <= endIdx <= |arr| && Sum(arr, startIdx, endIdx) == val
    ensures forall s, e :: 0 <= s <= e <= |arr| ==> Sum(arr, s, e) <= val
    ensures val == 0 ==> startIdx == 0 && endIdx == 0
    ensures forall s, e :: 0 <= s <= e < endIdx ==> Sum(arr, s, e) < val
    ensures forall s :: 0 <= s < startIdx ==> Sum(arr, s, endIdx) < val
  {
    var cachedStartIdx: nat := 0;
    startIdx, endIdx := 0, 0;
    var newval := 0;
    val := 0;
    for idx := 0 to |arr|
      invariant cachedStartIdx <= idx && newval == Sum(arr, cachedStartIdx, idx) && newval >= 0
      invariant forall s :: 0 <= s <= idx ==> Sum(arr, s, idx) <= newval
      invariant forall s :: 0 <= s < cachedStartIdx ==> Sum(arr, s, idx) < newval
      invariant startIdx <= endIdx <= idx && Sum(arr, startIdx, endIdx) == val
      invariant forall s, e :: 0 <= s <= e <= idx ==> Sum(arr, s, e) <= val
      invariant val == 0 ==> startIdx == 0 && endIdx == 0
      invariant forall s, e :: 0 <= s <= e < endIdx ==> Sum(arr, s, e) < val
      invariant forall s :: 0 <= s < startIdx ==> Sum(arr, s, endIdx) < val
    {
      if newval < -arr[idx] {
        newval := 0;
        cachedStartIdx := idx + 1;
      } else {
        newval := newval + arr[idx];
      }
      if newval > val {
        val := newval;
        startIdx := cachedStartIdx;
        endIdx := idx + 1;
      }
    }
  }

  /** What the test driver checks: when some range has a positive sum, the two functions return
    * the same triple.  Both results are given by the contracts the two methods prove. */
  lemma {:induction false} SameWhenPositive(arr: seq<int>, s1: nat, e1: nat, v1: int, s2: nat, e2: nat, v2: int)
    requires v1 >= -LargestSum
    requires forall s, e :: 0 <= s < e <= |arr| ==> Sum(arr, s, e) <= v1
    requires v1 > -LargestSum ==> s1 < e1 <= |arr| && Sum(arr, s1, e1) == v1
    requires v1 > -LargestSum ==> forall s, e :: 0 <= s < e <= |arr| && (s < s1 || (s == s1 && e < e1)) ==>
      Sum(arr, s, e) < v1
    requires s2 <= e2 <= |arr| && Sum(arr, s2, e2) == v2
    requires forall s, e :: 0 <= s <= e <= |arr| ==> Sum(arr, s, e) <= v2
    requires forall s, e :: 0 <= s <= e < e2 ==> Sum(arr, s, e) < v2
    requires forall s :: 0 <= s < s2 ==> Sum(arr, s, e2) < v2
    requires v2 > 0
    ensures s1 == s2 && e1 == e2 && v1 == v2
  {
    assert s2 < e2;
    assert v1 == v2;
    assert e2 <= e1;
    assert s1 <= s2;
    if s1 < s2 {
      SumSplit(arr, s1, s2, e2);
      SumSplit(arr, s1, e2, e1);
      SumSplit(arr, s1, s2, e1);
      SumSplit(arr, s2, e2, e1);
      assert Sum(arr, s2, e1) > v2;
      assert false;
    }
  }

  /** When no range has a positive sum (all elements negative, say), the test driver's check fails:
    * subvec_sweep returns the empty range and subvec_ineffic a non-empty one. */
  lemma DifferWhenNonPositive(arr: seq<int>, s1: nat, e1: nat, v1: int, s2: nat, e2: nat, v2: int)
    requires |arr| > 0 && arr[0] > -LargestSum
    requires forall s, e :: 0 <= s < e <= |arr| ==> Sum(arr, s, e) <= v1
    requires v1 == -LargestSum ==> s1 == 0 && e1 == 0
    requires v1 > -LargestSum ==> s1 < e1 <= |arr| && Sum(arr, s1, e1) == v1
    requires s2 <= e2 <= |arr| && Sum(arr, s2, e2) == v2
    requires v2 == 0 ==> s2 == 0 && e2 == 0
    requires forall s, e :: 0 <= s < e <= |arr| ==> Sum(arr, s, e) <= 0
    requires forall s, e :: 0 <= s <= e <= |arr| ==> Sum(arr, s, e) <= v2
    ensures (s1, e1, v1) != (s2, e2, v2)
  {
    assert Sum(arr, 0, 1) == arr[0];
    assert v2 == Sum(arr, 0, 0);
  }
}
