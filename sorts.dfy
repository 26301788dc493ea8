/**
 * The hand-written sorts of cpp/sort.cpp: merge_sort, quick_sort, bubble_sort and
 * insertion_sort, each sorting a vector in place.  The vector is an array of int and the
 * comparator is the one main passes, `<`.  The helper vectors that merge_sort and quick_sort
 * build by push_back are sequences, handed to the recursive calls as fresh arrays.
 */
module Sorts {

  predicate Sorted(s: seq<int>)
  {
    forall i, j :: 0 <= i < j < |s| ==> s[i] <= s[j]
  }

  predicate StrictlyIncreasing(s: seq<int>)
  {
    forall i, j :: 0 <= i < j < |s| ==> s[i] < s[j]
  }

  /** Some value occurs twice. */
  ghost predicate HasDuplicate(s: seq<int>)
  {
    exists x :: multiset(s)[x] >= 2
  }

  lemma SortedConcat(x: seq<int>, y: seq<int>)
    requires Sorted(x) && Sorted(y)
    requires |x| > 0 && |y| > 0 ==> x[|x| - 1] <= y[0]
    ensures Sorted(x + y)
  {
    var s := x + y;
    forall i, j | 0 <= i < j < |s|
      ensures s[i] <= s[j]
    {
      if i < |x| <= j {
        assert s[i] <= x[|x| - 1] && y[0] <= s[j];
      }
    }
  }

  // ---------------------------------------------------------------------------------------------
  // merge_sort

  /** merge_sort: the first n/2 elements go to one half, the rest to the other; both are sorted
    * recursively and merged back into a. */
  method MergeSort(a: array<int>)
    modifies a
    ensures Sorted(a[..]) && multiset(a[..]) == multiset(old(a[..]))
    ensures a.Length <= 1 ==> a[..] == old(a[..])
    decreases a.Length
  {
    if a.Length <= 1 {
      return;
    }
    var n := a.Length;
    var c1 := new int[n / 2];
    var c2 := new int[n - n / 2];
    Split(a, c1, c2);
    assert a[..] == c1[..] + c2[..];
    MergeSort(c1);
    MergeSort(c2);
    Merge(a, c1, c2);
    MergeIsPermutation(c1[..], c2[..]);
    MergeIsSorted(c1[..], c2[..]);
  }

  /** The split loop: index idx goes to the first half when idx < n/2. */
  method Split(a: array<int>, c1: array<int>, c2: array<int>)
    requires c1.Length == a.Length / 2 && c2.Length == a.Length - a.Length / 2
    requires c1 != a && c2 != a && c1 != c2
    modifies c1, c2
    ensures c1[..] == a[..a.Length / 2] && c2[..] == a[a.Length / 2..]
  {
    var n, h := a.Length, a.Length / 2;
    for idx := 0 to n
      invariant forall k :: 0 <= k < idx && k < h ==> c1[k] == a[k]
      invariant forall k :: h <= k < idx ==> c2[k - h] == a[k]
    {
      if idx < h {
        c1[idx] := a[idx];
      } else {
        c2[idx - h] := a[idx];
      }
    }
  }

  /** The merge of x and y as merge_sort performs it: the smaller head first, y's on a tie. */
  function MergeOf(x: seq<int>, y: seq<int>): (r: seq<int>)
    ensures |r| == |x| + |y|
    decreases |x| + |y|
  {
    if |x| == 0 then y
    else if |y| == 0 then x
    else if x[0] < y[0] then [x[0]] + MergeOf(x[1..], y)
    else [y[0]] + MergeOf(x, y[1..])
  }

  /** Merging keeps every element once. */
  lemma {:induction false} MergeIsPermutation(x: seq<int>, y: seq<int>)
    ensures multiset(MergeOf(x, y)) == multiset(x) + multiset(y)
    decreases |x| + |y|
  {
    if |x| > 0 && |y| > 0 {
      if x[0] < y[0] {
        MergeIsPermutation(x[1..], y);
        assert x == [x[0]] + x[1..];
        assert multiset(x) == multiset{x[0]} + multiset(x[1..]);
        assert multiset(MergeOf(x, y)) == multiset{x[0]} + multiset(MergeOf(x[1..], y));
      } else {
        MergeIsPermutation(x, y[1..]);
        assert y == [y[0]] + y[1..];
        assert multiset(y) == multiset{y[0]} + multiset(y[1..]);
        assert multiset(MergeOf(x, y)) == multiset{y[0]} + multiset(MergeOf(x, y[1..]));
      }
    }
  }

  /** Merging sorted sequences gives a sorted sequence that starts with one of their heads. */
  lemma {:induction false} MergeIsSorted(x: seq<int>, y: seq<int>)
    requires Sorted(x) && Sorted(y)
    ensures Sorted(MergeOf(x, y))
    ensures |MergeOf(x, y)| > 0 ==> MergeOf(x, y)[0] == (if |x| == 0 then y[0] else if |y| == 0 then x[0]
                                                        else if x[0] < y[0] then x[0] else y[0])
    decreases |x| + |y|
  {
    if |x| > 0 && |y| > 0 {
      if x[0] < y[0] {
        MergeIsSorted(x[1..], y);
        SortedConcat([x[0]], MergeOf(x[1..], y));
      } else {
        MergeIsSorted(x, y[1..]);
        SortedConcat([y[0]], MergeOf(x, y[1..]));
      }
    }
  }

  /** One turn of the merge loop: the next element of the merge is the smaller head, and the
    * rest is the merge of what remains. */
  lemma MergeAdvance(m: seq<int>, idx: int, x: seq<int>, y: seq<int>, i: int, j: int)
    requires 0 <= i < |x| && 0 <= j < |y| && 0 <= idx < |m| && m[idx..] == MergeOf(x[i..], y[j..])
    ensures x[i] < y[j] ==> m[idx] == x[i] && m[idx + 1..] == MergeOf(x[i + 1..], y[j..])
    ensures !(x[i] < y[j]) ==> m[idx] == y[j] && m[idx + 1..] == MergeOf(x[i..], y[j + 1..])
  {
    assert x[i..][1..] == x[i + 1..] && y[j..][1..] == y[j + 1..];
    assert m[idx..][0] == m[idx] && m[idx..][1..] == m[idx + 1..];
  }

  /** Once one side is used up, the merge is the concatenation. */
  lemma MergeExhausted(x: seq<int>, y: seq<int>)
    requires |x| == 0 || |y| == 0
    ensures MergeOf(x, y) == x + y
  {
  }

  /** The merge: the smaller head is taken (the second half's on a tie) until one half runs
    * out, then the rest of the first half and the rest of the second are copied. */
  method Merge(a: array<int>, c1: array<int>, c2: array<int>)
    requires a != c1 && a != c2
    requires a.Length == c1.Length + c2.Length && c1.Length > 0 && c2.Length > 0
    modifies a
    ensures a[..] == MergeOf(c1[..], c2[..])
  {
    var i1, i2 := MergeHeads(a, c1, c2);
    var idx := i1 + i2;
    ghost var m := MergeOf(c1[..], c2[..]);
    MergeExhausted(c1[i1..], c2[i2..]);
    CopyRest(a, idx, c1, i1);
    CopyRest(a, idx + (c1.Length - i1), c2, i2);
    forall k | 0 <= k < a.Length
      ensures a[k] == m[k]
    {
      if k >= idx {
        assert m[k] == m[idx..][k - idx];
      }
    }
  }

  /** The while(1) loop of the merge; it stops as soon as one half is used up. */
  method MergeHeads(a: array<int>, c1: array<int>, c2: array<int>) returns (i1: int, i2: int)
    requires a != c1 && a != c2
    requires a.Length == c1.Length + c2.Length && c1.Length > 0 && c2.Length > 0
    modifies a
    ensures 0 <= i1 <= c1.Length && 0 <= i2 <= c2.Length && (i1 == c1.Length || i2 == c2.Length)
    ensures a[..i1 + i2] == MergeOf(c1[..], c2[..])[..i1 + i2]
    ensures MergeOf(c1[..], c2[..])[i1 + i2..] == MergeOf(c1[i1..], c2[i2..])
  {
    ghost var m := MergeOf(c1[..], c2[..]);
    var idx := 0;
    i1, i2 := 0, 0;
    while true
      invariant 0 <= i1 < c1.Length && 0 <= i2 < c2.Length && idx == i1 + i2
      invariant a[..idx] == m[..idx] && m[idx..] == MergeOf(c1[i1..], c2[i2..])
      decreases c1.Length + c2.Length - idx
    {
      MergeAdvance(m, idx, c1[..], c2[..], i1, i2);
      var x;
      if c1[i1] < c2[i2] {
        x := c1[i1];
        i1 := i1 + 1;
      } else {
        x := c2[i2];
        i2 := i2 + 1;
      }
      a[idx] := x;
      idx := idx + 1;
      if i1 >= c1.Length || i2 >= c2.Length {
        break;
      }
    }
  }

  /** Copies c[i..] to a[idx..] and leaves the rest of a as it was. */
  method CopyRest(a: array<int>, idx: int, c: array<int>, i: int)
    requires a != c && 0 <= i <= c.Length && 0 <= idx && idx + c.Length - i <= a.Length
    modifies a
    ensures forall m :: 0 <= m < a.Length ==>
              a[m] == if idx <= m < idx + c.Length - i then c[m - idx + i] else old(a[m])
  {
    var k, j := i, idx;
    while k < c.Length
      invariant i <= k <= c.Length && j == idx + k - i
      invariant forall m :: 0 <= m < a.Length ==> a[m] == if idx <= m < j then c[m - idx + i] else old(a[m])
    {
      a[j] := c[k];
      k, j := k + 1, j + 1;
    }
  }

  // ---------------------------------------------------------------------------------------------
  // quick_sort

  /** The elements of s below p, in order. */
  function Smaller(s: seq<int>, p: int): (r: seq<int>)
    ensures forall i :: 0 <= i < |r| ==> r[i] < p
    ensures |r| <= |s|
  {
    if |s| == 0 then [] else Smaller(s[..|s| - 1], p) + (if s[|s| - 1] < p then [s[|s| - 1]] else [])
  }

  /** The elements of s equal to p. */
  function Equal(s: seq<int>, p: int): (r: seq<int>)
    ensures forall i :: 0 <= i < |r| ==> r[i] == p
    ensures p in s ==> |r| > 0
  {
    if |s| == 0 then [] else Equal(s[..|s| - 1], p) + (if s[|s| - 1] == p then [s[|s| - 1]] else [])
  }

  /** The elements of s above p, in order. */
  function Larger(s: seq<int>, p: int): (r: seq<int>)
    ensures forall i :: 0 <= i < |r| ==> r[i] > p
  {
    if |s| == 0 then [] else Larger(s[..|s| - 1], p) + (if s[|s| - 1] > p then [s[|s| - 1]] else [])
  }

  /** Smaller(s, p) holds each value below p as often as s does, and nothing else. */
  lemma {:induction false} SmallerCounts(s: seq<int>, p: int, y: int)
    ensures multiset(Smaller(s, p))[y] == if y < p then multiset(s)[y] else 0
  {
    if |s| > 0 {
      var t := s[..|s| - 1];
      SmallerCounts(t, p, y);
      assert multiset(s) == multiset(t) + multiset{s[|s| - 1]} by {
        assert s == t + [s[|s| - 1]];
      }
    }
  }

  lemma {:induction false} EqualCounts(s: seq<int>, p: int, y: int)
    ensures multiset(Equal(s, p))[y] == if y == p then multiset(s)[y] else 0
  {
    if |s| > 0 {
      var t := s[..|s| - 1];
      EqualCounts(t, p, y);
      assert multiset(s) == multiset(t) + multiset{s[|s| - 1]} by {
        assert s == t + [s[|s| - 1]];
      }
    }
  }

  lemma {:induction false} LargerCounts(s: seq<int>, p: int, y: int)
    ensures multiset(Larger(s, p))[y] == if y > p then multiset(s)[y] else 0
  {
    if |s| > 0 {
      var t := s[..|s| - 1];
      LargerCounts(t, p, y);
      assert multiset(s) == multiset(t) + multiset{s[|s| - 1]} by {
        assert s == t + [s[|s| - 1]];
      }
    }
  }

  /** The three parts hold every element of s once. */
  lemma PartsArePermutation(s: seq<int>, p: int)
    ensures multiset(Smaller(s, p)) + multiset(Equal(s, p)) + multiset(Larger(s, p)) == multiset(s)
  {
    forall y
      ensures (multiset(Smaller(s, p)) + multiset(Equal(s, p)) + multiset(Larger(s, p)))[y] == multiset(s)[y]
    {
      SmallerCounts(s, p, y);
      EqualCounts(s, p, y);
      LargerCounts(s, p, y);
    }
  }

  /** Together the three parts are as long as s. */
  lemma PartsLength(s: seq<int>, p: int)
    ensures |Smaller(s, p)| + |Equal(s, p)| + |Larger(s, p)| == |s|
  {
    PartsArePermutation(s, p);
    assert |multiset(Smaller(s, p)) + multiset(Equal(s, p)) + multiset(Larger(s, p))| == |multiset(s)|;
  }

  /** The split loop of quick_sort, around the first element. */
  method Partition(a: array<int>) returns (smaller: seq<int>, equal: seq<int>, larger: seq<int>)
    ensures a.Length > 0 ==> smaller == Smaller(a[..], a[0]) && equal == Equal(a[..], a[0])
    ensures a.Length > 0 ==> larger == Larger(a[..], a[0])
    ensures a.Length == 0 ==> smaller == equal == larger == []
  {
    smaller, equal, larger := [], [], [];
    for k := 0 to a.Length
      invariant k > 0 ==> smaller == Smaller(a[..k], a[0]) && equal == Equal(a[..k], a[0])
      invariant k > 0 ==> larger == Larger(a[..k], a[0])
      invariant k == 0 ==> smaller == equal == larger == []
    {
      assert a[..k + 1][..k] == a[..k];
      var elem := a[k];
      if elem < a[0] {
        smaller := smaller + [elem];
      } else if elem == a[0] {
        equal := equal + [elem];
      } else {
        larger := larger + [elem];
      }
    }
    assert a[..a.Length] == a[..];
  }

  /** quick_sort: the parts below and above the first element are sorted recursively when they
    * have two elements or more, then the three parts are written back in order. */
  method QuickSort(a: array<int>)
    modifies a
    ensures Sorted(a[..]) && multiset(a[..]) == multiset(old(a[..]))
    decreases a.Length, 2
  {
    var s, equal, l := SortedParts(a);
    WriteBack(a, s, equal, l);
  }

  /** The part of quick_sort before the write-back: the split around the first element and the
    * recursive sorts. */
  method SortedParts(a: array<int>) returns (s: seq<int>, equal: seq<int>, l: seq<int>)
    ensures Sorted(s + equal + l) && multiset(s) + multiset(equal) + multiset(l) == multiset(a[..])
    ensures |s| + |equal| + |l| == a.Length
    decreases a.Length, 1
  {
    var smaller, larger;
    smaller, equal, larger := Partition(a);
    ghost var p := if a.Length > 0 then a[0] else 0;
    if a.Length > 0 {
      PartsArePermutation(a[..], a[0]);
      PartsLength(a[..], a[0]);
      assert a[0] in a[..];
    }
    s, l := smaller, larger;
    if |smaller| >= 2 {
      s := SortedCopy(smaller);
    }
    if |larger| >= 2 {
      l := SortedCopy(larger);
    }
    ThreePartsSorted(s, equal, l, p);
  }

  /** The three write-back loops of quick_sort. */
  method WriteBack(a: array<int>, s: seq<int>, e: seq<int>, l: seq<int>)
    requires |s| + |e| + |l| == a.Length
    modifies a
    ensures a[..] == s + e + l
  {
    var idx := 0;
    for k := 0 to |s|
      invariant idx == k && a[..idx] == s[..k]
    {
      a[idx] := s[k];
      idx := idx + 1;
    }
    for k := 0 to |e|
      invariant idx == |s| + k && a[..idx] == s + e[..k]
    {
      a[idx] := e[k];
      idx := idx + 1;
    }
    for k := 0 to |l|
      invariant idx == |s| + |e| + k && a[..idx] == s + e + l[..k]
    {
      a[idx] := l[k];
      idx := idx + 1;
    }
    assert a[..] == a[..idx];
  }

  /** The parts written back one after the other are in order. */
  lemma ThreePartsSorted(s: seq<int>, e: seq<int>, l: seq<int>, p: int)
    requires |s| >= 2 ==> Sorted(s)
    requires |l| >= 2 ==> Sorted(l)
    requires forall x :: x in s ==> x < p
    requires forall x :: x in e ==> x == p
    requires forall x :: x in l ==> x > p
    ensures Sorted(s + e + l)
  {
    var w := s + e + l;
    forall i, j | 0 <= i < j < |w|
      ensures w[i] <= w[j]
    {
      var a, b := |s|, |s| + |e|;
      if j < a {
        assert w[i] == s[i] && w[j] == s[j];
      } else if b <= i {
        assert w[i] == l[i - b] && w[j] == l[j - b];
      } else {
        assert w[i] <= p by {
          if i < a { assert w[i] == s[i] && s[i] in s; } else { assert w[i] == e[i - a] && e[i - a] in e; }
        }
        assert p <= w[j] by {
          if j < b { assert w[j] == e[j - a] && e[j - a] in e; } else { assert w[j] == l[j - b] && l[j - b] in l; }
        }
      }
    }
  }

  /** A part as a fresh vector, sorted by quick_sort. */
  method SortedCopy(part: seq<int>) returns (r: seq<int>)
    ensures Sorted(r) && multiset(r) == multiset(part)
    ensures forall x :: x in r ==> x in part
    decreases |part|, 3
  {
    var c := new int[|part|](i requires 0 <= i < |part| => part[i]);
    assert c[..] == part;
    QuickSort(c);
    r := c[..];
    assert forall x :: x in r ==> x in multiset(part);
  }

  // ---------------------------------------------------------------------------------------------
  // bubble_sort

  /** Whether the pass swaps the neighbours x, y: as written, whenever !(x < y), so also when
    * they are equal; as intended, only when y < x. */
  predicate Out(x: int, y: int, swapEqual: bool)
  {
    if swapEqual then !(x < y) else y < x
  }

  /** No neighbours of s are swapped by a pass. */
  predicate InOrder(s: seq<int>, swapEqual: bool)
  {
    forall j :: 0 <= j < |s| - 1 ==> !Out(s[j], s[j + 1], swapEqual)
  }

  /** s with the neighbours at i and i + 1 exchanged. */
  function Swap(s: seq<int>, i: int): (r: seq<int>)
    requires 0 <= i < |s| - 1
    ensures multiset(r) == multiset(s)
  {
    s[i := s[i + 1]][i + 1 := s[i]]
  }

  /** The number of elements of t below x. */
  function CountBelow(x: int, t: seq<int>): nat
  {
    if |t| == 0 then 0 else (if t[0] < x then 1 else 0) + CountBelow(x, t[1..])
  }

  /** The number of inversions of s: pairs i < j with s[i] > s[j]. */
  function Inversions(s: seq<int>): nat
  {
    if |s| == 0 then 0 else CountBelow(s[0], s[1..]) + Inversions(s[1..])
  }

  lemma {:induction false} CountBelowSwap(x: int, t: seq<int>, i: int)
    requires 0 <= i < |t| - 1
    ensures CountBelow(x, Swap(t, i)) == CountBelow(x, t)
    decreases i
  {
    var u := t[i := t[i + 1]][i + 1 := t[i]];
    if i == 0 {
      assert u[1..][1..] == t[1..][1..];
    } else {
      assert u[1..] == t[1..][i - 1 := t[i + 1]][i := t[i]];
      CountBelowSwap(x, t[1..], i - 1);
    }
  }

  /** Swapping neighbours that are out of order removes exactly one inversion. */
  lemma {:induction false} SwapRemovesInversion(s: seq<int>, i: int)
    requires 0 <= i < |s| - 1 && s[i] > s[i + 1]
    ensures Inversions(Swap(s, i)) + 1 == Inversions(s)
    decreases i
  {
    var u := s[i := s[i + 1]][i + 1 := s[i]];
    if i == 0 {
      assert u[1..][1..] == s[1..][1..];
      assert CountBelow(s[0], s[1..]) == 1 + CountBelow(s[0], s[2..]);
      assert CountBelow(u[0], u[1..]) == CountBelow(s[1], s[2..]);
      assert Inversions(u[1..]) == CountBelow(s[0], s[2..]) + Inversions(s[2..]);
    } else {
      assert u[1..] == s[1..][i - 1 := s[i + 1]][i := s[i]];
      SwapRemovesInversion(s[1..], i - 1);
      CountBelowSwap(s[0], s[1..], i - 1);
    }
  }

  /** One pass of the inner for loop: neighbours are compared from the front and swapped when
    * out of order; the result is the number of swaps. */
  method BubblePass(a: array<int>, swapEqual: bool) returns (swaps: nat)
    modifies a
    ensures multiset(a[..]) == multiset(old(a[..]))
    ensures swaps == 0 <==> InOrder(old(a[..]), swapEqual)
    ensures swaps == 0 ==> a[..] == old(a[..])
    ensures !swapEqual ==> Inversions(a[..]) + swaps == Inversions(old(a[..]))
  {
    ghost var s := a[..];
    swaps := 0;
    var i := 0;
    while i + 1 < a.Length
      invariant 0 <= i && (i < a.Length || i == 0)
      invariant multiset(a[..]) == multiset(s)
      invariant swaps == 0 ==> a[..] == s && forall j :: 0 <= j < i ==> !Out(s[j], s[j + 1], swapEqual)
      invariant swaps > 0 ==> exists j :: 0 <= j < |s| - 1 && Out(s[j], s[j + 1], swapEqual)
      invariant !swapEqual ==> Inversions(a[..]) + swaps == Inversions(s)
    {
      var swapped := CompareSwap(a, i, swapEqual);
      if swapped {
        swaps := swaps + 1;
      }
      i := i + 1;
    }
  }

  /** The loop body: a[i] and a[i + 1] are swapped when out of order. */
  method CompareSwap(a: array<int>, i: int, swapEqual: bool) returns (swapped: bool)
    requires 0 <= i < a.Length - 1
    modifies a
    ensures swapped == Out(old(a[i]), old(a[i + 1]), swapEqual)
    ensures a[..] == if swapped then Swap(old(a[..]), i) else old(a[..])
    ensures multiset(a[..]) == multiset(old(a[..]))
    ensures !swapEqual ==> Inversions(a[..]) + (if swapped then 1 else 0) == Inversions(old(a[..]))
  {
    swapped := Out(a[i], a[i + 1], swapEqual);
    if swapped {
      ghost var before := a[..];
      a[i], a[i + 1] := a[i + 1], a[i];
      assert a[..] == Swap(before, i);
      if !swapEqual {
        SwapRemovesInversion(before, i);
      }
    }
  }

  lemma {:induction false} AdjacentSorted(s: seq<int>)
    requires InOrder(s, false)
    ensures Sorted(s)
  {
    if |s| > 1 {
      AdjacentSorted(s[1..]);
      assert s[0] <= s[1];
    }
  }

  lemma {:induction false} AdjacentStrict(s: seq<int>)
    requires InOrder(s, true)
    ensures StrictlyIncreasing(s)
  {
    if |s| > 1 {
      AdjacentStrict(s[1..]);
      assert s[0] < s[1];
    }
  }

  /** A strictly increasing sequence has no value twice. */
  lemma {:induction false} StrictHasNoDuplicate(s: seq<int>)
    requires StrictlyIncreasing(s)
    ensures !HasDuplicate(s)
  {
    if |s| > 0 {
      var t := s[1..];
      StrictHasNoDuplicate(t);
      assert s == [s[0]] + t;
      assert s[0] !in t;
      forall x
        ensures multiset(s)[x] < 2
      {
        assert multiset(s)[x] == multiset(t)[x] + (if x == s[0] then 1 else 0);
      }
    }
  }

  /** bubble_sort with the comparison as intended: neighbours are swapped only when the second
    * is smaller, and passes repeat until one swaps nothing. */
  method BubbleSort(a: array<int>)
    modifies a
    ensures Sorted(a[..]) && multiset(a[..]) == multiset(old(a[..]))
  {
    while true
      invariant multiset(a[..]) == multiset(old(a[..]))
      decreases Inversions(a[..])
    {
      var swaps := BubblePass(a, false);
      if swaps == 0 {
        AdjacentSorted(a[..]);
        break;
      }
    }
  }

  /** bubble_sort as written, for its first rounds passes (the source's loop need not end):
    * stopped says a pass swapped nothing.  Equal neighbours are swapped on every pass, so with a
    * value present twice it never stops. */
  method BubbleSortAsWritten(a: array<int>, rounds: nat) returns (stopped: bool)
    modifies a
    ensures multiset(a[..]) == multiset(old(a[..]))
    ensures stopped ==> StrictlyIncreasing(a[..])
    ensures HasDuplicate(old(a[..])) ==> !stopped
  {
    for r := 0 to rounds
      invariant multiset(a[..]) == multiset(old(a[..]))
    {
      var swaps := BubblePass(a, true);
      if swaps == 0 {
        AdjacentStrict(a[..]);
        StrictHasNoDuplicate(a[..]);
        assert HasDuplicate(old(a[..])) ==> HasDuplicate(a[..]);
        return true;
      }
    }
    return false;
  }

  // ---------------------------------------------------------------------------------------------
  // insertion_sort

  /** The state of the inner loop at k: s[..k] and s[k..j + 1] are sorted, and everything
    * before k is at most everything after it. */
  predicate Inserting(s: seq<int>, k: int, j: int)
    requires 0 <= k <= j < |s|
  {
    && (forall p, q :: 0 <= p < q < k ==> s[p] <= s[q])
    && (forall p, q :: k <= p < q <= j ==> s[p] <= s[q])
    && (forall p, q :: 0 <= p < k < q <= j ==> s[p] <= s[q])
  }

  /** The inner loop starts from a sorted prefix and ends with a sorted a[..j + 1]. */
  lemma InsertBounds(s: seq<int>, j: int)
    requires 0 < j < |s|
    ensures Sorted(s[..j]) ==> Inserting(s, j, j)
    ensures Inserting(s, 0, j) ==> Sorted(s[..j + 1])
  {
    if Sorted(s[..j]) {
      forall p, q | 0 <= p < q < j
        ensures s[p] <= s[q]
      {
        assert s[p] == s[..j][p] && s[q] == s[..j][q];
      }
    }
  }

  /** One step of the inner loop keeps Inserting, one position further down. */
  lemma InsertStep(s: seq<int>, k: int, j: int)
    requires 0 < k <= j < |s| && Inserting(s, k, j)
    ensures !(s[k - 1] < s[k]) ==> Inserting(Swap(s, k - 1), k - 1, j)
    ensures s[k - 1] < s[k] ==> Inserting(s, k - 1, j)
  {
    var t := Swap(s, k - 1);
    if !(s[k - 1] < s[k]) {
      forall p, q | k - 1 <= p < q <= j
        ensures t[p] <= t[q]
      {
        if p == k - 1 && q > k {
          assert s[k] <= s[q];
        }
      }
    }
  }

  /** The inner loop: from j down to 1, neighbours are swapped unless the left one is smaller,
    * which inserts a[j] into the sorted a[..j]. */
  method InsertDown(a: array<int>, j: int)
    requires 0 < j < a.Length && Sorted(a[..j])
    modifies a
    ensures Sorted(a[..j + 1]) && multiset(a[..]) == multiset(old(a[..]))
    ensures a[j + 1..] == old(a[j + 1..])
  {
    var k := j;
    InsertBounds(a[..], j);
    while k > 0
      invariant 0 <= k <= j
      invariant multiset(a[..]) == multiset(old(a[..])) && a[j + 1..] == old(a[j + 1..])
      invariant Inserting(a[..], k, j)
    {
      InsertOne(a, k, j);
      k := k - 1;
    }
    InsertBounds(a[..], j);
  }

  /** One turn of the inner loop. */
  method InsertOne(a: array<int>, k: int, j: int)
    requires 0 < k <= j < a.Length && Inserting(a[..], k, j)
    modifies a
    ensures Inserting(a[..], k - 1, j)
    ensures multiset(a[..]) == multiset(old(a[..])) && a[j + 1..] == old(a[j + 1..])
  {
    InsertStep(a[..], k, j);
    var _ := CompareSwap(a, k - 1, true);
  }

  /** insertion_sort with the outer loop stopped one element early, as intended: step i inserts
    * element i + 1. */
  method InsertionSort(a: array<int>)
    modifies a
    ensures Sorted(a[..]) && multiset(a[..]) == multiset(old(a[..]))
  {
    var i := 0;
    while i + 1 < a.Length
      invariant 0 <= i && (i < a.Length || i == 0)
      invariant a.Length > 0 ==> Sorted(a[..i + 1])
      invariant multiset(a[..]) == multiset(old(a[..]))
    {
      InsertDown(a, i + 1);
      i := i + 1;
    }
    assert a.Length > 0 ==> a[..i + 1] == a[..];
  }

  /** insertion_sort as written: step i starts the inner loop at element i + 1, so the last step
    * reads the element past the end.  The result is whether that out-of-range read happens; up to
    * that read the array is sorted as intended. */
  method InsertionSortAsWritten(a: array<int>) returns (readsPastEnd: bool)
    modifies a
    ensures readsPastEnd <==> a.Length > 0
    ensures Sorted(a[..]) && multiset(a[..]) == multiset(old(a[..]))
  {
    var i := 0;
    while i < a.Length
      invariant 0 <= i && (i < a.Length || i == 0)
      invariant a.Length > 0 ==> Sorted(a[..i + 1])
      invariant multiset(a[..]) == multiset(old(a[..]))
    {
      if i + 1 >= a.Length {
        assert a[..i + 1] == a[..];
        return true;
      }
      InsertDown(a, i + 1);
      i := i + 1;
    }
    return false;
  }
}
