/**
 * The variable-size segment allocator of os/mem/mem.cpp (class VariSeg): a list
 * of allocated segments (start, size) inside a memory of `memsize` units, with
 * first-fit and largest/smallest-fit allocation, freeing by start address, and
 * the free-memory and fragmentation counters.  All quantities are `size_t`, so
 * every sum and difference the source computes is taken modulo 2^64.
 *
 * The front-of-list test in both allocation routines compares the request with
 * the SIZE of the first segment where the room in front of it is its START.
 * `fixed == false` selects the code as written, `fixed == true` the corrected
 * comparison; the class methods run the code as written.
 */
module SegAlloc {
  import opened Wrappers

  const W: int := 0x1_0000_0000_0000_0000

  type SizeT = x: int | 0 <= x < W

  datatype Seg = Seg(start: SizeT, size: SizeT)

  /** One past the last unit of `s`, without wrap-around. */
  function End(s: Seg): int
  {
    s.start + s.size
  }

  /** size_t addition and subtraction. */
  function WrapAdd(a: SizeT, b: SizeT): SizeT
  {
    if a + b >= W then a + b - W else a + b
  }

  function WrapSub(a: SizeT, b: SizeT): SizeT
  {
    if a >= b then a - b else a - b + W
  }

  /** One past the last unit of `s` in size_t. */
  function EndW(s: Seg): SizeT
  {
    WrapAdd(s.start, s.size)
  }

  /** Where the gap after segment i ends: the next start, or the end of memory. */
  function NextStart(segs: seq<Seg>, memsize: SizeT, i: nat): SizeT
    requires i < |segs|
  {
    if i + 1 < |segs| then segs[i + 1].start else memsize
  }

  /** The gap after segment i as the source computes it: `nextstart - (curstart + cursize)` in size_t. */
  function WrapGap(segs: seq<Seg>, memsize: SizeT, i: nat): SizeT
    requires i < |segs|
  {
    WrapSub(NextStart(segs, memsize, i), EndW(segs[i]))
  }

  /** Segments are ordered by start and do not overlap. */
  ghost predicate Ordered(segs: seq<Seg>)
  {
    forall i, j :: 0 <= i < j < |segs| ==> End(segs[i]) <= segs[j].start
  }

  /** The list a correct allocator maintains: ordered, disjoint and inside memory. */
  ghost predicate Wellformed(segs: seq<Seg>, memsize: SizeT)
  {
    Ordered(segs) && forall i :: 0 <= i < |segs| ==> End(segs[i]) <= memsize
  }

  lemma WellformedGap(segs: seq<Seg>, memsize: SizeT, i: nat)
    requires Wellformed(segs, memsize) && i < |segs|
    ensures End(segs[i]) <= NextStart(segs, memsize, i)
    ensures WrapGap(segs, memsize, i) == NextStart(segs, memsize, i) - End(segs[i])
  {
    if i + 1 < |segs| {
      assert End(segs[i]) <= segs[i + 1].start;
    }
  }

  function Insert(segs: seq<Seg>, p: nat, s: Seg): (r: seq<Seg>)
    requires p <= |segs|
    ensures |r| == |segs| + 1 && r[p] == s
    ensures forall k :: 0 <= k < p ==> r[k] == segs[k]
    ensures forall k :: p < k < |r| ==> r[k] == segs[k - 1]
  {
    segs[..p] + [s] + segs[p..]
  }

  /** The room the front test sees: the first segment's size as written, its start when fixed. */
  function FrontRoom(segs: seq<Seg>, fixed: bool): SizeT
    requires |segs| > 0
  {
    if fixed then segs[0].start else segs[0].size
  }

  /** The first segment at or after `i` whose following gap holds `size`. */
  function FirstGap(segs: seq<Seg>, memsize: SizeT, size: SizeT, i: nat): (r: Option<nat>)
    requires i <= |segs|
    ensures r.None? ==> forall k :: i <= k < |segs| ==> WrapGap(segs, memsize, k) < size
    ensures r.Some? ==> i <= r.value < |segs| && WrapGap(segs, memsize, r.value) >= size
    ensures r.Some? ==> forall k :: i <= k < r.value ==> WrapGap(segs, memsize, k) < size
    decreases |segs| - i
  {
    if i == |segs| then None
    else if WrapGap(segs, memsize, i) >= size then Some(i)
    else FirstGap(segs, memsize, size, i + 1)
  }

  /** AllocFirstFree: where the new segment goes in the list, and the segment itself. */
  function FirstFit(segs: seq<Seg>, memsize: SizeT, size: SizeT, fixed: bool): (r: Option<(nat, Seg)>)
    ensures r.Some? ==> r.value.0 <= |segs| && r.value.1.size == size
  {
    if |segs| == 0 then
      if size <= memsize then Some((0, Seg(0, size))) else None
    else if size <= FrontRoom(segs, fixed) then Some((0, Seg(0, size)))
    else match FirstGap(segs, memsize, size, 0)
      case None => None
      case Some(j) => Some((j + 1, Seg(EndW(segs[j]), size)))
  }

  /** Some free stretch of a well-formed list holds `size` units. */
  ghost predicate Fits(segs: seq<Seg>, memsize: SizeT, size: SizeT)
  {
    if |segs| == 0 then size <= memsize
    else size <= segs[0].start || exists i :: 0 <= i < |segs| && size <= NextStart(segs, memsize, i) - End(segs[i])
  }

  /** Inserting `size` units at the start of a gap that holds them keeps the list well formed. */
  lemma GapInsertKeeps(segs: seq<Seg>, memsize: SizeT, size: SizeT, j: nat)
    requires Wellformed(segs, memsize) && j < |segs| && WrapGap(segs, memsize, j) >= size
    ensures EndW(segs[j]) == End(segs[j])
    ensures Wellformed(Insert(segs, j + 1, Seg(EndW(segs[j]), size)), memsize)
  {
    WellformedGap(segs, memsize, j);
    var s := Seg(EndW(segs[j]), size);
    var t := Insert(segs, j + 1, s);
    assert End(s) <= NextStart(segs, memsize, j);
    forall a, b | 0 <= a < b < |t|
      ensures End(t[a]) <= t[b].start
    {
      if b <= j {
      } else if b == j + 1 {
        if a < j {
          assert End(segs[a]) <= segs[j].start;
        }
      } else if a <= j {
        assert End(segs[a]) <= segs[b - 1].start;
      } else if a == j + 1 {
        assert End(segs[j + 1]) <= segs[b - 1].start || b - 1 == j + 1;
      } else {
        assert End(segs[a - 1]) <= segs[b - 1].start;
      }
    }
  }

  /** Inserting at address 0 in front of a list whose first segment starts at or after `size`. */
  lemma FrontInsertKeeps(segs: seq<Seg>, memsize: SizeT, size: SizeT)
    requires Wellformed(segs, memsize) && |segs| > 0 && size <= segs[0].start
    ensures Wellformed(Insert(segs, 0, Seg(0, size)), memsize)
  {
    var t := Insert(segs, 0, Seg(0, size));
    forall a, b | 0 <= a < b < |t|
      ensures End(t[a]) <= t[b].start
    {
      if a == 0 && b > 1 {
        assert End(segs[0]) <= segs[b - 1].start;
      } else if a > 0 {
        assert End(segs[a - 1]) <= segs[b - 1].start;
      }
    }
  }

  /** Corrected first fit: the result is again well formed. */
  lemma FirstFitKeepsWellformed(segs: seq<Seg>, memsize: SizeT, size: SizeT, p: (nat, Seg))
    requires Wellformed(segs, memsize)
    requires FirstFit(segs, memsize, size, true) == Some(p)
    ensures p.0 <= |segs| && Wellformed(Insert(segs, p.0, p.1), memsize)
  {
    if |segs| == 0 {
      assert Insert(segs, p.0, p.1) == [Seg(0, size)];
    } else if size <= segs[0].start {
      FrontInsertKeeps(segs, memsize, size);
    } else {
      var j := FirstGap(segs, memsize, size, 0).value;
      assert p == (j + 1, Seg(EndW(segs[j]), size));
      GapInsertKeeps(segs, memsize, size, j);
    }
  }

  /** Corrected first fit fails exactly when no free stretch holds the request. */
  lemma FirstFitComplete(segs: seq<Seg>, memsize: SizeT, size: SizeT)
    requires Wellformed(segs, memsize)
    ensures FirstFit(segs, memsize, size, true).Some? <==> Fits(segs, memsize, size)
  {
    if |segs| > 0 && size > segs[0].start {
      if FirstGap(segs, memsize, size, 0).None? {
        forall i | 0 <= i < |segs|
          ensures NextStart(segs, memsize, i) - End(segs[i]) < size
        {
          WellformedGap(segs, memsize, i);
        }
      } else {
        WellformedGap(segs, memsize, FirstGap(segs, memsize, size, 0).value);
      }
    }
  }

  /** As written, the second 100-unit request of the source's own demo (memory of 1000) is placed
    * at address 0, on top of the first segment. */
  lemma FrontInsertOverlaps()
    ensures FirstFit([Seg(0, 100)], 1000, 100, false) == Some((0, Seg(0, 100)))
    ensures !Wellformed(Insert([Seg(0, 100)], 0, Seg(0, 100)), 1000)
  {
    var t := Insert([Seg(0, 100)], 0, Seg(0, 100));
    assert End(t[0]) > t[1].start;
  }

  /** AllocLargestFree's candidate gaps among the first n segments, in list order:
    * the free stretch as (start, size), and the list position the new segment takes. */
  function GapCands(segs: seq<Seg>, memsize: SizeT, size: SizeT, n: nat): (r: seq<(Seg, nat)>)
    requires n <= |segs|
    ensures forall i :: 0 <= i < |r| ==> 1 <= r[i].1 <= n && r[i].0.size >= size
    ensures forall i :: 0 <= i < |r| ==>
      r[i].0 == Seg(EndW(segs[r[i].1 - 1]), WrapGap(segs, memsize, r[i].1 - 1))
  {
    if n == 0 then []
    else
      var rest := GapCands(segs, memsize, size, n - 1);
      var g := WrapGap(segs, memsize, n - 1);
      if g >= size then rest + [(Seg(EndW(segs[n - 1]), g), n)] else rest
  }

  /** Every gap that holds the request is among the candidates. */
  lemma {:induction false} GapCandsComplete(segs: seq<Seg>, memsize: SizeT, size: SizeT, n: nat, k: nat)
    returns (i: nat)
    requires k < n <= |segs| && WrapGap(segs, memsize, k) >= size
    ensures i < |GapCands(segs, memsize, size, n)| && GapCands(segs, memsize, size, n)[i].1 == k + 1
  {
    var r := GapCands(segs, memsize, size, n);
    if k == n - 1 {
      i := |r| - 1;
    } else {
      i := GapCandsComplete(segs, memsize, size, n - 1, k);
      assert r[i] == GapCands(segs, memsize, size, n - 1)[i];
    }
  }

  /** Without a gap that holds the request there are no gap candidates. */
  lemma {:induction false} GapCandsEmpty(segs: seq<Seg>, memsize: SizeT, size: SizeT, n: nat)
    requires n <= |segs| && forall k :: 0 <= k < n ==> WrapGap(segs, memsize, k) < size
    ensures GapCands(segs, memsize, size, n) == []
  {
    if n > 0 {
      GapCandsEmpty(segs, memsize, size, n - 1);
    }
  }

  /** All candidates: the stretch in front of the first segment, then the gaps. */
  function Candidates(segs: seq<Seg>, memsize: SizeT, size: SizeT, fixed: bool): seq<(Seg, nat)>
    requires |segs| > 0
  {
    (if size <= FrontRoom(segs, fixed) then [(Seg(0, FrontRoom(segs, fixed)), 0)] else [])
      + GapCands(segs, memsize, size, |segs|)
  }

  /** `a` comes before `b` in the stable sort: strictly larger, or strictly smaller when `smallest`. */
  predicate Better(a: int, b: int, smallest: bool)
  {
    if smallest then a < b else a > b
  }

  /** The head of the stably sorted candidate list: the first candidate no other one beats. */
  function Best(cands: seq<(Seg, nat)>, smallest: bool): (r: nat)
    requires |cands| > 0
    ensures r < |cands|
    ensures forall k :: 0 <= k < |cands| ==> !Better(cands[k].0.size, cands[r].0.size, smallest)
    ensures forall k :: 0 <= k < r ==> Better(cands[r].0.size, cands[k].0.size, smallest)
  {
    if |cands| == 1 then 0
    else
      var b := Best(cands[..|cands| - 1], smallest);
      assert forall k :: 0 <= k < |cands| - 1 ==> cands[..|cands| - 1][k] == cands[k];
      if Better(cands[|cands| - 1].0.size, cands[b].0.size, smallest) then |cands| - 1 else b
  }

  /** AllocLargestFree: where the new segment goes, and the segment. */
  function LargestFit(segs: seq<Seg>, memsize: SizeT, size: SizeT, smallest: bool, fixed: bool)
    : (r: Option<(nat, Seg)>)
    ensures r.Some? ==> r.value.0 <= |segs| && r.value.1.size == size
  {
    if |segs| == 0 then
      if size <= memsize then Some((0, Seg(0, size))) else None
    else
      var cands := Candidates(segs, memsize, size, fixed);
      if |cands| == 0 then None
      else
        var c := cands[Best(cands, smallest)];
        Some((c.1, Seg(c.0.start, size)))
  }

  /** First fit and largest/smallest fit succeed on exactly the same requests. */
  lemma SameAvailability(segs: seq<Seg>, memsize: SizeT, size: SizeT, smallest: bool, fixed: bool)
    ensures FirstFit(segs, memsize, size, fixed).Some? <==> LargestFit(segs, memsize, size, smallest, fixed).Some?
  {
    if |segs| > 0 {
      var cands := Candidates(segs, memsize, size, fixed);
      var gc := GapCands(segs, memsize, size, |segs|);
      if size <= FrontRoom(segs, fixed) {
        assert FirstFit(segs, memsize, size, fixed).Some?;
        assert |cands| > 0;
      } else {
        assert cands == gc;
        var g := FirstGap(segs, memsize, size, 0);
        if g.Some? {
          var i := GapCandsComplete(segs, memsize, size, |segs|, g.value);
        } else {
          GapCandsEmpty(segs, memsize, size, |segs|);
        }
      }
    }
  }

  /** The free stretch in front of list position q of a list: before the first segment for q = 0,
    * otherwise after segment q - 1. */
  function Room(segs: seq<Seg>, memsize: SizeT, q: nat): int
    requires 0 < |segs| && q <= |segs|
  {
    if q == 0 then segs[0].start else NextStart(segs, memsize, q - 1) - End(segs[q - 1])
  }

  /** In a well-formed list every corrected candidate records its own stretch exactly. */
  lemma CandidateShape(segs: seq<Seg>, memsize: SizeT, size: SizeT, i: nat)
    requires Wellformed(segs, memsize) && |segs| > 0
    requires i < |Candidates(segs, memsize, size, true)|
    ensures var d := Candidates(segs, memsize, size, true)[i];
      d.1 <= |segs| && d.0.size == Room(segs, memsize, d.1) && size <= d.0.size &&
      (d.1 > 0 ==> d.0.start == End(segs[d.1 - 1]) && WrapGap(segs, memsize, d.1 - 1) >= size) &&
      (d.1 == 0 ==> d.0.start == 0 && size <= segs[0].start)
  {
    var front: seq<(Seg, nat)> := if size <= segs[0].start then [(Seg(0, segs[0].start), 0)] else [];
    var gc := GapCands(segs, memsize, size, |segs|);
    var cands := Candidates(segs, memsize, size, true);
    assert FrontRoom(segs, true) == segs[0].start;
    assert cands == front + gc;
    var d := cands[i];
    if i < |front| {
      assert d == (Seg(0, segs[0].start), 0);
      assert Room(segs, memsize, 0) == segs[0].start;
    } else {
      assert d == gc[i - |front|];
      GapCandShape(segs, memsize, size, i - |front|);
      assert d.1 > 0;
    }
  }

  /** In a well-formed list every gap candidate records the gap after its segment exactly. */
  lemma GapCandShape(segs: seq<Seg>, memsize: SizeT, size: SizeT, j: nat)
    requires Wellformed(segs, memsize) && |segs| > 0
    requires j < |GapCands(segs, memsize, size, |segs|)|
    ensures var g := GapCands(segs, memsize, size, |segs|)[j];
      1 <= g.1 <= |segs| && g.0.size == Room(segs, memsize, g.1) && size <= g.0.size &&
      g.0.start == End(segs[g.1 - 1]) && WrapGap(segs, memsize, g.1 - 1) >= size
  {
    var g := GapCands(segs, memsize, size, |segs|)[j];
    WellformedGap(segs, memsize, g.1 - 1);
  }

  /** In a well-formed list every stretch that holds the request is a corrected candidate. */
  lemma CandidateFor(segs: seq<Seg>, memsize: SizeT, size: SizeT, q: nat) returns (k: nat)
    requires Wellformed(segs, memsize) && |segs| > 0
    requires q <= |segs| && size <= Room(segs, memsize, q)
    ensures k < |Candidates(segs, memsize, size, true)| && Candidates(segs, memsize, size, true)[k].1 == q
  {
    var front: seq<(Seg, nat)> := if size <= segs[0].start then [(Seg(0, segs[0].start), 0)] else [];
    var gc := GapCands(segs, memsize, size, |segs|);
    if q == 0 {
      k := 0;
    } else {
      WellformedGap(segs, memsize, q - 1);
      var i := GapCandsComplete(segs, memsize, size, |segs|, q - 1);
      k := |front| + i;
    }
  }

  /** Which candidate LargestFit took: one that no other candidate beats. */
  lemma LargestFitChoice(segs: seq<Seg>, memsize: SizeT, size: SizeT, smallest: bool, p: (nat, Seg))
    returns (k: nat)
    requires |segs| > 0 && LargestFit(segs, memsize, size, smallest, true) == Some(p)
    ensures var cands := Candidates(segs, memsize, size, true);
      k < |cands| && p == (cands[k].1, Seg(cands[k].0.start, size)) &&
      forall j :: 0 <= j < |cands| ==> !Better(cands[j].0.size, cands[k].0.size, smallest)
  {
    k := Best(Candidates(segs, memsize, size, true), smallest);
  }

  /** Corrected largest (smallest) fit picks a stretch that holds the request and that no other
    * such stretch exceeds (undercuts). */
  lemma LargestFitIsExtreme(segs: seq<Seg>, memsize: SizeT, size: SizeT, smallest: bool, p: (nat, Seg))
    requires Wellformed(segs, memsize) && |segs| > 0
    requires LargestFit(segs, memsize, size, smallest, true) == Some(p)
    ensures p.0 <= |segs| && size <= Room(segs, memsize, p.0)
    ensures forall q :: 0 <= q <= |segs| && size <= Room(segs, memsize, q) ==>
      !Better(Room(segs, memsize, q), Room(segs, memsize, p.0), smallest)
  {
    var b := LargestFitChoice(segs, memsize, size, smallest, p);
    CandidateShape(segs, memsize, size, b);
    forall q | 0 <= q <= |segs| && size <= Room(segs, memsize, q)
      ensures !Better(Room(segs, memsize, q), Room(segs, memsize, p.0), smallest)
    {
      var k := CandidateFor(segs, memsize, size, q);
      CandidateShape(segs, memsize, size, k);
    }
  }

  /** Corrected largest (smallest) fit leaves a well-formed list well formed. */
  lemma LargestFitKeepsWellformed(segs: seq<Seg>, memsize: SizeT, size: SizeT, smallest: bool, p: (nat, Seg))
    requires Wellformed(segs, memsize) && |segs| > 0
    requires LargestFit(segs, memsize, size, smallest, true) == Some(p)
    ensures p.0 <= |segs| && Wellformed(Insert(segs, p.0, p.1), memsize)
  {
    var b := LargestFitChoice(segs, memsize, size, smallest, p);
    CandidateShape(segs, memsize, size, b);
    if p.0 == 0 {
      FrontInsertKeeps(segs, memsize, size);
    } else {
      GapInsertKeeps(segs, memsize, size, p.0 - 1);
    }
  }

  /** As written, a smallest-fit request that fits the first segment's size lands on top of it. */
  lemma SmallestFitOverlaps()
    ensures LargestFit([Seg(0, 100)], 1000, 100, true, false) == Some((0, Seg(0, 100)))
    ensures !Wellformed(Insert([Seg(0, 100)], 0, Seg(0, 100)), 1000)
  {
    var segs := [Seg(0, 100)];
    assert WrapGap(segs, 1000, 0) == 900;
    assert GapCands(segs, 1000, 100, 1) == [(Seg(100, 900), 1)];
    var cands := Candidates(segs, 1000, 100, false);
    assert cands == [(Seg(0, 100), 0), (Seg(100, 900), 1)];
    assert Best(cands, true) == 0;
    var t := Insert(segs, 0, Seg(0, 100));
    assert End(t[0]) > t[1].start;
  }

  /** The list with every segment equal to `s` taken out (std::list::remove). */
  function Without(segs: seq<Seg>, s: Seg): (r: seq<Seg>)
    ensures |r| <= |segs|
  {
    if |segs| == 0 then []
    else (if segs[0] == s then [] else [segs[0]]) + Without(segs[1..], s)
  }

  /** Exactly the segments other than `s` survive. */
  lemma {:induction false} WithoutMembers(segs: seq<Seg>, s: Seg)
    ensures forall x :: x in Without(segs, s) <==> x in segs && x != s
  {
    if |segs| > 0 {
      WithoutMembers(segs[1..], s);
      assert segs == [segs[0]] + segs[1..];
    }
  }

  /** The first segment starting at `start`. */
  function FindStart(segs: seq<Seg>, start: SizeT): (r: Option<nat>)
    ensures r.None? ==> forall k :: 0 <= k < |segs| ==> segs[k].start != start
    ensures r.Some? ==> r.value < |segs| && segs[r.value].start == start
    ensures r.Some? ==> forall k :: 0 <= k < r.value ==> segs[k].start != start
  {
    if |segs| == 0 then None
    else if segs[0].start == start then Some(0)
    else match FindStart(segs[1..], start)
      case None => None
      case Some(k) => Some(k + 1)
  }

  /** The segments after the first of an ordered list are ordered. */
  lemma OrderedTail(segs: seq<Seg>)
    requires Ordered(segs) && |segs| > 0
    ensures Ordered(segs[1..])
    ensures forall y :: y in segs[1..] ==> End(segs[0]) <= y.start
  {
    forall i, j | 0 <= i < j < |segs| - 1
      ensures End(segs[1..][i]) <= segs[1..][j].start
    {
      assert End(segs[i + 1]) <= segs[j + 1].start;
    }
    forall y | y in segs[1..]
      ensures End(segs[0]) <= y.start
    {
      var k :| 0 <= k < |segs[1..]| && segs[1..][k] == y;
      assert End(segs[0]) <= segs[k + 1].start;
    }
  }

  /** A segment ending before every segment of an ordered list can go in front of it. */
  lemma OrderedCons(x: Seg, rest: seq<Seg>)
    requires Ordered(rest) && forall y :: y in rest ==> End(x) <= y.start
    ensures Ordered([x] + rest)
  {
    var t := [x] + rest;
    forall i, j | 0 <= i < j < |t|
      ensures End(t[i]) <= t[j].start
    {
      if i == 0 {
        assert t[j] in rest;
      } else {
        assert t[i] == rest[i - 1] && t[j] == rest[j - 1];
      }
    }
  }

  lemma {:induction false} OrderedWithout(segs: seq<Seg>, s: Seg)
    requires Ordered(segs)
    ensures Ordered(Without(segs, s))
  {
    if |segs| > 0 {
      OrderedTail(segs);
      OrderedWithout(segs[1..], s);
      WithoutMembers(segs[1..], s);
      var rest := Without(segs[1..], s);
      if segs[0] == s {
        assert Without(segs, s) == rest;
      } else {
        OrderedCons(segs[0], rest);
      }
    }
  }

  /** Freeing keeps a well-formed list well formed. */
  lemma FreeKeepsWellformed(segs: seq<Seg>, memsize: SizeT, s: Seg)
    requires Wellformed(segs, memsize)
    ensures Wellformed(Without(segs, s), memsize)
  {
    OrderedWithout(segs, s);
    WithoutMembers(segs, s);
    var r := Without(segs, s);
    forall i | 0 <= i < |r|
      ensures End(r[i]) <= memsize
    {
      assert r[i] in segs;
    }
  }

  lemma {:induction false} WithoutAbsent(segs: seq<Seg>, s: Seg)
    requires s !in segs
    ensures Without(segs, s) == segs
  {
    if |segs| > 0 {
      WithoutAbsent(segs[1..], s);
    }
  }

  /** Removing a value that occurs only at position k removes exactly that position. */
  lemma {:induction false} WithoutAt(segs: seq<Seg>, k: nat, s: Seg)
    requires k < |segs| && segs[k] == s
    requires forall i :: 0 <= i < |segs| && i != k ==> segs[i] != s
    ensures Without(segs, s) == segs[..k] + segs[k + 1..]
  {
    var tail := segs[1..];
    if k == 0 {
      assert s !in tail;
      WithoutAbsent(tail, s);
    } else {
      WithoutAt(tail, k - 1, s);
      assert tail[..k - 1] + tail[k..] == segs[1..k] + segs[k + 1..];
      assert [segs[0]] + segs[1..k] == segs[..k];
    }
  }

  /** In a well-formed list of non-empty segments, freeing a start removes exactly that one segment. */
  lemma FreeRemovesOne(segs: seq<Seg>, memsize: SizeT, k: nat)
    requires Wellformed(segs, memsize) && k < |segs|
    requires forall i :: 0 <= i < |segs| ==> segs[i].size > 0
    ensures Without(segs, segs[k]) == segs[..k] + segs[k + 1..]
  {
    forall i | 0 <= i < |segs| && i != k
      ensures segs[i] != segs[k]
    {
      if i < k {
        assert End(segs[i]) <= segs[k].start;
      } else {
        assert End(segs[k]) <= segs[i].start;
      }
    }
    WithoutAt(segs, k, segs[k]);
  }

  /** Σ sizes. */
  function Total(segs: seq<Seg>): (r: int)
    ensures r >= 0
  {
    if |segs| == 0 then 0 else Total(segs[..|segs| - 1]) + segs[|segs| - 1].size
  }

  /** The size_t accumulator of GetFree and GetFrag after n loop passes: the first pass adds the
    * first segment's start, every pass adds the gap after its segment. */
  function Acc(segs: seq<Seg>, memsize: SizeT, n: nat): SizeT
    requires 0 < n <= |segs|
  {
    WrapAdd(if n == 1 then segs[0].start else Acc(segs, memsize, n - 1), WrapGap(segs, memsize, n - 1))
  }

  /** GetFree's result. */
  function FreeOf(segs: seq<Seg>, memsize: SizeT): SizeT
  {
    if |segs| == 0 then 0 else Acc(segs, memsize, |segs|)
  }

  /** GetFrag's result: the loop stops before the last segment. */
  function FragOf(segs: seq<Seg>, memsize: SizeT): SizeT
  {
    if |segs| < 2 then 0 else Acc(segs, memsize, |segs| - 1)
  }

  /** On a well-formed list nothing wraps: after n passes the accumulator holds the room up to the
    * end of the n-th gap minus the units allocated so far. */
  lemma {:induction false} AccExact(segs: seq<Seg>, memsize: SizeT, n: nat)
    requires Wellformed(segs, memsize) && 0 < n <= |segs|
    ensures Acc(segs, memsize, n) == NextStart(segs, memsize, n - 1) - Total(segs[..n])
  {
    assert segs[..n][..n - 1] == segs[..n - 1];
    WellformedGap(segs, memsize, n - 1);
    if n > 1 {
      AccExact(segs, memsize, n - 1);
    }
  }

  /** On a well-formed, non-empty list GetFree is exact: memsize minus the allocated units.
    * (An empty list reports 0.) */
  lemma FreeExact(segs: seq<Seg>, memsize: SizeT)
    requires Wellformed(segs, memsize) && |segs| > 0
    ensures FreeOf(segs, memsize) == memsize - Total(segs)
  {
    AccExact(segs, memsize, |segs|);
    assert segs[..|segs|] == segs;
  }

  /** On a well-formed list of two or more segments, GetFrag counts the free units in front of the
    * last segment, and GetFree is GetFrag plus the tail gap. */
  lemma FreeIsFragPlusTail(segs: seq<Seg>, memsize: SizeT)
    requires Wellformed(segs, memsize) && |segs| >= 2
    ensures FragOf(segs, memsize) == segs[|segs| - 1].start - Total(segs[..|segs| - 1])
    ensures FreeOf(segs, memsize) == FragOf(segs, memsize) + (memsize - End(segs[|segs| - 1]))
  {
    var n := |segs|;
    AccExact(segs, memsize, n - 1);
    FreeExact(segs, memsize);
    assert segs == segs[..n - 1] + [segs[n - 1]];
    assert Total(segs) == Total(segs[..n - 1]) + segs[n - 1].size;
  }

  /** Lines 127-137: the head of the stably sorted candidate list. */
  method HeadAfterSort(cands: seq<(Seg, nat)>, smallest: bool) returns (b: nat)
    requires |cands| > 0
    ensures b == Best(cands, smallest)
  {
    b := 0;
    for k := 1 to |cands|
      invariant b == Best(cands[..k], smallest)
    {
      assert cands[..k + 1][..k] == cands[..k];
      if Better(cands[k].0.size, cands[b].0.size, smallest) {
        b := k;
      }
    }
    assert cands[..|cands|] == cands;
  }

  class VariSeg {
    const memsize: SizeT
    var segs: seq<Seg>

    constructor(memsize: SizeT)
      ensures this.memsize == memsize && segs == []
    {
      this.memsize := memsize;
      segs := [];
    }

    /** The gap scan of lines 56-75 (and 104-122): the first segment whose gap holds `size`. */
    method ScanFirstGap(size: SizeT) returns (r: Option<nat>)
      ensures r == FirstGap(segs, memsize, size, 0)
    {
      var i := 0;
      while i < |segs|
        invariant 0 <= i <= |segs|
        invariant forall k :: 0 <= k < i ==> WrapGap(segs, memsize, k) < size
        invariant FirstGap(segs, memsize, size, 0) == FirstGap(segs, memsize, size, i)
      {
        var curstart := segs[i].start;
        var cursize := segs[i].size;
        var nextstart := if i + 1 < |segs| then segs[i + 1].start else memsize;
        var gap := WrapSub(nextstart, WrapAdd(curstart, cursize));
        if gap >= size {
          return Some(i);
        }
        i := i + 1;
      }
      return None;
    }

    method AllocFirstFree(size: SizeT) returns (r: Option<Seg>)
      modifies this
      ensures match FirstFit(old(segs), memsize, size, false)
        case None => r == None && segs == old(segs)
        case Some(p) => r == Some(p.1) && segs == Insert(old(segs), p.0, p.1)
    {
      var seg := Seg(0, size);
      if |segs| == 0 {
        if size <= memsize {
          segs := segs + [seg];
          return Some(seg);
        }
        return None;
      }
      if size <= segs[0].size {
        segs := [seg] + segs;
        return Some(seg);
      }
      var j := ScanFirstGap(size);
      if j.None? {
        return None;
      }
      var i := j.value;
      seg := Seg(WrapAdd(segs[i].start, segs[i].size), size);
      segs := segs[..i + 1] + [seg] + segs[i + 1..];
      return Some(seg);
    }

    /** Lines 97-122: the candidate list. */
    method CollectCandidates(size: SizeT) returns (cands: seq<(Seg, nat)>)
      requires |segs| > 0
      ensures cands == Candidates(segs, memsize, size, false)
    {
      cands := [];
      if size <= segs[0].size {
        cands := [(Seg(0, segs[0].size), 0)];
      }
      var front := cands;
      for i := 0 to |segs|
        invariant cands == front + GapCands(segs, memsize, size, i)
      {
        var nextstart := if i + 1 < |segs| then segs[i + 1].start else memsize;
        var gap := WrapSub(nextstart, WrapAdd(segs[i].start, segs[i].size));
        if gap < size {
          continue;
        }
        cands := cands + [(Seg(WrapAdd(segs[i].start, segs[i].size), gap), i + 1)];
      }
    }

    method AllocLargestFree(size: SizeT, smallest: bool) returns (r: Option<Seg>)
      modifies this
      ensures match LargestFit(old(segs), memsize, size, smallest, false)
        case None => r == None && segs == old(segs)
        case Some(p) => r == Some(p.1) && segs == Insert(old(segs), p.0, p.1)
    {
      if |segs| == 0 {
        if size <= memsize {
          segs := segs + [Seg(0, size)];
          return Some(Seg(0, size));
        }
        return None;
      }
      var cands := CollectCandidates(size);
      if |cands| == 0 {
        return None;
      }
      var b := HeadAfterSort(cands, smallest);
      var seg := Seg(cands[b].0.start, size);
      segs := Insert(segs, cands[b].1, seg);
      return Some(seg);
    }

    /** Removes every segment equal to the first one that starts at `start`. */
    method Free(start: SizeT)
      modifies this
      ensures match FindStart(old(segs), start)
        case None => segs == old(segs)
        case Some(k) => segs == Without(old(segs), old(segs)[k])
    {
      var i := 0;
      while i < |segs|
        invariant 0 <= i <= |segs|
        invariant forall k :: 0 <= k < i ==> segs[k].start != start
      {
        if segs[i].start == start {
          segs := Without(segs, segs[i]);
          return;
        }
        i := i + 1;
      }
    }

    method GetFrag() returns (frag: SizeT)
      ensures frag == FragOf(segs, memsize)
    {
      frag := 0;
      var n := |segs|;
      if n < 2 {
        return;
      }
      for i := 0 to n - 1
        invariant i > 0 ==> frag == Acc(segs, memsize, i)
        invariant i == 0 ==> frag == 0
      {
        if i == 0 {
          frag := WrapAdd(frag, segs[0].start);
        }
        var gap := WrapSub(segs[i + 1].start, WrapAdd(segs[i].start, segs[i].size));
        frag := WrapAdd(frag, gap);
      }
    }

    method GetFree() returns (free: SizeT)
      ensures free == FreeOf(segs, memsize)
    {
      free := 0;
      var n := |segs|;
      if n == 0 {
        return;
      }
      for i := 0 to n
        invariant i > 0 ==> free == Acc(segs, memsize, i)
        invariant i == 0 ==> free == 0
      {
        var nextstart := if i + 1 < n then segs[i + 1].start else memsize;
        if i == 0 {
          free := WrapAdd(free, segs[0].start);
        }
        free := WrapAdd(free, WrapSub(nextstart, WrapAdd(segs[i].start, segs[i].size)));
      }
    }
  }
}
