/**
 * The hand-written CRC of boost/crc.cpp: polynomial division over GF(2) in an unsigned 32-bit
 * word (the source instantiates mycrc with unsigned).  A word is its 32 bits, bit 0 first, so
 * that XOR is bitwise inequality and a left shift moves bits up and drops those above bit 31.
 * The data is shifted left by poly_size - 1 and reduced by XOR from bit 31 down to bit
 * poly_size - 1.
 */
module Crc {
  /** An unsigned 32-bit word as its bits, bit 0 first. */
  type Word = w: seq<bool> | |w| == 32 witness seq(32, j => false)

  function Zero(): Word
  {
    seq(32, j => false)
  }

  /** w << k, dropping the bits shifted past bit 31. */
  function Shl(w: Word, k: nat): (r: Word)
    ensures forall j :: 0 <= j < 32 ==> r[j] == (j >= k && w[j - k])
  {
    seq(32, j requires 0 <= j < 32 => j >= k && w[j - k])
  }

  /** a ^ b. */
  function Xor(a: Word, b: Word): (r: Word)
    ensures forall j :: 0 <= j < 32 ==> r[j] == (a[j] != b[j])
  {
    seq(32, j requires 0 <= j < 32 => a[j] != b[j])
  }

  /** No bit from k up is set. */
  predicate ClearFrom(w: Word, k: int)
  {
    forall j :: k <= j < 32 && 0 <= j ==> !w[j]
  }

  /** The highest set bit of poly at or below start, or -1 when there is none. */
  function TopBit(poly: Word, start: int): (t: int)
    requires start < 32
    ensures t == -1 || 0 <= t <= start
    ensures t >= 0 ==> poly[t] && forall j :: t < j <= start ==> !poly[j]
    ensures t == -1 ==> forall j :: 0 <= j <= start ==> !poly[j]
    decreases start + 1
  {
    if start < 0 then -1 else if poly[start] then start else TopBit(poly, start - 1)
  }

  /** The step at bit i: when bit i of d is set, poly shifted so that its bit n - 1 lines up with
    * bit i is XORed in. */
  function Step(poly: Word, n: int, d: Word, i: int): Word
    requires 1 <= n <= 32 && n - 1 <= i <= 31
  {
    if d[i] then Xor(d, Shl(poly, i + 1 - n)) else d
  }

  /** The reduction of d from bit i down to bit n - 1. */
  function Reduce(poly: Word, n: int, d: Word, i: int): Word
    requires 1 <= n <= 32 && n - 2 <= i <= 31
    decreases i - n + 2
  {
    if i < n - 1 then d else Reduce(poly, n, Step(poly, n, d, i), i - 1)
  }

  /** mycrc(poly_size, poly, data) as a function: 0 when poly has no set bit above bit 0 among its
    * low poly_size bits, otherwise the reduction of data shifted left by poly_size - 1. */
  function CrcOf(polySize: int, poly: Word, data: Word): Word
    requires polySize <= 32
  {
    if TopBit(poly, polySize - 1) <= 0 then Zero() else Reduce(poly, polySize, Shl(data, polySize - 1), 31)
  }

  /** mycrc<unsigned>. */
  method MyCrc(polySize: int, poly: Word, data: Word) returns (r: Word)
    requires polySize <= 32
    ensures r == CrcOf(polySize, poly, data)
  {
    // find the highest "1" of the polynomial
    var polyStart := polySize - 1;
    while polyStart >= 0
      invariant polyStart <= polySize - 1 && (polyStart >= -1 || polyStart == polySize - 1)
      invariant TopBit(poly, polyStart) == TopBit(poly, polySize - 1)
    {
      if poly[polyStart] {
        break;
      }
      polyStart := polyStart - 1;
    }
    if polyStart <= 0 {
      return Zero();
    }
    var d := Shl(data, polySize - 1);
    var i := 31;
    while i >= polySize - 1
      invariant polySize - 2 <= i <= 31
      invariant Reduce(poly, polySize, d, i) == Reduce(poly, polySize, Shl(data, polySize - 1), 31)
    {
      if !d[i] {
        i := i - 1;
        continue;
      }
      d := Xor(d, Shl(poly, i + 1 - polySize));
      i := i - 1;
    }
    return d;
  }

  /** A polynomial with no set bit above bit 0 among its low poly_size bits gives 0. */
  lemma NoTopBitGivesZero(polySize: int, poly: Word, data: Word)
    requires polySize <= 32
    requires forall j :: 1 <= j < polySize ==> !poly[j]
    ensures CrcOf(polySize, poly, data) == Zero()
  {
  }

  /** With a polynomial of exactly n bits, a step at bit i clears bit i and sets nothing above. */
  lemma StepClears(poly: Word, n: int, d: Word, i: int)
    requires 1 <= n <= 32 && n - 1 <= i <= 31
    requires poly[n - 1] && ClearFrom(poly, n) && ClearFrom(d, i + 1)
    ensures ClearFrom(Step(poly, n, d, i), i)
  {
  }

  lemma {:induction false} ReduceBound(poly: Word, n: int, d: Word, i: int)
    requires 1 <= n <= 32 && n - 2 <= i <= 31
    requires poly[n - 1] && ClearFrom(poly, n) && ClearFrom(d, i + 1)
    ensures ClearFrom(Reduce(poly, n, d, i), n - 1)
    decreases i - n + 2
  {
    if i >= n - 1 {
      StepClears(poly, n, d, i);
      ReduceBound(poly, n, Step(poly, n, d, i), i - 1);
    }
  }

  /** With a polynomial of exactly poly_size bits, the CRC is a remainder: no bit from the
    * polynomial's degree up is set. */
  lemma CrcBound(polySize: int, poly: Word, data: Word)
    requires 2 <= polySize <= 32 && poly[polySize - 1] && ClearFrom(poly, polySize)
    ensures ClearFrom(CrcOf(polySize, poly, data), polySize - 1)
  {
    ReduceBound(poly, polySize, Shl(data, polySize - 1), 31);
  }

  // ---------------------------------------------------------------------------------------------
  // The worked example

  /** The word whose set bits are ones. */
  function FromBits(ones: set<int>): (w: Word)
    ensures forall j :: 0 <= j < 32 ==> (w[j] <==> j in ones)
  {
    seq(32, j => j in ones)
  }

  /** Bits i down to j + 1 of d are clear: the reduction passes over them. */
  lemma {:induction false} PassClear(poly: Word, n: int, d: Word, i: int, j: int)
    requires 1 <= n <= 32 && n - 2 <= j <= i <= 31 && ClearFrom(d, j + 1)
    ensures Reduce(poly, n, d, i) == Reduce(poly, n, d, j)
    decreases i - j
  {
    if i > j {
      PassClear(poly, n, d, i - 1, j);
    }
  }

  /** One stage of the reduction: bits i down to j + 1 of d are clear, bit j is set, and XORing
    * the polynomial in at bit j gives e. */
  lemma {:induction false} ExampleStage(poly: Word, d: Word, i: int, j: int, e: Word)
    requires 4 <= j <= i <= 31 && ClearFrom(d, j + 1) && d[j]
    requires forall k :: 0 <= k < 32 ==> e[k] == (d[k] != (k >= j - 4 && poly[k - j + 4]))
    ensures Reduce(poly, 5, d, i) == Reduce(poly, 5, e, j - 1)
  {
    PassClear(poly, 5, d, i, j);
    assert Step(poly, 5, d, j) == e;
  }

  /** The polynomial 11100 (0x1c) of the worked example. */
  function ExamplePoly(): Word
  {
    FromBits({2, 3, 4})
  }

  lemma ExampleStage1()
    ensures Reduce(ExamplePoly(), 5, FromBits({5, 7, 8, 9, 10, 11}), 31)
         == Reduce(ExamplePoly(), 5, FromBits({5, 7, 8}), 10)
  {
    ExampleStage(ExamplePoly(), FromBits({5, 7, 8, 9, 10, 11}), 31, 11, FromBits({5, 7, 8}));
  }

  lemma ExampleStage2()
    ensures Reduce(ExamplePoly(), 5, FromBits({5, 7, 8}), 10) == Reduce(ExamplePoly(), 5, FromBits({5, 6}), 7)
  {
    ExampleStage(ExamplePoly(), FromBits({5, 7, 8}), 10, 8, FromBits({5, 6}));
  }

  lemma ExampleStage3()
    ensures Reduce(ExamplePoly(), 5, FromBits({5, 6}), 7) == Reduce(ExamplePoly(), 5, FromBits({4}), 5)
  {
    ExampleStage(ExamplePoly(), FromBits({5, 6}), 7, 6, FromBits({4}));
  }

  lemma ExampleStage4()
    ensures Reduce(ExamplePoly(), 5, FromBits({4}), 5) == FromBits({2, 3})
  {
    ExampleStage(ExamplePoly(), FromBits({4}), 5, 4, FromBits({2, 3}));
  }

  /** The worked example: 11111010 (0xfa) shifted by four bits and divided by 11100 (0x1c)
    * leaves 1100 (0x0c); the intermediate values are 0xfa0, 0x1a0, 0x060, 0x010. */
  lemma WorkedExample()
    ensures CrcOf(5, ExamplePoly(), FromBits({1, 3, 4, 5, 6, 7})) == FromBits({2, 3})
  {
    assert TopBit(ExamplePoly(), 4) == 4;
    assert Shl(FromBits({1, 3, 4, 5, 6, 7}), 4) == FromBits({5, 7, 8, 9, 10, 11});
    ExampleStage1();
    ExampleStage2();
    ExampleStage3();
    ExampleStage4();
  }
}
