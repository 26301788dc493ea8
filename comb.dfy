/**
 * The number of distinct permutations of a sequence (tests/comb.cpp): n! divided by the factorial
 * of every element's multiplicity.  The factorial, the counting of repetitions into a map and the
 * division over the map's entries are loops, so each is a method proved against a function of its
 * input; the map's iteration order is left open.
 */
module Comb {

  /** n! */
  function Fact(n: nat): (r: nat)
    ensures r >= 1
  {
    if n == 0 then 1 else n * Fact(n - 1)
  }

  /** fac: res = 2 * 3 * ... * n, so fac(0) == fac(1) == 1. */
  method Fac(n: nat) returns (res: nat)
    ensures res == Fact(n)
  {
    res := 1;
    var i := 2;
    while i <= n
      invariant 2 <= i <= if n < 2 then 2 else n + 1
      invariant res == Fact(i - 1)
    {
      res := res * i;
      i := i + 1;
    }
    if n < 2 {
      assert Fact(1) == 1;
    }
  }

  /** How often each element occurs, with exactly the elements of the sequence as keys. */
  function Counts<T(==)>(s: seq<T>): (m: map<T, nat>)
    ensures forall x :: x in m ==> m[x] >= 1
  {
    if |s| == 0 then map[]
    else
      var m := Counts(s[..|s| - 1]);
      var x := s[|s| - 1];
      if x in m then m[x := m[x] + 1] else m[x := 1]
  }

  /** The repetition map counts every element as the multiset of the sequence does. */
  lemma {:induction false} CountsMultiset<T>(s: seq<T>)
    ensures forall x :: x in Counts(s) <==> x in s
    ensures forall x :: x in Counts(s) ==> Counts(s)[x] == multiset(s)[x]
  {
    if |s| > 0 {
      var p, x := s[..|s| - 1], s[|s| - 1];
      CountsMultiset(p);
      assert s == p + [x];
      assert multiset(s) == multiset(p) + multiset{x};
      forall y
        ensures y in s <==> y in p || y == x
      {
        if y in s {
          var k :| 0 <= k < |s| && s[k] == y;
          if k < |s| - 1 {
            assert p[k] == y;
          }
        }
      }
    }
  }

  /** The loop of num_perm that fills num_rep from the elements in order. */
  method CountReps<T(==)>(cont: seq<T>) returns (numRep: map<T, nat>)
    ensures numRep == Counts(cont)
  {
    numRep := map[];
    var k := 0;
    while k < |cont|
      invariant k <= |cont|
      invariant numRep == Counts(cont[..k])
    {
      assert cont[..k + 1][..k] == cont[..k];
      if cont[k] in numRep {
        numRep := numRep[cont[k] := numRep[cont[k]] + 1];
      } else {
        numRep := numRep[cont[k] := 1];
      }
      k := k + 1;
    }
    assert cont[..k] == cont;
  }

  /** The sum of the map's values over the keys in ks. */
  ghost function SumOver<T>(m: map<T, nat>, ks: set<T>): nat
    requires ks <= m.Keys
  {
    if ks == {} then 0
    else
      var x :| x in ks;
      m[x] + SumOver(m, ks - {x})
  }

  /** The product of the factorials of the map's values over the keys in ks. */
  ghost function FacProduct<T>(m: map<T, nat>, ks: set<T>): (r: nat)
    requires ks <= m.Keys
    ensures r >= 1
  {
    if ks == {} then 1
    else
      var x :| x in ks;
      FacProduct(m, ks - {x}) * Fact(m[x])
  }

  /** The sum does not depend on which key is taken first. */
  lemma {:induction false} SumOverRemove<T>(m: map<T, nat>, ks: set<T>, x: T)
    requires ks <= m.Keys && x in ks
    ensures SumOver(m, ks) == m[x] + SumOver(m, ks - {x})
    decreases |ks|
  {
    var y :| y in ks && SumOver(m, ks) == m[y] + SumOver(m, ks - {y});
    if y != x {
      SumOverRemove(m, ks - {y}, x);
      SumOverRemove(m, ks - {x}, y);
      assert ks - {y} - {x} == ks - {x} - {y};
    }
  }

  /** The product does not depend on which key is taken first. */
  lemma {:induction false} FacProductRemove<T>(m: map<T, nat>, ks: set<T>, x: T)
    requires ks <= m.Keys && x in ks
    ensures FacProduct(m, ks) == FacProduct(m, ks - {x}) * Fact(m[x])
    decreases |ks|
  {
    var y :| y in ks && FacProduct(m, ks) == FacProduct(m, ks - {y}) * Fact(m[y]);
    if y != x {
      FacProductRemove(m, ks - {y}, x);
      FacProductRemove(m, ks - {x}, y);
      assert ks - {y} - {x} == ks - {x} - {y};
      Swap(FacProduct(m, ks - {x} - {y}), Fact(m[x]), Fact(m[y]));
    }
  }

  lemma Swap(a: nat, b: nat, c: nat)
    ensures a * b * c == a * c * b
  {
  }

  /** Two maps that agree on ks have the same sum over ks. */
  lemma {:induction false} SumOverAgree<T>(m: map<T, nat>, m': map<T, nat>, ks: set<T>)
    requires ks <= m.Keys && ks <= m'.Keys
    requires forall x :: x in ks ==> m[x] == m'[x]
    ensures SumOver(m, ks) == SumOver(m', ks)
    decreases |ks|
  {
    if ks != {} {
      var x :| x in ks && SumOver(m, ks) == m[x] + SumOver(m, ks - {x});
      SumOverRemove(m', ks, x);
      SumOverAgree(m, m', ks - {x});
    }
  }

  /** The multiplicities add up to the length of the sequence. */
  lemma {:induction false} CountsSum<T>(s: seq<T>)
    ensures SumOver(Counts(s), Counts(s).Keys) == |s|
  {
    if |s| > 0 {
      var p, x := s[..|s| - 1], s[|s| - 1];
      var m, m' := Counts(p), Counts(s);
      CountsSum(p);
      assert m'.Keys == m.Keys + {x};
      SumOverRemove(m', m'.Keys, x);
      SumOverAgree(m, m', m.Keys - {x});
      if x in m {
        SumOverRemove(m, m.Keys, x);
        assert m'.Keys - {x} == m.Keys - {x};
      } else {
        assert m'.Keys - {x} == m.Keys - {x} == m.Keys;
      }
    }
  }

  /** Dividing by a and then by b is dividing by a * b. */
  lemma DivDiv(n: nat, a: nat, b: nat)
    requires a >= 1 && b >= 1
    ensures n / a / b == n / (a * b)
  {
    var rem := DivDivParts(n, a, b);
    DivUnique(n, a * b, n / a / b, rem);
  }

  /** n is a * b times n / a / b plus a remainder below a * b. */
  lemma DivDivParts(n: nat, a: nat, b: nat) returns (rem: nat)
    requires a >= 1 && b >= 1
    ensures n == (a * b) * (n / a / b) + rem && rem < a * b
  {
    var q, r := n / a, n % a;
    var q2, r2 := q / b, q % b;
    assert n == a * q + r && q == b * q2 + r2;
    Distrib(a, b, q2, r2);
    Bound(a, b, r2);
    rem := a * r2 + r;
  }

  lemma Distrib(a: nat, b: nat, q: nat, r: nat)
    ensures a * (b * q + r) == (a * b) * q + a * r
  {
  }

  lemma Bound(a: nat, b: nat, r: nat)
    requires r < b
    ensures a * r <= a * b - a
  {
    MulLe(a, r, b - 1);
  }

  lemma MulLe(a: nat, x: nat, y: nat)
    requires x <= y
    ensures a * x <= a * y
  {
  }

  /** A quotient with a remainder in range is the quotient. */
  lemma DivUnique(n: nat, d: nat, q: nat, r: nat)
    requires d >= 1 && n == d * q + r && r < d
    ensures n / d == q
  {
    var q', r' := n / d, n % d;
    assert n == d * q' + r' && r' < d;
    if q' < q {
      MulLe(d, q' + 1, q);
    } else if q' > q {
      MulLe(d, q + 1, q');
    }
  }

  /** One entry of the division loop: dividing by the factorial of a multiplicity above one, or
    * skipping a multiplicity of one, extends the product by that entry. */
  lemma DivideStep<T>(m: map<T, nat>, done: set<T>, x: T, n: nat, num: nat)
    requires done <= m.Keys && x in m && x !in done && num == n / FacProduct(m, done)
    ensures (if m[x] > 1 then num / Fact(m[x]) else num) == n / FacProduct(m, done + {x})
  {
    FacProductRemove(m, done + {x}, x);
    assert done + {x} - {x} == done;
    if m[x] > 1 {
      DivDiv(n, FacProduct(m, done), Fact(m[x]));
    } else {
      assert Fact(m[x]) == 1 by {
        assert m[x] == 0 || m[x] == 1;
      }
    }
  }

  /** The loop of num_perm over the repetition map, entry by entry in whatever order the map
    * yields them: n is divided by the factorial of each multiplicity above one. */
  method DivideAll<T>(n: nat, numRep: map<T, nat>) returns (num: nat)
    ensures num == n / FacProduct(numRep, numRep.Keys)
  {
    num := n;
    var todo := numRep.Keys;
    assert numRep.Keys - todo == {};
    while todo != {}
      invariant todo <= numRep.Keys
      invariant num == n / FacProduct(numRep, numRep.Keys - todo)
      decreases |todo|
    {
      var x :| x in todo;
      DivideStep(numRep, numRep.Keys - todo, x, n, num);
      if numRep[x] > 1 {
        var f := Fac(numRep[x]);
        num := num / f;
      }
      assert numRep.Keys - (todo - {x}) == (numRep.Keys - todo) + {x};
      todo := todo - {x};
    }
    assert numRep.Keys - todo == numRep.Keys;
  }

  /** num_perm: n! over the product of the factorials of the multiplicities (a multiplicity of
    * one is skipped, which changes nothing since 1! == 1). */
  method NumPerm<T(==)>(cont: seq<T>) returns (num: nat)
    ensures num == Fact(|cont|) / FacProduct(Counts(cont), Counts(cont).Keys)
  {
    var numRep := CountReps(cont);
    var n := Fac(|cont|);
    num := DivideAll(n, numRep);
  }

  /** An element that occurs once leaves the count unchanged: a sequence of distinct elements has
    * n! permutations. */
  lemma {:induction false} DistinctAllPermutations<T>(s: seq<T>)
    requires forall i, j :: 0 <= i < j < |s| ==> s[i] != s[j]
    ensures FacProduct(Counts(s), Counts(s).Keys) == 1
  {
    CountsMultiset(s);
    AllOnes(Counts(s), Counts(s).Keys, s);
  }

  lemma {:induction false} AllOnes<T>(m: map<T, nat>, ks: set<T>, s: seq<T>)
    requires ks <= m.Keys
    requires forall i, j :: 0 <= i < j < |s| ==> s[i] != s[j]
    requires forall x :: x in m ==> m[x] == multiset(s)[x]
    ensures FacProduct(m, ks) == 1
    decreases |ks|
  {
    if ks != {} {
      var x :| x in ks && FacProduct(m, ks) == FacProduct(m, ks - {x}) * Fact(m[x]);
      MultiplicityOne(s, x);
      assert Fact(m[x]) == 1 by {
        assert m[x] == 0 || m[x] == 1;
      }
      AllOnes(m, ks - {x}, s);
    }
  }

  /** In a sequence of distinct elements every element occurs at most once. */
  lemma {:induction false} MultiplicityOne<T>(s: seq<T>, x: T)
    requires forall i, j :: 0 <= i < j < |s| ==> s[i] != s[j]
    ensures multiset(s)[x] <= 1
  {
    if |s| > 0 {
      var p := s[..|s| - 1];
      assert s == p + [s[|s| - 1]];
      MultiplicityOne(p, x);
      if s[|s| - 1] == x {
        assert x !in p;
      }
    }
  }

  /** A single element repeated throughout is counted as often as the sequence is long. */
  lemma {:induction false} CountsRepeated<T>(s: seq<T>, x: T)
    requires |s| >= 1 && forall i :: 0 <= i < |s| ==> s[i] == x
    ensures Counts(s) == map[x := |s|]
  {
    if |s| > 1 {
      CountsRepeated(s[..|s| - 1], x);
    }
  }

  /** A sequence made of a single repeated element has exactly one arrangement. */
  lemma {:induction false} RepeatedOnePermutation<T>(s: seq<T>, x: T)
    requires forall i :: 0 <= i < |s| ==> s[i] == x
    ensures Fact(|s|) / FacProduct(Counts(s), Counts(s).Keys) == 1
  {
    if |s| == 0 {
      assert Counts(s) == map[];
    } else {
      CountsRepeated(s, x);
      var m := map[x := |s|];
      FacProductRemove(m, m.Keys, x);
      assert m.Keys - {x} == {};
      assert FacProduct(m, m.Keys) == Fact(|s|);
      DivUnique(Fact(|s|), Fact(|s|), 1, 0);
    }
  }
}
