/**
 * Subset construction of parser/grammars/nfa_to_dfa.cpp.  An automaton lists its states, its
 * symbols, a start state, its end states and its transitions; nfa_to_dfa numbers the sets of NFA
 * states it meets, starting with {start}, and adds one DFA transition per (DFA state, symbol)
 * whose NFA successors are not empty, repeating full rounds until a round adds nothing.
 */
module NfaToDfa {

  datatype Transition = Transition(start: int, end: int, symbol: int)

  datatype Automaton = Automaton(states: set<int>, symbols: set<int>, start: int, end: seq<int>,
                                 transitions: seq<Transition>)

  /** The targets of the transitions of `a` from `start` via `sym`. */
  function EndStates(a: Automaton, start: int, sym: int): set<int>
  {
    set t | t in a.transitions && t.start == start && t.symbol == sym :: t.end
  }

  /** The targets of the transitions of `a` from any state of `from` via `sym`. */
  function Reach(a: Automaton, from: set<int>, sym: int): set<int>
  {
    set t | t in a.transitions && t.start in from && t.symbol == sym :: t.end
  }

  /** Every NFA state a DFA state can contain: the start state and the transition targets. */
  function Universe(a: Automaton): set<int>
  {
    {a.start} + set t | t in a.transitions :: t.end
  }

  /** get_end_state: the targets of the transitions from `start` via `sym`. */
  method GetEndState(a: Automaton, start: int, sym: int) returns (end: set<int>)
    ensures end == EndStates(a, start, sym)
  {
    end := {};
    for i := 0 to |a.transitions|
      invariant end == set t | t in a.transitions[..i] && t.start == start && t.symbol == sym :: t.end
    {
      var trans := a.transitions[i];
      assert a.transitions[..i + 1] == a.transitions[..i] + [trans];
      if trans.start == start && trans.symbol == sym {
        end := end + {trans.end};
      }
    }
    assert a.transitions[..|a.transitions|] == a.transitions;
  }

  /** The merge loop of nfa_to_dfa: the union of get_end_state over the NFA states of a DFA state. */
  method ReachableStates(a: Automaton, from: set<int>, sym: int) returns (reach: set<int>)
    ensures reach == Reach(a, from, sym)
  {
    reach := {};
    var todo := from;
    while exists x :: x in todo
      invariant todo <= from
      invariant reach == Reach(a, from - todo, sym)
      decreases todo
    {
      var s :| s in todo;
      var end := GetEndState(a, s, sym);
      reach := reach + end;
      todo := todo - {s};
      assert Reach(a, from - todo, sym) == Reach(a, from - (todo + {s}), sym) + EndStates(a, s, sym);
    }
    assert todo == {};
  }

  // ---------------------------------------------------------------------------------------------
  // How many distinct DFA states there can be

  function Pow2(n: nat): nat
  {
    if n == 0 then 1 else 2 * Pow2(n - 1)
  }

  /** Removing an element every set of the family contains keeps the sets apart. */
  lemma {:induction false} RemoveCommonCard(f: set<set<int>>, x: int)
    requires forall s :: s in f ==> x in s
    ensures |set s | s in f :: s - {x}| == |f|
    decreases |f|
  {
    if f != {} {
      var s0 :| s0 in f;
      var g := f - {s0};
      RemoveCommonCard(g, x);
      var img, imgG := set s | s in f :: s - {x}, set s | s in g :: s - {x};
      assert img == imgG + {s0 - {x}};
      forall s1 | s1 in g
        ensures s1 - {x} != s0 - {x}
      {
        assert s1 == (s1 - {x}) + {x} && s0 == (s0 - {x}) + {x};
      }
      assert s0 - {x} !in imgG;
    }
  }

  /** The only subset of the empty set is the empty set. */
  lemma EmptyFamily(f: set<set<int>>)
    requires forall s :: s in f ==> s <= {}
    ensures |f| <= 1
  {
    var empty: set<int> := {};
    forall s | s in f
      ensures s == empty
    {
    }
    assert f <= {empty};
    if f != {} {
      assert f == {empty};
    }
  }

  /** Splitting a family of subsets of u on whether they hold x: the two parts, with x removed
    * from the second, are families of subsets of u - {x}. */
  lemma SplitFamily(f: set<set<int>>, u: set<int>, x: int, f1: set<set<int>>, f2: set<set<int>>,
                    g2: set<set<int>>)
    requires forall s :: s in f ==> s <= u
    requires f1 == set s | s in f && x !in s
    requires f2 == set s | s in f && x in s
    requires g2 == set s | s in f2 :: s - {x}
    ensures |f| == |f1| + |f2|
    ensures forall s :: s in f1 ==> s <= u - {x}
    ensures forall s :: s in f2 ==> x in s
    ensures forall s :: s in g2 ==> s <= u - {x}
  {
    assert f == f1 + f2 && f1 * f2 == {};
    forall s | s in g2
      ensures s <= u - {x}
    {
      var s2 :| s2 in f2 && s == s2 - {x};
      assert s2 <= u;
    }
  }

  /** A family of subsets of u has at most 2^|u| members. */
  lemma {:induction false} SubsetFamilyBound(f: set<set<int>>, u: set<int>)
    requires forall s :: s in f ==> s <= u
    ensures |f| <= Pow2(|u|)
    decreases |u|
  {
    if forall x :: x !in u {
      assert u == {};
      EmptyFamily(f);
    } else {
      var x :| x in u;
      var v := u - {x};
      assert |v| == |u| - 1;
      var f1 := set s | s in f && x !in s;
      var f2 := set s | s in f && x in s;
      var g2 := set s | s in f2 :: s - {x};
      SplitFamily(f, u, x, f1, f2, g2);
      RemoveCommonCard(f2, x);
      SubsetFamilyBound(f1, v);
      SubsetFamilyBound(g2, v);
    }
  }

  predicate Distinct(ds: seq<set<int>>)
  {
    forall i, j :: 0 <= i < j < |ds| ==> ds[i] != ds[j]
  }

  /** Equal entries of a list of distinct sets are one entry. */
  lemma DistinctAt(ds: seq<set<int>>, i: int, j: int)
    requires Distinct(ds) && 0 <= i < |ds| && 0 <= j < |ds| && ds[i] == ds[j]
    ensures i == j
  {
  }

  /** A list of distinct subsets of u is at most 2^|u| long. */
  lemma {:induction false} DistinctBound(ds: seq<set<int>>, u: set<int>)
    requires Distinct(ds) && forall i :: 0 <= i < |ds| ==> ds[i] <= u
    ensures |ds| <= Pow2(|u|)
  {
    SeqSetCard(ds);
    SubsetFamilyBound(set i | 0 <= i < |ds| :: ds[i], u);
  }

  lemma {:induction false} SeqSetCard(ds: seq<set<int>>)
    requires Distinct(ds)
    ensures |set i | 0 <= i < |ds| :: ds[i]| == |ds|
    decreases |ds|
  {
    if ds != [] {
      var n := |ds| - 1;
      SeqSetCard(ds[..n]);
      var all, front := set i | 0 <= i < |ds| :: ds[i], set i | 0 <= i < n :: ds[..n][i];
      assert all == front + {ds[n]};
      assert ds[n] !in front;
    }
  }

  // ---------------------------------------------------------------------------------------------
  // nfa_to_dfa

  /** What holds of the DFA built so far: state 0 is {start}; the states are distinct, non-empty
    * sets of NFA states; every transition joins two numbered states and leads to the NFA
    * successors of its start; no transition is listed twice. */
  predicate Built(nfa: Automaton, ds: seq<set<int>>, trans: seq<Transition>)
  {
    |ds| >= 1 && ds[0] == {nfa.start} && Distinct(ds)
    && (forall i :: 0 <= i < |ds| ==> ds[i] != {} && ds[i] <= Universe(nfa))
    && (forall t :: t in trans ==>
          0 <= t.start < |ds| && 0 <= t.end < |ds| && t.symbol in nfa.symbols
          && ds[t.end] == Reach(nfa, ds[t.start], t.symbol))
    && (forall i, j :: 0 <= i < j < |trans| ==> trans[i] != trans[j])
  }

  /** DFA state i has its transition via sym, if its NFA successors are not empty. */
  predicate Covered(nfa: Automaton, ds: seq<set<int>>, trans: seq<Transition>, i: nat, sym: int)
    requires i < |ds|
  {
    Reach(nfa, ds[i], sym) != {} ==> exists t :: t in trans && t.start == i && t.symbol == sym
  }

  /** Every DFA state below n has its transitions. */
  predicate CoveredBelow(nfa: Automaton, ds: seq<set<int>>, trans: seq<Transition>, n: nat)
    requires n <= |ds|
  {
    forall i, sym :: 0 <= i < n && sym in nfa.symbols ==> Covered(nfa, ds, trans, i, sym)
  }

  /** Appending states and transitions keeps what is covered. */
  lemma CoveredGrows(nfa: Automaton, ds: seq<set<int>>, trans: seq<Transition>, ds': seq<set<int>>,
                     trans': seq<Transition>, n: nat)
    requires n <= |ds| <= |ds'| && ds'[..|ds|] == ds && trans <= trans'
    requires CoveredBelow(nfa, ds, trans, n)
    ensures CoveredBelow(nfa, ds', trans', n)
  {
    forall i, sym | 0 <= i < n && sym in nfa.symbols
      ensures Covered(nfa, ds', trans', i, sym)
    {
      assert Covered(nfa, ds, trans, i, sym);
      CoveredKept(nfa, ds, trans, ds', trans', i, sym);
    }
  }

  /** Appending states and transitions keeps one covered state and symbol covered. */
  lemma CoveredKept(nfa: Automaton, ds: seq<set<int>>, trans: seq<Transition>, ds': seq<set<int>>,
                    trans': seq<Transition>, i: nat, sym: int)
    requires i < |ds| <= |ds'| && ds'[..|ds|] == ds && trans <= trans'
    requires Covered(nfa, ds, trans, i, sym)
    ensures Covered(nfa, ds', trans', i, sym)
  {
    assert ds'[i] == ds[i];
    if Reach(nfa, ds[i], sym) != {} {
      var t :| t in trans && t.start == i && t.symbol == sym;
      assert t in trans';
    }
  }

  /** The state numbers 0 .. n-1. */
  function Indices(n: nat): (r: set<int>)
    ensures forall k :: k in r <==> 0 <= k < n
  {
    if n == 0 then {} else Indices(n - 1) + {n - 1}
  }

  /** The end states of the DFA: every state index, once per NFA end state the state contains. */
  function EndIdxs(ds: seq<set<int>>, ends: seq<int>): seq<int>
  {
    if |ds| == 0 then [] else EndIdxs(ds[..|ds| - 1], ends) + Repeat(|ds| - 1, Count(ds[|ds| - 1], ends))
  }

  /** How many entries of `ends` lie in `s`. */
  function Count(s: set<int>, ends: seq<int>): nat
  {
    if |ends| == 0 then 0 else Count(s, ends[..|ends| - 1]) + (if ends[|ends| - 1] in s then 1 else 0)
  }

  function Repeat(x: int, n: nat): (r: seq<int>)
    ensures |r| == n && forall k :: 0 <= k < n ==> r[k] == x
  {
    if n == 0 then [] else Repeat(x, n - 1) + [x]
  }

  /** A DFA state is listed as an end state as many times as it contains NFA end states. */
  lemma {:induction false} EndIdxsCount(ds: seq<set<int>>, ends: seq<int>, x: int)
    ensures multiset(EndIdxs(ds, ends))[x] == if 0 <= x < |ds| then Count(ds[x], ends) else 0
    decreases |ds|
  {
    if |ds| > 0 {
      var n := |ds| - 1;
      EndIdxsCount(ds[..n], ends, x);
      RepeatCount(n, Count(ds[n], ends), x);
      var front, rep := EndIdxs(ds[..n], ends), Repeat(n, Count(ds[n], ends));
      assert EndIdxs(ds, ends) == front + rep;
      assert multiset(front + rep) == multiset(front) + multiset(rep);
      if 0 <= x < n {
        assert ds[..n][x] == ds[x];
      }
    }
  }

  lemma {:induction false} RepeatCount(y: int, n: nat, x: int)
    ensures multiset(Repeat(y, n))[x] == if x == y then n else 0
    decreases n
  {
    if n > 0 {
      RepeatCount(y, n - 1, x);
      assert multiset(Repeat(y, n)) == multiset(Repeat(y, n - 1)) + multiset{y};
    }
  }

  /** Some end state lies in s exactly when the count is positive. */
  lemma {:induction false} CountPositive(s: set<int>, ends: seq<int>)
    ensures Count(s, ends) > 0 <==> exists e :: e in ends && e in s
    decreases |ends|
  {
    if |ends| > 0 {
      var n := |ends| - 1;
      CountPositive(s, ends[..n]);
      assert ends == ends[..n] + [ends[n]];
      if Count(s, ends[..n]) > 0 {
        var e :| e in ends[..n] && e in s;
        assert e in ends;
      }
      if exists e :: e in ends && e in s {
        var e :| e in ends && e in s;
        if e != ends[n] {
          assert e in ends[..n];
        }
      }
    }
  }

  /** has_state: whether a non-empty set of NFA states is already a DFA state, and which. */
  method HasState(ds: seq<set<int>>, state: set<int>) returns (found: bool, idx: int)
    ensures found <==> state != {} && state in ds
    ensures found ==> 0 <= idx < |ds| && ds[idx] == state && state !in ds[..idx]
    ensures !found ==> idx == 0
  {
    if |state| == 0 {
      return false, 0;
    }
    idx := 0;
    while idx < |ds|
      invariant 0 <= idx <= |ds| && state !in ds[..idx]
    {
      if ds[idx] == state {
        return true, idx;
      }
      assert ds[..idx + 1] == ds[..idx] + [ds[idx]];
      idx := idx + 1;
    }
    assert ds[..idx] == ds;
    return false, 0;
  }

  /** has_transition: whether the transition is already a DFA transition. */
  method HasTransition(trans: seq<Transition>, t: Transition) returns (found: bool)
    ensures found <==> t in trans
  {
    for i := 0 to |trans|
      invariant t !in trans[..i]
    {
      if trans[i].start == t.start && trans[i].end == t.end && trans[i].symbol == t.symbol {
        return true;
      }
      assert trans[..i + 1] == trans[..i] + [trans[i]];
    }
    assert trans[..|trans|] == trans;
    return false;
  }

  // ---------------------------------------------------------------------------------------------
  // The order of the symbol loop: the symbols of an automaton are a std::set, visited ascending

  /** The least element of a non-empty set of symbols. */
  ghost function Least(s: set<int>): (m: int)
    requires s != {}
    ensures m in s && forall x :: x in s ==> m <= x
    decreases s
  {
    assert (forall y :: y !in s) ==> s == {};
    var x :| x in s;
    if s == {x} then x
    else
      var m := Least(s - {x});
      assert forall y :: y in s ==> y == x || y in s - {x};
      if x < m then x else m
  }

  /** The symbols of `s` in ascending order, as iterating a std::set visits them. */
  ghost function Ascending(s: set<int>): (r: seq<int>)
    ensures forall i, j :: 0 <= i < j < |r| ==> r[i] < r[j]
    ensures forall x :: x in r <==> x in s
    decreases s
  {
    if s == {} then []
    else
      var m := Least(s);
      [m] + Ascending(s - {m})
  }

  /** The first position of x in ds. */
  function IndexOf(ds: seq<set<int>>, x: set<int>): (r: int)
    requires x in ds
    ensures 0 <= r < |ds| && ds[r] == x && x !in ds[..r]
  {
    if ds[0] == x then 0
    else
      var r := 1 + IndexOf(ds[1..], x);
      assert ds[..r] == [ds[0]] + ds[1..][..r - 1];
      r
  }

  /** What one step of the symbol loop does to the DFA: nothing when there are no NFA successors;
    * otherwise the successor set is appended as a new DFA state unless it is numbered already,
    * and the transition to its number is appended unless it is listed already. */
  ghost function StepOf(nfa: Automaton, ds: seq<set<int>>, trans: seq<Transition>, idx: int, sym: int)
    : (r: (seq<set<int>>, seq<Transition>))
    requires 0 <= idx < |ds|
    ensures |ds| <= |r.0|
  {
    var reach := Reach(nfa, ds[idx], sym);
    if reach == {} then (ds, trans)
    else
      var ds1 := if reach in ds then ds else ds + [reach];
      var t := Transition(idx, IndexOf(ds1, reach), sym);
      (ds1, if t in trans then trans else trans + [t])
  }

  /** The steps for the symbols of syms, one after the other. */
  ghost function StepsOf(nfa: Automaton, ds: seq<set<int>>, trans: seq<Transition>, idx: int, syms: seq<int>)
    : (seq<set<int>>, seq<Transition>)
    requires 0 <= idx < |ds|
    decreases |syms|
  {
    if syms == [] then (ds, trans)
    else
      var r := StepOf(nfa, ds, trans, idx, syms[0]);
      StepsOf(nfa, r.0, r.1, idx, syms[1..])
  }

  /** One step of the symbol loop for DFA state idx: finds or adds the DFA state of the NFA
    * successors via sym and adds the transition to it unless it is known. */
  method Step(nfa: Automaton, ds: seq<set<int>>, trans: seq<Transition>, idx: int, sym: int)
    returns (ds': seq<set<int>>, trans': seq<Transition>, addedState: bool, addedTrans: bool)
    requires Built(nfa, ds, trans) && 0 <= idx < |ds| && sym in nfa.symbols
    ensures Built(nfa, ds', trans')
    ensures |ds| <= |ds'| && ds'[..|ds|] == ds && trans <= trans'
    ensures Covered(nfa, ds', trans', idx, sym)
    ensures addedState <==> ds' != ds
    ensures addedTrans <==> trans' != trans
    ensures Covered(nfa, ds, trans, idx, sym) ==> ds' == ds && trans' == trans
    ensures (ds', trans') == StepOf(nfa, ds, trans, idx, sym)
  {
    ds', trans', addedState, addedTrans := ds, trans, false, false;
    var reach := ReachableStates(nfa, ds[idx], sym);
    if |reach| == 0 {
      return;
    }
    assert reach <= Universe(nfa);
    var found, prev := HasState(ds, reach);
    if Covered(nfa, ds, trans, idx, sym) {
      var u :| u in trans && u.start == idx && u.symbol == sym;
      assert ds[u.end] == reach;
      DistinctAt(ds, u.end, prev);
      assert u == Transition(idx, prev, sym);
    }
    if found {
      DistinctAt(ds, prev, IndexOf(ds, reach));
    } else {
      ds' := ds + [reach];
      prev := |ds'| - 1;
      addedState := true;
      assert ds'[..|ds|] == ds;
      assert IndexOf(ds', reach) == prev;
      assert ds' != ds by {
        assert |ds'| != |ds|;
      }
    }
    var t := Transition(idx, prev, sym);
    var has := HasTransition(trans, t);
    if !has {
      trans' := trans + [t];
      addedTrans := true;
      assert trans' != trans by {
        assert |trans'| != |trans|;
      }
    }
    assert t in trans';
  }

  /** The end-state loop: every state index enters the state set, and is listed as an end state
    * once per NFA end state it contains. */
  method NumberStates(ds: seq<set<int>>, ends: seq<int>) returns (states: set<int>, endIdxs: seq<int>)
    ensures states == Indices(|ds|)
    ensures endIdxs == EndIdxs(ds, ends)
  {
    states, endIdxs := {}, [];
    for i := 0 to |ds|
      invariant states == Indices(i)
      invariant endIdxs == EndIdxs(ds[..i], ends)
    {
      states := states + {i};
      for e := 0 to |ends|
        invariant endIdxs == EndIdxs(ds[..i], ends) + Repeat(i, Count(ds[i], ends[..e]))
      {
        assert ends[..e + 1][..e] == ends[..e];
        if ends[e] in ds[i] {
          endIdxs := endIdxs + [i];
        }
      }
      assert ends[..|ends|] == ends;
      assert ds[..i + 1][..i] == ds[..i];
    }
    assert ds[..|ds|] == ds;
  }

  /** Growing twice is growing once, and it changes something when either growth does. */
  lemma Grown(ds: seq<set<int>>, trans: seq<Transition>, ds': seq<set<int>>, trans': seq<Transition>,
              ds2: seq<set<int>>, trans2: seq<Transition>)
    requires |ds| <= |ds'| && ds'[..|ds|] == ds && trans <= trans'
    requires |ds'| <= |ds2| && ds2[..|ds'|] == ds' && trans' <= trans2
    ensures |ds| <= |ds2| && ds2[..|ds|] == ds && trans <= trans2
    ensures ds2 != ds <==> ds' != ds || ds2 != ds'
    ensures trans2 != trans <==> trans' != trans || trans2 != trans'
  {
    assert ds2[..|ds|] == ds2[..|ds'|][..|ds|];
    if ds' != ds {
      assert |ds'| > |ds|;
    }
    if trans' != trans {
      assert |trans'| > |trans|;
    }
  }

  /** Taking the least symbol left and stepping with it follows the ascending order. */
  lemma InOrder(nfa: Automaton, ds: seq<set<int>>, trans: seq<Transition>, idx: int, todo: set<int>,
                sym: int, ds2: seq<set<int>>, trans2: seq<Transition>)
    requires 0 <= idx < |ds| && sym in todo && forall x :: x in todo ==> sym <= x
    requires (ds2, trans2) == StepOf(nfa, ds, trans, idx, sym)
    ensures StepsOf(nfa, ds2, trans2, idx, Ascending(todo - {sym})) == StepsOf(nfa, ds, trans, idx, Ascending(todo))
  {
    assert Least(todo) == sym;
    assert Ascending(todo) == [sym] + Ascending(todo - {sym});
  }

  /** The symbol loop of nfa_to_dfa for DFA state idx: one Step per NFA symbol, in ascending
    * order, which fixes the numbers of the states it adds and the order of its transitions.
    * Afterwards the state has all its transitions; when every state had them before, nothing
    * changes. */
  method ProcessState(nfa: Automaton, ds: seq<set<int>>, trans: seq<Transition>, idx: int)
    returns (ds': seq<set<int>>, trans': seq<Transition>, addedState: bool, addedTrans: bool)
    requires Built(nfa, ds, trans) && 0 <= idx < |ds| && CoveredBelow(nfa, ds, trans, idx)
    ensures Built(nfa, ds', trans')
    ensures |ds| <= |ds'| && ds'[..|ds|] == ds && trans <= trans'
    ensures CoveredBelow(nfa, ds', trans', idx + 1)
    ensures addedState <==> ds' != ds
    ensures addedTrans <==> trans' != trans
    ensures CoveredBelow(nfa, ds, trans, |ds|) ==> ds' == ds && trans' == trans
    ensures (ds', trans') == StepsOf(nfa, ds, trans, idx, Ascending(nfa.symbols))
  {
    ds', trans', addedState, addedTrans := ds, trans, false, false;
    var todo := nfa.symbols;
    while exists x :: x in todo
      invariant Built(nfa, ds', trans')
      invariant |ds| <= |ds'| && ds'[..|ds|] == ds && trans <= trans'
      invariant CoveredBelow(nfa, ds', trans', idx)
      invariant todo <= nfa.symbols
      invariant forall sym :: sym in nfa.symbols - todo ==> Covered(nfa, ds', trans', idx, sym)
      invariant addedState <==> ds' != ds
      invariant addedTrans <==> trans' != trans
      invariant CoveredBelow(nfa, ds, trans, |ds|) ==> ds' == ds && trans' == trans
      invariant StepsOf(nfa, ds', trans', idx, Ascending(todo)) == StepsOf(nfa, ds, trans, idx, Ascending(nfa.symbols))
      decreases todo
    {
      ghost var least := Least(todo);
      var sym :| sym in todo && forall x :: x in todo ==> sym <= x;
      ghost var before := todo;
      todo := todo - {sym};
      if CoveredBelow(nfa, ds, trans, |ds|) {
        assert Covered(nfa, ds, trans, idx, sym);
      }
      var ds2, trans2, s, t := Step(nfa, ds', trans', idx, sym);
      CoveredGrows(nfa, ds', trans', ds2, trans2, idx);
      forall sym' | sym' in nfa.symbols - todo && sym' != sym
        ensures Covered(nfa, ds2, trans2, idx, sym')
      {
        CoveredKept(nfa, ds', trans', ds2, trans2, idx, sym');
      }
      Grown(ds, trans, ds', trans', ds2, trans2);
      InOrder(nfa, ds', trans', idx, before, sym, ds2, trans2);
      ds', trans' := ds2, trans2;
      addedState := addedState || s;
      addedTrans := addedTrans || t;
    }
    assert todo == {};
    forall i, sym | 0 <= i < idx + 1 && sym in nfa.symbols
      ensures Covered(nfa, ds', trans', i, sym)
    {
    }
  }

  /** One round of the main loop of nfa_to_dfa: the symbol loop for every DFA state, including
    * the states the round adds.  Afterwards every state has its transitions; when that held
    * before, the round adds nothing. */
  method Round(nfa: Automaton, ds: seq<set<int>>, trans: seq<Transition>)
    returns (ds': seq<set<int>>, trans': seq<Transition>, addedState: bool, addedTrans: bool)
    requires Built(nfa, ds, trans)
    ensures Built(nfa, ds', trans') && CoveredBelow(nfa, ds', trans', |ds'|)
    ensures |ds| <= |ds'| && ds'[..|ds|] == ds && trans <= trans'
    ensures addedState <==> ds' != ds
    ensures addedTrans <==> trans' != trans
    ensures CoveredBelow(nfa, ds, trans, |ds|) ==> ds' == ds && trans' == trans
  {
    ds', trans', addedState, addedTrans := ds, trans, false, false;
    var u := Universe(nfa);
    var idx := 0;
    while idx < |ds'|
      invariant Built(nfa, ds', trans') && idx <= |ds'|
      invariant CoveredBelow(nfa, ds', trans', idx)
      invariant |ds| <= |ds'| && ds'[..|ds|] == ds && trans <= trans'
      invariant addedState <==> ds' != ds
      invariant addedTrans <==> trans' != trans
      invariant CoveredBelow(nfa, ds, trans, |ds|) ==> ds' == ds && trans' == trans
      decreases Pow2(|u|) - idx
    {
      DistinctBound(ds', u);
      var ds2, trans2, s, t := ProcessState(nfa, ds', trans', idx);
      Grown(ds, trans, ds', trans', ds2, trans2);
      ds', trans' := ds2, trans2;
      addedState := addedState || s;
      addedTrans := addedTrans || t;
      idx := idx + 1;
    }
  }

  /** nfa_to_dfa: the DFA and, for each DFA state, the set of NFA states it stands for. */
  method NfaToDfa(nfa: Automaton) returns (dfa: Automaton, dfaStates: seq<set<int>>)
    ensures |dfaStates| > 0 && dfa.start == 0 && dfaStates[0] == {nfa.start} && dfa.symbols == nfa.symbols
    ensures Distinct(dfaStates)
    ensures forall i :: 0 <= i < |dfaStates| ==> dfaStates[i] != {} && dfaStates[i] <= Universe(nfa)
    ensures forall t :: t in dfa.transitions ==>
      0 <= t.start < |dfaStates| && 0 <= t.end < |dfaStates| && t.symbol in nfa.symbols
      && dfaStates[t.end] == Reach(nfa, dfaStates[t.start], t.symbol)
    ensures forall i, sym :: 0 <= i < |dfaStates| && sym in nfa.symbols && Reach(nfa, dfaStates[i], sym) != {} ==>
      exists t :: t in dfa.transitions && t.start == i && t.symbol == sym
    ensures forall i, j :: 0 <= i < j < |dfa.transitions| ==> dfa.transitions[i] != dfa.transitions[j]
    ensures dfa.states == Indices(|dfaStates|)
    ensures dfa.end == EndIdxs(dfaStates, nfa.end)
  {
    var ds: seq<set<int>> := [{nfa.start}];
    var trans: seq<Transition> := [];
    while true
      invariant Built(nfa, ds, trans)
      decreases if CoveredBelow(nfa, ds, trans, |ds|) then 0 else 1
    {
      var ds', trans', addedState, addedTrans := Round(nfa, ds, trans);
      ds, trans := ds', trans';
      if !addedState && !addedTrans {
        break;
      }
    }
    assert CoveredBelow(nfa, ds, trans, |ds|);
    forall i, sym | 0 <= i < |ds| && sym in nfa.symbols && Reach(nfa, ds[i], sym) != {}
      ensures exists t :: t in trans && t.start == i && t.symbol == sym
    {
      assert Covered(nfa, ds, trans, i, sym);
    }
    var states, endIdxs := NumberStates(ds, nfa.end);
    dfa := Automaton(states, nfa.symbols, 0, endIdxs, trans);
    dfaStates := ds;
  }

  /** At most one DFA transition leaves a state via a symbol. */
  lemma Deterministic(nfa: Automaton, ds: seq<set<int>>, trans: seq<Transition>, t1: Transition, t2: Transition)
    requires Built(nfa, ds, trans)
    requires t1 in trans && t2 in trans && t1.start == t2.start && t1.symbol == t2.symbol
    ensures t1 == t2
  {
    DistinctAt(ds, t1.end, t2.end);
  }

  /** A DFA state is an end state exactly when it contains an NFA end state, and it is listed once
    * per end state it contains. */
  lemma EndStatesOfDfa(ds: seq<set<int>>, ends: seq<int>, x: int)
    ensures x in EndIdxs(ds, ends) <==> 0 <= x < |ds| && exists e :: e in ends && e in ds[x]
    ensures 0 <= x < |ds| ==> multiset(EndIdxs(ds, ends))[x] == Count(ds[x], ends)
  {
    EndIdxsCount(ds, ends, x);
    if 0 <= x < |ds| {
      CountPositive(ds[x], ends);
    }
  }
}
