/**
 * FIRST and FOLLOW sets of an LL(1) grammar, after parser/grammars/ll1.cpp.  Symbols are values
 * here: a terminal carries its id and its eps and end flags, a nonterminal symbol inside a rule is
 * its id, and its rules are those of the declared nonterminal with that id.  Ids are numbers: the
 * source's ids are strings, only ever compared for equality, and its maps are keyed by them.
 */
module LL1Grammar {
  import opened Wrappers

  datatype Symbol = Term(id: int, isEps: bool, isEnd: bool) | NonTerm(id: int)

  predicate IsEps(s: Symbol)
  {
    s.Term? && s.isEps
  }

  datatype NonTerminal = NonTerminal(id: int, rules: seq<seq<Symbol>>)

  /** The ids of the declared nonterminals. */
  function Ids(g: seq<NonTerminal>): set<int>
  {
    set n | n in g :: n.id
  }

  /** The rules of the declared nonterminal with this id (the first one, when there are several);
    * none for an id that is not declared. */
  function RulesOf(g: seq<NonTerminal>, id: int): seq<seq<Symbol>>
  {
    if g == [] then [] else if g[0].id == id then g[0].rules else RulesOf(g[1..], id)
  }

  /** Every nonterminal that occurs in a rule is declared. */
  predicate Closed(g: seq<NonTerminal>)
  {
    forall k, r, i :: 0 <= k < |g| && 0 <= r < |g[k].rules| && 0 <= i < |g[k].rules[r]| && g[k].rules[r][i].NonTerm?
      ==> g[k].rules[r][i].id in Ids(g)
  }

  /** The eps terminal only occurs as a rule of its own. */
  predicate EpsAlone(g: seq<NonTerminal>)
  {
    forall k, r, i :: 0 <= k < |g| && 0 <= r < |g[k].rules| && 0 <= i < |g[k].rules[r]| && IsEps(g[k].rules[r][i])
      ==> |g[k].rules[r]| == 1
  }

  // ---------------------------------------------------------------------------------------------
  // NonTerminal::HasEpsRule and LL1::HasLeftRecursions

  /** One of the rules is the eps terminal alone. */
  predicate EpsRule(rules: seq<seq<Symbol>>)
  {
    exists r :: 0 <= r < |rules| && |rules[r]| == 1 && IsEps(rules[r][0])
  }

  /** HasEpsRule: whether a rule of nt is eps alone. */
  method HasEpsRule(nt: NonTerminal) returns (has: bool)
    ensures has <==> EpsRule(nt.rules)
  {
    for r := 0 to |nt.rules|
      invariant forall q :: 0 <= q < r ==> !(|nt.rules[q]| == 1 && IsEps(nt.rules[q][0]))
    {
      var rule := nt.rules[r];
      if |rule| == 1 && IsEps(rule[0]) {
        return true;
      }
    }
    return false;
  }

  /** Some nonterminal has a rule that begins with its own id. */
  predicate LeftRecursive(g: seq<NonTerminal>)
  {
    exists k, r :: 0 <= k < |g| && 0 <= r < |g[k].rules| && |g[k].rules[r]| > 0 && g[k].rules[r][0].id == g[k].id
  }

  /** HasLeftRecursions: whether a rule of a nonterminal begins with that nonterminal. */
  method HasLeftRecursions(g: seq<NonTerminal>) returns (has: bool)
    ensures has <==> LeftRecursive(g)
  {
    for k := 0 to |g|
      invariant forall j, r :: 0 <= j < k && 0 <= r < |g[j].rules| ==> |g[j].rules[r]| == 0 || g[j].rules[r][0].id != g[j].id
    {
      var nt := g[k];
      for r := 0 to |nt.rules|
        invariant forall q :: 0 <= q < r ==> |nt.rules[q]| == 0 || nt.rules[q][0].id != nt.id
      {
        var rule := nt.rules[r];
        if |rule| == 0 {
          continue;
        }
        if rule[0].id == nt.id {
          return true;
        }
      }
    }
    return false;
  }

  // ---------------------------------------------------------------------------------------------
  // FIRST sets

  predicate HasEps(f: set<Symbol>)
  {
    exists s :: s in f && IsEps(s)
  }

  function NonEps(f: set<Symbol>): set<Symbol>
  {
    set s | s in f && !IsEps(s)
  }

  /** FIRST of nonterminal id as CalcFirst computes it, when its recursion is at most n deep: the
    * union of the FIRST sets of its rules. */
  function FirstSet(g: seq<NonTerminal>, id: int, n: nat): set<Symbol>
    decreases n, 0, 0
  {
    if n == 0 then {} else RulesFirst(g, RulesOf(g, id), n - 1)
  }

  function RulesFirst(g: seq<NonTerminal>, rules: seq<seq<Symbol>>, m: nat): set<Symbol>
    decreases m, 2, |rules|
  {
    if rules == [] then {} else RulesFirst(g, rules[..|rules| - 1], m) + RuleFirst(g, rules[|rules| - 1], 0, m)
  }

  /** FIRST of rule from symbol i on: a terminal is its own FIRST; a nonterminal contributes its
    * FIRST without eps, and the scan goes on past it only when its FIRST has eps; eps itself is
    * kept only for the last symbol. */
  function RuleFirst(g: seq<NonTerminal>, rule: seq<Symbol>, i: nat, m: nat): set<Symbol>
    decreases m, 1, |rule| - i
  {
    if i >= |rule| then {}
    else if rule[i].Term? then {rule[i]}
    else
      var f := FirstSet(g, rule[i].id, m);
      if !HasEps(f) || i == |rule| - 1 then f
      else NonEps(f) + RuleFirst(g, rule, i + 1, m)
  }

  /** The FIRST sets of the rules of id, rule by rule (the source's per-rule FIRST sets). */
  function PerRuleFirst(g: seq<NonTerminal>, id: int, n: nat): (r: seq<set<Symbol>>)
    ensures n > 0 ==> |r| == |RulesOf(g, id)|
  {
    if n == 0 then []
    else seq(|RulesOf(g, id)|, k requires 0 <= k < |RulesOf(g, id)| => RuleFirst(g, RulesOf(g, id)[k], 0, n - 1))
  }

  /** CalcFirst(id) returns after at most n nested calls: every nonterminal it visits does. */
  predicate Terminates(g: seq<NonTerminal>, id: int, n: nat)
    decreases n, 0, 0
  {
    n > 0 && RulesTerminate(g, RulesOf(g, id), n - 1)
  }

  predicate RulesTerminate(g: seq<NonTerminal>, rules: seq<seq<Symbol>>, m: nat)
    decreases m, 2, |rules|
  {
    forall r :: 0 <= r < |rules| ==> RuleTerminates(g, rules[r], 0, m)
  }

  predicate RuleTerminates(g: seq<NonTerminal>, rule: seq<Symbol>, i: nat, m: nat)
    decreases m, 1, |rule| - i
  {
    i >= |rule| || rule[i].Term?
    || (Terminates(g, rule[i].id, m)
        && (HasEps(FirstSet(g, rule[i].id, m)) && i < |rule| - 1 ==> RuleTerminates(g, rule, i + 1, m)))
  }

  /** Once CalcFirst(id) terminates within n nested calls, more room changes nothing. */
  lemma {:induction false} FirstMono(g: seq<NonTerminal>, id: int, n: nat, n': nat)
    requires Terminates(g, id, n) && n <= n'
    ensures Terminates(g, id, n') && FirstSet(g, id, n) == FirstSet(g, id, n')
    ensures PerRuleFirst(g, id, n) == PerRuleFirst(g, id, n')
    decreases n, 0, 0
  {
    var rules := RulesOf(g, id);
    RulesMono(g, rules, n - 1, n' - 1);
    forall k | 0 <= k < |rules|
      ensures RuleFirst(g, rules[k], 0, n - 1) == RuleFirst(g, rules[k], 0, n' - 1)
    {
      RuleMono(g, rules[k], 0, n - 1, n' - 1);
    }
  }

  lemma {:induction false} RulesMono(g: seq<NonTerminal>, rules: seq<seq<Symbol>>, m: nat, m': nat)
    requires RulesTerminate(g, rules, m) && m <= m'
    ensures RulesTerminate(g, rules, m') && RulesFirst(g, rules, m) == RulesFirst(g, rules, m')
    decreases m, 2, |rules|
  {
    forall r | 0 <= r < |rules|
      ensures RuleTerminates(g, rules[r], 0, m')
    {
      RuleMono(g, rules[r], 0, m, m');
    }
    if rules != [] {
      var front := rules[..|rules| - 1];
      assert RulesTerminate(g, front, m) by {
        forall r | 0 <= r < |front|
          ensures RuleTerminates(g, front[r], 0, m)
        {
          assert front[r] == rules[r];
        }
      }
      RulesMono(g, front, m, m');
      RuleMono(g, rules[|rules| - 1], 0, m, m');
    }
  }

  lemma {:induction false} RuleMono(g: seq<NonTerminal>, rule: seq<Symbol>, i: nat, m: nat, m': nat)
    requires RuleTerminates(g, rule, i, m) && m <= m'
    ensures RuleTerminates(g, rule, i, m') && RuleFirst(g, rule, i, m) == RuleFirst(g, rule, i, m')
    decreases m, 1, |rule| - i
  {
    if i < |rule| && rule[i].NonTerm? {
      FirstMono(g, rule[i].id, m, m');
      if HasEps(FirstSet(g, rule[i].id, m)) && i < |rule| - 1 {
        RuleMono(g, rule, i + 1, m, m');
      }
    }
  }

  /** FIRST of a rule is part of FIRST of the rules it is among. */
  lemma {:induction false} RulesFirstHas(g: seq<NonTerminal>, rules: seq<seq<Symbol>>, r: nat, m: nat)
    requires r < |rules|
    ensures RuleFirst(g, rules[r], 0, m) <= RulesFirst(g, rules, m)
    decreases |rules|
  {
    if r < |rules| - 1 {
      var front := rules[..|rules| - 1];
      assert front[r] == rules[r];
      RulesFirstHas(g, front, r, m);
    }
  }

  /** A rule whose first symbol is a terminal t has FIRST {t}, and t is in FIRST of its
    * nonterminal. */
  lemma TerminalFirst(g: seq<NonTerminal>, id: int, r: nat, n: nat)
    requires n > 0 && r < |RulesOf(g, id)| && |RulesOf(g, id)[r]| > 0 && RulesOf(g, id)[r][0].Term?
    ensures PerRuleFirst(g, id, n)[r] == {RulesOf(g, id)[r][0]}
    ensures RulesOf(g, id)[r][0] in FirstSet(g, id, n)
  {
    RulesFirstHas(g, RulesOf(g, id), r, n - 1);
  }

  /** Symbol s stands for a nonterminal whose FIRST has eps. */
  predicate Nullable(g: seq<NonTerminal>, s: Symbol, m: nat)
  {
    s.NonTerm? && HasEps(FirstSet(g, s.id, m))
  }

  /** eps is in FIRST of a rule from i on exactly when the scan from i passes only nonterminals
    * whose FIRST has eps and then either meets the eps terminal or ends at the last symbol. */
  lemma {:induction false} EpsInFirst(g: seq<NonTerminal>, rule: seq<Symbol>, i: nat, m: nat)
    ensures HasEps(RuleFirst(g, rule, i, m)) <==>
      exists j :: i <= j < |rule| && (forall k :: i <= k < j ==> Nullable(g, rule[k], m))
        && (IsEps(rule[j]) || (j == |rule| - 1 && Nullable(g, rule[j], m)))
    decreases |rule| - i
  {
    if i < |rule| {
      if rule[i].Term? {
        if IsEps(rule[i]) {
          assert rule[i] in RuleFirst(g, rule, i, m);
        } else {
          assert RuleFirst(g, rule, i, m) == {rule[i]};
        }
      } else {
        var f := FirstSet(g, rule[i].id, m);
        if HasEps(f) && i < |rule| - 1 {
          EpsInFirst(g, rule, i + 1, m);
          assert HasEps(RuleFirst(g, rule, i, m)) <==> HasEps(RuleFirst(g, rule, i + 1, m)) by {
            assert !HasEps(NonEps(f));
          }
          if HasEps(RuleFirst(g, rule, i + 1, m)) {
            var j :| i + 1 <= j < |rule| && (forall k :: i + 1 <= k < j ==> Nullable(g, rule[k], m))
              && (IsEps(rule[j]) || (j == |rule| - 1 && Nullable(g, rule[j], m)));
            assert forall k :: i <= k < j ==> Nullable(g, rule[k], m);
          }
        } else if !HasEps(f) {
          assert !Nullable(g, rule[i], m);
        } else {
          assert Nullable(g, rule[i], m);
        }
      }
    }
  }

  /** Everything in a FIRST set is a terminal. */
  lemma {:induction false} FirstTerminals(g: seq<NonTerminal>, id: int, n: nat)
    ensures forall s :: s in FirstSet(g, id, n) ==> s.Term?
    decreases n, 0, 0
  {
    if n > 0 {
      RulesTerminals(g, RulesOf(g, id), n - 1);
    }
  }

  lemma {:induction false} RulesTerminals(g: seq<NonTerminal>, rules: seq<seq<Symbol>>, m: nat)
    ensures forall s :: s in RulesFirst(g, rules, m) ==> s.Term?
    decreases m, 2, |rules|
  {
    if rules != [] {
      RulesTerminals(g, rules[..|rules| - 1], m);
      RuleTerminals(g, rules[|rules| - 1], 0, m);
    }
  }

  lemma {:induction false} RuleTerminals(g: seq<NonTerminal>, rule: seq<Symbol>, i: nat, m: nat)
    ensures forall s :: s in RuleFirst(g, rule, i, m) ==> s.Term?
    decreases m, 1, |rule| - i
  {
    if i < |rule| && rule[i].NonTerm? {
      FirstTerminals(g, rule[i].id, m);
      if i < |rule| - 1 {
        RuleTerminals(g, rule, i + 1, m);
      }
    }
  }

  /** CalcFirst only detects direct left recursion: A -> B x, B -> A y passes HasLeftRecursions, and
    * CalcFirst(A) never returns, however deep it may recurse. */
  lemma IndirectLeftRecursion(n: nat)
    ensures !LeftRecursive(IndirectExample())
    ensures !Terminates(IndirectExample(), 0, n)
  {
    var g := IndirectExample();
    assert RulesOf(g, 0) == [[NonTerm(1), Term(2, false, false)]];
    assert RulesOf(g, 1) == [[NonTerm(0), Term(3, false, false)]];
    IndirectDiverges(n);
  }

  /** A = 0 -> B x, B = 1 -> A y, with terminals x = 2 and y = 3. */
  function IndirectExample(): (g: seq<NonTerminal>)
    ensures |g| == 2 && g[0].id == 0 && g[1].id == 1
  {
    [NonTerminal(0, [[NonTerm(1), Term(2, false, false)]]), NonTerminal(1, [[NonTerm(0), Term(3, false, false)]])]
  }

  lemma {:induction false} IndirectDiverges(n: nat)
    ensures !Terminates(IndirectExample(), 0, n) && !Terminates(IndirectExample(), 1, n)
    decreases n
  {
    var g := IndirectExample();
    var ra, rb := [NonTerm(1), Term(2, false, false)], [NonTerm(0), Term(3, false, false)];
    assert RulesOf(g, 0) == [ra];
    assert RulesOf(g, 1) == [rb];
    if n > 0 {
      IndirectDiverges(n - 1);
      assert !RuleTerminates(g, ra, 0, n - 1) && !RuleTerminates(g, rb, 0, n - 1) by {
        assert ra[0].id == 1 && ra[0].NonTerm? && rb[0].id == 0 && rb[0].NonTerm?;
      }
      assert !RulesTerminate(g, [ra], n - 1) && !RulesTerminate(g, [rb], n - 1) by {
        assert [ra][0] == ra && [rb][0] == rb;
      }
    }
  }

  // ---------------------------------------------------------------------------------------------
  // FOLLOW sets

  /** Every symbol from j on is a nonterminal with an eps rule (vacuous when j is past the end). */
  predicate TailNullable(g: seq<NonTerminal>, rule: seq<Symbol>, j: nat)
  {
    forall q :: j <= q < |rule| ==> rule[q].NonTerm? && EpsRule(RulesOf(g, rule[q].id))
  }

  /** What CalcFollow adds for the symbols after an occurrence: scanning from j, a terminal is added
    * and ends the scan; a nonterminal adds its FIRST without eps, and the scan goes on only past a
    * nonterminal with an eps rule. */
  function FollowRest(g: seq<NonTerminal>, fuel: nat, rule: seq<Symbol>, j: nat): set<Symbol>
    decreases |rule| - j
  {
    if j >= |rule| then {}
    else if rule[j].Term? then {rule[j]}
    else
      var rest := if EpsRule(RulesOf(g, rule[j].id)) then FollowRest(g, fuel, rule, j + 1) else {};
      NonEps(FirstSet(g, rule[j].id, fuel)) + rest
  }

  /** A rank under which CalcFollow's recursion goes down: whenever b occurs in a rule of another
    * nonterminal a with only nullable nonterminals after it, FOLLOW(b) needs FOLLOW(a) first, so a
    * ranks below b. */
  predicate RankOk(g: seq<NonTerminal>, rank: map<int, nat>)
  {
    (forall k :: 0 <= k < |g| ==> g[k].id in rank)
    && (forall k, r, i :: 0 <= k < |g| && 0 <= r < |g[k].rules| && 1 <= i <= |g[k].rules[r]|
          && g[k].rules[r][i - 1].id in rank && g[k].rules[r][i - 1].id != g[k].id && TailNullable(g, g[k].rules[r], i)
          ==> rank[g[k].id] < rank[g[k].rules[r][i - 1].id])
  }

  /** a ranks below b; under RankOk this holds wherever FollowSpec asks. */
  predicate Below(rank: map<int, nat>, a: int, b: int)
  {
    a in rank && b in rank && rank[a] < rank[b]
  }

  /** FOLLOW of b as CalcFollow computes it: the end symbol when b is the start symbol, and for
    * every occurrence of b in a rule of a nonterminal a, what follows it in the rule and, when only
    * nullable nonterminals follow it and a is not b, FOLLOW of a. */
  function FollowSpec(g: seq<NonTerminal>, fuel: nat, rank: map<int, nat>, start: int, end: Symbol, b: int): set<Symbol>
    requires b in rank
    decreases rank[b], 3, 0, 0
  {
    (if b == start then {end} else {}) + FollowFrom(g, fuel, rank, start, end, b, |g|)
  }

  /** The contributions of the occurrences of b in the rules of the first k nonterminals. */
  function FollowFrom(g: seq<NonTerminal>, fuel: nat, rank: map<int, nat>, start: int, end: Symbol, b: int, k: nat): set<Symbol>
    requires b in rank && k <= |g|
    decreases rank[b], 2, k, 0
  {
    if k == 0 then {}
    else FollowFrom(g, fuel, rank, start, end, b, k - 1) + FollowRules(g, fuel, rank, start, end, b, k - 1, |g[k - 1].rules|)
  }

  /** The contributions of the occurrences of b in the first r rules of nonterminal k. */
  function FollowRules(g: seq<NonTerminal>, fuel: nat, rank: map<int, nat>, start: int, end: Symbol, b: int, k: nat, r: nat): set<Symbol>
    requires b in rank && k < |g| && r <= |g[k].rules|
    decreases rank[b], 1, r, 0
  {
    if r == 0 then {}
    else FollowRules(g, fuel, rank, start, end, b, k, r - 1) + FollowRule(g, fuel, rank, start, end, b, k, r - 1, |g[k].rules[r - 1]|)
  }

  /** The contributions of the occurrences of b among the first i symbols of rule r of nonterminal k. */
  function FollowRule(g: seq<NonTerminal>, fuel: nat, rank: map<int, nat>, start: int, end: Symbol, b: int, k: nat, r: nat, i: nat): set<Symbol>
    requires b in rank && k < |g| && r < |g[k].rules| && i <= |g[k].rules[r]|
    decreases rank[b], 0, i, 0
  {
    if i == 0 then {}
    else
      var rule := g[k].rules[r];
      var here := if rule[i - 1].id != b then {}
        else if TailNullable(g, rule, i) && g[k].id != b && Below(rank, g[k].id, b) then FollowRest(g, fuel, rule, i) + FollowSpec(g, fuel, rank, start, end, g[k].id)
        else FollowRest(g, fuel, rule, i);
      FollowRule(g, fuel, rank, start, end, b, k, r, i - 1) + here
  }

  /** The FIRST map holds every declared nonterminal, each with its FIRST set. */
  ghost predicate FirstsAre(g: seq<NonTerminal>, fuel: nat, first: map<int, set<Symbol>>)
  {
    Ids(g) <= first.Keys && forall id :: id in first ==> first[id] == FirstSet(g, id, fuel)
  }

  /** CalcFollow only ends when FOLLOW sets do not depend on each other in a cycle: for A -> x B,
    * B -> y A, which passes HasLeftRecursions and whose FIRST sets CalcFirst computes at once,
    * FOLLOW(B) needs FOLLOW(A) and FOLLOW(A) needs FOLLOW(B), so no rank orders them and CalcFollow
    * calls itself for ever, as nothing is stored before both return. */
  lemma CyclicFollow(rank: map<int, nat>)
    ensures !LeftRecursive(CyclicExample()) && Closed(CyclicExample()) && EpsAlone(CyclicExample())
    ensures Terminates(CyclicExample(), 0, 1) && Terminates(CyclicExample(), 1, 1)
    ensures !RankOk(CyclicExample(), rank)
  {
    CyclicShape();
    CyclicFirst();
    CyclicNoRank(rank);
  }

  /** The example's rules, as RulesOf finds them. */
  lemma CyclicRules()
    ensures RulesOf(CyclicExample(), 0) == [[Term(2, false, false), NonTerm(1)]]
    ensures RulesOf(CyclicExample(), 1) == [[Term(3, false, false), NonTerm(0)]]
  {
    var g := CyclicExample();
    assert RulesOf(g, 1) == RulesOf(g[1..], 1);
  }

  /** The example has no direct left recursion, declares every nonterminal it uses and has no eps. */
  lemma CyclicShape()
    ensures !LeftRecursive(CyclicExample()) && Closed(CyclicExample()) && EpsAlone(CyclicExample())
  {
    var g := CyclicExample();
    var ra, rb := [Term(2, false, false), NonTerm(1)], [Term(3, false, false), NonTerm(0)];
    assert g[0].rules == [ra] && g[1].rules == [rb];
    assert Ids(g) == {0, 1} by {
      assert g[0] in g && g[1] in g;
    }
    forall k, r, i | 0 <= k < |g| && 0 <= r < |g[k].rules| && 0 <= i < |g[k].rules[r]|
      ensures !IsEps(g[k].rules[r][i])
      ensures g[k].rules[r][i].NonTerm? ==> g[k].rules[r][i].id in Ids(g)
    {
      assert g[k].rules[r] == if k == 0 then ra else rb;
    }
    forall k, r | 0 <= k < |g| && 0 <= r < |g[k].rules| && |g[k].rules[r]| > 0
      ensures g[k].rules[r][0].id != g[k].id
    {
      assert g[k].rules[r] == if k == 0 then ra else rb;
    }
  }

  /** CalcFirst returns at once on both nonterminals of the example. */
  lemma CyclicFirst()
    ensures Terminates(CyclicExample(), 0, 1) && Terminates(CyclicExample(), 1, 1)
  {
    var g := CyclicExample();
    var ra, rb := [Term(2, false, false), NonTerm(1)], [Term(3, false, false), NonTerm(0)];
    CyclicRules();
    assert RuleTerminates(g, ra, 0, 0) && RuleTerminates(g, rb, 0, 0);
    assert [ra][0] == ra && [rb][0] == rb;
  }

  /** No rank orders the example's FOLLOW dependencies, which go both ways. */
  lemma CyclicNoRank(rank: map<int, nat>)
    ensures !RankOk(CyclicExample(), rank)
  {
    var g := CyclicExample();
    var ra, rb := [Term(2, false, false), NonTerm(1)], [Term(3, false, false), NonTerm(0)];
    assert g[0].rules[0] == ra && g[1].rules[0] == rb;
    if RankOk(g, rank) {
      assert TailNullable(g, ra, 2) && TailNullable(g, rb, 2);
    }
  }

  /** A = 0 -> x B, B = 1 -> y A, with terminals x = 2 and y = 3. */
  function CyclicExample(): (g: seq<NonTerminal>)
    ensures |g| == 2 && g[0].id == 0 && g[1].id == 1
  {
    [NonTerminal(0, [[Term(2, false, false), NonTerm(1)]]), NonTerminal(1, [[Term(3, false, false), NonTerm(0)]])]
  }

  /** The highest rank. */
  ghost function MaxRank(rank: map<int, nat>): (top: nat)
    ensures forall x :: x in rank ==> rank[x] <= top
    decreases |rank|
  {
    if forall x :: x !in rank then 0
    else
      var x :| x in rank;
      var rest := MaxRank(rank - {x});
      assert forall y :: y in rank && y != x ==> y in rank - {x};
      if rank[x] > rest then rank[x] else rest
  }

  // ---------------------------------------------------------------------------------------------
  // The LL1 class

  class LL1 {
    const nonterms: seq<NonTerminal>
    const start: int
    const end: Symbol
    /** How deep CalcFirst may recurse. */
    ghost const fuel: nat
    /** The order in which CalcFollow's recursion goes down. */
    ghost const rank: map<int, nat>
    var first: map<int, set<Symbol>>
    var firstPerRule: map<int, seq<set<Symbol>>>
    var follow: map<int, set<Symbol>>

    /** The LL1 constructor once HasLeftRecursions has found none: FIRST of every declared
      * nonterminal, then FOLLOW of every declared nonterminal. */
    constructor(nonterms: seq<NonTerminal>, start: int, end: Symbol, ghost fuel: nat, ghost rank: map<int, nat>)
      requires !LeftRecursive(nonterms) && Closed(nonterms) && EpsAlone(nonterms) && RankOk(nonterms, rank)
      requires forall k :: 0 <= k < |nonterms| ==> Terminates(nonterms, nonterms[k].id, fuel)
      ensures this.nonterms == nonterms && this.start == start && this.end == end
      ensures this.fuel == fuel && this.rank == rank
      ensures Ids(nonterms) <= first.Keys
      ensures forall id :: id in first ==>
        first[id] == FirstSet(nonterms, id, fuel) && id in firstPerRule && firstPerRule[id] == PerRuleFirst(nonterms, id, fuel)
      ensures Ids(nonterms) <= follow.Keys
      ensures forall id :: id in follow ==> id in rank && follow[id] == FollowSpec(nonterms, fuel, rank, start, end, id)
    {
      this.nonterms, this.start, this.end, this.fuel, this.rank := nonterms, start, end, fuel, rank;
      first, firstPerRule, follow := map[], map[], map[];
      new;
      AllFirst();
      AllFollow();
    }

    /** The constructor's loop over the declared nonterminals that computes FIRST. */
    method AllFirst()
      requires FirstOk() && forall k :: 0 <= k < |nonterms| ==> Terminates(nonterms, nonterms[k].id, fuel)
      modifies this
      ensures FirstOk() && Ids(nonterms) <= first.Keys && follow == old(follow)
    {
      for k := 0 to |nonterms|
        invariant FirstOk() && follow == old(follow)
        invariant forall q :: 0 <= q < k ==> nonterms[q].id in first
      {
        CalcFirst(nonterms[k].id, fuel);
      }
      forall id | id in Ids(nonterms)
        ensures id in first
      {
        var n :| n in nonterms && n.id == id;
      }
    }

    /** The constructor's loop over the declared nonterminals that computes FOLLOW. */
    method AllFollow()
      requires Wf() && FollowOk(AboveAll())
      modifies this
      ensures Wf() && FollowOk(AboveAll()) && Ids(nonterms) <= follow.Keys
      ensures first == old(first) && firstPerRule == old(firstPerRule)
    {
      for k := 0 to |nonterms|
        invariant Wf() && FollowOk(AboveAll()) && first == old(first) && firstPerRule == old(firstPerRule)
        invariant forall q :: 0 <= q < k ==> nonterms[q].id in follow
      {
        CalcFollow(nonterms[k].id);
      }
      forall id | id in Ids(nonterms)
        ensures id in follow
      {
        var n :| n in nonterms && n.id == id;
      }
    }

    /** A number no rank reaches, so that FollowOk(AboveAll()) speaks of every entry. */
    ghost function AboveAll(): (top: nat)
      ensures forall x :: x in rank ==> rank[x] <= top
    {
      MaxRank(rank)
    }

    /** Every FIRST entry is FIRST of its nonterminal, as a whole and rule by rule. */
    ghost predicate FirstOk()
      reads this
    {
      first.Keys == firstPerRule.Keys
      && (forall id :: id in first ==>
            Terminates(nonterms, id, fuel) && first[id] == FirstSet(nonterms, id, fuel)
            && firstPerRule[id] == PerRuleFirst(nonterms, id, fuel))
    }

    /** The grammar is one whose FOLLOW sets the model computes: CalcFollow's recursion goes down
      * in rank, every nonterminal of a rule is declared, and eps stands alone. */
    ghost predicate GrammarOk()
    {
      RankOk(nonterms, rank) && Closed(nonterms) && EpsAlone(nonterms)
    }

    /** The FIRST sets are done, and the FOLLOW entries are for ranked nonterminals. */
    ghost predicate Wf()
      reads this
    {
      GrammarOk() && FirstsAre(nonterms, fuel, first) && follow.Keys <= rank.Keys
    }

    /** Every FOLLOW entry ranked up to lim is FOLLOW of its nonterminal. */
    ghost predicate FollowOk(lim: nat)
      requires follow.Keys <= rank.Keys
      reads this
    {
      forall x :: x in follow && rank[x] <= lim ==> follow[x] == FollowSpec(nonterms, fuel, rank, start, end, x)
    }

    /** While FOLLOW of b is being computed: the entries ranked up to b other than b are right, b's
      * own entry, if any, is the empty set the self reference inserted, and entries ranked above b
      * are those of before. */
    ghost predicate Computing(b: int, before: map<int, set<Symbol>>)
      requires follow.Keys <= rank.Keys && b in rank
      reads this
    {
      (forall x :: x in follow && x != b && rank[x] <= rank[b] ==> follow[x] == FollowSpec(nonterms, fuel, rank, start, end, x))
      && (b in follow ==> follow[b] == {})
      && before.Keys <= follow.Keys
      && (forall x :: x in before && rank[x] > rank[b] ==> follow[x] == before[x])
      && (forall x :: x in follow && x !in before ==> rank[x] <= rank[b])
    }

    /** CalcFirst: memoised FIRST of nonterminal id; n bounds how deep the recursion goes. */
    method CalcFirst(id: int, ghost n: nat)
      requires FirstOk() && Terminates(nonterms, id, n) && n <= fuel
      modifies this
      ensures FirstOk() && id in first && first[id] == FirstSet(nonterms, id, fuel)
      ensures old(first).Keys <= first.Keys && follow == old(follow)
      ensures old(id in first) ==> first == old(first) && firstPerRule == old(firstPerRule)
      decreases n, 1
    {
      if id in first {
        return;
      }
      var rules := RulesOf(nonterms, id);
      var fst: set<Symbol> := {};
      var perRule: seq<set<Symbol>> := [];
      for iRule := 0 to |rules|
        invariant FirstOk() && old(first).Keys <= first.Keys && follow == old(follow)
        invariant fst == RulesFirst(nonterms, rules[..iRule], n - 1)
        invariant |perRule| == iRule && forall q :: 0 <= q < iRule ==> perRule[q] == RuleFirst(nonterms, rules[q], 0, n - 1)
      {
        var cur := FirstOfRule(rules[iRule], n - 1);
        assert rules[..iRule + 1][..iRule] == rules[..iRule];
        fst := fst + cur;
        perRule := perRule + [cur];
      }
      assert rules[..|rules|] == rules;
      FirstMono(nonterms, id, n, fuel);
      first := first[id := fst];
      firstPerRule := firstPerRule[id := perRule];
    }

    /** The scan of one rule in CalcFirst: FIRST of the rule, computing FIRST of the nonterminals
      * it passes. */
    method FirstOfRule(rule: seq<Symbol>, ghost m: nat) returns (cur: set<Symbol>)
      requires FirstOk() && RuleTerminates(nonterms, rule, 0, m) && m <= fuel
      modifies this
      ensures FirstOk() && old(first).Keys <= first.Keys && follow == old(follow)
      ensures cur == RuleFirst(nonterms, rule, 0, m)
      decreases m, 2
    {
      cur := {};
      var iSym := 0;
      while iSym < |rule|
        invariant FirstOk() && old(first).Keys <= first.Keys && follow == old(follow)
        invariant iSym <= |rule| && RuleTerminates(nonterms, rule, iSym, m)
        invariant cur + RuleFirst(nonterms, rule, iSym, m) == RuleFirst(nonterms, rule, 0, m)
      {
        var sym := rule[iSym];
        if sym.Term? {
          cur := cur + {sym};
          break;
        }
        CalcFirst(sym.id, m);
        FirstMono(nonterms, sym.id, m, fuel);
        var added, hasEps := AddFirst(first[sym.id], iSym == |rule| - 1);
        cur := cur + added;
        if !hasEps {
          break;
        }
        iSym := iSym + 1;
      }
    }

    /** CalcFollow: memoised FOLLOW of nonterminal b. */
    method CalcFollow(b: int)
      requires Wf() && b in rank && FollowOk(rank[b])
      modifies this
      ensures Wf() && b in follow && follow[b] == FollowSpec(nonterms, fuel, rank, start, end, b) && FollowOk(rank[b])
      ensures old(follow).Keys <= follow.Keys
      ensures forall x :: x in old(follow) && rank[x] > rank[b] ==> follow[x] == old(follow)[x]
      ensures forall x :: x in follow && x !in old(follow) ==> rank[x] <= rank[b]
      ensures old(b in follow) ==> follow == old(follow)
      ensures first == old(first) && firstPerRule == old(firstPerRule)
      decreases rank[b], 4
    {
      if b in follow {
        return;
      }
      var fol: set<Symbol> := {};
      if b == start {
        fol := fol + {end};
      }
      ghost var base := fol;
      ghost var before := follow;
      for k := 0 to |nonterms|
        invariant Wf() && first == old(first) && firstPerRule == old(firstPerRule) && Computing(b, before)
        invariant fol == base + FollowFrom(nonterms, fuel, rank, start, end, b, k)
      {
        var found := FollowInNonterm(b, k, before);
        fol := fol + found;
      }
      follow := follow[b := fol];
    }

    /** The scan of the rules of nonterminal k in CalcFollow. */
    method FollowInNonterm(b: int, k: nat, ghost before: map<int, set<Symbol>>) returns (found: set<Symbol>)
      requires Wf() && b in rank && k < |nonterms| && Computing(b, before)
      modifies this
      ensures Wf() && first == old(first) && firstPerRule == old(firstPerRule) && Computing(b, before)
      ensures found == FollowRules(nonterms, fuel, rank, start, end, b, k, |nonterms[k].rules|)
      decreases rank[b], 3
    {
      var nt := nonterms[k];
      found := {};
      for r := 0 to |nt.rules|
        invariant Wf() && first == old(first) && firstPerRule == old(firstPerRule) && Computing(b, before)
        invariant found == FollowRules(nonterms, fuel, rank, start, end, b, k, r)
      {
        var inRule := FollowInRule(b, k, r, before);
        found := found + inRule;
      }
    }

    /** The scan of rule r of nonterminal k in CalcFollow: what the occurrences of b in it add. */
    method FollowInRule(b: int, k: nat, r: nat, ghost before: map<int, set<Symbol>>) returns (found: set<Symbol>)
      requires Wf() && b in rank && k < |nonterms| && r < |nonterms[k].rules| && Computing(b, before)
      modifies this
      ensures Wf() && first == old(first) && firstPerRule == old(firstPerRule) && Computing(b, before)
      ensures found == FollowRule(nonterms, fuel, rank, start, end, b, k, r, |nonterms[k].rules[r]|)
      decreases rank[b], 2
    {
      var nt := nonterms[k];
      var rule := nt.rules[r];
      found := {};
      for iSym := 0 to |rule|
        invariant Wf() && first == old(first) && firstPerRule == old(firstPerRule) && Computing(b, before)
        invariant found == FollowRule(nonterms, fuel, rank, start, end, b, k, r, iSym)
      {
        if rule[iSym].id == b {
          var here := Occurrence(b, k, r, iSym + 1, before);
          found := found + here;
        }
        FollowRuleStep(nonterms, fuel, rank, start, end, b, k, r, iSym);
      }
    }

    /** What the occurrence of b just before position i of rule r of nonterminal k adds to its
      * FOLLOW set. */
    method Occurrence(b: int, k: nat, r: nat, i: nat, ghost before: map<int, set<Symbol>>) returns (here: set<Symbol>)
      requires Wf() && b in rank && k < |nonterms| && r < |nonterms[k].rules| && 1 <= i <= |nonterms[k].rules[r]|
      requires nonterms[k].rules[r][i - 1].id == b && Computing(b, before)
      modifies this
      ensures Wf() && first == old(first) && firstPerRule == old(firstPerRule) && Computing(b, before)
      ensures var rule := nonterms[k].rules[r];
        here == if TailNullable(nonterms, rule, i) && nonterms[k].id != b && Below(rank, nonterms[k].id, b)
          then FollowRest(nonterms, fuel, rule, i) + FollowSpec(nonterms, fuel, rank, start, end, nonterms[k].id)
          else FollowRest(nonterms, fuel, rule, i)
      decreases rank[b], 1
    {
      var rule := nonterms[k].rules[r];
      here := FollowRestOf(k, r, i);
      var tail := TailNullableFrom(nonterms, rule, i);
      if tail {
        RankBelow(nonterms, rank, k, r, i);
        var parent := ParentFollow(b, k, before);
        here := here + parent;
      }
    }

    /** FOLLOW of nonterminal k, added when b ends one of its rules but for nullable nonterminals;
      * when k is b itself, its entry is the empty set of the self reference. */
    method ParentFollow(b: int, k: nat, ghost before: map<int, set<Symbol>>) returns (parent: set<Symbol>)
      requires Wf() && b in rank && k < |nonterms| && Computing(b, before)
      requires nonterms[k].id != b ==> Below(rank, nonterms[k].id, b)
      modifies this
      ensures Wf() && first == old(first) && firstPerRule == old(firstPerRule) && Computing(b, before)
      ensures parent == if nonterms[k].id != b then FollowSpec(nonterms, fuel, rank, start, end, nonterms[k].id) else {}
      decreases rank[b], 0
    {
      var nt := nonterms[k];
      if nt.id != b {
        CalcFollow(nt.id);
      }
      if nt.id !in follow {
        follow := follow[nt.id := {}];
      }
      parent := follow[nt.id];
    }

    /** The loop of CalcFollow over the symbols after an occurrence. */
    method FollowRestOf(k: nat, r: nat, j: nat) returns (fol: set<Symbol>)
      requires Wf() && k < |nonterms| && r < |nonterms[k].rules| && 1 <= j <= |nonterms[k].rules[r]|
      ensures fol == FollowRest(nonterms, fuel, nonterms[k].rules[r], j)
    {
      var rule := nonterms[k].rules[r];
      fol := {};
      var q := j;
      while q < |rule|
        invariant j <= q <= |rule|
        invariant fol + FollowRest(nonterms, fuel, rule, q) == FollowRest(nonterms, fuel, rule, j)
      {
        if rule[q].Term? && !rule[q].isEps {
          fol := fol + {rule[q]};
          break;
        }
        assert rule[q].NonTerm? by {
          assert !IsEps(rule[q]);
        }
        assert rule[q].id in Ids(nonterms);
        var added, hasEps := AddFirst(first[rule[q].id], false);
        fol := fol + added;
        var nullable := HasEpsRule(NonTerminal(rule[q].id, RulesOf(nonterms, rule[q].id)));
        if !nullable {
          break;
        }
        q := q + 1;
      }
    }
  }

  /** The loop of CalcFollow that checks whether only nonterminals with an eps rule follow. */
  method TailNullableFrom(g: seq<NonTerminal>, rule: seq<Symbol>, j: nat) returns (tail: bool)
    requires j <= |rule|
    ensures tail <==> TailNullable(g, rule, j)
  {
    var lastSym := j == |rule|;
    var next := j;
    while next < |rule|
      invariant j <= next <= |rule| && TailNullable(g, rule[..next], j)
    {
      if rule[next].Term? {
        break;
      }
      var nullable := HasEpsRule(NonTerminal(rule[next].id, RulesOf(g, rule[next].id)));
      if !nullable {
        break;
      }
      next := next + 1;
    }
    tail := lastSym || next == |rule|;
  }

  lemma RankBelow(g: seq<NonTerminal>, rank: map<int, nat>, k: nat, r: nat, i: nat)
    requires RankOk(g, rank) && k < |g| && r < |g[k].rules| && 1 <= i <= |g[k].rules[r]|
    requires g[k].rules[r][i - 1].id in rank && TailNullable(g, g[k].rules[r], i)
    ensures g[k].id != g[k].rules[r][i - 1].id ==> Below(rank, g[k].id, g[k].rules[r][i - 1].id)
  {
  }

  lemma FollowRuleStep(g: seq<NonTerminal>, fuel: nat, rank: map<int, nat>, start: int, end: Symbol, b: int, k: nat, r: nat, i: nat)
    requires b in rank && k < |g| && r < |g[k].rules| && i < |g[k].rules[r]|
    ensures var rule := g[k].rules[r];
      FollowRule(g, fuel, rank, start, end, b, k, r, i + 1) == FollowRule(g, fuel, rank, start, end, b, k, r, i)
        + if rule[i].id != b then {}
          else if TailNullable(g, rule, i + 1) && g[k].id != b && Below(rank, g[k].id, b) then FollowRest(g, fuel, rule, i + 1) + FollowSpec(g, fuel, rank, start, end, g[k].id)
          else FollowRest(g, fuel, rule, i + 1)
  {
  }

  lemma SetStep(f: set<Symbol>, d: set<Symbol>, s: Symbol)
    requires s in f - d
    ensures (f - d) - {s} == f - (d + {s})
  {
  }

  lemma AddOne(d: set<Symbol>, s: Symbol)
    ensures NonEps(d + {s}) == NonEps(d) + (if IsEps(s) then {} else {s})
    ensures HasEps(d + {s}) <==> HasEps(d) || IsEps(s)
  {
    assert IsEps(s) ==> s in d + {s};
  }

  /** The LL1 constructor: a grammar HasLeftRecursions flags is refused with the source's message;
    * any other gets its FIRST and FOLLOW sets. */
  method Create(nonterms: seq<NonTerminal>, start: int, end: Symbol, ghost fuel: nat, ghost rank: map<int, nat>)
    returns (r: Result<LL1, string>)
    requires Closed(nonterms) && EpsAlone(nonterms)
    requires !LeftRecursive(nonterms) ==>
      RankOk(nonterms, rank) && forall k :: 0 <= k < |nonterms| ==> Terminates(nonterms, nonterms[k].id, fuel)
    ensures r.Failure? <==> LeftRecursive(nonterms)
    ensures r.Failure? ==> r.error == "The given grammar has left recursions and is thus not of type LL(1)."
    ensures r.Success? ==> fresh(r.value) && r.value.nonterms == nonterms && r.value.rank == rank
    ensures r.Success? ==> forall k :: 0 <= k < |nonterms| ==>
      nonterms[k].id in r.value.first && r.value.first[nonterms[k].id] == FirstSet(nonterms, nonterms[k].id, fuel)
    ensures r.Success? ==> forall k :: 0 <= k < |nonterms| ==>
      nonterms[k].id in r.value.follow && r.value.follow[nonterms[k].id] == FollowSpec(nonterms, fuel, rank, start, end, nonterms[k].id)
  {
    var left := HasLeftRecursions(nonterms);
    if left {
      return Failure("The given grammar has left recursions and is thus not of type LL(1).");
    }
    var ll1 := new LL1(nonterms, start, end, fuel, rank);
    assert forall k :: 0 <= k < |nonterms| ==> nonterms[k].id in Ids(nonterms) by {
      forall k | 0 <= k < |nonterms|
        ensures nonterms[k].id in Ids(nonterms)
      {
        assert nonterms[k] in nonterms;
      }
    }
    return Success(ll1);
  }

  // ---------------------------------------------------------------------------------------------
  // What the FOLLOW sets hold

  lemma {:induction false} FollowRuleGrows(g: seq<NonTerminal>, fuel: nat, rank: map<int, nat>, start: int, end: Symbol,
                                          b: int, k: nat, r: nat, i: nat, i': nat)
    requires b in rank && k < |g| && r < |g[k].rules| && i <= i' <= |g[k].rules[r]|
    ensures FollowRule(g, fuel, rank, start, end, b, k, r, i) <= FollowRule(g, fuel, rank, start, end, b, k, r, i')
    decreases i' - i
  {
    if i < i' {
      FollowRuleGrows(g, fuel, rank, start, end, b, k, r, i, i' - 1);
    }
  }

  lemma {:induction false} FollowRulesHas(g: seq<NonTerminal>, fuel: nat, rank: map<int, nat>, start: int, end: Symbol,
                                         b: int, k: nat, r: nat, r': nat)
    requires b in rank && k < |g| && r < r' <= |g[k].rules|
    ensures FollowRule(g, fuel, rank, start, end, b, k, r, |g[k].rules[r]|) <= FollowRules(g, fuel, rank, start, end, b, k, r')
    decreases r'
  {
    if r < r' - 1 {
      FollowRulesHas(g, fuel, rank, start, end, b, k, r, r' - 1);
    }
  }

  lemma {:induction false} FollowFromHas(g: seq<NonTerminal>, fuel: nat, rank: map<int, nat>, start: int, end: Symbol,
                                        b: int, k: nat, k': nat)
    requires b in rank && k < k' <= |g|
    ensures FollowRules(g, fuel, rank, start, end, b, k, |g[k].rules|) <= FollowFrom(g, fuel, rank, start, end, b, k')
    decreases k'
  {
    if k < k' - 1 {
      FollowFromHas(g, fuel, rank, start, end, b, k, k' - 1);
    }
  }

  /** For an occurrence of b just before position i of a rule of nonterminal a: FOLLOW(b) holds
    * what the rest of the rule begins with (in particular a terminal right after b), and when
    * only nonterminals with eps rules follow b and a is not b, all of FOLLOW(a). */
  lemma FollowOfOccurrence(g: seq<NonTerminal>, fuel: nat, rank: map<int, nat>, start: int, end: Symbol, k: nat, r: nat, i: nat)
    requires RankOk(g, rank) && k < |g| && r < |g[k].rules| && 1 <= i <= |g[k].rules[r]|
    requires g[k].rules[r][i - 1].id in rank
    ensures var rule, b := g[k].rules[r], g[k].rules[r][i - 1].id;
      FollowRest(g, fuel, rule, i) <= FollowSpec(g, fuel, rank, start, end, b)
      && (i < |rule| && rule[i].Term? ==> rule[i] in FollowSpec(g, fuel, rank, start, end, b))
      && (TailNullable(g, rule, i) && g[k].id != b ==> FollowSpec(g, fuel, rank, start, end, g[k].id) <= FollowSpec(g, fuel, rank, start, end, b))
  {
    var rule, b := g[k].rules[r], g[k].rules[r][i - 1].id;
    if TailNullable(g, rule, i) {
      RankBelow(g, rank, k, r, i);
    }
    FollowRuleGrows(g, fuel, rank, start, end, b, k, r, i, |rule|);
    FollowRulesHas(g, fuel, rank, start, end, b, k, r, |g[k].rules|);
    FollowFromHas(g, fuel, rank, start, end, b, k, |g|);
  }

  /** FOLLOW of the start symbol holds the end symbol. */
  lemma StartFollowedByEnd(g: seq<NonTerminal>, fuel: nat, rank: map<int, nat>, start: int, end: Symbol)
    requires start in rank
    ensures end in FollowSpec(g, fuel, rank, start, end, start)
  {
  }

  /** The loop of CalcFirst over the FIRST set f of a nonterminal: everything but eps is added, and
    * eps too at the last symbol of the rule; hasEps says whether eps was met. */
  method AddFirst(f: set<Symbol>, last: bool) returns (added: set<Symbol>, hasEps: bool)
    ensures added == (if last then f else NonEps(f)) && hasEps == HasEps(f)
  {
    added, hasEps := {}, false;
    var todo := f;
    ghost var done: set<Symbol> := {};
    while exists s :: s in todo
      invariant done <= f && todo == f - done
      invariant added == (if last then done else NonEps(done))
      invariant hasEps == HasEps(done)
      decreases todo
    {
      var s :| s in todo;
      todo := todo - {s};
      SetStep(f, done, s);
      AddOne(done, s);
      done := done + {s};
      if IsEps(s) {
        hasEps := true;
        if last {
          added := added + {s};
        }
        continue;
      }
      added := added + {s};
    }
    assert todo == {};
  }
}
