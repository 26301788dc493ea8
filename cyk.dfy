/**
 * The CYK table of parser/grammars/cyk.cpp.  Symbols are compared by their ids only, so a rule is
 * the sequence of the ids of its symbols.  Cell (r, c) of the table, c <= r, holds the
 * nonterminals that produce the input symbols c .. r; the main diagonal is filled from the unit
 * rules, and the cells below it, one sub-diagonal after the other, from the binary rules whose two
 * symbols lie in two adjacent shorter spans.  The grammar is fixed while the table is built, so
 * nonterminals are values here.  Ids are numbers: the source's ids are strings, but they are only
 * ever compared for equality.
 */
module Cyk {

  datatype Terminal = Terminal(id: int)

  datatype NonTerminal = NonTerminal(id: int, rules: seq<seq<int>>)

  /** The ids of the symbols of a list. */
  function Ids(s: seq<NonTerminal>): set<int>
  {
    set n | n in s :: n.id
  }

  /** No two symbols of the list have the same id. */
  predicate UniqueIds(s: seq<NonTerminal>)
  {
    forall x, y :: 0 <= x < y < |s| ==> s[x].id != s[y].id
  }

  /** The input as the sequence of its ids. */
  function Word(input: seq<Terminal>): (w: seq<int>)
    ensures |w| == |input| && forall k :: 0 <= k < |input| ==> w[k] == input[k].id
  {
    seq(|input|, k requires 0 <= k < |input| => input[k].id)
  }

  // ---------------------------------------------------------------------------------------------
  // NonTerminal

  /** HasRule: whether one of the rules is the given right-hand side, id by id. */
  method HasRule(nt: NonTerminal, rhs: seq<int>) returns (found: bool)
    ensures found <==> rhs in nt.rules
  {
    for r := 0 to |nt.rules|
      invariant rhs !in nt.rules[..r]
    {
      var rule := nt.rules[r];
      assert nt.rules[..r + 1] == nt.rules[..r] + [rule];
      if |rule| != |rhs| {
        continue;
      }
      var bMatch := true;
      for i := 0 to |rule|
        invariant rule[..i] == rhs[..i]
      {
        if rule[i] != rhs[i] {
          bMatch := false;
          break;
        }
      }
      assert bMatch <==> rule == rhs by {
        if bMatch {
          assert rule == rule[..|rule|] && rhs == rhs[..|rhs|];
        }
      }
      if bMatch {
        return true;
      }
    }
    assert nt.rules[..|nt.rules|] == nt.rules;
    return false;
  }

  /** The symbols of syms, in their order, that have the rule rhs. */
  function Producers(syms: seq<NonTerminal>, rhs: seq<int>): (r: seq<NonTerminal>)
    ensures forall n :: n in r <==> n in syms && rhs in n.rules
    ensures |r| <= |syms|
  {
    if syms == [] then []
    else
      var last := syms[|syms| - 1];
      Producers(syms[..|syms| - 1], rhs) + (if rhs in last.rules then [last] else [])
  }

  /** The ids of the symbols that have the rule rhs. */
  function ProducerIds(syms: seq<NonTerminal>, rhs: seq<int>): set<int>
  {
    set n | n in syms && rhs in n.rules :: n.id
  }

  /** FindProducers: the symbols of syms that have the rule rhs, in the order of syms. */
  method FindProducers(syms: seq<NonTerminal>, rhs: seq<int>) returns (producers: seq<NonTerminal>)
    ensures producers == Producers(syms, rhs)
  {
    producers := [];
    for i := 0 to |syms|
      invariant producers == Producers(syms[..i], rhs)
    {
      assert syms[..i + 1][..i] == syms[..i];
      var has := HasRule(syms[i], rhs);
      if has {
        producers := producers + [syms[i]];
      }
    }
    assert syms[..|syms|] == syms;
  }

  /** The ids of the producers are the producer ids. */
  lemma ProducersIds(syms: seq<NonTerminal>, rhs: seq<int>)
    ensures Ids(Producers(syms, rhs)) == ProducerIds(syms, rhs)
  {
  }

  /** The producers of a list whose ids are unique have unique ids. */
  lemma {:induction false} ProducersUnique(syms: seq<NonTerminal>, rhs: seq<int>)
    requires UniqueIds(syms)
    ensures UniqueIds(Producers(syms, rhs))
    decreases |syms|
  {
    if syms != [] {
      var n := |syms| - 1;
      var front := syms[..n];
      UniqueSplit(syms);
      ProducersUnique(front, rhs);
      var p := Producers(front, rhs);
      if rhs in syms[n].rules {
        forall y | y in p
          ensures y.id != syms[n].id
        {
          assert y in front;
        }
        UniqueAppend(p, syms[n]);
      }
    }
  }

  /** In a list with unique ids, the front has unique ids, none of them the last one's. */
  lemma UniqueSplit(s: seq<NonTerminal>)
    requires UniqueIds(s) && s != []
    ensures UniqueIds(s[..|s| - 1])
    ensures forall y :: y in s[..|s| - 1] ==> y.id != s[|s| - 1].id
  {
    var front := s[..|s| - 1];
    forall y | y in front
      ensures y.id != s[|s| - 1].id
    {
      var k :| 0 <= k < |front| && front[k] == y;
      assert s[k] == y;
    }
  }

  /** Appending a symbol whose id is not yet in a list keeps the ids unique. */
  lemma UniqueAppend(s: seq<NonTerminal>, x: NonTerminal)
    requires UniqueIds(s) && forall y :: y in s ==> y.id != x.id
    ensures UniqueIds(s + [x])
  {
    var t := s + [x];
    forall a, b | 0 <= a < b < |t|
      ensures t[a].id != t[b].id
    {
      assert t[a] == s[a];
      if b == |s| {
        assert s[a] in s;
      }
    }
  }

  /** The two-symbol rules [x, y] for one x and every y of s2, in the order of s2. */
  function Pairs(x: NonTerminal, s2: seq<NonTerminal>): (r: seq<seq<int>>)
    ensures |r| == |s2| && forall b :: 0 <= b < |s2| ==> r[b] == [x.id, s2[b].id]
  {
    if s2 == [] then [] else Pairs(x, s2[..|s2| - 1]) + [[x.id, s2[|s2| - 1].id]]
  }

  /** Every two-symbol rule [x, y] with x from s1 and y from s2, row by row. */
  function Combos(s1: seq<NonTerminal>, s2: seq<NonTerminal>): seq<seq<int>>
  {
    if s1 == [] then [] else Combos(s1[..|s1| - 1], s2) + Pairs(s1[|s1| - 1], s2)
  }

  /** GenerateAllCombos: the rules [x, y] for x from syms1 and y from syms2. */
  method GenerateAllCombos(syms1: seq<NonTerminal>, syms2: seq<NonTerminal>) returns (rules: seq<seq<int>>)
    ensures rules == Combos(syms1, syms2)
  {
    rules := [];
    for a := 0 to |syms1|
      invariant rules == Combos(syms1[..a], syms2)
    {
      ghost var done := rules;
      for b := 0 to |syms2|
        invariant rules == done + Pairs(syms1[a], syms2[..b])
      {
        assert syms2[..b + 1][..b] == syms2[..b];
        rules := rules + [[syms1[a].id, syms2[b].id]];
      }
      assert syms2[..|syms2|] == syms2;
      assert syms1[..a + 1][..a] == syms1[..a];
      assert Combos(syms1[..a + 1], syms2) == done + Pairs(syms1[a], syms2);
    }
    assert syms1[..|syms1|] == syms1;
  }

  /** There are |s1| * |s2| combinations. */
  lemma {:induction false} CombosLength(s1: seq<NonTerminal>, s2: seq<NonTerminal>)
    ensures |Combos(s1, s2)| == |s1| * |s2|
    decreases |s1|
  {
    if s1 != [] {
      CombosLength(s1[..|s1| - 1], s2);
      assert |s1| * |s2| == (|s1| - 1) * |s2| + |s2|;
    }
  }

  /** Row-major order: the combination of s1[a] and s2[b] is at a * |s2| + b. */
  lemma {:induction false} CombosAt(s1: seq<NonTerminal>, s2: seq<NonTerminal>, a: nat, b: nat)
    requires a < |s1| && b < |s2|
    ensures a * |s2| + b < |Combos(s1, s2)|
    ensures Combos(s1, s2)[a * |s2| + b] == [s1[a].id, s2[b].id]
    decreases |s1|
  {
    var n := |s1| - 1;
    var front := s1[..n];
    var before, row := Combos(front, s2), Pairs(s1[n], s2);
    var k := a * |s2| + b;
    assert Combos(s1, s2) == before + row;
    if a < n {
      CombosAt(front, s2, a, b);
      assert front[a] == s1[a];
      IndexConcat(before, row, k);
    } else {
      CombosLength(front, s2);
      assert k == |before| + b;
      assert (before + row)[|before| + b] == row[b];
    }
  }

  lemma IndexConcat(s: seq<seq<int>>, t: seq<seq<int>>, k: nat)
    requires k < |s|
    ensures k < |s + t| && (s + t)[k] == s[k]
  {
  }

  /** Every combination is a rule [x, y] with x from s1 and y from s2. */
  lemma {:induction false} CombosOnly(s1: seq<NonTerminal>, s2: seq<NonTerminal>, c: seq<int>)
    requires c in Combos(s1, s2)
    ensures |c| == 2 && c[0] in Ids(s1) && c[1] in Ids(s2)
    decreases |s1|
  {
    var n := |s1| - 1;
    var front := s1[..n];
    if c in Combos(front, s2) {
      CombosOnly(front, s2, c);
      var x :| x in front && x.id == c[0];
      assert x in s1;
    } else {
      var row := Pairs(s1[n], s2);
      var b :| 0 <= b < |row| && row[b] == c;
      assert s1[n] in s1 && s2[b] in s2;
    }
  }

  /** Every rule [x, y] with x from s1 and y from s2 is a combination. */
  lemma CombosAll(s1: seq<NonTerminal>, s2: seq<NonTerminal>, x: NonTerminal, y: NonTerminal)
    requires x in s1 && y in s2
    ensures [x.id, y.id] in Combos(s1, s2)
  {
    var a :| 0 <= a < |s1| && s1[a] == x;
    var b :| 0 <= b < |s2| && s2[b] == y;
    CombosAt(s1, s2, a, b);
  }

  /** InsertUniqueElem: appends sym unless a symbol with its id is already in the list. */
  method InsertUniqueElem(cont: seq<NonTerminal>, sym: NonTerminal) returns (cont': seq<NonTerminal>, inserted: bool)
    ensures inserted <==> sym.id !in Ids(cont)
    ensures cont' == if inserted then cont + [sym] else cont
    ensures Ids(cont') == Ids(cont) + {sym.id}
    ensures UniqueIds(cont) ==> UniqueIds(cont')
    ensures |cont| <= |cont'| && cont'[..|cont|] == cont
    ensures forall n :: n in cont' ==> n in cont || n == sym
  {
    for i := 0 to |cont|
      invariant sym.id !in Ids(cont[..i])
    {
      assert cont[..i + 1] == cont[..i] + [cont[i]];
      if cont[i].id == sym.id {
        return cont, false;
      }
    }
    assert cont[..|cont|] == cont;
    cont' := cont + [sym];
    inserted := true;
    forall x | 0 <= x < |cont|
      ensures cont'[x].id != sym.id
    {
      assert cont[x] in cont;
    }
  }

  /** InsertUniqueElems: InsertUniqueElem for each symbol of vec in turn. */
  method InsertUniqueElems(cont: seq<NonTerminal>, vec: seq<NonTerminal>) returns (cont': seq<NonTerminal>)
    ensures Ids(cont') == Ids(cont) + Ids(vec)
    ensures UniqueIds(cont) ==> UniqueIds(cont')
    ensures |cont| <= |cont'| && cont'[..|cont|] == cont
    ensures forall n :: n in cont' ==> n in cont || n in vec
  {
    cont' := cont;
    for i := 0 to |vec|
      invariant Ids(cont') == Ids(cont) + Ids(vec[..i])
      invariant UniqueIds(cont) ==> UniqueIds(cont')
      invariant |cont| <= |cont'| && cont'[..|cont|] == cont
      invariant forall n :: n in cont' ==> n in cont || n in vec
    {
      assert vec[..i + 1] == vec[..i] + [vec[i]];
      IdsAppend(vec[..i], vec[i]);
      ghost var prev := cont';
      var inserted;
      cont', inserted := InsertUniqueElem(cont', vec[i]);
      PrefixTrans(cont, prev, cont');
      UnionStep(Ids(cont'), Ids(prev), Ids(cont), Ids(vec[..i]), Ids(vec[..i + 1]), vec[i].id);
    }
    assert vec[..|vec|] == vec;
  }

  lemma UnionStep(d: set<int>, p: set<int>, b: set<int>, c: set<int>, c': set<int>, x: int)
    requires d == p + {x} && p == b + c && c' == c + {x}
    ensures d == b + c'
  {
  }

  lemma PrefixTrans(a: seq<NonTerminal>, b: seq<NonTerminal>, c: seq<NonTerminal>)
    requires |a| <= |b| <= |c| && b[..|a|] == a && c[..|b|] == b
    ensures c[..|a|] == a
  {
    assert c[..|a|] == c[..|b|][..|a|];
  }

  /** Appending a symbol adds its id. */
  lemma IdsAppend(s: seq<NonTerminal>, x: NonTerminal)
    ensures Ids(s + [x]) == Ids(s) + {x.id}
  {
    assert forall n :: n in s + [x] <==> n in s || n == x;
  }

  // ---------------------------------------------------------------------------------------------
  // What a cell holds

  /** The ids of the symbols with a rule [a, b], a from L and b from R. */
  function SplitIds(syms: seq<NonTerminal>, L: set<int>, R: set<int>): set<int>
  {
    set n, a, b | n in syms && a in L && b in R && [a, b] in n.rules :: n.id
  }

  /** The ids of the symbols that produce the len input symbols from c on: for one symbol, by a
    * unit rule; for more, by a rule [a, b] where a produces a first part and b the rest. */
  function SpanIds(syms: seq<NonTerminal>, w: seq<int>, c: nat, len: nat): set<int>
    requires 1 <= len && c + len <= |w|
    decreases len, len
  {
    if len == 1 then ProducerIds(syms, [w[c]]) else SplitsUpTo(syms, w, c, len, len - 1)
  }

  /** The part of SpanIds(syms, w, c, len) due to the splits whose second part has at most m
    * symbols. */
  function SplitsUpTo(syms: seq<NonTerminal>, w: seq<int>, c: nat, len: nat, m: nat): set<int>
    requires 2 <= len && c + len <= |w| && m <= len - 1
    decreases len, m
  {
    if m == 0 then {}
    else SplitsUpTo(syms, w, c, len, m - 1) + SplitAt(syms, w, c, len, m)
  }

  /** The part of SplitsUpTo due to the split whose second part has m symbols. */
  function SplitAt(syms: seq<NonTerminal>, w: seq<int>, c: nat, len: nat, m: nat): set<int>
    requires 1 <= m < len && c + len <= |w|
    decreases len, 0
  {
    SplitIds(syms, SpanIds(syms, w, c, len - m), SpanIds(syms, w, c + len - m, m))
  }

  /** The ids of the symbols with one of the rules rs. */
  function ProducedBy(syms: seq<NonTerminal>, rs: seq<seq<int>>): set<int>
  {
    set n, r | n in syms && r in rs && r in n.rules :: n.id
  }

  lemma ProducedByStep(syms: seq<NonTerminal>, rs: seq<seq<int>>, m: nat)
    requires m < |rs|
    ensures ProducedBy(syms, rs[..m + 1]) == ProducedBy(syms, rs[..m]) + ProducerIds(syms, rs[m])
  {
    var front, all := rs[..m], rs[..m + 1];
    assert all == front + [rs[m]];
    forall id | id in ProducedBy(syms, all)
      ensures id in ProducedBy(syms, front) + ProducerIds(syms, rs[m])
    {
      var n, r :| n in syms && r in all && r in n.rules && n.id == id;
      if r != rs[m] {
        assert r in front;
      }
    }
    forall id | id in ProducedBy(syms, front) + ProducerIds(syms, rs[m])
      ensures id in ProducedBy(syms, all)
    {
      if id in ProducedBy(syms, front) {
        var n, r :| n in syms && r in front && r in n.rules && n.id == id;
        assert r in all;
      } else {
        var n :| n in syms && rs[m] in n.rules && n.id == id;
        assert rs[m] in all;
      }
    }
  }

  /** The producers of all combinations of two cells are the symbols with a rule joining them. */
  lemma ProducedByCombos(syms: seq<NonTerminal>, l: seq<NonTerminal>, r: seq<NonTerminal>)
    ensures ProducedBy(syms, Combos(l, r)) == SplitIds(syms, Ids(l), Ids(r))
  {
    var cs := Combos(l, r);
    forall id | id in ProducedBy(syms, cs)
      ensures id in SplitIds(syms, Ids(l), Ids(r))
    {
      var n, c :| n in syms && c in cs && c in n.rules && n.id == id;
      CombosOnly(l, r, c);
      assert c == [c[0], c[1]];
    }
    forall id | id in SplitIds(syms, Ids(l), Ids(r))
      ensures id in ProducedBy(syms, cs)
    {
      var n, a, b :| n in syms && a in Ids(l) && b in Ids(r) && [a, b] in n.rules && n.id == id;
      var x :| x in l && x.id == a;
      var y :| y in r && y.id == b;
      CombosAll(l, r, x, y);
    }
  }

  /** Table indices of the two cells a symbol of a cell came from: (leftRow, leftCol) and
    * (rightRow, rightCol). */
  datatype Split = Split(leftRow: nat, leftCol: nat, rightRow: nat, rightCol: nat)

  /** The come-from entry s of id in cell (r, c) names two adjacent spans that make up c .. r, the
    * left one c .. s.leftRow and the right one s.rightCol .. r, and a rule of id joins symbols of
    * the two. */
  predicate ValidFrom(syms: seq<NonTerminal>, w: seq<int>, r: nat, c: nat, id: int, s: Split)
    requires c < r < |w|
  {
    s.leftCol == c && s.rightRow == r && c <= s.leftRow < r && s.rightCol == s.leftRow + 1
    && id in SplitIds(syms, SpanIds(syms, w, c, s.leftRow - c + 1), SpanIds(syms, w, s.rightCol, r - s.leftRow))
  }

  /** Cell (r, c), c <= r, holds the symbols of syms that produce the input c .. r, each id once
    * below the diagonal, and its come-from map has an entry for each of them below the diagonal
    * and none on it.  The diagonal cell is the producer list itself. */
  predicate CellOk(syms: seq<NonTerminal>, w: seq<int>, r: nat, c: nat, cell: seq<NonTerminal>,
                   from: map<int, Split>)
    requires c <= r < |w|
  {
    Ids(cell) == SpanIds(syms, w, c, r - c + 1) && (forall n :: n in cell ==> n in syms)
    && (r == c ==> cell == Producers(syms, [w[c]]) && from == map[])
    && (r != c ==> UniqueIds(cell) && from.Keys == Ids(cell)
                   && forall id :: id in from ==> ValidFrom(syms, w, r, c, id, from[id]))
  }

  /** The come-from loop for one combination: every producer records the split. */
  method RecordFrom(from: map<int, Split>, producers: seq<NonTerminal>, split: Split) returns (from': map<int, Split>)
    ensures from'.Keys == from.Keys + Ids(producers)
    ensures forall id :: id in from' ==> (id in from && from'[id] == from[id]) || (from'[id] == split && id in Ids(producers))
  {
    from' := from;
    for p := 0 to |producers|
      invariant from'.Keys == from.Keys + Ids(producers[..p])
      invariant forall id :: id in from' ==> (id in from && from'[id] == from[id]) || (from'[id] == split && id in Ids(producers[..p]))
    {
      assert producers[..p + 1] == producers[..p] + [producers[p]];
      IdsAppend(producers[..p], producers[p]);
      from' := from'[producers[p].id := split];
    }
    assert producers[..|producers|] == producers;
  }

  /** The body of the combination loop: the producers of one rule enter the cell once each and
    * record the split. */
  method AddProducers(syms: seq<NonTerminal>, cell: seq<NonTerminal>, from: map<int, Split>, rule: seq<int>,
                      split: Split)
    returns (cell': seq<NonTerminal>, from': map<int, Split>)
    requires UniqueIds(cell) && (forall n :: n in cell ==> n in syms) && from.Keys == Ids(cell)
    ensures UniqueIds(cell') && (forall n :: n in cell' ==> n in syms)
    ensures Ids(cell') == Ids(cell) + ProducerIds(syms, rule)
    ensures from'.Keys == Ids(cell')
    ensures forall id :: id in from' ==>
      (id in from && from'[id] == from[id]) || (from'[id] == split && id in ProducerIds(syms, rule))
  {
    var producers := FindProducers(syms, rule);
    ProducersIds(syms, rule);
    cell' := InsertUniqueElems(cell, producers);
    from' := RecordFrom(from, producers, split);
  }

  /** One split of the constructor's split loop: the producers of every combination of a symbol of
    * the left cell with one of the right cell enter the cell once each and record the split. */
  method AddSplit(syms: seq<NonTerminal>, left: seq<NonTerminal>, right: seq<NonTerminal>,
                  cell: seq<NonTerminal>, from: map<int, Split>, split: Split)
    returns (cell': seq<NonTerminal>, from': map<int, Split>)
    requires UniqueIds(cell) && (forall n :: n in cell ==> n in syms) && from.Keys == Ids(cell)
    ensures UniqueIds(cell') && (forall n :: n in cell' ==> n in syms)
    ensures Ids(cell') == Ids(cell) + SplitIds(syms, Ids(left), Ids(right))
    ensures from'.Keys == Ids(cell')
    ensures forall id :: id in from' ==>
      (id in from && from'[id] == from[id]) || (from'[id] == split && id in SplitIds(syms, Ids(left), Ids(right)))
  {
    var combos := GenerateAllCombos(left, right);
    cell', from' := cell, from;
    for m := 0 to |combos|
      invariant UniqueIds(cell') && (forall n :: n in cell' ==> n in syms)
      invariant Ids(cell') == Ids(cell) + ProducedBy(syms, combos[..m])
      invariant from'.Keys == Ids(cell')
      invariant forall id :: id in from' ==>
        (id in from && from'[id] == from[id]) || (from'[id] == split && id in ProducedBy(syms, combos[..m]))
    {
      ProducedByStep(syms, combos, m);
      cell', from' := AddProducers(syms, cell', from', combos[m], split);
    }
    assert combos[..|combos|] == combos;
    ProducedByCombos(syms, left, right);
  }

  /** Cell (i, j) after the splits whose right part has at most k symbols. */
  predicate PartialCell(syms: seq<NonTerminal>, w: seq<int>, i: nat, j: nat, k: nat,
                        cell: seq<NonTerminal>, from: map<int, Split>)
    requires j < i < |w| && k <= i - j
  {
    UniqueIds(cell) && (forall n :: n in cell ==> n in syms)
    && Ids(cell) == SplitsUpTo(syms, w, j, i - j + 1, k)
    && from.Keys == Ids(cell)
    && forall id :: id in from ==> ValidFrom(syms, w, i, j, id, from[id])
  }

  /** One pass of the split loop for cell (i, j): the left part j .. i - k - 1 and the right part
    * i - k .. i, given as the cells that hold their producers. */
  method AddSpanSplit(syms: seq<NonTerminal>, w: seq<int>, i: nat, j: nat, k: nat,
                      left: seq<NonTerminal>, right: seq<NonTerminal>,
                      cell: seq<NonTerminal>, from: map<int, Split>)
    returns (cell': seq<NonTerminal>, from': map<int, Split>)
    requires j < i < |w| && k < i - j
    requires Ids(left) == SpanIds(syms, w, j, i - j - k) && Ids(right) == SpanIds(syms, w, i - k, k + 1)
    requires PartialCell(syms, w, i, j, k, cell, from)
    ensures PartialCell(syms, w, i, j, k + 1, cell', from')
  {
    var split := Split(i - k - 1, j, i, i - k);
    ghost var joined := SplitIds(syms, Ids(left), Ids(right));
    SplitsUpToNext(syms, w, i, j, k);
    cell', from' := AddSplit(syms, left, right, cell, from, split);
    forall id | id in from'
      ensures ValidFrom(syms, w, i, j, id, from'[id])
    {
      if !(id in from && from'[id] == from[id]) {
        SplitValid(syms, w, i, j, k, id, Ids(left), Ids(right));
      }
    }
  }

  /** The pass for right part k + 1 adds the split j .. i - k - 1, i - k .. i. */
  lemma SplitsUpToNext(syms: seq<NonTerminal>, w: seq<int>, i: nat, j: nat, k: nat)
    requires j < i < |w| && k < i - j
    ensures SplitsUpTo(syms, w, j, i - j + 1, k + 1)
      == SplitsUpTo(syms, w, j, i - j + 1, k) + SplitIds(syms, SpanIds(syms, w, j, i - j - k), SpanIds(syms, w, i - k, k + 1))
  {
  }

  /** A symbol joining the left and right parts of that split has a valid come-from entry for it. */
  lemma SplitValid(syms: seq<NonTerminal>, w: seq<int>, i: nat, j: nat, k: nat, id: int, L: set<int>, R: set<int>)
    requires j < i < |w| && k < i - j
    requires L == SpanIds(syms, w, j, i - j - k) && R == SpanIds(syms, w, i - k, k + 1)
    requires id in SplitIds(syms, L, R)
    ensures ValidFrom(syms, w, i, j, id, Split(i - k - 1, j, i, i - k))
  {
  }

  // ---------------------------------------------------------------------------------------------
  // The order of the sub-diagonal cells

  /** Sub-diagonal sub: the cells (x + sub, x). */
  function Diagonal(dim: nat, sub: nat): (r: seq<(nat, nat)>)
    requires sub <= dim
    ensures |r| == dim - sub && forall x :: 0 <= x < |r| ==> r[x] == (x + sub, x)
  {
    seq(dim - sub, x requires 0 <= x < dim - sub => (x + sub, x))
  }

  /** Sub-diagonals 1 .. n - 1, one after the other. */
  function SubDiags(dim: nat, n: nat): seq<(nat, nat)>
    requires n <= dim
  {
    if n <= 1 then [] else SubDiags(dim, n - 1) + Diagonal(dim, n - 1)
  }

  /** Cell a comes before cell b: on an earlier sub-diagonal, or on the same one further up. */
  predicate Before(a: (nat, nat), b: (nat, nat))
  {
    a.0 - a.1 < b.0 - b.1 || (a.0 - a.1 == b.0 - b.1 && a.1 < b.1)
  }

  /** The first n - 1 sub-diagonals hold exactly the cells below the diagonal at distance below n. */
  lemma {:induction false} SubDiagsMember(dim: nat, n: nat, r: nat, c: nat)
    requires n <= dim
    ensures (r, c) in SubDiags(dim, n) <==> c < r < dim && r - c < n
    decreases n
  {
    if n > 1 {
      SubDiagsMember(dim, n - 1, r, c);
      var d := Diagonal(dim, n - 1);
      if c < r < dim && r - c == n - 1 {
        assert d[c] == (r, c);
      }
      if (r, c) in d {
        var x :| 0 <= x < |d| && d[x] == (r, c);
      }
    }
  }

  /** The sub-diagonals are listed in the order Before. */
  lemma {:induction false} SubDiagsSorted(dim: nat, n: nat, p: nat, q: nat)
    requires n <= dim && p < q < |SubDiags(dim, n)|
    ensures Before(SubDiags(dim, n)[p], SubDiags(dim, n)[q])
    decreases n
  {
    var front, d := SubDiags(dim, n - 1), Diagonal(dim, n - 1);
    assert SubDiags(dim, n) == front + d;
    if q < |front| {
      SubDiagsSorted(dim, n - 1, p, q);
    } else if p < |front| {
      SubDiagsMember(dim, n - 1, front[p].0, front[p].1);
    }
  }

  /** The cell at position q lies below the diagonal and was not listed before. */
  lemma SubDiagsAt(dim: nat, q: nat)
    requires q < |SubDiags(dim, dim)|
    ensures SubDiags(dim, dim)[q].1 < SubDiags(dim, dim)[q].0 < dim
    ensures SubDiags(dim, dim)[q] !in SubDiags(dim, dim)[..q]
  {
    var s := SubDiags(dim, dim);
    SubDiagsMember(dim, dim, s[q].0, s[q].1);
    forall p | 0 <= p < q
      ensures s[p] != s[q]
    {
      SubDiagsSorted(dim, dim, p, q);
    }
  }

  /** Every cell below the diagonal that comes before the cell at q is listed before q. */
  lemma SubDiagsBefore(dim: nat, q: nat, r: nat, c: nat)
    requires q < |SubDiags(dim, dim)| && c < r < dim
    requires Before((r, c), SubDiags(dim, dim)[q])
    ensures (r, c) in SubDiags(dim, dim)[..q]
  {
    var s := SubDiags(dim, dim);
    SubDiagsMember(dim, dim, r, c);
    var p :| 0 <= p < |s| && s[p] == (r, c);
    if q < p {
      SubDiagsSorted(dim, dim, q, p);
    }
    assert p < q;
  }

  // ---------------------------------------------------------------------------------------------
  // The table

  class CykTable {
    const dim: nat
    const tab: array2<seq<NonTerminal>>
    const comeFrom: array2<map<int, Split>>

    predicate Shape()
    {
      tab.Length0 == dim && tab.Length1 == dim && comeFrom.Length0 == dim && comeFrom.Length1 == dim
    }

    /** GenerateSubDiagIter: the cells below the diagonal, sub-diagonal by sub-diagonal. */
    method GenerateSubDiagIter() returns (indices: seq<(nat, nat)>)
      ensures indices == SubDiags(dim, dim)
    {
      indices := [];
      var sub := 1;
      while sub < dim
        invariant 1 <= sub && (dim == 0 || sub <= dim)
        invariant indices == if dim == 0 then [] else SubDiags(dim, sub)
      {
        var i := 0;
        while i < dim
          invariant 0 <= i <= dim - sub
          invariant indices == SubDiags(dim, sub) + Diagonal(dim, sub)[..i]
        {
          if i + sub >= dim {
            break;
          }
          assert Diagonal(dim, sub)[..i + 1] == Diagonal(dim, sub)[..i] + [(i + sub, i)];
          indices := indices + [(i + sub, i)];
          i := i + 1;
        }
        assert Diagonal(dim, sub)[..dim - sub] == Diagonal(dim, sub);
        sub := sub + 1;
      }
    }

    /** The cell (i, j) below the diagonal, from the cells of the shorter spans: the split loop of
      * the constructor. */
    method ComputeCell(syms: seq<NonTerminal>, w: seq<int>, i: nat, j: nat)
      returns (cell: seq<NonTerminal>, from: map<int, Split>)
      requires Shape() && dim == |w| && j < i < dim
      requires forall r, c :: 0 <= c <= r < dim && r - c < i - j ==> Ids(tab[r, c]) == SpanIds(syms, w, c, r - c + 1)
      requires tab[i, j] == [] && comeFrom[i, j] == map[]
      ensures CellOk(syms, w, i, j, cell, from)
    {
      cell, from := tab[i, j], comeFrom[i, j];
      for k := 0 to i - j
        invariant PartialCell(syms, w, i, j, k, cell, from)
      {
        cell, from := AddSpanSplit(syms, w, i, j, k, tab[i - k - 1, j], tab[i, i - k], cell, from);
      }
    }

    /** The diagonal and the cells of done hold what CellOk says; every other cell is empty. */
    ghost predicate Filled(syms: seq<NonTerminal>, w: seq<int>, done: seq<(nat, nat)>)
      requires Shape() && dim == |w|
      reads tab, comeFrom
    {
      forall r, c :: 0 <= r < dim && 0 <= c < dim ==>
        if r == c || (r, c) in done then c <= r && CellOk(syms, w, r, c, tab[r, c], comeFrom[r, c])
        else tab[r, c] == [] && comeFrom[r, c] == map[]
    }

    /** One pass of the constructor's loop over the sub-diagonal cells: cell indices[q], from the
      * cells before it. */
    method FillCell(syms: seq<NonTerminal>, w: seq<int>, indices: seq<(nat, nat)>, q: nat)
      requires Shape() && dim == |w| && indices == SubDiags(dim, dim) && q < |indices|
      requires Filled(syms, w, indices[..q])
      modifies tab, comeFrom
      ensures Filled(syms, w, indices[..q + 1])
    {
      var (i, j) := indices[q];
      SubDiagsAt(dim, q);
      forall r, c | 0 <= c <= r < dim && r - c < i - j
        ensures CellOk(syms, w, r, c, tab[r, c], comeFrom[r, c])
      {
        if r != c {
          SubDiagsBefore(dim, q, r, c);
        }
      }
      var cell, from := ComputeCell(syms, w, i, j);
      tab[i, j] := cell;
      comeFrom[i, j] := from;
      assert indices[..q + 1] == indices[..q] + [(i, j)];
    }

    /** The constructor: the main diagonal from the unit rules, then every cell below it from the
      * cells of the shorter spans. */
    constructor(syms: seq<NonTerminal>, input: seq<Terminal>)
      ensures dim == |input| && Shape() && fresh(tab) && fresh(comeFrom)
      ensures forall r, c :: 0 <= c <= r < dim ==> CellOk(syms, Word(input), r, c, tab[r, c], comeFrom[r, c])
      ensures forall r, c :: 0 <= r < c < dim ==> tab[r, c] == [] && comeFrom[r, c] == map[]
    {
      dim := |input|;
      tab := new seq<NonTerminal>[|input|, |input|]((r, c) => []);
      comeFrom := new map<int, Split>[|input|, |input|]((r, c) => map[]);
      new;
      var w := Word(input);
      for i := 0 to dim
        invariant forall r, c :: 0 <= r < dim && 0 <= c < dim ==>
          comeFrom[r, c] == map[] && tab[r, c] == if r == c && r < i then Producers(syms, [w[r]]) else []
      {
        var producers := FindProducers(syms, [input[i].id]);
        tab[i, i] := producers;
      }
      forall r | 0 <= r < dim
        ensures CellOk(syms, w, r, r, tab[r, r], comeFrom[r, r])
      {
        ProducersIds(syms, [w[r]]);
      }
      var indices := GenerateSubDiagIter();
      for q := 0 to |indices|
        invariant Filled(syms, w, indices[..q])
      {
        FillCell(syms, w, indices, q);
      }
      assert Filled(syms, w, indices[..|indices|]);
      forall r, c | 0 <= c < r < dim
        ensures (r, c) in indices
      {
        SubDiagsMember(dim, dim, r, c);
      }
      assert indices[..|indices|] == indices;
    }
  }

  // ---------------------------------------------------------------------------------------------
  // Derivations

  /** A parse tree of a grammar in Chomsky normal form: a leaf for a unit rule, an inner node for a
    * binary rule. */
  datatype Tree = Leaf(root: int, term: int) | Node(root: int, left: Tree, right: Tree)

  /** The input symbols a tree derives. */
  function Yield(t: Tree): (y: seq<int>)
    ensures |y| >= 1
  {
    match t
    case Leaf(_, a) => [a]
    case Node(_, l, r) => Yield(l) + Yield(r)
  }

  /** Every node of t is justified by a rule of a symbol of syms. */
  predicate Derivation(syms: seq<NonTerminal>, t: Tree)
  {
    match t
    case Leaf(x, a) => x in ProducerIds(syms, [a])
    case Node(x, l, r) => Derivation(syms, l) && Derivation(syms, r) && x in ProducerIds(syms, [l.root, r.root])
  }

  /** Each split's part lies in SplitsUpTo from that split on. */
  lemma {:induction false} SplitsUpToHas(syms: seq<NonTerminal>, w: seq<int>, c: nat, len: nat, m: nat, top: nat)
    requires 2 <= len && c + len <= |w| && 1 <= m <= top <= len - 1
    ensures SplitAt(syms, w, c, len, m) <= SplitsUpTo(syms, w, c, len, top)
    decreases top
  {
    if m < top {
      SplitsUpToHas(syms, w, c, len, m, top - 1);
    }
  }

  /** An id in SplitsUpTo is due to one of its splits. */
  lemma {:induction false} SplitsUpToWitness(syms: seq<NonTerminal>, w: seq<int>, c: nat, len: nat, top: nat, x: int)
    returns (m: nat)
    requires 2 <= len && c + len <= |w| && top <= len - 1 && x in SplitsUpTo(syms, w, c, len, top)
    ensures 1 <= m <= top && m < len && x in SplitAt(syms, w, c, len, m)
    decreases top
  {
    if x in SplitsUpTo(syms, w, c, len, top - 1) {
      m := SplitsUpToWitness(syms, w, c, len, top - 1, x);
    } else {
      m := top;
    }
  }

  /** A rule [a, b] of x, with a producing c .. c + k1 - 1 and b the k2 symbols after, makes x
    * produce c .. c + k1 + k2 - 1. */
  lemma JoinSpans(syms: seq<NonTerminal>, w: seq<int>, c: nat, k1: nat, k2: nat, a: int, b: int, x: int)
    requires 1 <= k1 && 1 <= k2 && c + k1 + k2 <= |w|
    requires a in SpanIds(syms, w, c, k1) && b in SpanIds(syms, w, c + k1, k2) && x in ProducerIds(syms, [a, b])
    ensures x in SpanIds(syms, w, c, k1 + k2)
  {
    var len := k1 + k2;
    var n :| n in syms && [a, b] in n.rules && n.id == x;
    SplitIdsHas(syms, SpanIds(syms, w, c, k1), SpanIds(syms, w, c + k1, k2), n, a, b);
    SplitsUpToHas(syms, w, c, len, k2, len - 1);
    assert SpanIds(syms, w, c, len) == SplitsUpTo(syms, w, c, len, len - 1);
  }

  lemma SplitIdsHas(syms: seq<NonTerminal>, L: set<int>, R: set<int>, n: NonTerminal, a: int, b: int)
    requires n in syms && a in L && b in R && [a, b] in n.rules
    ensures n.id in SplitIds(syms, L, R)
  {
  }

  /** An id that produces more than one input symbol has a rule [a, b] with a producing a first
    * part and b the rest. */
  lemma SplitSpans(syms: seq<NonTerminal>, w: seq<int>, c: nat, len: nat, x: int) returns (m: nat, a: int, b: int)
    requires 2 <= len && c + len <= |w| && x in SpanIds(syms, w, c, len)
    ensures 1 <= m < len && a in SpanIds(syms, w, c, len - m) && b in SpanIds(syms, w, c + len - m, m)
    ensures x in ProducerIds(syms, [a, b])
  {
    m := SplitsUpToWitness(syms, w, c, len, len - 1, x);
    assert x in SplitIds(syms, SpanIds(syms, w, c, len - m), SpanIds(syms, w, c + len - m, m));
    var n, a0, b0 :| n in syms && a0 in SpanIds(syms, w, c, len - m) && b0 in SpanIds(syms, w, c + len - m, m)
      && [a0, b0] in n.rules && n.id == x;
    a, b := a0, b0;
  }

  /** The root of every parse tree of a part of the input is in SpanIds of that part. */
  lemma {:induction false} SpanComplete(syms: seq<NonTerminal>, w: seq<int>, c: nat, t: Tree)
    requires Derivation(syms, t) && c + |Yield(t)| <= |w| && w[c..c + |Yield(t)|] == Yield(t)
    ensures t.root in SpanIds(syms, w, c, |Yield(t)|)
    decreases t
  {
    match t
    case Leaf(x, a) =>
      assert w[c] == w[c..c + 1][0];
    case Node(x, l, r) =>
      var k1, k2 := |Yield(l)|, |Yield(r)|;
      SliceParts(w, c, Yield(l), Yield(r));
      SpanComplete(syms, w, c, l);
      SpanComplete(syms, w, c + k1, r);
      JoinSpans(syms, w, c, k1, k2, l.root, r.root, x);
  }

  /** Every id in SpanIds of a part of the input is the root of a parse tree of that part. */
  lemma {:induction false} SpanSound(syms: seq<NonTerminal>, w: seq<int>, c: nat, len: nat, x: int)
    returns (t: Tree)
    requires 1 <= len && c + len <= |w| && x in SpanIds(syms, w, c, len)
    ensures Derivation(syms, t) && t.root == x && Yield(t) == w[c..c + len]
    decreases len
  {
    if len == 1 {
      t := SoundLeaf(syms, w, c, len, x);
    } else {
      var m, a, b := SplitSpans(syms, w, c, len, x);
      var mid, end := c + (len - m), c + len;
      var l := SpanSound(syms, w, c, len - m, a);
      var r := SpanSound(syms, w, mid, m, b);
      t := Join(syms, w, c, mid, end, x, l, r);
    }
  }

  /** A symbol with a unit rule for input symbol c is the root of a leaf for it. */
  lemma SoundLeaf(syms: seq<NonTerminal>, w: seq<int>, c: nat, len: nat, x: int) returns (t: Tree)
    requires len == 1 && c + len <= |w| && x in SpanIds(syms, w, c, len)
    ensures Derivation(syms, t) && t.root == x && Yield(t) == w[c..c + len]
  {
    t := Leaf(x, w[c]);
    assert w[c..c + 1] == [w[c]];
  }

  /** Two parse trees of adjacent parts, joined under a rule of x, give a tree of both parts. */
  lemma Join(syms: seq<NonTerminal>, w: seq<int>, c: nat, mid: nat, end: nat, x: int, l: Tree, r: Tree)
    returns (t: Tree)
    requires c <= mid <= end <= |w|
    requires Derivation(syms, l) && Yield(l) == w[c..mid]
    requires Derivation(syms, r) && Yield(r) == w[mid..end]
    requires x in ProducerIds(syms, [l.root, r.root])
    ensures Derivation(syms, t) && t.root == x && Yield(t) == w[c..end]
  {
    t := Node(x, l, r);
    SliceConcat(w, c, mid, end);
  }

  lemma SliceParts(w: seq<int>, c: nat, y1: seq<int>, y2: seq<int>)
    requires c + |y1| + |y2| <= |w| && w[c..c + |y1| + |y2|] == y1 + y2
    ensures w[c..c + |y1|] == y1 && w[c + |y1|..c + |y1| + |y2|] == y2
  {
    assert w[c..c + |y1|] == w[c..c + |y1| + |y2|][..|y1|];
    assert w[c + |y1|..c + |y1| + |y2|] == w[c..c + |y1| + |y2|][|y1|..];
  }

  lemma SliceConcat(w: seq<int>, a: nat, b: nat, c: nat)
    requires a <= b <= c <= |w|
    ensures w[a..c] == w[a..b] + w[b..c]
  {
  }

  /** CYK: a symbol id is in cell (c + len - 1, c) of the table exactly when it derives the input
    * symbols c .. c + len - 1. */
  lemma CykCorrect(syms: seq<NonTerminal>, w: seq<int>, c: nat, len: nat, x: int)
    requires 1 <= len && c + len <= |w|
    ensures x in SpanIds(syms, w, c, len) <==>
      exists t :: Derivation(syms, t) && t.root == x && Yield(t) == w[c..c + len]
  {
    if x in SpanIds(syms, w, c, len) {
      var t := SpanSound(syms, w, c, len, x);
    }
    if exists t :: Derivation(syms, t) && t.root == x && Yield(t) == w[c..c + len] {
      var t :| Derivation(syms, t) && t.root == x && Yield(t) == w[c..c + len];
      SpanComplete(syms, w, c, t);
    }
  }
}
