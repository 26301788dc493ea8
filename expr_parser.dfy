/**
 * The LL(1) expression calculator of parser/grammars/expr_parser.c (integer build).  A global
 * lexer reads the input string through an index; a recursive-descent parser evaluates
 * plus_term / mul_term / pow_term / factor on the lookahead token while it parses; variables
 * live in a singly linked symbol list headed by a sentinel entry.
 *
 * The global state becomes the fields of class Calc.  Every operation on it is a method; each
 * is proved against a function on a value of that state (Lexed, PState), and the properties
 * the program promises are lemmas about those functions.  The flag `fixed` selects between the
 * code as written and as evidently intended where the two differ (the lookahead peek of the
 * lexer and the identifier test).
 */
module ExprParser {
  import opened Wrappers

  // ---------------------------------------------------------------------------------------------
  // Tokens and characters

  const MaxIdent := 256
  const TokValue := 1000
  const TokIdent := 1001
  const TokEnd := 1002
  const TokInvalid := 10000
  const Eof := -1

  predicate IsDigit(c: char)
  {
    '0' <= c <= '9'
  }

  predicate IsAlpha(c: char)
  {
    'a' <= c <= 'z' || 'A' <= c <= 'Z'
  }

  /** The characters that are tokens by themselves, each standing for its own code. */
  predicate IsOperator(c: char)
  {
    c == '+' || c == '-' || c == '*' || c == '/' || c == '%' || c == '^' || c == '(' || c == ')'
    || c == ',' || c == '='
  }

  /** The codes lex can return: the named tokens and the operator characters. */
  predicate TokenCode(tok: int)
  {
    tok == TokValue || tok == TokIdent || tok == TokEnd || tok == TokInvalid
    || (0 <= tok < 128 && IsOperator(tok as char))
  }

  /** A token that stands for characters of the input (so lexing it consumed some). */
  predicate Pending(tok: int)
  {
    tok != TokEnd && tok != TokInvalid
  }

  /** match_int: every character is a digit (so the empty string matches). */
  predicate AllDigits(s: string)
  {
    forall i :: 0 <= i < |s| ==> IsDigit(s[i])
  }

  /** match_ident as written: a letter, then characters that are neither not-a-digit nor
    * not-a-letter. */
  predicate IdentAsWritten(s: string)
  {
    |s| > 0 && IsAlpha(s[0]) && forall i :: 1 <= i < |s| ==> !(!IsDigit(s[i]) || !IsAlpha(s[i]))
  }

  /** match_ident as intended: a letter followed by letters and digits. */
  predicate Ident(s: string)
  {
    |s| > 0 && IsAlpha(s[0]) && forall i :: 1 <= i < |s| ==> IsDigit(s[i]) || IsAlpha(s[i])
  }

  /** No character is both a digit and a letter, so the test as written rejects every
    * identifier longer than one letter. */
  lemma IdentAsWrittenOneLetter(s: string)
    ensures IdentAsWritten(s) <==> |s| == 1 && IsAlpha(s[0])
  {
    if |s| > 1 && IsAlpha(s[0]) {
      assert !(!IsDigit(s[1]) || !IsAlpha(s[1])) ==> false;
    }
  }

  /** The predefined variable "pi" is an identifier, but the test as written rejects it. */
  lemma PiRejectedAsWritten()
    ensures Ident("pi") && !IdentAsWritten("pi")
  {
    IdentAsWrittenOneLetter("pi");
  }

  /** match_int: the loop over the characters. */
  method MatchInt(tok: string) returns (r: bool)
    ensures r <==> AllDigits(tok)
  {
    var i := 0;
    while i < |tok|
      invariant 0 <= i <= |tok|
      invariant AllDigits(tok[..i])
    {
      if !IsDigit(tok[i]) {
        assert !AllDigits(tok);
        return false;
      }
      i := i + 1;
      assert tok[..i] == tok[..i - 1] + [tok[i - 1]];
    }
    assert tok[..i] == tok;
    return true;
  }

  /** match_ident; fixed selects the intended test of the later characters. */
  method MatchIdent(tok: string, fixed: bool) returns (r: bool)
    ensures r <==> if fixed then Ident(tok) else IdentAsWritten(tok)
  {
    if |tok| == 0 || !IsAlpha(tok[0]) {
      return false;
    }
    var i := 1;
    while i < |tok|
      invariant 1 <= i <= |tok|
      invariant forall j :: 1 <= j < i ==>
                  if fixed then IsDigit(tok[j]) || IsAlpha(tok[j]) else !(!IsDigit(tok[j]) || !IsAlpha(tok[j]))
    {
      var bad := if fixed then !IsDigit(tok[i]) && !IsAlpha(tok[i]) else !IsDigit(tok[i]) || !IsAlpha(tok[i]);
      if bad {
        return false;
      }
      i := i + 1;
    }
    return true;
  }

  /** The decimal value of a digit string (atoi on one). */
  function Atoi(s: string): (n: nat)
    requires AllDigits(s)
  {
    if |s| == 0 then 0 else 10 * Atoi(s[..|s| - 1]) + (s[|s| - 1] - '0') as int
  }

  /** atoi reads back a number written with one more digit. */
  lemma AtoiAppend(s: string, c: char)
    requires AllDigits(s) && IsDigit(c)
    ensures AllDigits(s + [c]) && Atoi(s + [c]) == 10 * Atoi(s) + (c - '0') as int
  {
    assert (s + [c])[..|s|] == s;
  }

  /** The token get_matching_token finds for the characters read so far, with its value. */
  datatype Matched = Matched(tok: int, val: int)

  function MatchToken(s: string, fixed: bool): (r: Matched)
    ensures r.tok == TokValue || r.tok == TokIdent || r.tok == TokInvalid || (|s| == 1 && r.tok == s[0] as int && IsOperator(s[0]))
  {
    if AllDigits(s) then Matched(TokValue, Atoi(s))
    else if (if fixed then Ident(s) else IdentAsWritten(s)) then Matched(TokIdent, 0)
    else if |s| == 1 && IsOperator(s[0]) then Matched(s[0] as int, 0)
    else Matched(TokInvalid, 0)
  }

  /** get_matching_token: integers first, then identifiers, then the operator characters. */
  method GetMatchingToken(s: string, fixed: bool) returns (tok: int, val: int)
    ensures Matched(tok, val) == MatchToken(s, fixed)
  {
    var isInt := MatchInt(s);
    if isInt {
      return TokValue, Atoi(s);
    }
    var isIdent := MatchIdent(s, fixed);
    if isIdent {
      return TokIdent, 0;
    }
    if |s| == 1 && IsOperator(s[0]) {
      return s[0] as int, 0;
    }
    return TokInvalid, 0;
  }

  /** strncat_char with MAX_IDENT: the character is appended only while the text stays shorter
    * than the buffer, so the buffer never overflows. */
  function StrncatChar(s: string, c: char): (r: string)
    ensures |s| < MaxIdent ==> |r| < MaxIdent
    ensures r == s + [c] || r == s
  {
    if |s| + 1 < MaxIdent then s + [c] else s
  }

  // ---------------------------------------------------------------------------------------------
  // The lexer as a function of the input and its index

  /** What lex returns: the token, its value (yylval), its text (yytext) and the input index. */
  datatype Lexed = Lexed(tok: int, val: int, text: string, idx: nat)

  /** input_peek()==EOF after a character has been read, idx being the index of the next one:
    * as written it looks one character too far ahead. */
  predicate PeekEof(input: string, idx: nat, fixed: bool)
  {
    if fixed then idx >= |input| else idx + 1 >= |input|
  }

  /** The decisions after the loop: nothing read is the end of input, something read that
    * never matched is invalid, otherwise the longest match. */
  function Finish(buf: string, text: string, tok: int, val: int, idx: nat): (r: Lexed)
  {
    if tok == TokInvalid && |buf| == 0 then Lexed(TokEnd, 0, text, idx)
    else if tok == TokInvalid then Lexed(TokInvalid, 0, text, idx)
    else Lexed(tok, val, text, idx)
  }

  /** The while(1) loop of lex from index idx, with buf the characters read into the token,
    * text/tok/val the longest match so far. */
  function LexLoop(input: string, idx: nat, buf: string, text: string, tok: int, val: int, fixed: bool): (r: Lexed)
    requires idx <= |input|
    ensures idx <= r.idx <= |input|
    ensures Pending(r.tok) && !Pending(tok) ==> idx < r.idx
    ensures TokenCode(tok) ==> TokenCode(r.tok)
    decreases |input| - idx
  {
    if idx == |input| then Finish(buf, text, tok, val, idx)
    else
      var c := input[idx];
      if tok == TokInvalid && (c == ' ' || c == '\t') then LexLoop(input, idx + 1, buf, text, tok, val, fixed)
      else if tok == TokInvalid && c == '\n' then Lexed(TokEnd, 0, text, idx + 1)
      else
        var buf' := StrncatChar(buf, c);
        var m := MatchToken(buf', fixed);
        if m.tok == TokInvalid then Finish(buf', text, tok, val, idx)
        else if PeekEof(input, idx + 1, fixed) || idx + 1 == |input| then Finish(buf', buf', m.tok, m.val, idx + 1)
        else LexLoop(input, idx + 1, buf', buf', m.tok, m.val, fixed)
  }

  /** lex from index idx: the index never moves back, a token standing for input characters has
    * consumed at least one, and the token is one of those get_matching_token or lex return (so
    * never 0 or EOF). */
  function LexFrom(input: string, idx: nat, fixed: bool): (r: Lexed)
    requires idx <= |input|
    ensures idx <= r.idx <= |input|
    ensures Pending(r.tok) ==> idx < r.idx
    ensures TokenCode(r.tok) && r.tok != 0 && r.tok != Eof
  {
    LexLoop(input, idx, [], [], TokInvalid, 0, fixed)
  }

  /** Blanks before a token are skipped; a newline or the end of the input is the end token. */
  lemma LexSkipsBlanks(input: string, idx: nat, j: nat, fixed: bool)
    requires idx <= j <= |input|
    requires forall k :: idx <= k < j ==> input[k] == ' ' || input[k] == '\t'
    ensures LexFrom(input, idx, fixed) == LexFrom(input, j, fixed)
    ensures j == |input| ==> LexFrom(input, idx, fixed) == Lexed(TokEnd, 0, [], j)
    ensures j < |input| && input[j] == '\n' ==> LexFrom(input, idx, fixed) == Lexed(TokEnd, 0, [], j + 1)
    decreases j - idx
  {
    if idx < j {
      LexSkipsBlanks(input, idx + 1, j, fixed);
    }
  }

  /** With the intended peek, a run of digits is read whole, up to the first non-digit or the end
    * of the input (as long as it fits the token buffer). */
  lemma {:induction false} LexDigits(input: string, idx: nat, n: nat)
    requires 1 <= n && n + 1 < MaxIdent && idx + n <= |input|
    requires AllDigits(input[idx..idx + n])
    requires idx + n == |input| || !IsDigit(input[idx + n])
    ensures LexFrom(input, idx, true) == Lexed(TokValue, Atoi(input[idx..idx + n]), input[idx..idx + n], idx + n)
  {
    var d := input[idx..idx + n];
    var buf, v := DigitsStart(input, idx, n, d);
    DigitsFrom(input, idx, n, d, buf, v);
  }

  /** The first digit of the run starts a match. */
  lemma DigitsStart(input: string, idx: nat, n: nat, d: string) returns (buf: string, v: int)
    requires 1 <= n && n + 1 < MaxIdent && idx + n <= |input|
    requires d == input[idx..idx + n] && AllDigits(d)
    requires idx + n == |input| || !IsDigit(input[idx + n])
    ensures |buf| == 1 && buf == d[..|buf|] && AllDigits(buf) && v == Atoi(buf)
    ensures LexFrom(input, idx, true) == LexLoop(input, idx + |buf|, buf, buf, TokValue, v, true)
  {
    var c := input[idx];
    buf := [c];
    assert buf == d[..1] == [] + [c];
    assert IsDigit(d[0]);
    v := Atoi(buf);
    assert MatchToken(buf, true) == Matched(TokValue, v);
    if n == 1 {
      assert buf == d;
      if idx + 1 == |input| {
        LoopLast(input, idx, [], [], TokInvalid, 0, true);
      } else {
        LoopContinue(input, idx, [], [], TokInvalid, 0, true);
      }
    } else {
      LoopContinue(input, idx, [], [], TokInvalid, 0, true);
    }
  }

  /** One round of the lex loop that extends a match and goes on reading. */
  lemma LoopContinue(input: string, i: nat, buf: string, text: string, tok: int, val: int, fixed: bool)
    requires i < |input| && |buf| + 1 < MaxIdent
    requires tok != TokInvalid || (input[i] != ' ' && input[i] != '\t' && input[i] != '\n')
    requires MatchToken(buf + [input[i]], fixed).tok != TokInvalid
    requires !PeekEof(input, i + 1, fixed) && i + 1 < |input|
    ensures var m := MatchToken(buf + [input[i]], fixed);
            LexLoop(input, i, buf, text, tok, val, fixed) == LexLoop(input, i + 1, buf + [input[i]], buf + [input[i]], m.tok, m.val, fixed)
  {
  }

  /** One round of the lex loop on a character read into the token: the match ends with it, is
    * taken with it and ends, or is taken with it and the loop goes on. */
  lemma LoopRound(input: string, i: nat, buf: string, text: string, tok: int, val: int, fixed: bool,
                  buf': string, m: Matched)
    requires i < |input| && (tok != TokInvalid || (input[i] != ' ' && input[i] != '\t' && input[i] != '\n'))
    requires buf' == StrncatChar(buf, input[i]) && m == MatchToken(buf', fixed)
    ensures m.tok == TokInvalid ==> LexLoop(input, i, buf, text, tok, val, fixed) == Finish(buf', text, tok, val, i)
    ensures m.tok != TokInvalid && (PeekEof(input, i + 1, fixed) || i + 1 == |input|) ==>
              LexLoop(input, i, buf, text, tok, val, fixed) == Finish(buf', buf', m.tok, m.val, i + 1)
    ensures m.tok != TokInvalid && !PeekEof(input, i + 1, fixed) && i + 1 < |input| ==>
              LexLoop(input, i, buf, text, tok, val, fixed) == LexLoop(input, i + 1, buf', buf', m.tok, m.val, fixed)
  {
  }

  /** One round of the lex loop on a blank before any match: it is skipped. */
  lemma LoopBlank(input: string, i: nat, buf: string, text: string, tok: int, val: int, fixed: bool)
    requires i < |input| && tok == TokInvalid && (input[i] == ' ' || input[i] == '\t')
    ensures LexLoop(input, i, buf, text, tok, val, fixed) == LexLoop(input, i + 1, buf, text, tok, val, fixed)
  {
  }

  /** One round of the lex loop on a newline before any match: the end token. */
  lemma LoopNewline(input: string, i: nat, buf: string, text: string, tok: int, val: int, fixed: bool)
    requires i < |input| && tok == TokInvalid && input[i] == '\n'
    ensures LexLoop(input, i, buf, text, tok, val, fixed) == Lexed(TokEnd, 0, text, i + 1)
  {
  }

  /** One round of the lex loop that extends a match at the last character. */
  lemma LoopLast(input: string, i: nat, buf: string, text: string, tok: int, val: int, fixed: bool)
    requires i + 1 == |input| && |buf| + 1 < MaxIdent
    requires tok != TokInvalid || (input[i] != ' ' && input[i] != '\t' && input[i] != '\n')
    requires MatchToken(buf + [input[i]], fixed).tok != TokInvalid
    ensures var m := MatchToken(buf + [input[i]], fixed);
            LexLoop(input, i, buf, text, tok, val, fixed) == Lexed(m.tok, m.val, buf + [input[i]], i + 1)
  {
  }

  /** One round of the lex loop whose character ends the match: it is put back. */
  lemma LoopPutBack(input: string, i: nat, buf: string, text: string, tok: int, val: int, fixed: bool)
    requires i < |input| && |buf| + 1 < MaxIdent && tok != TokInvalid
    requires MatchToken(buf + [input[i]], fixed).tok == TokInvalid
    ensures LexLoop(input, i, buf, text, tok, val, fixed) == Lexed(tok, val, text, i)
  {
  }

  /** The loop state once buf, a prefix of the run d, has been read, of value v. */
  lemma {:induction false} DigitsFrom(input: string, idx: nat, n: nat, d: string, buf: string, v: int)
    requires 1 <= |buf| <= n && idx + n <= |input| && n + 1 < MaxIdent
    requires d == input[idx..idx + n] && AllDigits(d)
    requires idx + n == |input| || !IsDigit(input[idx + n])
    requires buf == d[..|buf|] && AllDigits(buf) && v == Atoi(buf)
    ensures LexLoop(input, idx + |buf|, buf, buf, TokValue, v, true) == Lexed(TokValue, Atoi(d), d, idx + n)
    decreases n - |buf|
  {
    if |buf| == n {
      DigitsEnd(input, idx, n, d, buf, v);
    } else if idx + |buf| + 1 == |input| {
      DigitsLast(input, idx, n, d, buf, v);
    } else {
      var buf', v' := DigitsStep(input, idx, n, d, buf, v);
      DigitsFrom(input, idx, n, d, buf', v');
    }
  }

  /** Reading one more digit of the run, not the last character of the input. */
  lemma DigitsStep(input: string, idx: nat, n: nat, d: string, buf: string, v: int) returns (buf': string, v': int)
    requires 1 <= |buf| < n && idx + n <= |input| && n + 1 < MaxIdent && idx + |buf| + 1 < |input|
    requires d == input[idx..idx + n] && AllDigits(d)
    requires buf == d[..|buf|] && AllDigits(buf) && v == Atoi(buf)
    ensures |buf'| == |buf| + 1 && buf' == d[..|buf'|] && AllDigits(buf') && v' == Atoi(buf')
    ensures LexLoop(input, idx + |buf|, buf, buf, TokValue, v, true) == LexLoop(input, idx + |buf'|, buf', buf', TokValue, v', true)
  {
    var c := input[idx + |buf|];
    assert c == d[|buf|];
    buf' := buf + [c];
    assert buf' == d[..|buf| + 1];
    AtoiAppend(buf, c);
    v' := Atoi(buf');
    assert MatchToken(buf', true) == Matched(TokValue, v');
    LoopContinue(input, idx + |buf|, buf, buf, TokValue, v, true);
  }

  /** The last digit of the run is the last character of the input. */
  lemma DigitsLast(input: string, idx: nat, n: nat, d: string, buf: string, v: int)
    requires 1 <= |buf| && idx + |buf| + 1 == idx + n == |input| && n + 1 < MaxIdent
    requires d == input[idx..idx + n] && AllDigits(d)
    requires buf == d[..|buf|] && AllDigits(buf) && v == Atoi(buf)
    ensures LexLoop(input, idx + |buf|, buf, buf, TokValue, v, true) == Lexed(TokValue, Atoi(d), d, idx + n)
  {
    var c := input[idx + |buf|];
    assert c == d[|buf|];
    assert buf + [c] == d;
    AtoiAppend(buf, c);
    assert MatchToken(d, true) == Matched(TokValue, Atoi(d));
    LoopLast(input, idx + |buf|, buf, buf, TokValue, v, true);
  }

  /** The run has been read: at the end of the input the loop stops, otherwise the character
    * after the run ends the match and is put back. */
  lemma DigitsEnd(input: string, idx: nat, n: nat, d: string, buf: string, v: int)
    requires 1 <= |buf| == n && n + 1 < MaxIdent && idx + n <= |input|
    requires d == input[idx..idx + n] && AllDigits(d)
    requires buf == d[..|buf|] && v == Atoi(buf)
    requires idx + n == |input| || !IsDigit(input[idx + n])
    ensures LexLoop(input, idx + |buf|, buf, buf, TokValue, v, true) == Lexed(TokValue, Atoi(d), d, idx + n)
  {
    assert buf == d;
    if idx + n == |input| {
      return;
    }
    var c := input[idx + n];
    var b := d + [c];
    assert b[0] == d[0] && IsDigit(d[0]);
    assert !AllDigits(b) by { assert b[n] == c; }
    assert MatchToken(b, true).tok == TokInvalid;
    LoopPutBack(input, idx + n, d, d, TokValue, v, true);
  }

  /** One round of the lex loop whose peek reports the end of the input: the match is taken. */
  lemma LoopPeekStop(input: string, i: nat, buf: string, text: string, tok: int, val: int, fixed: bool)
    requires i < |input| && |buf| + 1 < MaxIdent && PeekEof(input, i + 1, fixed)
    requires tok != TokInvalid || (input[i] != ' ' && input[i] != '\t' && input[i] != '\n')
    requires MatchToken(buf + [input[i]], fixed).tok != TokInvalid
    ensures var m := MatchToken(buf + [input[i]], fixed);
            LexLoop(input, i, buf, text, tok, val, fixed) == Lexed(m.tok, m.val, buf + [input[i]], i + 1)
  {
  }

  /** As written, the peek looks one character too far, so a number whose last digit is the last
    * character of the input is cut before that digit. */
  lemma LastDigitSplitAsWritten(input: string, idx: nat)
    requires idx + 2 == |input| && IsDigit(input[idx]) && IsDigit(input[idx + 1])
    ensures LexFrom(input, idx, false) == Lexed(TokValue, (input[idx] - '0') as int, [input[idx]], idx + 1)
  {
    OneDigit(input[idx], false);
    LoopPeekStop(input, idx, [], [], TokInvalid, 0, false);
  }

  /** A single digit is a number token of its own value. */
  lemma OneDigit(c: char, fixed: bool)
    requires IsDigit(c)
    ensures [] + [c] == [c] && MatchToken([c], fixed) == Matched(TokValue, (c - '0') as int)
  {
    assert Atoi([c]) == (c - '0') as int by { assert [c][..0] == []; }
  }

  /** "12": as written it lexes as 1 and then 2; as intended as the one number 12. */
  lemma TwelveAsWrittenAndFixed(input: string)
    requires input == "12"
    ensures LexFrom(input, 0, false) == Lexed(TokValue, 1, "1", 1)
    ensures LexFrom(input, 0, true) == Lexed(TokValue, 12, "12", 2)
  {
    LastDigitSplitAsWritten(input, 0);
    assert input[0..2] == input;
    assert AllDigits("1") && Atoi("1") == 1;
    AtoiAppend("1", '2');
    assert "1" + ['2'] == "12";
    LexDigits(input, 0, 2);
  }

  // ---------------------------------------------------------------------------------------------
  // The symbol list

  /** A node of the symbol list: a variable and its value.  Position 0 is the head node
    * g_symboltable, whose name is empty. */
  datatype Symbol = Symbol(name: string, value: int)

  /** find_symbol: the position of the first node with the name, or None (a null pointer). */
  function Find(syms: seq<Symbol>, name: string): (r: Option<nat>)
    ensures r.Some? ==> r.value < |syms| && syms[r.value].name == name
    ensures r.Some? ==> forall j :: 0 <= j < r.value ==> syms[j].name != name
    ensures r.None? <==> forall j :: 0 <= j < |syms| ==> syms[j].name != name
  {
    if |syms| == 0 then None
    else if syms[0].name == name then Some(0)
    else match Find(syms[1..], name)
      case None => None
      case Some(k) => Some(k + 1)
  }

  /** The first node with the name is the one find_symbol finds. */
  lemma FindIsFirst(syms: seq<Symbol>, name: string, i: nat)
    requires i < |syms| && syms[i].name == name
    requires forall j :: 0 <= j < i ==> syms[j].name != name
    ensures Find(syms, name) == Some(i)
  {
  }

  /** The value a variable lookup in factor finds. */
  function Lookup(syms: seq<Symbol>, name: string): (r: Option<int>)
    ensures r.Some? <==> exists j :: 0 <= j < |syms| && syms[j].name == name
  {
    match Find(syms, name)
    case Some(k) => Some(syms[k].value)
    case None => None
  }

  /** assign_or_insert_symbol: set the value of the first node with the name, otherwise append a
    * node at the tail. */
  function Assign(syms: seq<Symbol>, name: string, value: int): seq<Symbol>
  {
    match Find(syms, name)
    case Some(k) => syms[k := syms[k].(value := value)]
    case None => syms + [Symbol(name, value)]
  }

  /** After an assignment the variable has the value, every other variable keeps its value, the
    * list grows only by a new name, and no other node changes. */
  lemma AssignLookup(syms: seq<Symbol>, name: string, value: int, other: string)
    ensures Lookup(Assign(syms, name, value), name) == Some(value)
    ensures other != name ==> Lookup(Assign(syms, name, value), other) == Lookup(syms, other)
    ensures |Assign(syms, name, value)| == if Find(syms, name).Some? then |syms| else |syms| + 1
    ensures forall j :: 0 <= j < |syms| && Find(syms, name) != Some(j) ==> Assign(syms, name, value)[j] == syms[j]
  {
    if Find(syms, name).Some? {
      AssignExisting(syms, name, value, other);
    } else {
      AssignNew(syms, name, value, other);
    }
  }

  lemma AssignExisting(syms: seq<Symbol>, name: string, value: int, other: string)
    requires Find(syms, name).Some?
    ensures Lookup(Assign(syms, name, value), name) == Some(value)
    ensures other != name ==> Lookup(Assign(syms, name, value), other) == Lookup(syms, other)
    ensures |Assign(syms, name, value)| == |syms|
    ensures forall j :: 0 <= j < |syms| && Find(syms, name) != Some(j) ==> Assign(syms, name, value)[j] == syms[j]
  {
    var r := Assign(syms, name, value);
    var k := Find(syms, name).value;
    FindIsFirst(r, name, k);
    if other != name {
      match Find(syms, other)
      case Some(j) =>
        FindIsFirst(r, other, j);
      case None =>
        assert forall j :: 0 <= j < |r| ==> r[j].name != other;
    }
  }

  lemma AssignNew(syms: seq<Symbol>, name: string, value: int, other: string)
    requires Find(syms, name).None?
    ensures Lookup(Assign(syms, name, value), name) == Some(value)
    ensures other != name ==> Lookup(Assign(syms, name, value), other) == Lookup(syms, other)
    ensures |Assign(syms, name, value)| == |syms| + 1
    ensures forall j :: 0 <= j < |syms| ==> Assign(syms, name, value)[j] == syms[j]
  {
    var r := Assign(syms, name, value);
    FindIsFirst(r, name, |syms|);
    if other != name {
      match Find(syms, other)
      case Some(j) =>
        FindIsFirst(r, other, j);
      case None =>
        assert forall j :: 0 <= j < |r| ==> r[j].name != other;
    }
  }

  // ---------------------------------------------------------------------------------------------
  // Integer arithmetic as the C operators do it

  function Abs(a: int): nat
  {
    if a < 0 then -a else a
  }

  /** C's int division, truncating toward zero. */
  function CDiv(a: int, b: int): int
    requires b != 0
  {
    var q := Abs(a) / Abs(b);
    if (a < 0) == (b < 0) then q else -q
  }

  /** fmod on two int values, converted back to int: the remainder of the truncating division. */
  function CMod(a: int, b: int): int
    requires b != 0
  {
    a - b * CDiv(a, b)
  }

  /** The remainder is smaller than the divisor and has the sign of the dividend. */
  lemma CModBounds(a: int, b: int)
    requires b != 0
    ensures Abs(CMod(a, b)) < Abs(b)
    ensures CMod(a, b) == 0 || ((CMod(a, b) < 0) <==> (a < 0))
  {
    var q := Abs(a) / Abs(b);
    var m := Abs(a) % Abs(b);
    assert Abs(a) == Abs(b) * q + m && 0 <= m < Abs(b);
    if a >= 0 && b > 0 {
      assert CMod(a, b) == m;
    } else if a >= 0 {
      assert b * CDiv(a, b) == Abs(b) * q;
      assert CMod(a, b) == m;
    } else if b > 0 {
      assert b * CDiv(a, b) == -(Abs(b) * q);
      assert CMod(a, b) == -m;
    } else {
      assert b * CDiv(a, b) == -(Abs(b) * q);
      assert CMod(a, b) == -m;
    }
  }

  /** a to the power n. */
  function Power(a: int, n: nat): int
  {
    if n == 0 then 1 else a * Power(a, n - 1)
  }

  /** pow(a, b) on int values, converted back to int: exact for b >= 0 and otherwise the
    * fraction 1/a^-b truncated; None where it is infinite (a == 0). */
  function CPow(a: int, b: int): Option<int>
  {
    if b >= 0 then Some(Power(a, b))
    else if a == 0 then None
    else if a == 1 then Some(1)
    else if a == -1 then Some(if b % 2 == 0 then 1 else -1)
    else Some(0)
  }

  lemma {:induction false} PowerAtLeastTwo(a: int, n: nat)
    requires Abs(a) >= 2 && n >= 1
    ensures Abs(Power(a, n)) >= 2
  {
    if n > 1 {
      PowerAtLeastTwo(a, n - 1);
      var p := Power(a, n - 1);
      assert Abs(a * p) == Abs(a) * Abs(p);
      assert Abs(a) * Abs(p) >= 2 * 2;
    }
  }

  lemma {:induction false} PowerMinusOne(n: nat)
    ensures Power(-1, n) == if n % 2 == 0 then 1 else -1
  {
    if n > 0 {
      PowerMinusOne(n - 1);
    }
  }

  /** For a negative exponent the truncated power is the truncated quotient 1 / a^-b. */
  lemma CPowNegative(a: int, b: int)
    requires b < 0 && a != 0
    ensures Power(a, -b) != 0
    ensures CPow(a, b) == Some(CDiv(1, Power(a, -b)))
  {
    var p := Power(a, -b);
    if a == 1 {
      PowerOne(-b);
      assert CDiv(1, p) == 1;
    } else if a == -1 {
      PowerMinusOne(-b);
      assert (-b) % 2 == 0 <==> b % 2 == 0;
      assert CDiv(1, p) == p;
    } else {
      PowerAtLeastTwo(a, -b);
      OneOverLarge(p);
    }
  }

  lemma OneOverLarge(p: int)
    requires Abs(p) >= 2
    ensures CDiv(1, p) == 0
  {
    assert Abs(1) / Abs(p) == 0;
  }

  lemma {:induction false} PowerOne(n: nat)
    ensures Power(1, n) == 1
  {
    if n > 0 {
      PowerOne(n - 1);
    }
  }

  // ---------------------------------------------------------------------------------------------
  // The parser as functions of its state

  const OpPlus := '+' as int
  const OpMinus := '-' as int
  const OpMul := '*' as int
  const OpDiv := '/' as int
  const OpMod := '%' as int
  const OpPow := '^' as int
  const LParen := '(' as int
  const RParen := ')' as int
  const Comma := ',' as int
  const OpAssign := '=' as int

  /** What the parser works on and cannot change: the input, the C library's sin, cos, tan and
    * atan2 converted to int, and the lexer, which it sees only through next_lookahead. */
  datatype Env = Env(input: string, trig: (string, int, int) -> int, lex: nat -> Lexed)

  /** What the parser relies on of a token lexed from index i: the index never moves back and
    * stays within the input, a token standing for input characters has consumed some, and the
    * token is neither 0 nor EOF. */
  predicate LexStep(e: Env, i: nat, l: Lexed)
  {
    i <= l.idx <= |e.input| && (Pending(l.tok) ==> i < l.idx) && l.tok != 0 && l.tok != Eof
  }

  predicate LexOk(e: Env)
  {
    forall i: nat :: i <= |e.input| ==> LexStep(e, i, e.lex(i))
  }

  /** lex over the input from every index. */
  function Lexer(input: string, fixed: bool): nat -> Lexed
  {
    (i: nat) => if i <= |input| then LexFrom(input, i, fixed) else Lexed(TokEnd, 0, [], i)
  }

  /** The lexer has what the parser relies on. */
  lemma LexerOk(e: Env, fixed: bool)
    requires e.lex == Lexer(e.input, fixed)
    ensures LexOk(e)
  {
    forall i: nat | i <= |e.input|
      ensures LexStep(e, i, e.lex(i))
    {
      assert e.lex(i) == LexFrom(e.input, i, fixed);
    }
  }

  /** The global state the productions change: the input index, the lookahead token with its
    * value and text, the symbol list, and whether an operation was met whose result C leaves
    * undefined (a division by zero, 0 to a negative power). */
  datatype PState = PState(idx: nat, la: int, laVal: int, laText: string, syms: seq<Symbol>, undef: bool)

  /** A production's value and the state after it. */
  datatype Parsed = Parsed(v: int, st: PState)

  predicate Within(e: Env, st: PState)
  {
    st.idx <= |e.input|
  }

  predicate Ok(e: Env, st: PState)
  {
    Within(e, st) && LexOk(e)
  }

  /** What is left to read: each character counts twice, a lookahead token standing for input
    * characters once. */
  function Measure(e: Env, st: PState): nat
    requires Within(e, st)
  {
    2 * (|e.input| - st.idx) + (if Pending(st.la) then 1 else 0)
  }

  /** next_lookahead: lex the next token into the lookahead; consuming a token that stood for
    * input characters shrinks what is left. */
  function Advance(e: Env, st: PState): (r: PState)
    requires Ok(e, st)
    ensures Ok(e, r) && Measure(e, r) <= Measure(e, st)
    ensures Pending(st.la) ==> Measure(e, r) < Measure(e, st)
    ensures r.syms == st.syms && r.undef == st.undef && r.la != 0 && r.la != Eof
  {
    var l := e.lex(st.idx);
    assert LexStep(e, st.idx, l);
    st.(idx := l.idx, la := l.tok, laVal := l.val, laText := l.text)
  }

  /** The state after an operation whose result may be undefined. */
  function Note(st: PState, o: Option<int>): PState
  {
    if o.None? then st.(undef := true) else st
  }

  function ValueOr0(o: Option<int>): int
  {
    if o.Some? then o.value else 0
  }

  /** The value of arg op b for the operators of mul_term_rest, None for a zero divisor. */
  function MulOp(op: int, a: int, b: int): Option<int>
  {
    if op == OpMul then Some(a * b)
    else if b == 0 then None
    else if op == OpDiv then Some(CDiv(a, b))
    else Some(CMod(a, b))
  }

  predicate StartsTerm(la: int)
  {
    la == LParen || la == TokValue || la == TokIdent
  }

  /** plus_term: an optional sign, a mul_term and the rest of the sum.  On a lookahead of 0 or
    * EOF the program exits; lex never yields those (Advance), so that case is not kept. */
  function EvalPlusTerm(e: Env, st: PState): (r: Parsed)
    requires Ok(e, st)
    ensures Ok(e, r.st) && Measure(e, r.st) <= Measure(e, st)
    decreases Measure(e, st), 4
  {
    if StartsTerm(st.la) then
      var t := EvalMulTerm(e, st);
      EvalPlusTermRest(e, t.st, t.v)
    else if st.la == OpPlus then
      var t := EvalMulTerm(e, Advance(e, st));
      EvalPlusTermRest(e, t.st, t.v)
    else if st.la == OpMinus then
      var t := EvalMulTerm(e, Advance(e, st));
      EvalPlusTermRest(e, t.st, -t.v)
    else Parsed(0, st)
  }

  /** plus_term_rest: fold + and - over the following mul_terms, left to right. */
  function EvalPlusTermRest(e: Env, st: PState, arg: int): (r: Parsed)
    requires Ok(e, st)
    ensures Ok(e, r.st) && Measure(e, r.st) <= Measure(e, st)
    decreases Measure(e, st), 0
  {
    if st.la == OpPlus || st.la == OpMinus then
      var t := EvalMulTerm(e, Advance(e, st));
      EvalPlusTermRest(e, t.st, if st.la == OpPlus then arg + t.v else arg - t.v)
    else if st.la == RParen || st.la == TokEnd || st.la == Comma then Parsed(arg, st)
    else Parsed(0, st)
  }

  /** mul_term: a pow_term and the rest of the product. */
  function EvalMulTerm(e: Env, st: PState): (r: Parsed)
    requires Ok(e, st)
    ensures Ok(e, r.st) && Measure(e, r.st) <= Measure(e, st)
    decreases Measure(e, st), 3
  {
    if StartsTerm(st.la) then
      var f := EvalPowTerm(e, st);
      EvalMulTermRest(e, f.st, f.v)
    else Parsed(0, st)
  }

  /** mul_term_rest: fold *, / and % over the following pow_terms, left to right. */
  function EvalMulTermRest(e: Env, st: PState, arg: int): (r: Parsed)
    requires Ok(e, st)
    ensures Ok(e, r.st) && Measure(e, r.st) <= Measure(e, st)
    decreases Measure(e, st), 0
  {
    if st.la == OpMul || st.la == OpDiv || st.la == OpMod then
      var f := EvalPowTerm(e, Advance(e, st));
      var o := MulOp(st.la, arg, f.v);
      EvalMulTermRest(e, Note(f.st, o), ValueOr0(o))
    else if st.la == OpPlus || st.la == OpMinus || st.la == RParen || st.la == TokEnd || st.la == Comma then
      Parsed(arg, st)
    else Parsed(0, st)
  }

  /** pow_term: a factor and the rest of the power chain. */
  function EvalPowTerm(e: Env, st: PState): (r: Parsed)
    requires Ok(e, st)
    ensures Ok(e, r.st) && Measure(e, r.st) <= Measure(e, st)
    decreases Measure(e, st), 2
  {
    if StartsTerm(st.la) then
      var f := EvalFactor(e, st);
      EvalPowTermRest(e, f.st, f.v)
    else Parsed(0, st)
  }

  /** The tokens after which pow_term_rest ends. */
  predicate EndsPower(la: int)
  {
    la == OpPlus || la == OpMinus || la == RParen || la == TokEnd || la == Comma
    || la == OpMul || la == OpDiv || la == OpMod
  }

  /** pow_term_rest: fold ^ over the following factors, left to right as the code does. */
  function EvalPowTermRest(e: Env, st: PState, arg: int): (r: Parsed)
    requires Ok(e, st)
    ensures Ok(e, r.st) && Measure(e, r.st) <= Measure(e, st)
    decreases Measure(e, st), 0
  {
    if st.la == OpPow then
      var f := EvalFactor(e, Advance(e, st));
      var o := CPow(arg, f.v);
      EvalPowTermRest(e, Note(f.st, o), ValueOr0(o))
    else if EndsPower(st.la) then Parsed(arg, st)
    else Parsed(0, st)
  }

  /** factor: a parenthesised sum, a number, a call of sin/cos/tan/atan2, an assignment or a
    * variable.  match(')') only reports a mismatch, so the token after the sum is consumed
    * whatever it is. */
  function EvalFactor(e: Env, st: PState): (r: Parsed)
    requires Ok(e, st)
    ensures Ok(e, r.st) && Measure(e, r.st) <= Measure(e, st)
    decreases Measure(e, st), 1
  {
    if st.la == LParen then
      var inner := EvalPlusTerm(e, Advance(e, st));
      Parsed(inner.v, Advance(e, inner.st))
    else if st.la == TokValue then
      Parsed(st.laVal, Advance(e, st))
    else if st.la == TokIdent then
      var name := st.laText;
      var s1 := Advance(e, st);
      if s1.la == LParen then
        var s2 := Advance(e, s1);
        if s2.la == RParen then
          Parsed(0, Advance(e, s2))
        else
          var a := EvalPlusTerm(e, s2);
          if a.st.la == RParen then
            Parsed(if name == "sin" || name == "cos" || name == "tan" then e.trig(name, a.v, 0) else 0, Advance(e, a.st))
          else if a.st.la == Comma then
            var b := EvalPlusTerm(e, Advance(e, a.st));
            Parsed(if name == "atan2" then e.trig(name, a.v, b.v) else 0, Advance(e, b.st))
          else Parsed(0, a.st)
      else if s1.la == OpAssign then
        var a := EvalPlusTerm(e, Advance(e, s1));
        Parsed(a.v, a.st.(syms := Assign(a.st.syms, name, a.v)))
      else
        Parsed(ValueOr0(Lookup(s1.syms, name)), s1)
    else Parsed(0, st)
  }

  /** parse: restart the input, read the first lookahead and evaluate a plus_term. */
  function EvalParse(e: Env, st: PState): (r: Parsed)
    requires LexOk(e)
    ensures Ok(e, r.st)
  {
    EvalPlusTerm(e, Advance(e, st.(idx := 0)))
  }

  /** One round of mul_term_rest, for its method: f the pow_term after the operator, s2 the state
    * after noting an undefined result, r the rest. */
  lemma MulRestStep(e: Env, st: PState, arg: int, f: Parsed, s2: PState, r: Parsed)
    requires Ok(e, st) && (st.la == OpMul || st.la == OpDiv || st.la == OpMod)
    requires f == EvalPowTerm(e, Advance(e, st))
    requires s2 == f.st.(undef := f.st.undef || MulOp(st.la, arg, f.v).None?)
    requires r == EvalMulTermRest(e, s2, ValueOr0(MulOp(st.la, arg, f.v)))
    ensures EvalMulTermRest(e, st, arg) == r
  {
    assert s2 == Note(f.st, MulOp(st.la, arg, f.v));
  }

  /** One round of pow_term_rest, for its method. */
  lemma PowRestStep(e: Env, st: PState, arg: int, f: Parsed, s2: PState, r: Parsed)
    requires Ok(e, st) && st.la == OpPow
    requires f == EvalFactor(e, Advance(e, st))
    requires s2 == f.st.(undef := f.st.undef || CPow(arg, f.v).None?)
    requires r == EvalPowTermRest(e, s2, ValueOr0(CPow(arg, f.v)))
    ensures EvalPowTermRest(e, st, arg) == r
  {
    assert s2 == Note(f.st, CPow(arg, f.v));
  }

  // ---------------------------------------------------------------------------------------------
  // What the productions compute

  /** A number followed by a token that ends a power is a pow_term of its value. */
  lemma NumberPowTerm(e: Env, st: PState)
    requires Ok(e, st) && st.la == TokValue && EndsPower(Advance(e, st).la)
    ensures EvalPowTerm(e, st) == Parsed(st.laVal, Advance(e, st))
  {
    assert EvalFactor(e, st) == Parsed(st.laVal, Advance(e, st));
  }

  /** A number followed by +, -, ), a comma or the end is a mul_term of its value. */
  lemma NumberMulTerm(e: Env, st: PState)
    requires Ok(e, st) && st.la == TokValue
    requires var l := Advance(e, st).la; l == OpPlus || l == OpMinus || l == RParen || l == TokEnd || l == Comma
    ensures EvalMulTerm(e, st) == Parsed(st.laVal, Advance(e, st))
  {
    NumberPowTerm(e, st);
  }

  /** * binds tighter than +: the tokens a + b * c evaluate to a + (b * c). */
  lemma {:induction false} SumOfProduct(e: Env, st: PState, s1: PState, s2: PState, s3: PState, s4: PState, s5: PState)
    requires Ok(e, st) && s1 == Advance(e, st) && s2 == Advance(e, s1) && s3 == Advance(e, s2)
    requires s4 == Advance(e, s3) && s5 == Advance(e, s4)
    requires st.la == TokValue && s1.la == OpPlus && s2.la == TokValue && s3.la == OpMul && s4.la == TokValue
    requires s5.la == TokEnd
    ensures EvalPlusTerm(e, st) == Parsed(st.laVal + s2.laVal * s4.laVal, s5)
  {
    NumberMulTerm(e, st);
    NumberPowTerm(e, s2);
    NumberPowTerm(e, s4);
    assert EvalMulTermRest(e, s5, s2.laVal * s4.laVal) == Parsed(s2.laVal * s4.laVal, s5);
    assert EvalMulTerm(e, s2) == Parsed(s2.laVal * s4.laVal, s5);
    assert EvalPlusTermRest(e, s1, st.laVal) == Parsed(st.laVal + s2.laVal * s4.laVal, s5);
  }

  /** - is left associative: the tokens a - b - c evaluate to (a - b) - c. */
  lemma {:induction false} DifferenceLeft(e: Env, st: PState, s1: PState, s2: PState, s3: PState, s4: PState, s5: PState)
    requires Ok(e, st) && s1 == Advance(e, st) && s2 == Advance(e, s1) && s3 == Advance(e, s2)
    requires s4 == Advance(e, s3) && s5 == Advance(e, s4)
    requires st.la == TokValue && s1.la == OpMinus && s2.la == TokValue && s3.la == OpMinus && s4.la == TokValue
    requires s5.la == TokEnd
    ensures EvalPlusTerm(e, st) == Parsed((st.laVal - s2.laVal) - s4.laVal, s5)
  {
    NumberMulTerm(e, st);
    NumberMulTerm(e, s2);
    NumberMulTerm(e, s4);
    assert EvalPlusTermRest(e, s3, st.laVal - s2.laVal) == Parsed((st.laVal - s2.laVal) - s4.laVal, s5);
  }

  /** ^ is folded from the left as well: the tokens a ^ b ^ c evaluate to (a ^ b) ^ c. */
  lemma {:induction false} PowerLeft(e: Env, st: PState, s1: PState, s2: PState, s3: PState, s4: PState, s5: PState)
    requires Ok(e, st) && s1 == Advance(e, st) && s2 == Advance(e, s1) && s3 == Advance(e, s2)
    requires s4 == Advance(e, s3) && s5 == Advance(e, s4)
    requires st.la == TokValue && s1.la == OpPow && s2.la == TokValue && s3.la == OpPow && s4.la == TokValue
    requires s5.la == TokEnd
    requires CPow(st.laVal, s2.laVal).Some? && CPow(ValueOr0(CPow(st.laVal, s2.laVal)), s4.laVal).Some?
    ensures EvalPowTerm(e, st).v == CPow(CPow(st.laVal, s2.laVal).value, s4.laVal).value
  {
    var ab := CPow(st.laVal, s2.laVal).value;
    assert EvalFactor(e, st) == Parsed(st.laVal, s1);
    assert EvalFactor(e, s2) == Parsed(s2.laVal, s3);
    assert EvalFactor(e, s4) == Parsed(s4.laVal, s5);
    assert EvalPowTermRest(e, s5, CPow(ab, s4.laVal).value) == Parsed(CPow(ab, s4.laVal).value, s5);
    assert EvalPowTermRest(e, s3, ab).v == CPow(ab, s4.laVal).value;
  }

  /** An assignment name = sum is a factor of the sum's value, after which the name has that value
    * and every other name keeps its value. */
  lemma FactorAssigns(e: Env, st: PState, other: string)
    requires Ok(e, st) && st.la == TokIdent && Advance(e, st).la == OpAssign
    ensures var a := EvalPlusTerm(e, Advance(e, Advance(e, st)));
            var r := EvalFactor(e, st);
            r.v == a.v && Lookup(r.st.syms, st.laText) == Some(a.v)
            && (other != st.laText ==> Lookup(r.st.syms, other) == Lookup(a.st.syms, other))
            && r.st.idx == a.st.idx && r.st.la == a.st.la
  {
    var a := EvalPlusTerm(e, Advance(e, Advance(e, st)));
    AssignLookup(a.st.syms, st.laText, a.v, other);
  }

  /** A name that is neither called nor assigned is a factor of its value, 0 if it was never
    * assigned; the symbols do not change. */
  lemma FactorReads(e: Env, st: PState)
    requires Ok(e, st) && st.la == TokIdent
    requires Advance(e, st).la != LParen && Advance(e, st).la != OpAssign
    ensures var r := EvalFactor(e, st);
            r.st.syms == st.syms && r.v == (if Lookup(st.syms, st.laText).Some? then Lookup(st.syms, st.laText).value else 0)
  {
  }

  /** The first line of the program's own run, "a = 2 + 3*4": the value is a + b * c and the
    * name then holds it. */
  lemma {:induction false} AssignSumOfProduct(e: Env, st: PState, s1: PState, s2: PState, s3: PState, s4: PState,
                                              s5: PState, s6: PState, s7: PState)
    requires Ok(e, st) && s1 == Advance(e, st) && s2 == Advance(e, s1) && s3 == Advance(e, s2)
    requires s4 == Advance(e, s3) && s5 == Advance(e, s4) && s6 == Advance(e, s5) && s7 == Advance(e, s6)
    requires st.la == TokIdent && s1.la == OpAssign && s2.la == TokValue && s3.la == OpPlus && s4.la == TokValue
    requires s5.la == OpMul && s6.la == TokValue && s7.la == TokEnd
    ensures var r := EvalPlusTerm(e, st);
            r.v == s2.laVal + s4.laVal * s6.laVal && Lookup(r.st.syms, st.laText) == Some(r.v)
  {
    SumOfProduct(e, s2, s3, s4, s5, s6, s7);
    FactorAssigns(e, st, st.laText);
    var f := EvalFactor(e, st);
    assert f.st.la == TokEnd;
    assert EvalPowTerm(e, st) == f;
    assert EvalMulTerm(e, st) == f;
  }

  // ---------------------------------------------------------------------------------------------
  // Operator runs: precedence and associativity of +, -, *, / and %

  /** An operator of mul_term_rest and the number token after it. */
  datatype OpArg = OpArg(op: int, val: int)

  /** An operator of plus_term_rest, the number token after it and the run of mul_term_rest
    * operators and numbers that completes the product. */
  datatype Summand = Summand(op: int, val: int, ops: seq<OpArg>)

  predicate MulOperator(op: int)
  {
    op == OpMul || op == OpDiv || op == OpMod
  }

  predicate AddOperator(op: int)
  {
    op == OpPlus || op == OpMinus
  }

  /** The tokens after which mul_term_rest ends. */
  predicate EndsProduct(la: int)
  {
    AddOperator(la) || la == RParen || la == TokEnd || la == Comma
  }

  /** The tokens after which plus_term_rest ends. */
  predicate EndsSum(la: int)
  {
    la == RParen || la == TokEnd || la == Comma
  }

  /** Two tokens further on. */
  function Advance2(e: Env, st: PState): (r: PState)
    requires Ok(e, st)
    ensures Ok(e, r)
  {
    Advance(e, Advance(e, st))
  }

  /** The state n operator-number pairs further on. */
  function After(e: Env, st: PState, n: nat): (r: PState)
    requires Ok(e, st)
    ensures Ok(e, r)
    decreases n
  {
    if n == 0 then st else After(e, Advance2(e, st), n - 1)
  }

  /** From st on the tokens are op_1 v_1 ... op_n v_n for the pairs of ops, each op_i one of
    * *, / and %, each v_i a number, and then a token that ends a product. */
  predicate MulRun(e: Env, st: PState, ops: seq<OpArg>)
    requires Ok(e, st)
    decreases |ops|
  {
    if ops == [] then EndsProduct(st.la)
    else
      var s1 := Advance(e, st);
      st.la == ops[0].op && MulOperator(ops[0].op) && s1.la == TokValue && s1.laVal == ops[0].val
      && MulRun(e, Advance2(e, st), ops[1..])
  }

  /** From st on the tokens are the summands of terms, each an operator + or -, a number and a
    * run of *, / and % with numbers, and then a token that ends a sum. */
  predicate SumRun(e: Env, st: PState, terms: seq<Summand>)
    requires Ok(e, st)
    decreases |terms|
  {
    if terms == [] then EndsSum(st.la)
    else
      var s1 := Advance(e, st);
      st.la == terms[0].op && AddOperator(terms[0].op) && s1.la == TokValue && s1.laVal == terms[0].val
      && MulRun(e, Advance2(e, st), terms[0].ops)
      && SumRun(e, After(e, Advance2(e, st), |terms[0].ops|), terms[1..])
  }

  /** The state after the summands of terms. */
  function SumEnd(e: Env, st: PState, terms: seq<Summand>): (r: PState)
    requires Ok(e, st) && SumRun(e, st, terms)
    ensures Ok(e, r)
    decreases |terms|
  {
    if terms == [] then st else SumEnd(e, After(e, Advance2(e, st), |terms[0].ops|), terms[1..])
  }

  /** The reference for a product: arg op_1 v_1 ... op_n v_n grouped from the left,
    * (...(arg op_1 v_1) ...) op_n v_n, with C's truncating / and %; None when a divisor is 0. */
  function LeftMul(arg: int, ops: seq<OpArg>): Option<int>
    decreases |ops|
  {
    if ops == [] then Some(arg)
    else
      var l := LeftMul(arg, ops[..|ops| - 1]);
      if l.None? then None else MulOp(ops[|ops| - 1].op, l.value, ops[|ops| - 1].val)
  }

  /** The value of one summand's product. */
  function Product(t: Summand): Option<int>
  {
    LeftMul(t.val, t.ops)
  }

  /** a + p or a - p, as the operator of plus_term_rest says. */
  function Combine(op: int, a: int, p: int): int
  {
    if op == OpPlus then a + p else a - p
  }

  /** The reference for a sum: arg followed by the summands of terms, grouped from the left,
    * each summand's product taken first. */
  function LeftSum(arg: int, terms: seq<Summand>): Option<int>
    decreases |terms|
  {
    if terms == [] then Some(arg)
    else
      var l := LeftSum(arg, terms[..|terms| - 1]);
      var t := terms[|terms| - 1];
      var p := Product(t);
      if l.None? || p.None? then None else Some(Combine(t.op, l.value, p.value))
  }

  /** The grouping from the left, seen from the first pair: apply it, then group the rest. */
  lemma {:induction false} LeftMulHead(arg: int, ops: seq<OpArg>)
    requires ops != []
    ensures var o := MulOp(ops[0].op, arg, ops[0].val);
            LeftMul(arg, ops) == if o.None? then None else LeftMul(o.value, ops[1..])
    decreases |ops|
  {
    var n := |ops|;
    if n > 1 {
      var init := ops[..n - 1];
      LeftMulHead(arg, init);
      assert init[1..] == ops[1..][..n - 2];
      assert ops[1..][n - 2] == ops[n - 1];
    }
  }

  /** The same for sums: add or subtract the first summand's product, then group the rest. */
  lemma {:induction false} LeftSumHead(arg: int, terms: seq<Summand>)
    requires terms != []
    ensures var t := terms[0];
            var p := Product(t);
            LeftSum(arg, terms) == if p.None? then None else LeftSum(Combine(t.op, arg, p.value), terms[1..])
    decreases |terms|
  {
    var n := |terms|;
    var t := terms[0];
    var p := Product(t);
    if n > 1 {
      var init := terms[..n - 1];
      LeftSumHead(arg, init);
      assert init[0] == t;
      assert init[1..] == terms[1..][..n - 2];
      assert terms[1..][n - 2] == terms[n - 1];
    }
  }

  /** mul_term_rest over a run of *, / and % with numbers computes the grouping from the left,
    * so (a / b) / c and (a % b) * c, and ends right after the run. */
  lemma {:induction false} MulRestFolds(e: Env, st: PState, arg: int, ops: seq<OpArg>)
    requires Ok(e, st) && MulRun(e, st, ops) && LeftMul(arg, ops).Some?
    ensures EvalMulTermRest(e, st, arg) == Parsed(LeftMul(arg, ops).value, After(e, st, |ops|))
    decreases |ops|
  {
    if ops != [] {
      var s1 := Advance(e, st);
      var s2 := Advance2(e, st);
      assert MulRun(e, s2, ops[1..]);
      assert EndsPower(s2.la) by {
        if ops[1..] != [] {
          assert s2.la == ops[1..][0].op;
        }
      }
      NumberPowTerm(e, s1);
      LeftMulHead(arg, ops);
      var o := MulOp(ops[0].op, arg, ops[0].val);
      MulRestFolds(e, s2, o.value, ops[1..]);
      assert Note(s2, o) == s2;
    }
  }

  /** mul_term on a number and a run of *, / and % computes the grouping from the left. */
  lemma MulTermFolds(e: Env, st: PState, ops: seq<OpArg>)
    requires Ok(e, st) && st.la == TokValue && MulRun(e, Advance(e, st), ops)
    requires LeftMul(st.laVal, ops).Some?
    ensures EvalMulTerm(e, st) == Parsed(LeftMul(st.laVal, ops).value, After(e, Advance(e, st), |ops|))
  {
    var s1 := Advance(e, st);
    assert EndsPower(s1.la) by {
      if ops != [] {
        assert s1.la == ops[0].op;
      }
    }
    NumberPowTerm(e, st);
    MulRestFolds(e, s1, st.laVal, ops);
  }

  /** plus_term_rest over summands computes every product first and then adds and subtracts
    * them from the left, so a - b - c is (a - b) - c and a - b / c is a - (b / c). */
  lemma {:induction false} PlusRestFolds(e: Env, st: PState, arg: int, terms: seq<Summand>)
    requires Ok(e, st) && SumRun(e, st, terms) && LeftSum(arg, terms).Some?
    ensures EvalPlusTermRest(e, st, arg) == Parsed(LeftSum(arg, terms).value, SumEnd(e, st, terms))
    decreases |terms|
  {
    if terms == [] {
      assert EndsSum(st.la);
    } else {
      var t := terms[0];
      var s1 := Advance(e, st);
      var s3 := After(e, Advance2(e, st), |t.ops|);
      assert st.la == t.op && AddOperator(t.op) && s1.la == TokValue && s1.laVal == t.val;
      assert MulRun(e, Advance(e, s1), t.ops) && SumRun(e, s3, terms[1..]);
      LeftSumHead(arg, terms);
      var p := Product(t);
      MulTermFolds(e, s1, t.ops);
      var next := Combine(t.op, arg, p.value);
      PlusRestFolds(e, s3, next, terms[1..]);
      PlusRestStep(e, st, arg, Parsed(p.value, s3), EvalPlusTermRest(e, s3, next));
    }
  }

  /** One round of plus_term_rest: m the mul_term after the operator, r the rest. */
  lemma PlusRestStep(e: Env, st: PState, arg: int, m: Parsed, r: Parsed)
    requires Ok(e, st) && AddOperator(st.la)
    requires m == EvalMulTerm(e, Advance(e, st))
    requires r == EvalPlusTermRest(e, m.st, Combine(st.la, arg, m.v))
    ensures EvalPlusTermRest(e, st, arg) == r
  {
  }

  /** A sum of products that starts with a number: the first product, then the summands,
    * grouped as above. */
  lemma PlusTermFolds(e: Env, st: PState, ops: seq<OpArg>, terms: seq<Summand>)
    requires Ok(e, st) && st.la == TokValue && MulRun(e, Advance(e, st), ops)
    requires SumRun(e, After(e, Advance(e, st), |ops|), terms)
    requires LeftMul(st.laVal, ops).Some? && LeftSum(LeftMul(st.laVal, ops).value, terms).Some?
    ensures EvalPlusTerm(e, st)
            == Parsed(LeftSum(LeftMul(st.laVal, ops).value, terms).value,
                      SumEnd(e, After(e, Advance(e, st), |ops|), terms))
  {
    MulTermFolds(e, st, ops);
    PlusRestFolds(e, After(e, Advance(e, st), |ops|), LeftMul(st.laVal, ops).value, terms);
  }

  /** Worked instance of MulTermFolds: a / b / c is (a / b) / c. */
  lemma {:induction false} DivisionLeft(e: Env, st: PState, s1: PState, s2: PState, s3: PState, s4: PState, s5: PState)
    requires Ok(e, st) && s1 == Advance(e, st) && s2 == Advance(e, s1) && s3 == Advance(e, s2)
    requires s4 == Advance(e, s3) && s5 == Advance(e, s4)
    requires st.la == TokValue && s1.la == OpDiv && s2.la == TokValue && s3.la == OpDiv && s4.la == TokValue
    requires s5.la == TokEnd && s2.laVal != 0 && s4.laVal != 0
    ensures EvalMulTerm(e, st).v == CDiv(CDiv(st.laVal, s2.laVal), s4.laVal)
  {
    var ab := CDiv(st.laVal, s2.laVal);
    NumberPowTerm(e, st);
    NumberPowTerm(e, s2);
    NumberPowTerm(e, s4);
    assert EvalMulTermRest(e, s5, CDiv(ab, s4.laVal)) == Parsed(CDiv(ab, s4.laVal), s5);
    assert EvalMulTermRest(e, s3, ab) == Parsed(CDiv(ab, s4.laVal), s5);
    assert EvalMulTermRest(e, s1, st.laVal) == Parsed(CDiv(ab, s4.laVal), s5);
  }

  /** Worked instance of PlusTermFolds: a - b / c is a - (b / c). */
  lemma {:induction false} QuotientInDifference(e: Env, st: PState, s1: PState, s2: PState, s3: PState, s4: PState, s5: PState)
    requires Ok(e, st) && s1 == Advance(e, st) && s2 == Advance(e, s1) && s3 == Advance(e, s2)
    requires s4 == Advance(e, s3) && s5 == Advance(e, s4)
    requires st.la == TokValue && s1.la == OpMinus && s2.la == TokValue && s3.la == OpDiv && s4.la == TokValue
    requires s5.la == TokEnd && s4.laVal != 0
    ensures EvalPlusTerm(e, st).v == st.laVal - CDiv(s2.laVal, s4.laVal)
  {
    var q := CDiv(s2.laVal, s4.laVal);
    NumberMulTerm(e, st);
    NumberPowTerm(e, s2);
    NumberPowTerm(e, s4);
    assert EvalMulTermRest(e, s5, q) == Parsed(q, s5);
    assert EvalMulTermRest(e, s3, s2.laVal) == Parsed(q, s5);
    assert EvalMulTerm(e, s2) == Parsed(q, s5);
    assert EvalPlusTermRest(e, s5, st.laVal - q) == Parsed(st.laVal - q, s5);
    assert EvalPlusTermRest(e, s1, st.laVal) == Parsed(st.laVal - q, s5);
  }

  // ---------------------------------------------------------------------------------------------
  // The program's global state and its functions

  /** The globals of the calculator: the input and its index, the lookahead, the symbol list. */
  class Calc {
    /** Whether the lexer peeks at the next character (as intended) or the one after it (as
      * written), and whether match_ident tests letters-and-digits or letters-that-are-digits. */
    const fixed: bool
    /** sin, cos, tan and atan2 of the C library, by name, with the result converted to int. */
    const trig: (string, int, int) -> int
    var input: string
    var idx: nat
    var la: int
    var laVal: int
    var laText: string
    var syms: seq<Symbol>
    var undef: bool

    function E(): Env
      reads this
    {
      Env(input, trig, Lexer(input, fixed))
    }

    function State(): PState
      reads this
    {
      PState(idx, la, laVal, laText, syms, undef)
    }

    /** The index stays within the input and the head node of the symbol list is there. */
    predicate Valid()
      reads this
    {
      idx <= |input| && |syms| >= 1
    }

    /** The static initial values: no input, an invalid lookahead, only the head node. */
    constructor(fixed: bool, trig: (string, int, int) -> int)
      ensures this.fixed == fixed && this.trig == trig && input == [] && Valid()
      ensures State() == PState(0, TokInvalid, 0, [], [Symbol([], 0)], false)
    {
      this.fixed := fixed;
      this.trig := trig;
      input := [];
      idx := 0;
      la := TokInvalid;
      laVal := 0;
      laText := [];
      syms := [Symbol([], 0)];
      undef := false;
    }

    /** init_symbols: the head node and "pi" with the value (int)M_PI. */
    method InitSymbols()
      modifies this
      ensures syms == [Symbol([], 0), Symbol("pi", 3)]
      ensures input == old(input) && State() == old(State()).(syms := syms)
    {
      var pi := Symbol("pi", 3);
      syms := [Symbol([], 0), pi];
    }

    /** deinit_symbols: every node after the head is released. */
    method DeinitSymbols()
      requires |syms| >= 1
      modifies this
      ensures syms == [old(syms)[0]]
      ensures input == old(input) && State() == old(State()).(syms := syms)
    {
      syms := syms[..1];
    }

    /** find_symbol: walk the list from the head node to the first node with the name. */
    method FindSymbol(name: string) returns (r: Option<nat>)
      ensures r == Find(syms, name)
      ensures r.Some? ==> r.value < |syms| && syms[r.value].name == name
    {
      var k := 0;
      while k < |syms|
        invariant k <= |syms|
        invariant forall j :: 0 <= j < k ==> syms[j].name != name
      {
        if syms[k].name == name {
          FindIsFirst(syms, name, k);
          return Some(k);
        }
        k := k + 1;
      }
      return None;
    }

    /** assign_or_insert_symbol: update the node found, or walk to the tail and append one;
      * returns the position of the node holding the value. */
    method AssignOrInsert(name: string, value: int) returns (k: nat)
      requires |syms| >= 1
      modifies this
      ensures syms == Assign(old(syms), name, value) && k < |syms| && syms[k] == Symbol(name, value)
      ensures input == old(input) && State() == old(State()).(syms := syms)
    {
      var found := FindSymbol(name);
      if found.Some? {
        k := found.value;
        syms := syms[k := syms[k].(value := value)];
      } else {
        var t := 0;
        while t + 1 < |syms|
          invariant 0 <= t < |syms|
        {
          t := t + 1;
        }
        syms := syms + [Symbol(name, value)];
        k := t + 1;
      }
    }

    /** set_input: read the string from its start. */
    method SetInput(s: string)
      modifies this
      ensures input == s && State() == old(State()).(idx := 0)
    {
      input := s;
      idx := 0;
    }

    /** input_get: the next character, or EOF at the end. */
    method InputGet() returns (c: int)
      requires Valid()
      modifies this`idx
      ensures Valid()
      ensures old(idx) < |input| ==> c == input[old(idx)] as int && idx == old(idx) + 1
      ensures old(idx) == |input| ==> c == Eof && idx == old(idx)
    {
      if idx >= |input| {
        return Eof;
      }
      c := input[idx] as int;
      idx := idx + 1;
    }

    /** input_peek: as written the character after the next one; as intended the next one. */
    method InputPeek() returns (c: int)
      requires Valid()
      ensures c == Eof <==> PeekEof(input, idx, fixed)
      ensures c != Eof ==> c == input[if fixed then idx else idx + 1] as int
    {
      var at := if fixed then idx else idx + 1;
      if at >= |input| {
        return Eof;
      }
      return input[at] as int;
    }

    /** input_putback: step back one character, never before the start. */
    method InputPutback()
      requires Valid()
      modifies this`idx
      ensures Valid()
      ensures idx == if old(idx) > 0 then old(idx) - 1 else 0
    {
      if idx > 0 {
        idx := idx - 1;
      }
    }

    /** input_eof. */
    method InputEof() returns (b: bool)
      ensures b <==> idx >= |input|
    {
      return idx >= |input|;
    }

    /** lex: the loop over the characters, keeping the longest match so far. */
    method Lex() returns (tok: int, val: int, text: string)
      requires Valid()
      modifies this`idx
      ensures Valid()
      ensures Lexed(tok, val, text, idx) == LexFrom(input, old(idx), fixed)
    {
      ghost var r := LexFrom(input, idx, fixed);
      var buf: string := [];
      var longest: string := [];
      var ltok := TokInvalid;
      var lval := 0;
      var stop, newline := false, false;
      while !stop
        invariant Valid()
        invariant !stop ==> LexLoop(input, idx, buf, longest, ltok, lval, fixed) == r
        invariant stop && newline ==> r == Lexed(TokEnd, 0, longest, idx)
        invariant stop && !newline ==> r == Finish(buf, longest, ltok, lval, idx)
        decreases |input| - idx, !stop
      {
        buf, longest, ltok, lval, stop, newline := LexRound(buf, longest, ltok, lval);
      }
      if newline || (ltok == TokInvalid && |buf| == 0) {
        return TokEnd, 0, longest;
      }
      if ltok == TokInvalid {
        return TokInvalid, 0, longest;
      }
      return ltok, lval, longest;
    }

    /** One round of lex's loop: read a character and either go on with the longer token or stop;
      * a newline before any match ends the token at once. */
    method LexRound(buf: string, longest: string, ltok: int, lval: int)
      returns (buf': string, longest': string, ltok': int, lval': int, stop: bool, newline: bool)
      requires Valid()
      modifies this`idx
      ensures Valid() && old(idx) <= idx
      ensures !stop ==> old(idx) < idx && !newline
      ensures !stop ==> LexLoop(input, idx, buf', longest', ltok', lval', fixed)
                        == LexLoop(input, old(idx), buf, longest, ltok, lval, fixed)
      ensures stop && newline ==> Lexed(TokEnd, 0, longest', idx)
                                  == LexLoop(input, old(idx), buf, longest, ltok, lval, fixed)
      ensures stop && !newline ==> Finish(buf', longest', ltok', lval', idx)
                                   == LexLoop(input, old(idx), buf, longest, ltok, lval, fixed)
    {
      ghost var i := idx;
      buf', longest', ltok', lval', stop, newline := buf, longest, ltok, lval, true, false;
      var c := InputGet();
      if c == Eof {
        return;
      }
      if ltok == TokInvalid {
        if c == ' ' as int || c == '\t' as int {
          LoopBlank(input, i, buf, longest, ltok, lval, fixed);
          stop := false;
          return;
        }
        if c == '\n' as int {
          LoopNewline(input, i, buf, longest, ltok, lval, fixed);
          newline := true;
          return;
        }
      }
      buf', longest', ltok', lval', stop := LexExtend(i, buf, longest, ltok, lval);
    }

    /** The rest of a round of lex's loop once the character at i has been read into the token:
      * a longer match is kept and the loop goes on while the peek and the end test allow it;
      * otherwise the character is put back and the loop stops. */
    method LexExtend(ghost i: nat, buf: string, longest: string, ltok: int, lval: int)
      returns (buf': string, longest': string, ltok': int, lval': int, stop: bool)
      requires Valid() && i < |input| && idx == i + 1
      requires ltok != TokInvalid || (input[i] != ' ' && input[i] != '\t' && input[i] != '\n')
      modifies this`idx
      ensures Valid() && i <= idx
      ensures !stop ==> idx == i + 1
      ensures !stop ==> LexLoop(input, idx, buf', longest', ltok', lval', fixed)
                        == LexLoop(input, i, buf, longest, ltok, lval, fixed)
      ensures stop ==> Finish(buf', longest', ltok', lval', idx)
                       == LexLoop(input, i, buf, longest, ltok, lval, fixed)
    {
      longest', ltok', lval', stop := longest, ltok, lval, true;
      buf' := StrncatChar(buf, input[idx - 1]);
      var mtok, mval := GetMatchingToken(buf', fixed);
      LoopRound(input, i, buf, longest, ltok, lval, fixed, buf', Matched(mtok, mval));
      if mtok != TokInvalid {
        longest', ltok', lval' := buf', mtok, mval;
        var p := InputPeek();
        var e := InputEof();
        stop := p == Eof || e;
      } else {
        InputPutback();
      }
    }

    /** next_lookahead. */
    method NextLookahead(ghost e: Env)
      requires Valid() && e == E() && LexOk(e)
      modifies this
      ensures Valid() && E() == e
      ensures State() == Advance(e, old(State()))
    {
      assert E().lex(idx) == LexFrom(input, idx, fixed);
      var tok, val, text := Lex();
      la, laVal, laText := tok, val, text;
    }

    /** match: whether the lookahead is the expected token (a mismatch is only reported). */
    method Match(expected: int) returns (ok: bool)
      ensures ok <==> la == expected
    {
      return la == expected;
    }

    /** plus_term. */
    method PlusTerm(ghost e: Env) returns (v: int)
      requires Valid() && e == E() && LexOk(e)
      modifies this
      ensures Valid() && E() == e
      ensures Parsed(v, State()) == EvalPlusTerm(e, old(State()))
      decreases Measure(e, State()), 5
    {
      if StartsTerm(la) {
        v := TermThenRest(e, false);
      } else if la == OpPlus || la == OpMinus {
        var neg := la == OpMinus;
        NextLookahead(e);
        v := TermThenRest(e, neg);
      } else {
        v := 0;
      }
    }

    /** The tail shared by plus_term's cases: a mul_term, negated after a unary minus, then
      * plus_term_rest on it. */
    method TermThenRest(ghost e: Env, neg: bool) returns (v: int)
      requires Valid() && e == E() && LexOk(e)
      modifies this
      ensures Valid() && E() == e
      ensures Parsed(v, State()) ==
        var t := EvalMulTerm(e, old(State())); EvalPlusTermRest(e, t.st, if neg then -t.v else t.v)
      decreases Measure(e, State()), 4
    {
      var t := MulTerm(e);
      v := PlusTermRest(e, if neg then -t else t);
    }

    /** plus_term_rest. */
    method PlusTermRest(ghost e: Env, arg: int) returns (v: int)
      requires Valid() && e == E() && LexOk(e)
      modifies this
      ensures Valid() && E() == e
      ensures Parsed(v, State()) == EvalPlusTermRest(e, old(State()), arg)
      decreases Measure(e, State()), 0
    {
      ghost var s0 := State();
      if la == OpPlus || la == OpMinus {
        var op := la;
        NextLookahead(e);
        var t := MulTerm(e);
        ghost var s2 := State();
        assert Parsed(t, s2) == EvalMulTerm(e, Advance(e, s0));
        var sum := if op == OpPlus then arg + t else arg - t;
        v := PlusTermRest(e, sum);
        assert Parsed(v, State()) == EvalPlusTermRest(e, s2, sum);
      } else if la == RParen || la == TokEnd || la == Comma {
        v := arg;
      } else {
        v := 0;
      }
    }

    /** mul_term. */
    method MulTerm(ghost e: Env) returns (v: int)
      requires Valid() && e == E() && LexOk(e)
      modifies this
      ensures Valid() && E() == e
      ensures Parsed(v, State()) == EvalMulTerm(e, old(State()))
      decreases Measure(e, State()), 3
    {
      if StartsTerm(la) {
        var f := PowTerm(e);
        v := MulTermRest(e, f);
      } else {
        v := 0;
      }
    }

    /** mul_term_rest. */
    method MulTermRest(ghost e: Env, arg: int) returns (v: int)
      requires Valid() && e == E() && LexOk(e)
      modifies this
      ensures Valid() && E() == e
      ensures Parsed(v, State()) == EvalMulTermRest(e, old(State()), arg)
      decreases Measure(e, State()), 0
    {
      ghost var s0 := State();
      if la == OpMul || la == OpDiv || la == OpMod {
        var op := la;
        NextLookahead(e);
        var f := PowTerm(e);
        ghost var s1 := State();
        var o := MulOp(op, arg, f);
        undef := undef || o.None?;
        ghost var s2 := State();
        v := MulTermRest(e, ValueOr0(o));
        MulRestStep(e, s0, arg, Parsed(f, s1), s2, Parsed(v, State()));
      } else if la == OpPlus || la == OpMinus || la == RParen || la == TokEnd || la == Comma {
        v := arg;
      } else {
        v := 0;
      }
    }

    /** pow_term. */
    method PowTerm(ghost e: Env) returns (v: int)
      requires Valid() && e == E() && LexOk(e)
      modifies this
      ensures Valid() && E() == e
      ensures Parsed(v, State()) == EvalPowTerm(e, old(State()))
      decreases Measure(e, State()), 2
    {
      if StartsTerm(la) {
        var f := Factor(e);
        v := PowTermRest(e, f);
      } else {
        v := 0;
      }
    }

    /** pow_term_rest. */
    method PowTermRest(ghost e: Env, arg: int) returns (v: int)
      requires Valid() && e == E() && LexOk(e)
      modifies this
      ensures Valid() && E() == e
      ensures Parsed(v, State()) == EvalPowTermRest(e, old(State()), arg)
      decreases Measure(e, State()), 0
    {
      ghost var s0 := State();
      if la == OpPow {
        NextLookahead(e);
        var f := Factor(e);
        ghost var s1 := State();
        var o := CPow(arg, f);
        undef := undef || o.None?;
        ghost var s2 := State();
        v := PowTermRest(e, ValueOr0(o));
        PowRestStep(e, s0, arg, Parsed(f, s1), s2, Parsed(v, State()));
      } else if EndsPower(la) {
        v := arg;
      } else {
        v := 0;
      }
    }

    /** factor. */
    method Factor(ghost e: Env) returns (v: int)
      requires Valid() && e == E() && LexOk(e)
      modifies this
      ensures Valid() && E() == e
      ensures Parsed(v, State()) == EvalFactor(e, old(State()))
      decreases Measure(e, State()), 1
    {
      if la == LParen {
        NextLookahead(e);
        v := PlusTerm(e);
        var closed := Match(RParen);
        NextLookahead(e);
      } else if la == TokValue {
        v := laVal;
        NextLookahead(e);
      } else if la == TokIdent {
        var ident := laText;
        NextLookahead(e);
        if la == LParen {
          NextLookahead(e);
          if la == RParen {
            NextLookahead(e);
            v := 0;
          } else {
            var a := PlusTerm(e);
            if la == RParen {
              NextLookahead(e);
              v := if ident == "sin" || ident == "cos" || ident == "tan" then trig(ident, a, 0) else 0;
            } else if la == Comma {
              NextLookahead(e);
              var b := PlusTerm(e);
              var closed := Match(RParen);
              NextLookahead(e);
              v := if ident == "atan2" then trig(ident, a, b) else 0;
            } else {
              v := 0;
            }
          }
        } else if la == OpAssign {
          NextLookahead(e);
          v := PlusTerm(e);
          var node := AssignOrInsert(ident, v);
        } else {
          var node := FindSymbol(ident);
          v := if node.Some? then syms[node.value].value else 0;
        }
      } else {
        v := 0;
      }
    }

    /** parse: set the input, read the first lookahead, evaluate a plus_term. */
    method Parse(s: string) returns (v: int)
      requires |syms| >= 1
      modifies this
      ensures Valid() && input == s
      ensures Parsed(v, State()) == EvalParse(E(), old(State()))
    {
      SetInput(s);
      ghost var e := E();
      LexerOk(e, fixed);
      NextLookahead(e);
      v := PlusTerm(e);
    }
  }
}
