/**
 * The freestanding string routines of os/cpp_rv/string.h, written for a RISC-V kernel without a
 * C library.  Characters are the 8-bit unsigned `char` of that target (`byte` here), buffers are
 * arrays written in place, and a C string is the part of a buffer before its first NUL.  A
 * pointer `buf + off` passed to a routine becomes the array with an offset parameter.
 */
module RvString {

  newtype byte = x: int | 0 <= x < 256

  const Nul: byte := 0
  const Minus: byte := '-' as int as byte
  const Zero: byte := '0' as int as byte
  const Nine: byte := '9' as int as byte
  const UpperA: byte := 'A' as int as byte
  const UpperF: byte := 'F' as int as byte
  const UpperZ: byte := 'Z' as int as byte
  const LowerA: byte := 'a' as int as byte
  const LowerF: byte := 'f' as int as byte
  const LowerZ: byte := 'z' as int as byte

  /** The index of the first NUL of `s`, or |s| when there is none. */
  function FirstNul(s: seq<byte>): (r: nat)
    ensures r <= |s|
    ensures forall i :: 0 <= i < r ==> s[i] != Nul
    ensures r < |s| ==> s[r] == Nul
  {
    if |s| == 0 || s[0] == Nul then 0 else 1 + FirstNul(s[1..])
  }

  /** The C string held by `s`: everything before its first NUL. */
  function CStr(s: seq<byte>): seq<byte>
  {
    s[..FirstNul(s)]
  }

  function Rev<T>(s: seq<T>): (r: seq<T>)
    ensures |r| == |s| && forall i :: 0 <= i < |s| ==> r[i] == s[|s| - 1 - i]
  {
    if |s| == 0 then [] else Rev(s[1..]) + [s[0]]
  }

  // ---------------------------------------------------------------------------------------------
  // reverse_str

  /** The index of the first NUL among s[lo..hi], or hi when there is none. */
  function NulIn(s: seq<byte>, lo: nat, hi: nat): (r: nat)
    requires lo <= hi <= |s|
    ensures lo <= r <= hi
    ensures forall i :: lo <= i < r ==> s[i] != Nul
    ensures r < hi ==> s[r] == Nul
    decreases hi - lo
  {
    if lo == hi || s[lo] == Nul then lo else NulIn(s, lo + 1, hi)
  }

  /** How many swaps reverse_str makes on the string t of length len: it stops at the first NUL
    * among the first len/2 characters. */
  function SwapCount(t: seq<byte>): (k: nat)
    ensures k <= |t| / 2
    ensures forall i :: 0 <= i < k ==> t[i] != Nul
    ensures k < |t| / 2 ==> t[k] == Nul
  {
    NulIn(t, 0, |t| / 2)
  }

  /** The characters of t after the first i swaps of reverse_str. */
  function Swapped(t: seq<byte>, i: nat): (r: seq<byte>)
    requires i <= |t| / 2
    ensures |r| == |t|
    decreases i
  {
    if i == 0 then t
    else Swapped(t, i - 1)[i - 1 := t[|t| - i]][|t| - i := t[i - 1]]
  }

  /** After i swaps the first i and the last i characters have traded places and the middle is as
    * it was. */
  lemma {:induction false} SwappedAt(t: seq<byte>, i: nat, p: nat)
    requires i <= |t| / 2 && p < |t|
    ensures Swapped(t, i)[p] == if p < i || |t| - i <= p then t[|t| - 1 - p] else t[p]
    decreases i
  {
    if i > 0 {
      SwappedAt(t, i - 1, p);
    }
  }

  /** What reverse_str leaves of the string t: the characters before the first NUL of its first
    * half traded with as many from the back. */
  function ReverseCStr(t: seq<byte>): (r: seq<byte>)
    ensures |r| == |t|
  {
    Swapped(t, SwapCount(t))
  }

  /** All |t|/2 swaps put every character at its mirror position. */
  lemma SwappedMirror(t: seq<byte>)
    ensures forall p :: 0 <= p < |t| ==> Swapped(t, |t| / 2)[p] == t[|t| - 1 - p]
  {
    var k := |t| / 2;
    assert |t| == 2 * k || |t| == 2 * k + 1;
    forall p | 0 <= p < |t|
      ensures Swapped(t, k)[p] == t[|t| - 1 - p]
    {
      SwappedAt(t, k, p);
      assert p < k || |t| - k <= p || p == |t| - 1 - p;
    }
  }

  /** All |t|/2 swaps reverse t. */
  lemma SwappedReverses(t: seq<byte>)
    ensures Swapped(t, |t| / 2) == Rev(t)
  {
    SwappedMirror(t);
  }

  /** reverse_str reverses a string without NUL, and otherwise exchanges the characters before the
    * first NUL of the first half with their mirror images and leaves everything between as it
    * was. */
  lemma ReverseCStrAt(t: seq<byte>)
    ensures var k := SwapCount(t);
      forall p {:trigger ReverseCStr(t)[p]} :: 0 <= p < k || |t| - k <= p < |t| ==> ReverseCStr(t)[p] == t[|t| - 1 - p]
    ensures var k := SwapCount(t);
      forall p {:trigger ReverseCStr(t)[p]} :: k <= p < |t| - k ==> ReverseCStr(t)[p] == t[p]
    ensures Nul !in t ==> ReverseCStr(t) == Rev(t)
  {
    var k := SwapCount(t);
    forall p | 0 <= p < k || |t| - k <= p < |t|
      ensures ReverseCStr(t)[p] == t[|t| - 1 - p]
    {
      SwappedAt(t, k, p);
    }
    forall p | k <= p < |t| - k
      ensures ReverseCStr(t)[p] == t[p]
    {
      SwappedAt(t, k, p);
    }
    assert k < |t| / 2 ==> t[k] in t;
    if Nul !in t {
      SwappedReverses(t);
    }
  }

  /** The exchange in reverse_str's loop, `buf[i] = buf[j]; buf[j] = c` with c the character read
    * from buf[i]: it makes the (i+1)-th swap and touches nothing outside the range. */
  method Exchange(buf: array<byte>, beg: nat, len: nat, ghost t: seq<byte>, i: nat, c: byte)
    requires beg + len <= buf.Length && |t| == len && i < len / 2
    requires buf[beg..beg + len] == Swapped(t, i) && c == buf[beg + i]
    modifies buf
    ensures buf[beg..beg + len] == Swapped(t, i + 1)
    ensures forall p :: 0 <= p < buf.Length && (p < beg || beg + len <= p) ==> buf[p] == old(buf[p])
  {
    var j := len - i - 1;
    ghost var cur := buf[beg..beg + len];
    SwappedAt(t, i, i);
    SwappedAt(t, i, j);
    assert c == cur[i] == t[i] && buf[beg + j] == cur[j] == t[j];
    buf[beg + i] := buf[beg + j];
    buf[beg + j] := c;
    assert buf[beg..beg + len] == cur[i := t[j]][j := t[i]];
  }

  /** reverse_str(buf + beg, len): swaps the i-th character from the front with the i-th from the
    * back up to the middle, stopping at a NUL in the first half; characters outside the range are
    * not touched. */
  method ReverseStr(buf: array<byte>, beg: nat, len: nat)
    requires beg + len <= buf.Length
    modifies buf
    ensures buf[beg..beg + len] == ReverseCStr(old(buf[beg..beg + len]))
    ensures forall p :: 0 <= p < buf.Length && (p < beg || beg + len <= p) ==> buf[p] == old(buf[p])
  {
    ghost var t := buf[beg..beg + len];
    var i := 0;
    while i < len / 2
      invariant i <= SwapCount(t)
      invariant buf[beg..beg + len] == Swapped(t, i)
      invariant forall p :: 0 <= p < buf.Length && (p < beg || beg + len <= p) ==> buf[p] == old(buf[p])
    {
      SwappedAt(t, i, i);
      assert buf[beg + i] == buf[beg..beg + len][i] == t[i];
      var c := buf[beg + i];
      if c == Nul {
        break;
      }
      Exchange(buf, beg, len, t, i, c);
      i := i + 1;
    }
    assert i == SwapCount(t);
  }

  // ---------------------------------------------------------------------------------------------
  // Digits and numbers

  /** The digit character for the value d: '0'..'9', then 'a' onwards, computed in the 8-bit char
    * type as digit_to_char and uint_to_str do. */
  function DigitChar(d: nat): (c: byte)
    ensures d < 36 ==> c != Nul && DigitValue(c) == d
  {
    if d <= 9 then (d + 48) as byte else ((d - 10 + 97) % 256) as byte
  }

  /** digit_to_char: the character of the last digit of num in base `base`. */
  function DigitToChar(num: nat, base: nat): (c: byte)
    requires base > 0
    ensures base <= 36 ==> DigitValue(c) == num % base
  {
    DigitChar(num % base)
  }

  /** The value my_atoi gives a character: 0..9 for digits, 10.. for letters of either case, and 0
    * for anything else. */
  function DigitValue(c: byte): int
  {
    if IsDigitAsWritten(c, false) then c as int - Zero as int
    else if IsUpperAlpha(c) then c as int - UpperA as int + 10
    else if IsLowerAlpha(c) then c as int - LowerA as int + 10
    else 0
  }

  /** Quotient and remainder of n by the base, by repeated subtraction; they are the values of
    * `/` and `%` (DivIsQuot) and keep the digit functions free of non-linear arithmetic. */
  function Quot(n: nat, base: nat): (q: nat)
    requires base >= 2
    ensures q <= n && (n > 0 ==> q < n)
    decreases n
  {
    if n < base then 0 else 1 + Quot(n - base, base)
  }

  function Rem(n: nat, base: nat): (r: nat)
    requires base >= 2
    ensures r < base && r <= n
    decreases n
  {
    if n < base then n else Rem(n - base, base)
  }

  lemma {:induction false} QuotRem(n: nat, base: nat)
    requires base >= 2
    ensures n == Quot(n, base) * base + Rem(n, base)
    decreases n
  {
    if n >= base {
      QuotRem(n - base, base);
      assert Quot(n, base) * base == base + Quot(n - base, base) * base;
    }
  }

  /** A multiple of b strictly between -b and b is 0. */
  lemma MulSmall(b: int, d: int)
    requires b > 0 && -b < b * d < b
    ensures d == 0
  {
  }

  lemma DivIsQuot(n: nat, base: nat)
    requires base >= 2
    ensures n / base == Quot(n, base) && n % base == Rem(n, base)
  {
    QuotRem(n, base);
    var q, r := n / base, n % base;
    var d := Quot(n, base) - q;
    assert n == q * base + r;
    assert n == Quot(n, base) * base + Rem(n, base);
    assert Quot(n, base) * base == q * base + d * base;
    assert base * d == r - Rem(n, base);
    MulSmall(base, d);
  }

  /** The digits of n > 0 in base `base`, least significant first, as uint_to_str writes them. */
  function LowDigits(n: nat, base: nat): seq<byte>
    requires base >= 2
    decreases n
  {
    if n == 0 then [] else [DigitChar(Rem(n, base))] + LowDigits(Quot(n, base), base)
  }

  /** The digits of n > 0 in base `base`, most significant first. */
  function Digits(n: nat, base: nat): seq<byte>
    requires base >= 2
    decreases n
  {
    if n == 0 then [] else Digits(Quot(n, base), base) + [DigitChar(Rem(n, base))]
  }

  /** The text of n in base `base`: "0" for zero. */
  function UintText(n: nat, base: nat): seq<byte>
    requires base >= 2
  {
    if n == 0 then [Zero] else Digits(n, base)
  }

  /** The text of n in base `base`, with a leading '-' when n is negative. */
  function IntText(n: int, base: nat): seq<byte>
    requires base >= 2
  {
    if n < 0 then [Minus] + UintText(-n, base) else UintText(n, base)
  }

  lemma {:induction false} RevLowDigits(n: nat, base: nat)
    requires base >= 2
    ensures Rev(LowDigits(n, base)) == Digits(n, base)
    decreases n
  {
    if n > 0 {
      RevLowDigits(Quot(n, base), base);
      var low := LowDigits(n, base);
      assert low[1..] == LowDigits(Quot(n, base), base);
    }
  }

  /** For bases up to 36 no digit is NUL. */
  lemma {:induction false} DigitsNotNul(n: nat, base: nat)
    requires 2 <= base <= 36
    ensures Nul !in LowDigits(n, base) && Nul !in Digits(n, base)
    decreases n
  {
    if n > 0 {
      DigitsNotNul(Quot(n, base), base);
    }
  }

  /** The text of a number has no NUL, so it is the whole C string once a NUL follows it. */
  lemma TextNotNul(n: int, base: nat)
    requires 2 <= base <= 36
    ensures Nul !in IntText(n, base)
  {
    DigitsNotNul(if n < 0 then -n else n, base);
  }

  /** A buffer that starts with a NUL-free text followed by a NUL holds that text as its C string. */
  lemma CStrOfText(s: seq<byte>, t: seq<byte>)
    requires |t| < |s| && s[..|t|] == t && s[|t|] == Nul
    requires Nul !in t
    ensures CStr(s) == t
  {
  }

  // ---------------------------------------------------------------------------------------------
  // uint_to_str and int_to_str

  /** `num % base` and `num /= base` of the digit loop: the loop stops exactly when the remaining
    * number is 0, and otherwise emits the last digit and goes on with the quotient. */
  method DivStep(n: nat, base: nat) returns (mod: nat, q: nat)
    requires base >= 2
    ensures mod < base
    ensures n == 0 <==> q == 0 && mod == 0
    ensures n > 0 ==> q < n && LowDigits(n, base) == [DigitChar(mod)] + LowDigits(q, base)
  {
    mod := n % base;
    q := n / base;
    DivIsQuot(n, base);
  }

  /** What the digit loop writes for n: its digits least significant first, or "0" for zero. */
  function LowText(n: nat, base: nat): seq<byte>
    requires base >= 2
  {
    if n == 0 then [Zero] else LowDigits(n, base)
  }

  /** Reversing what the digit loop writes gives the text of the number, and neither has a NUL. */
  lemma LowTextFacts(n: nat, base: nat)
    requires 2 <= base <= 36
    ensures Rev(LowText(n, base)) == UintText(n, base) && |LowText(n, base)| == |UintText(n, base)|
    ensures Nul !in LowText(n, base) && Nul !in UintText(n, base)
  {
    RevLowDigits(n, base);
    DigitsNotNul(n, base);
    if n == 0 {
      assert Rev(LowText(n, base)) == [Zero];
    }
  }

  /** The digit loop shared by uint_to_str and int_to_str and the NUL written behind it: the digits
    * of num from index start, least significant first, or '0' for num == 0 (where nothing
    * precedes it). */
  method WriteLowDigits(buf: array<byte>, start: nat, num: nat, base: nat) returns (idx: nat)
    requires 2 <= base <= 36
    requires start + |LowDigits(num, base)| < buf.Length
    requires num == 0 ==> start == 0 && 1 < buf.Length
    modifies buf
    ensures num > 0 ==> idx == start + |LowDigits(num, base)| && buf[start..idx] == LowDigits(num, base)
    ensures num == 0 ==> idx == 1 && buf[0] == Zero
    ensures idx < buf.Length && buf[idx] == Nul
    ensures forall p :: 0 <= p < buf.Length && (p < start || idx < p) ==> buf[p] == old(buf[p])
  {
    var n := num;
    idx := start;
    ghost var written: seq<byte> := [];
    while true
      invariant start <= idx <= buf.Length && buf[start..idx] == written
      invariant LowDigits(num, base) == written + LowDigits(n, base)
      invariant num == 0 ==> n == 0 && idx == start
      invariant forall p :: 0 <= p < buf.Length && (p < start || idx <= p) ==> buf[p] == old(buf[p])
      decreases n
    {
      var mod, q := DivStep(n, base);
      ghost var rest := LowDigits(q, base);
      n := q;
      if n == 0 && mod == 0 {
        if idx == 0 {
          buf[idx] := Zero;
          idx := idx + 1;
        }
        break;
      }
      buf[idx] := DigitChar(mod);
      assert written + ([DigitChar(mod)] + rest) == (written + [DigitChar(mod)]) + rest;
      written := written + [DigitChar(mod)];
      idx := idx + 1;
    }
    buf[idx] := Nul;
  }

  /** The part uint_to_str and int_to_str share, from index beg on: the digit loop, the NUL behind
    * the digits and the reversal of the digits.  Afterwards the text of n and a NUL follow beg. */
  method DigitsAt(buf: array<byte>, beg: nat, n: nat, base: nat) returns (idx: nat)
    requires 2 <= base <= 36
    requires beg + |UintText(n, base)| < buf.Length
    requires n == 0 ==> beg == 0
    modifies buf
    ensures idx == beg + |UintText(n, base)|
    ensures buf[beg..idx] == UintText(n, base) && buf[idx] == Nul
    ensures forall p :: 0 <= p < buf.Length && (p < beg || idx < p) ==> buf[p] == old(buf[p])
  {
    LowTextFacts(n, base);
    ghost var low := LowText(n, base);
    idx := WriteLowDigits(buf, beg, n, base);
    assert buf[beg..idx] == low && idx == beg + |low|;
    ghost var written := buf[..];
    var len := idx - beg;
    assert buf[beg..beg + len] == low;
    ReversedLow(n, base);
    ReverseStr(buf, beg, len);
    assert buf[beg..beg + len] == ReverseCStr(low);
    assert buf[idx] == written[idx];
    forall p | 0 <= p < buf.Length && (p < beg || idx < p)
      ensures buf[p] == old(buf[p])
    {
      assert buf[p] == written[p];
    }
  }

  /** Reversing the digits as a C string gives the text of n. */
  lemma ReversedLow(n: nat, base: nat)
    requires 2 <= base <= 36
    ensures ReverseCStr(LowText(n, base)) == UintText(n, base)
  {
    LowTextFacts(n, base);
    ReverseCStrAt(LowText(n, base));
  }

  /** uint_to_str: writes the digits of num, least significant first, then a NUL, and reverses
    * the digits.  The buffer then holds the text of num as a C string. */
  method UintToStr(num: nat, buf: array<byte>, base: nat)
    requires 2 <= base <= 36
    requires |UintText(num, base)| < buf.Length
    modifies buf
    ensures buf[..|UintText(num, base)|] == UintText(num, base)
    ensures buf[|UintText(num, base)|] == Nul
    ensures forall p :: |UintText(num, base)| < p < buf.Length ==> buf[p] == old(buf[p])
    ensures CStr(buf[..]) == UintText(num, base)
  {
    var idx := DigitsAt(buf, 0, num, base);
    LowTextFacts(num, base);
    CStrOfText(buf[..], UintText(num, base));
  }

  /** A buffer holding the sign of num where int_to_str puts it and the text of its magnitude
    * behind it, then a NUL, holds the text of num as a C string. */
  lemma SignedText(s: seq<byte>, num: int, base: nat, beg: nat, idx: nat)
    requires 2 <= base <= 36
    requires beg == (if num < 0 then 1 else 0) && beg <= idx < |s|
    requires num < 0 ==> s[0] == Minus
    requires s[beg..idx] == UintText(if num < 0 then -num else num, base) && s[idx] == Nul
    ensures idx == |IntText(num, base)| && s[..idx] == IntText(num, base)
    ensures CStr(s) == IntText(num, base)
  {
    var text := IntText(num, base);
    assert s[..idx] == s[..beg] + s[beg..idx];
    assert s[..idx] == text;
    TextNotNul(num, base);
    CStrOfText(s, text);
  }

  /** int_to_str: writes '-' for a negative number and negates it, then goes on as uint_to_str
    * does from the next index, reversing only the digits. */
  method IntToStr(num: int, buf: array<byte>, base: nat)
    requires -0x8000_0000 < num < 0x8000_0000
    requires 2 <= base <= 36
    requires |IntText(num, base)| < buf.Length
    modifies buf
    ensures buf[..|IntText(num, base)|] == IntText(num, base)
    ensures buf[|IntText(num, base)|] == Nul
    ensures forall p :: |IntText(num, base)| < p < buf.Length ==> buf[p] == old(buf[p])
    ensures CStr(buf[..]) == IntText(num, base)
  {
    var idx: nat := 0;
    var beg: nat := 0;
    var n: nat := if num < 0 then -num else num;
    if num < 0 {
      buf[idx] := Minus;
      idx := idx + 1;
      beg := beg + 1;
    }
    idx := DigitsAt(buf, beg, n, base);
    SignedText(buf[..], num, base, beg, idx);
  }

  // ---------------------------------------------------------------------------------------------
  // Lengths, copies and comparisons

  /** my_strlen: the number of characters before the first NUL. */
  method MyStrlen(str: array<byte>) returns (len: nat)
    requires FirstNul(str[..]) < str.Length
    ensures len == |CStr(str[..])| && len < str.Length && str[len] == Nul
    ensures forall i :: 0 <= i < len ==> str[i] != Nul
  {
    len := 0;
    while str[len] != Nul
      invariant len <= FirstNul(str[..])
      decreases FirstNul(str[..]) - len
    {
      len := len + 1;
    }
  }

  /** my_memset: the first `size` bytes become `val`. */
  method MyMemset(mem: array<byte>, val: byte, size: nat)
    requires size <= mem.Length
    modifies mem
    ensures forall i :: 0 <= i < size ==> mem[i] == val
    ensures mem[size..] == old(mem[size..])
  {
    for i := 0 to size
      invariant forall j :: 0 <= j < i ==> mem[j] == val
      invariant mem[i..] == old(mem[i..])
    {
      mem[i] := val;
    }
  }

  /** my_memcpy: the first `size` bytes of the source are copied, front to back. */
  method MyMemcpy(memDst: array<byte>, memSrc: array<byte>, size: nat)
    requires size <= memDst.Length && size <= memSrc.Length
    modifies memDst
    ensures memDst[..size] == old(memSrc[..size])
    ensures memDst[size..] == old(memDst[size..])
  {
    for i := 0 to size
      invariant memDst[..i] == old(memSrc[..i])
      invariant memSrc[i..size] == old(memSrc[i..size])
      invariant memDst[i..] == old(memDst[i..])
    {
      memDst[i] := memSrc[i];
    }
  }

  /** How many characters my_strncpy copies: the string and its NUL when the NUL is among the first
    * maxLen characters, otherwise maxLen characters. */
  function CopyCount(src: seq<byte>, maxLen: nat): (k: nat)
    ensures k <= maxLen
    ensures k == maxLen || (0 < k && k - 1 == FirstNul(src))
  {
    if FirstNul(src) < maxLen then FirstNul(src) + 1 else maxLen
  }

  /** my_strncpy(dst + dstOff, src, max_len): copies until it has copied a NUL or max_len
    * characters. */
  method MyStrncpy(strDst: array<byte>, dstOff: nat, strSrc: array<byte>, maxLen: nat)
    requires strDst != strSrc
    requires CopyCount(strSrc[..], maxLen) <= strSrc.Length
    requires dstOff + CopyCount(strSrc[..], maxLen) <= strDst.Length
    modifies strDst
    ensures var k := CopyCount(strSrc[..], maxLen);
      strDst[..dstOff] == old(strDst[..dstOff]) && strDst[dstOff..dstOff + k] == strSrc[..k] &&
      strDst[dstOff + k..] == old(strDst[dstOff + k..])
  {
    ghost var k := CopyCount(strSrc[..], maxLen);
    var i := 0;
    while i < maxLen
      invariant i <= k
      invariant forall j :: 0 <= j < i ==> strSrc[j] != Nul
      invariant strDst[..dstOff] == old(strDst[..dstOff]) && strDst[dstOff..dstOff + i] == strSrc[..i]
      invariant strDst[dstOff + i..] == old(strDst[dstOff + i..])
    {
      var c := strSrc[i];
      strDst[dstOff + i] := c;
      if c == Nul {
        i := i + 1;
        break;
      }
      i := i + 1;
    }
  }

  /** The room my_strncat leaves for the copy: max_len - len in the 32-bit unsigned type, which
    * wraps around when the string is already longer than max_len. */
  function Room(maxLen: nat, len: nat): (r: nat)
    requires maxLen < 0x1_0000_0000 && len < 0x1_0000_0000
    ensures r < 0x1_0000_0000 && (r + len - maxLen) % 0x1_0000_0000 == 0
  {
    if len <= maxLen then maxLen - len else 0x1_0000_0000 + maxLen - len
  }

  /** my_strncat: copies src behind the string in dst, with max_len - strlen(dst) as the copy's
    * limit.  When src and its NUL fit in that room the C string becomes the concatenation. */
  method MyStrncat(strDst: array<byte>, strSrc: array<byte>, maxLen: nat)
    requires strDst != strSrc
    requires FirstNul(strDst[..]) < strDst.Length && strDst.Length < 0x1_0000_0000 && maxLen < 0x1_0000_0000
    requires CopyCount(strSrc[..], Room(maxLen, FirstNul(strDst[..]))) <= strSrc.Length
    requires FirstNul(strDst[..]) + CopyCount(strSrc[..], Room(maxLen, FirstNul(strDst[..]))) <= strDst.Length
    modifies strDst
    ensures var len := FirstNul(old(strDst[..]));
      var k := CopyCount(strSrc[..], Room(maxLen, len));
      strDst[..len] == old(strDst[..len]) && strDst[len..len + k] == strSrc[..k] &&
      strDst[len + k..] == old(strDst[len + k..])
    ensures FirstNul(strSrc[..]) < Room(maxLen, FirstNul(old(strDst[..]))) ==>
      CStr(strDst[..]) == CStr(old(strDst[..])) + CStr(strSrc[..])
  {
    var len := MyStrlen(strDst);
    MyStrncpy(strDst, len, strSrc, Room(maxLen, len));
    if FirstNul(strSrc[..]) < Room(maxLen, len) {
      ghost var b := FirstNul(strSrc[..]);
      forall i | 0 <= i < len
        ensures strDst[i] == old(strDst[i])
      {
        assert strDst[..len][i] == old(strDst[..len])[i];
      }
      forall i | 0 <= i <= b
        ensures strDst[len + i] == strSrc[i]
      {
        assert strDst[len..len + b + 1][i] == strSrc[..b + 1][i];
      }
      ConcatCStr(old(strDst[..]), strSrc[..], strDst[..], len, b);
    }
  }

  /** The buffer after a copy of src's C string with its NUL behind dst's C string holds their
    * concatenation. */
  lemma ConcatCStr(d: seq<byte>, s: seq<byte>, r: seq<byte>, a: nat, b: nat)
    requires a == FirstNul(d) && b == FirstNul(s) && b < |s| && a + b < |r|
    requires forall i :: 0 <= i < a ==> r[i] == d[i]
    requires forall i :: 0 <= i <= b ==> r[a + i] == s[i]
    ensures CStr(r) == CStr(d) + CStr(s)
  {
    var cd, cs := CStr(d), CStr(s);
    assert |cd| == a && |cs| == b;
    var t := cd + cs;
    forall i | 0 <= i < |t|
      ensures r[i] == t[i] && t[i] != Nul
    {
      if i < a {
        assert t[i] == cd[i] == d[i];
      } else {
        var j := i - a;
        assert t[i] == cs[j] == s[j];
        assert r[a + j] == s[j];
      }
    }
    assert r[..|t|] == t;
    assert Nul !in t;
    assert r[a + b] == s[b];
    CStrOfText(r, t);
  }

  /** strncat_char: appends c and a NUL when the string, c and the NUL fit within max_len; the
    * buffer stays NUL-terminated either way. */
  method StrncatChar(str: array<byte>, c: byte, maxLen: nat)
    requires FirstNul(str[..]) < str.Length && maxLen <= str.Length
    modifies str
    ensures var len := FirstNul(old(str[..]));
      str[..] == if len + 1 < maxLen then old(str[..])[len := c][len + 1 := Nul] else old(str[..])
    ensures FirstNul(str[..]) < str.Length
    ensures c != Nul && FirstNul(old(str[..])) + 1 < maxLen ==> CStr(str[..]) == CStr(old(str[..])) + [c]
  {
    var len := MyStrlen(str);
    if len + 1 < maxLen {
      str[len] := c;
      str[len + 1] := Nul;
      if c != Nul {
        ghost var t := CStr(old(str[..])) + [c];
        CStrOfText(str[..], t);
      }
    }
  }

  /** Where my_strncmp stops when max_len does not stop it first: at the first position where the
    * strings differ, or where both end. */
  function Mismatch(s1: seq<byte>, s2: seq<byte>): (m: nat)
    ensures m <= |s1| && m <= |s2|
    ensures forall i :: 0 <= i < m ==> s1[i] == s2[i] && s1[i] != Nul
    ensures m < |s1| && m < |s2| ==> s1[m] != s2[m] || s1[m] == Nul
  {
    if |s1| == 0 || |s2| == 0 || s1[0] != s2[0] || s1[0] == Nul then 0
    else 1 + Mismatch(s1[1..], s2[1..])
  }

  /** The "less" answer of my_strncmp: it returns -1 as a t_char, which wraps to 255 in the
    * unsigned 8-bit char. */
  const Less: byte := 255

  /** my_strncmp: 0 when the strings agree on their first max_len characters or up to their common
    * end, otherwise Less (-1 wrapped) or 1 by the first character where they differ. */
  method MyStrncmp(str1: array<byte>, str2: array<byte>, maxLen: nat) returns (r: byte)
    requires FirstNul(str1[..]) < str1.Length || maxLen <= str1.Length
    requires FirstNul(str2[..]) < str2.Length || maxLen <= str2.Length
    ensures var m := Mismatch(str1[..], str2[..]);
      (r == 0 <==> m >= maxLen || (m < str1.Length && m < str2.Length && str1[m] == str2[m])) &&
      (r == Less <==> m < maxLen && m < str1.Length && m < str2.Length && str1[m] < str2[m]) &&
      (r == 1 <==> m < maxLen && m < str1.Length && m < str2.Length && str1[m] > str2[m])
  {
    ghost var m := Mismatch(str1[..], str2[..]);
    for i := 0 to maxLen
      invariant i <= m
    {
      assert i < str1.Length && i < str2.Length;
      var c1 := str1[i];
      var c2 := str2[i];
      if c1 == c2 && c1 != Nul {
        continue;
      } else if c1 < c2 {
        return Less;
      } else if c1 > c2 {
        return 1;
      } else if c1 == Nul && c2 == Nul {
        return 0;
      }
    }
    return 0;
  }

  // ---------------------------------------------------------------------------------------------
  // Character classes and my_atoi

  predicate IsUpperAlpha(c: byte)
  {
    UpperA <= c <= UpperZ
  }

  predicate IsLowerAlpha(c: byte)
  {
    LowerA <= c <= LowerZ
  }

  /** my_isdigit as written: with hex, a decimal digit must also be a hex letter. */
  predicate IsDigitAsWritten(c: byte, hex: bool)
  {
    var isNum := Zero <= c <= Nine;
    if hex then isNum && ((LowerA <= c <= LowerF) || (UpperA <= c <= UpperF)) else isNum
  }

  /** my_isdigit as evidently intended: with hex, the hex letters count as digits too. */
  predicate IsDigit(c: byte, hex: bool)
  {
    var isNum := Zero <= c <= Nine;
    if hex then isNum || ((LowerA <= c <= LowerF) || (UpperA <= c <= UpperF)) else isNum
  }

  /** As written, no character is a hex digit, not even '0'. */
  lemma IsDigitHexNeverHolds(c: byte)
    ensures !IsDigitAsWritten(c, true)
    ensures IsDigit(Zero, true) && !IsDigitAsWritten(Zero, true)
  {
  }

  /** The corrected test accepts exactly 0-9, a-f and A-F with hex, and agrees with the code as
    * written for decimal digits, the only use my_atoi makes of it. */
  lemma IsDigitClasses(c: byte)
    ensures IsDigit(c, true) <==> DigitValue(c) < 16 && (c == Zero || DigitValue(c) > 0)
    ensures IsDigit(c, false) == IsDigitAsWritten(c, false)
  {
  }

  /** The number my_atoi reads from the characters of `s`: each one's value, in base `base`. */
  function Value(s: seq<byte>, base: int): int
  {
    if |s| == 0 then 0 else Value(s[..|s| - 1], base) * base + DigitValue(s[|s| - 1])
  }

  /** my_atoi: the value of the C string in `str`. */
  method MyAtoi(str: array<byte>, base: int) returns (num: int)
    requires FirstNul(str[..]) < str.Length
    ensures num == Value(CStr(str[..]), base)
  {
    var len := MyStrlen(str);
    num := 0;
    for i := 0 to len
      invariant num == Value(str[..i], base)
    {
      var digit := 0;
      if IsDigitAsWritten(str[i], false) {
        digit := str[i] as int - Zero as int;
      } else if IsUpperAlpha(str[i]) {
        digit := (str[i] as int - UpperA as int) + 10;
      } else if IsLowerAlpha(str[i]) {
        digit := (str[i] as int - LowerA as int) + 10;
      }
      assert str[..i + 1][..i] == str[..i];
      num := num * base + digit;
    }
    assert str[..len] == CStr(str[..]);
  }

  /** my_atoi reads back what uint_to_str writes, in every base from 2 to 36. */
  lemma {:induction false} ValueOfDigits(n: nat, base: nat)
    requires 2 <= base <= 36
    ensures Value(Digits(n, base), base) == n
    decreases n
  {
    if n > 0 {
      var q, r := Quot(n, base), Rem(n, base);
      QuotRem(n, base);
      ValueOfDigits(q, base);
      var d, front := Digits(n, base), Digits(q, base);
      assert d == front + [DigitChar(r)];
      assert d[..|d| - 1] == front;
      assert Value(d, base) == Value(front, base) * base + DigitValue(DigitChar(r));
    }
  }

  lemma UintTextRoundTrip(n: nat, base: nat)
    requires 2 <= base <= 36
    ensures Value(UintText(n, base), base) == n
  {
    ValueOfDigits(n, base);
    if n == 0 {
      assert UintText(n, base)[..0] == [];
    }
  }

  /** A leading character of value 0 does not change the value: '-' among them. */
  lemma {:induction false} ValueLeadingZero(c: byte, s: seq<byte>, base: int)
    requires DigitValue(c) == 0
    ensures Value([c] + s, base) == Value(s, base)
    decreases |s|
  {
    if |s| > 0 {
      ValueLeadingZero(c, s[..|s| - 1], base);
      assert ([c] + s)[..|s|] == [c] + s[..|s| - 1];
    } else {
      assert ([c] + s)[..0] == [];
    }
  }

  /** my_atoi has no sign: on the text int_to_str writes for a negative number it returns the
    * magnitude. */
  lemma AtoiDropsSign(n: int, base: nat)
    requires 2 <= base <= 36 && n < 0
    ensures Value(IntText(n, base), base) == -n
  {
    assert DigitValue(Minus) == 0;
    assert IntText(n, base) == [Minus] + UintText(-n, base);
    ValueLeadingZero(Minus, UintText(-n, base), base);
    UintTextRoundTrip(-n, base);
  }
}
