/**
 * Knuth-Morris-Pratt search of libs/str_algos.h.  find_pattern builds a prefix table for the
 * pattern and scans the string once; it returns the position of the leftmost occurrence of the
 * pattern, or the length of the string when there is none.  Strings are sequences of any
 * element type with equality, as the template only indexes and compares.
 */
module StrAlgos {

  /** `p[..b]` is a proper border of `p[..n]`: a prefix shorter than n that is also its suffix. */
  predicate IsBorder<T(==)>(p: seq<T>, n: nat, b: nat)
    requires n <= |p|
  {
    b < n && forall i :: 0 <= i < b ==> p[i] == p[n - b + i]
  }

  /** `b` is the longest proper border of `p[..n]`. */
  predicate LongestBorder<T(==)>(p: seq<T>, n: nat, b: nat)
    requires n <= |p|
  {
    IsBorder(p, n, b) && forall c :: b < c < n ==> !IsBorder(p, n, c)
  }

  /** The prefix table after the front insertion: entry k is the longest proper border of the
    * first k pattern elements, and entry 0 is 0. */
  predicate PrefixTable<T(==)>(p: seq<T>, f: seq<nat>)
  {
    |f| == |p| + 1 && f[0] == 0 && forall k :: 1 <= k <= |p| ==> LongestBorder(p, k, f[k])
  }

  /** The pattern occurs in `s` at position q. */
  predicate Occurs<T(==)>(s: seq<T>, p: seq<T>, q: nat)
  {
    q + |p| <= |s| && forall i :: 0 <= i < |p| ==> s[q + i] == p[i]
  }

  /** A border of `p[..n]` shorter than the border `b` is a border of `p[..b]`, and back. */
  lemma BorderOfBorder<T>(p: seq<T>, n: nat, b: nat, c: nat)
    requires n <= |p| && IsBorder(p, n, b) && c < b
    ensures IsBorder(p, n, c) <==> IsBorder(p, b, c)
  {
    if IsBorder(p, n, c) {
      forall i | 0 <= i < c
        ensures p[i] == p[b - c + i]
      {
        assert p[b - c + i] == p[n - b + (b - c + i)];
      }
    }
    if IsBorder(p, b, c) {
      forall i | 0 <= i < c
        ensures p[i] == p[n - c + i]
      {
        assert p[i] == p[b - c + i];
        assert p[b - c + i] == p[n - b + (b - c + i)];
      }
    }
  }

  /** Dropping the last element of a border of `p[..n+1]` leaves a border of `p[..n]`. */
  lemma BorderShrink<T>(p: seq<T>, n: nat, c: nat)
    requires n < |p| && 0 < c
    ensures IsBorder(p, n + 1, c) ==> IsBorder(p, n, c - 1) && p[c - 1] == p[n]
  {
    if IsBorder(p, n + 1, c) {
      assert p[c - 1] == p[n + 1 - c + (c - 1)];
      forall i | 0 <= i < c - 1
        ensures p[i] == p[n - (c - 1) + i]
      {
        assert p[i] == p[n + 1 - c + i];
      }
    }
  }

  /** The longest proper border of `p[..n+1]`: one more than the candidate `b`, a border of
    * `p[..n]` past every longer border that does not extend, when `p[b]` extends it, else 0. */
  lemma ExtendBorder<T>(p: seq<T>, n: nat, b: nat)
    requires 0 < n < |p| && IsBorder(p, n, b)
    requires forall c :: b < c < n && IsBorder(p, n, c) ==> p[c] != p[n]
    requires b == 0 || p[b] == p[n]
    ensures LongestBorder(p, n + 1, if p[b] == p[n] then b + 1 else 0)
  {
    var m := n + 1;
    var v := if p[b] == p[n] then b + 1 else 0;
    if p[b] == p[n] {
      forall i | 0 <= i < b + 1
        ensures p[i] == p[m - (b + 1) + i]
      {
        if i < b {
          assert p[i] == p[n - b + i];
        }
      }
    }
    forall c | v < c < m
      ensures !IsBorder(p, m, c)
    {
      BorderShrink(p, n, c);
    }
  }

  /** get_prefix: the prefix table of a non-empty pattern.  For the empty pattern the loop does not
    * run and the table is [0, 0]. */
  method GetPrefix<T(==)>(pattern: seq<T>) returns (prefix: seq<nat>)
    ensures |pattern| > 0 ==> PrefixTable(pattern, prefix)
    ensures |pattern| == 0 ==> prefix == [0, 0]
  {
    var pre: seq<nat> := [0];
    var patternPos := 1;
    while patternPos < |pattern|
      invariant 1 <= patternPos && (patternPos <= |pattern| || patternPos == 1)
      invariant |pre| == patternPos && pre[0] == 0
      invariant forall k :: 0 <= k < patternPos && k < |pattern| ==> LongestBorder(pattern, k + 1, pre[k])
    {
      var prefixPos: nat := pre[patternPos - 1];
      while prefixPos > 0 && pattern[prefixPos] != pattern[patternPos]
        invariant prefixPos < patternPos && IsBorder(pattern, patternPos, prefixPos)
        invariant forall c :: prefixPos < c < patternPos && IsBorder(pattern, patternPos, c) ==>
          pattern[c] != pattern[patternPos]
      {
        var next := pre[prefixPos - 1];
        forall c | next < c < patternPos && IsBorder(pattern, patternPos, c)
          ensures pattern[c] != pattern[patternPos]
        {
          if c < prefixPos {
            BorderOfBorder(pattern, patternPos, prefixPos, c);
          }
        }
        BorderOfBorder(pattern, patternPos, prefixPos, next);
        prefixPos := next;
      }
      ExtendBorder(pattern, patternPos, prefixPos);
      pre := pre + [if pattern[prefixPos] == pattern[patternPos] then prefixPos + 1 else 0];
      patternPos := patternPos + 1;
    }
    prefix := [0] + pre;
  }

  /** An occurrence at q, inside the window matched from `start` up to `pos`, makes the matched
    * part from q a border of the matched pattern prefix. */
  lemma OccursBorder<T>(s: seq<T>, p: seq<T>, start: nat, pos: nat, q: nat)
    requires start < q < pos <= |s| && pos - start <= |p|
    requires forall i :: 0 <= i < pos - start ==> s[start + i] == p[i]
    ensures Occurs(s, p, q) ==> IsBorder(p, pos - start, pos - q)
  {
    var j, c := pos - start, pos - q;
    if Occurs(s, p, q) {
      forall i | 0 <= i < c
        ensures p[i] == p[j - c + i]
      {
        assert s[q + i] == p[i];
        assert s[start + (j - c + i)] == p[j - c + i];
      }
    }
  }

  /** After a mismatch at str_pos with `j` pattern elements matched, no occurrence starts before
    * the shifted start str_pos - prefix[j]. */
  lemma ShiftSafe<T>(s: seq<T>, p: seq<T>, start: nat, pos: nat, b: nat)
    requires start < pos < |s| && pos - start < |p|
    requires forall i :: 0 <= i < pos - start ==> s[start + i] == p[i]
    requires s[pos] != p[pos - start]
    requires LongestBorder(p, pos - start, b)
    ensures forall q :: start <= q < pos - b ==> !Occurs(s, p, q)
  {
    forall q | start <= q < pos - b
      ensures !Occurs(s, p, q)
    {
      if q == start {
        assert s[q + (pos - start)] != p[pos - start];
      } else {
        OccursBorder(s, p, start, pos, q);
      }
    }
  }

  /** find_pattern: the leftmost occurrence of a non-empty pattern, or |str| when there is none. */
  method FindPattern<T(==)>(str: seq<T>, pattern: seq<T>) returns (r: nat)
    requires |pattern| > 0
    ensures r <= |str|
    ensures r < |str| ==> Occurs(str, pattern, r)
    ensures forall q :: 0 <= q < r ==> !Occurs(str, pattern, q)
    ensures r == |str| <==> forall q :: !Occurs(str, pattern, q)
  {
    var prefix := GetPrefix(pattern);
    var strPos: nat, startPos: nat := 0, 0;
    while strPos < |str|
      invariant startPos <= strPos <= |str| && strPos - startPos < |pattern|
      invariant forall i :: 0 <= i < strPos - startPos ==> str[startPos + i] == pattern[i]
      invariant forall q :: 0 <= q < startPos ==> !Occurs(str, pattern, q)
      decreases 2 * |str| - strPos - startPos
    {
      if pattern[strPos - startPos] == str[strPos] {
        if strPos - startPos + 1 == |pattern| {
          assert Occurs(str, pattern, startPos);
          return startPos;
        } else {
          strPos := strPos + 1;
        }
      } else {
        if startPos != strPos {
          assert LongestBorder(pattern, strPos - startPos, prefix[strPos - startPos]);
          var j, b := strPos - startPos, prefix[strPos - startPos];
          ShiftSafe(str, pattern, startPos, strPos, b);
          forall i | 0 <= i < b
            ensures str[strPos - b + i] == pattern[i]
          {
            assert str[startPos + (j - b + i)] == pattern[j - b + i];
          }
          startPos := strPos - b;
        } else {
          startPos := startPos + 1;
          strPos := strPos + 1;
        }
      }
    }
    return |str|;
  }
}
