/**
 The JavaScript string builtins that the command resolver relies on, with
 their edge cases (a missing character gives index -1, `substring` clamps
 and swaps its bounds, `length` counts UTF-16 code units).

 Strings are sequences of Unicode scalar values; a character above U+FFFF
 stands for the two UTF-16 code units JavaScript would store for it.
 */
module JsString {

  /** `s.indexOf(c)` for a one-character pattern: the first position of `c`, or -1. */
  function IndexOf(s: string, c: char): (i: int)
    ensures -1 <= i < |s|
    ensures i == -1 <==> c !in s
    ensures 0 <= i ==> s[i] == c && c !in s[..i]
  {
    if s == [] then -1
    else if s[0] == c then 0
    else
      var j := IndexOf(s[1..], c);
      if j == -1 then -1
      else
        assert s[..j + 1] == [s[0]] + s[1..][..j];
        j + 1
  }

  /** `s.lastIndexOf(c)` for a one-character pattern: the last position of `c`, or -1. */
  function LastIndexOf(s: string, c: char): (i: int)
    ensures -1 <= i < |s|
    ensures i == -1 <==> c !in s
    ensures 0 <= i ==> s[i] == c && c !in s[i + 1..]
  {
    if s == [] then -1
    else if s[|s| - 1] == c then |s| - 1
    else
      var init := s[..|s| - 1];
      var j := LastIndexOf(init, c);
      assert s == init + [s[|s| - 1]];
      if j < 0 then j
      else
        assert s[j + 1..] == init[j + 1..] + [s[|s| - 1]];
        j
  }

  /** A `substring` bound clamped to `0..n`. */
  function Clamp(x: int, n: nat): (r: nat)
    ensures r <= n
  {
    if x < 0 then 0 else if x > n then n else x
  }

  /** `s.substring(start, end)`: both bounds clamped, swapped when out of order. */
  function Substring(s: string, start: int, end: int): (r: string)
    ensures |r| <= |s|
    ensures 0 <= start <= end <= |s| ==> r == s[start..end]
    ensures 0 <= end <= start <= |s| ==> r == s[end..start]
    ensures end <= 0 ==> r == s[..Clamp(start, |s|)]
    ensures start <= 0 && |s| <= end ==> r == s
  {
    var a := Clamp(start, |s|);
    var b := Clamp(end, |s|);
    if a <= b then s[a..b] else s[b..a]
  }

  /** `s.substring(start)`: the whole string from a negative start, nothing from one past the end. */
  function SubstringFrom(s: string, start: int): (r: string)
    ensures start <= 0 ==> r == s
    ensures 0 <= start <= |s| ==> r == s[start..]
    ensures |s| <= start ==> r == []
  {
    Substring(s, start, |s|)
  }

  /** `s.startsWith(p)`. */
  predicate StartsWith(s: string, p: string)
    ensures StartsWith(s, p) <==> |p| <= |s| && s[..|p|] == p
  {
    p <= s
  }

  /** `s.length`: the number of UTF-16 code units. */
  function Utf16Length(s: string): (n: nat)
    ensures |s| <= n
    ensures n == 1 <==> |s| == 1 && s[0] as int < 0x1_0000
  {
    if s == [] then 0
    else (if s[0] as int < 0x1_0000 then 1 else 2) + Utf16Length(s[1..])
  }

  /** The characters `String.prototype.trim` removes: white space (`Zs`, tab, VT, FF, BOM) and line terminators. */
  const WhiteSpace: set<char> := {
    '\t', '\n', '\U{B}', '\U{C}', '\r', ' ', '\U{A0}', '\U{1680}',
    '\U{2000}', '\U{2001}', '\U{2002}', '\U{2003}', '\U{2004}', '\U{2005}',
    '\U{2006}', '\U{2007}', '\U{2008}', '\U{2009}', '\U{200A}',
    '\U{2028}', '\U{2029}', '\U{202F}', '\U{205F}', '\U{3000}', '\U{FEFF}'
  }

  predicate IsWhiteSpace(c: char)
  {
    c in WhiteSpace
  }

  /** `trimStart`: cuts off the white space in front, and nothing else. */
  function TrimStart(s: string): (r: string)
    ensures |r| <= |s| && r == s[|s| - |r|..]
    ensures r == [] || !IsWhiteSpace(r[0])
    ensures forall k :: 0 <= k < |s| - |r| ==> IsWhiteSpace(s[k])
  {
    if s != [] && IsWhiteSpace(s[0]) then
      var r := TrimStart(s[1..]);
      assert forall k :: 1 <= k < |s| ==> s[k] == s[1..][k - 1];
      r
    else s
  }

  /** `trimEnd`: cuts off the white space at the end, and nothing else. */
  function TrimEnd(s: string): (r: string)
    ensures |r| <= |s| && r == s[..|r|]
    ensures r == [] || !IsWhiteSpace(r[|r| - 1])
    ensures forall k :: |r| <= k < |s| ==> IsWhiteSpace(s[k])
  {
    if s != [] && IsWhiteSpace(s[|s| - 1]) then
      var r := TrimEnd(s[..|s| - 1]);
      assert forall k :: 0 <= k < |s| - 1 ==> s[k] == s[..|s| - 1][k];
      r
    else s
  }

  /** `r` is `s[a..a + |r|]` and every character of `s` outside that slice is white space. */
  predicate TrimmedSlice(s: string, r: string, a: int)
  {
    && 0 <= a <= |s| - |r| && r == s[a..a + |r|]
    && (forall k :: 0 <= k < a ==> IsWhiteSpace(s[k]))
    && (forall k :: a + |r| <= k < |s| ==> IsWhiteSpace(s[k]))
  }

  /** `s.trim()`: the slice of `s` left once the white space at both ends is cut off. */
  function Trim(s: string): (r: string)
    ensures |r| <= |s|
    ensures r == [] || (!IsWhiteSpace(r[0]) && !IsWhiteSpace(r[|r| - 1]))
    ensures exists a :: TrimmedSlice(s, r, a)
  {
    var front := TrimStart(s);
    var r := TrimEnd(front);
    SliceOfCuts(s, front, r);
    r
  }

  /** A white-space-free cut at the front followed by one at the back leaves a trimmed slice. */
  lemma SliceOfCuts(s: string, front: string, r: string)
    requires |front| <= |s| && front == s[|s| - |front|..]
    requires forall k :: 0 <= k < |s| - |front| ==> IsWhiteSpace(s[k])
    requires |r| <= |front| && r == front[..|r|]
    requires forall k :: |r| <= k < |front| ==> IsWhiteSpace(front[k])
    ensures TrimmedSlice(s, r, |s| - |front|)
  {
    var a := |s| - |front|;
    assert r == s[a..a + |r|];
    forall k | a + |r| <= k < |s|
      ensures IsWhiteSpace(s[k])
    {
      assert s[k] == front[k - a];
    }
  }

  /** `s.replace(from, to)` with one-character strings: only the FIRST `from` is replaced. */
  function ReplaceFirst(s: string, from: char, to: char): (r: string)
    ensures |r| == |s|
    ensures from !in s ==> r == s
    ensures from in s ==>
              var i := IndexOf(s, from);
              r[i] == to && r[..i] == s[..i] && r[i + 1..] == s[i + 1..]
  {
    var i := IndexOf(s, from);
    if i == -1 then s else s[..i] + [to] + s[i + 1..]
  }

  /** Trimming leaves a string without white space at either end as it is. */
  lemma {:induction false} TrimUntouched(s: string)
    requires s == [] || (!IsWhiteSpace(s[0]) && !IsWhiteSpace(s[|s| - 1]))
    ensures Trim(s) == s
  {
  }

  /** `trim` is idempotent. */
  lemma TrimIdempotent(s: string)
    ensures Trim(Trim(s)) == Trim(s)
  {
    TrimUntouched(Trim(s));
  }

  /** Only the first dot of a version goes: `"1.2.3"` becomes `"1-2.3"`. */
  lemma ReplaceFirstExample()
    ensures ReplaceFirst("1.2.3", '.', '-') == "1-2.3"
  {
    assert IndexOf("1.2.3", '.') == 1;
  }
}
