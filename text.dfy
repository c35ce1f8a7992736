/**
 * The JavaScript string operations the source relies on: `trim`, `startsWith`,
 * `split` on a one-character separator and `join`. Strings are `seq<char>`.
 */
module Text {

  /** The characters `String.prototype.trim` removes: ECMAScript WhiteSpace and LineTerminator. */
  predicate IsSpace(c: char) {
    || c == ' ' || c == '\t' || c == '\n' || c == '\r'
    || c == '\U{B}' || c == '\U{C}' || c == '\U{A0}' || c == '\U{1680}'
    || ('\U{2000}' <= c <= '\U{200A}')
    || c == '\U{2028}' || c == '\U{2029}' || c == '\U{202F}' || c == '\U{205F}'
    || c == '\U{3000}' || c == '\U{FEFF}'
  }

  /** Every character of `s` is white space (so `s.trim()` is the empty, falsy string). */
  predicate IsBlank(s: string) {
    forall i :: 0 <= i < |s| ==> IsSpace(s[i])
  }

  /** `s.trimStart()`: the longest suffix of `s` that does not start with white space. */
  function TrimStart(s: string): (r: string)
    ensures |r| <= |s| && r == s[|s| - |r|..]
    ensures r == [] || !IsSpace(r[0])
    ensures IsBlank(s[..|s| - |r|])
  {
    if |s| > 0 && IsSpace(s[0]) then TrimStart(s[1..]) else s
  }

  /** `s.trimEnd()`: the longest prefix of `s` that does not end with white space. */
  function TrimEnd(s: string): (r: string)
    ensures |r| <= |s| && r == s[..|r|]
    ensures r == [] || !IsSpace(r[|r| - 1])
    ensures IsBlank(s[|r|..])
  {
    if |s| > 0 && IsSpace(s[|s| - 1]) then
      var r := TrimEnd(s[..|s| - 1]);
      assert s[|r|..] == s[..|s| - 1][|r|..] + [s[|s| - 1]];
      r
    else s
  }

  /** `s.trim()`. */
  function Trim(s: string): (r: string)
    ensures r == [] || (!IsSpace(r[0]) && !IsSpace(r[|r| - 1]))
  {
    TrimEnd(TrimStart(s))
  }

  /** `s.trim()` cuts a blank prefix and a blank suffix off `s` and keeps what lies between. */
  lemma TrimSlice(s: string)
    ensures exists i, j :: 0 <= i <= j <= |s| && Trim(s) == s[i..j] && IsBlank(s[..i]) && IsBlank(s[j..])
  {
    var t := TrimStart(s);
    var r := TrimEnd(t);
    assert r == s[|s| - |t|..|s| - |t| + |r|];
    assert IsBlank(s[|s| - |t| + |r|..]) by {
      assert s[|s| - |t| + |r|..] == t[|r|..];
    }
  }

  /** A trimmed string is empty exactly when the input was all white space. */
  lemma TrimEmptyIffBlank(s: string)
    ensures Trim(s) == [] <==> IsBlank(s)
  {
    var t := TrimStart(s);
    if Trim(s) == [] {
      assert IsBlank(t[0..]);
      assert t == [];
      assert s[..|s| - |t|] == s;
    }
  }

  /** Trimming a trimmed string changes nothing. */
  lemma TrimIdempotent(s: string)
    ensures Trim(Trim(s)) == Trim(s)
  {
  }

  /** `s.startsWith(p)`. */
  predicate StartsWith(s: string, p: string) {
    |p| <= |s| && s[..|p|] == p
  }

  /** `s.indexOf(c)`: the first position of `c` in `s`, or -1. */
  function IndexOf(s: string, c: char): (k: int)
    ensures -1 <= k < |s|
    ensures k >= 0 ==> s[k] == c && c !in s[..k]
    ensures k < 0 ==> c !in s
  {
    if |s| == 0 then -1
    else if s[0] == c then 0
    else
      var k := IndexOf(s[1..], c);
      if k < 0 then -1
      else
        assert s[..k + 1] == [s[0]] + s[1..][..k];
        k + 1
  }

  /** `parts.join(sep)` for a one-character separator. */
  function Join(parts: seq<string>, sep: char): string {
    if |parts| == 0 then []
    else if |parts| == 1 then parts[0]
    else parts[0] + [sep] + Join(parts[1..], sep)
  }

  /** Joining two or more parts puts the first in front of the separator and the rest joined. */
  lemma JoinCons(parts: seq<string>, sep: char)
    requires |parts| >= 2
    ensures Join(parts, sep) == parts[0] + ([sep] + Join(parts[1..], sep))
  {
  }

  /**
   * `s.split(sep)` for a one-character separator: the pieces between separators, which never
   * contain the separator and which `Join` puts back together. There is always at least one piece.
   */
  function Split(s: string, sep: char): (parts: seq<string>)
    ensures |parts| >= 1
    ensures forall i :: 0 <= i < |parts| ==> sep !in parts[i]
    ensures Join(parts, sep) == s
    decreases |s|
  {
    var k := IndexOf(s, sep);
    if k < 0 then [s]
    else
      var rest := Split(s[k + 1..], sep);
      SplitCons(s, k, sep, rest);
      [s[..k]] + rest
  }

  /** The text before the first separator, put in front of the pieces of the rest, splits `s`. */
  lemma SplitCons(s: string, k: int, sep: char, rest: seq<string>)
    requires 0 <= k < |s| && s[k] == sep && sep !in s[..k]
    requires |rest| >= 1 && (forall i :: 0 <= i < |rest| ==> sep !in rest[i])
    requires Join(rest, sep) == s[k + 1..]
    ensures var parts := [s[..k]] + rest;
      && (forall i :: 0 <= i < |parts| ==> sep !in parts[i])
      && Join(parts, sep) == s
  {
    var parts := [s[..k]] + rest;
    assert parts[1..] == rest;
    assert s == s[..k] + [sep] + s[k + 1..];
  }

  /**
   * `const [head, ...tail] = s.split(sep)`: the head is the text before the first separator and
   * `tail.join(sep)` is everything after it, separators included; the tail is empty exactly
   * when `s` has no separator.
   */
  lemma {:induction false} SplitHeadTail(s: string, sep: char)
    ensures var parts := Split(s, sep); var k := IndexOf(s, sep);
      && (|parts| > 1 <==> sep in s)
      && (k < 0 ==> parts[0] == s)
      && (k >= 0 ==> parts[0] == s[..k] && Join(parts[1..], sep) == s[k + 1..])
  {
    var k := IndexOf(s, sep);
    if k >= 0 {
      assert Split(s, sep) == [s[..k]] + Split(s[k + 1..], sep);
      assert Split(s, sep)[1..] == Split(s[k + 1..], sep);
    }
  }

  /** The lower-case hexadecimal digit for `d` (`d.toString(16)` for `d < 16`). */
  function HexDigit(d: nat): (c: char)
    requires d < 16
    ensures ('0' <= c <= '9') || ('a' <= c <= 'f')
  {
    if d < 10 then ('0' as int + d) as char else ('a' as int + d - 10) as char
  }

  /** The value of a lower-case hexadecimal digit; the inverse of `HexDigit`. */
  function HexValue(c: char): (d: nat)
    ensures d < 16
  {
    if '0' <= c <= '9' then c as int - '0' as int
    else if 'a' <= c <= 'f' then c as int - 'a' as int + 10
    else 0
  }

  lemma HexValueOfDigit(d: nat)
    requires d < 16
    ensures HexValue(HexDigit(d)) == d
  {
  }

  /** Number of occurrences of `c` in `s`. */
  function Count(s: string, c: char): (n: nat)
    ensures n <= |s|
    ensures n == 0 <==> c !in s
  {
    if |s| == 0 then 0 else (if s[0] == c then 1 else 0) + Count(s[1..], c)
  }

  lemma {:induction false} CountAppend(a: string, b: string, c: char)
    ensures Count(a + b, c) == Count(a, c) + Count(b, c)
  {
    if |a| > 0 {
      assert (a + b)[1..] == a[1..] + b;
      CountAppend(a[1..], b, c);
    } else {
      assert a + b == b;
    }
  }

  /** In `u + [c] + x` with no `c` in `u`, the first `c` stands right after `u`. */
  lemma FirstSeparatorAt(u: string, c: char, x: string)
    requires c !in u
    ensures IndexOf(u + [c] + x, c) == |u|
  {
    var w := u + [c] + x;
    assert w[|u|] == c;
    assert w[..|u|] == u;
  }

  /**
   * If `u` and `v` contain no `c`, the first `c` of `u + [c] + x` and of `v + [c] + y` splits them
   * the same way: equal texts mean equal parts.
   */
  lemma {:induction false} SplitAtFirst(u: string, v: string, x: string, y: string, c: char)
    requires c !in u && c !in v
    requires u + [c] + x == v + [c] + y
    ensures u == v && x == y
  {
    FirstSeparatorAt(u, c, x);
    FirstSeparatorAt(v, c, y);
    assert u == (u + [c] + x)[..|u|];
    assert v == (v + [c] + y)[..|v|];
    assert x == (u + [c] + x)[|u| + 1..];
    assert y == (v + [c] + y)[|v| + 1..];
  }
}
