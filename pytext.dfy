/**
 * The parts of Python's `str` that the core relies on: `isspace`, `strip`,
 * `split()` with no argument, `lower`, `startswith`, `endswith`, `in` and the
 * ordering that `sorted` uses.
 */
module PyText {

  /** Python's `str.isspace` for one character. */
  predicate IsSpace(c: char)
  {
    ('\U{0009}' <= c <= '\U{000D}') || ('\U{001C}' <= c <= '\U{001F}') || c == ' '
    || c == '\U{0085}' || c == '\U{00A0}' || c == '\U{1680}'
    || ('\U{2000}' <= c <= '\U{200A}') || c == '\U{2028}' || c == '\U{2029}'
    || c == '\U{202F}' || c == '\U{205F}' || c == '\U{3000}'
  }

  predicate AllSpace(s: string)
  {
    forall i :: 0 <= i < |s| ==> IsSpace(s[i])
  }

  /** `s.lstrip()` */
  function TrimLeft(s: string): (r: string)
    ensures |r| <= |s| && r == s[|s| - |r|..]
    ensures r != [] ==> !IsSpace(r[0])
    ensures AllSpace(s[..|s| - |r|])
  {
    if |s| > 0 && IsSpace(s[0]) then TrimLeft(s[1..]) else s
  }

  /** `s.strip()`: leading and trailing whitespace removed. */
  function Strip(s: string): (r: string)
    ensures |r| <= |s|
    ensures r != [] ==> !IsSpace(r[0]) && !IsSpace(r[|r| - 1])
    decreases |s|
  {
    if |s| > 0 && IsSpace(s[0]) then Strip(s[1..])
    else if |s| > 0 && IsSpace(s[|s| - 1]) then Strip(s[..|s| - 1])
    else s
  }

  lemma TrimLeftEmptyIffAllSpace(s: string)
    ensures TrimLeft(s) == [] <==> AllSpace(s)
  {
    var r := TrimLeft(s);
    assert s[..|s|] == s;
    if r != [] {
      assert r[0] == s[|s| - |r|];
    }
  }

  /** `s.strip()` is empty exactly when `s` holds nothing but whitespace. */
  lemma {:induction false} StripEmptyIffAllSpace(s: string)
    ensures Strip(s) == [] <==> AllSpace(s)
    decreases |s|
  {
    if |s| > 0 && IsSpace(s[0]) {
      var t := s[1..];
      StripEmptyIffAllSpace(t);
      assert forall i :: 0 < i < |s| ==> s[i] == t[i - 1];
    } else if |s| > 0 && IsSpace(s[|s| - 1]) {
      var t := s[..|s| - 1];
      StripEmptyIffAllSpace(t);
      assert forall i :: 0 <= i < |t| ==> s[i] == t[i];
    }
  }

  /** Length of the leading run of non-whitespace characters. */
  function TokenLength(s: string): (k: nat)
    ensures k <= |s|
    ensures forall i :: 0 <= i < k ==> !IsSpace(s[i])
    ensures k < |s| ==> IsSpace(s[k])
  {
    if |s| == 0 || IsSpace(s[0]) then 0 else 1 + TokenLength(s[1..])
  }

  /** `s.split()`: the maximal runs of non-whitespace characters, in order. */
  function Words(s: string): (ws: seq<string>)
    ensures forall i :: 0 <= i < |ws| ==> ws[i] != [] && !IsSpace(ws[i][0])
    decreases |s|
  {
    var t := TrimLeft(s);
    if t == [] then [] else
      var k := TokenLength(t);
      assert k > 0 && t[..k][0] == t[0];
      [t[..k]] + Words(t[k..])
  }

  /** `split()` of a string with a non-whitespace character yields at least one word. */
  lemma {:induction false} WordsNonEmpty(s: string)
    requires !AllSpace(s)
    ensures |Words(s)| >= 1
  {
    TrimLeftEmptyIffAllSpace(s);
  }

  /** A word followed by whitespace or by nothing is the first word of `split()`. */
  lemma WordsOfToken(w: string, rest: string)
    requires w != [] && forall i :: 0 <= i < |w| ==> !IsSpace(w[i])
    requires rest == [] || IsSpace(rest[0])
    ensures Words(w + rest) == [w] + Words(rest)
  {
    var s := w + rest;
    assert TrimLeft(s) == s;
    TokenLengthOf(w, rest);
    assert s[..|w|] == w && s[|w|..] == rest;
  }

  lemma {:induction false} TokenLengthOf(w: string, rest: string)
    requires forall i :: 0 <= i < |w| ==> !IsSpace(w[i])
    requires rest == [] || IsSpace(rest[0])
    ensures TokenLength(w + rest) == |w|
    decreases |w|
  {
    if |w| > 0 {
      assert (w + rest)[1..] == w[1..] + rest;
      TokenLengthOf(w[1..], rest);
    } else {
      assert w + rest == rest;
    }
  }

  /** Leading whitespace does not change `split()`. */
  lemma WordsSkipSpace(s: string)
    requires s != [] && IsSpace(s[0])
    ensures Words(s) == Words(s[1..])
  {
  }

  /** `s.replace(c, '')`: every `c` removed, the rest in order. */
  function Remove(s: string, c: char): (r: string)
    ensures c !in r
    ensures |r| <= |s|
  {
    if |s| == 0 then [] else (if s[0] == c then [] else [s[0]]) + Remove(s[1..], c)
  }

  /** Removing distributes over concatenation, and a string without `c` is left alone. */
  lemma {:induction false} RemoveAppend(a: string, b: string, c: char)
    ensures Remove(a + b, c) == Remove(a, c) + Remove(b, c)
    ensures c !in a ==> Remove(a, c) == a
    decreases |a|
  {
    if |a| > 0 {
      assert (a + b)[1..] == a[1..] + b;
      RemoveAppend(a[1..], b, c);
      assert a == [a[0]] + a[1..];
    } else {
      assert a + b == b;
    }
  }

  /** ASCII case folding, the part of `str.lower` the model keeps. */
  function LowerChar(c: char): (d: char)
    ensures 'A' <= c <= 'Z' ==> 'a' <= d <= 'z'
    ensures !('A' <= c <= 'Z') ==> d == c
  {
    if 'A' <= c <= 'Z' then (c as int + 32) as char else c
  }

  /** `s.lower()` */
  function Lower(s: string): (r: string)
    ensures |r| == |s|
    ensures forall i :: 0 <= i < |s| ==> r[i] == LowerChar(s[i])
  {
    seq(|s|, i requires 0 <= i < |s| => LowerChar(s[i]))
  }

  /** `s.startswith(p)` */
  predicate StartsWith(s: string, p: string)
  {
    |p| <= |s| && s[..|p|] == p
  }

  /** `s.endswith(p)` */
  predicate EndsWith(s: string, p: string)
  {
    |p| <= |s| && s[|s| - |p|..] == p
  }

  /** `s.endswith(tuple)`: some suffix in the tuple matches. */
  predicate EndsWithAny(s: string, ps: seq<string>)
  {
    exists i :: 0 <= i < |ps| && EndsWith(s, ps[i])
  }

  /** `sub in s`: `sub` occurs in `s` at some position. */
  predicate Contains(s: string, sub: string)
  {
    StartsWith(s, sub) || (|s| > 0 && Contains(s[1..], sub))
  }

  /** `a < b` on Python strings: lexicographic order by code point. */
  predicate StrLess(a: string, b: string)
    decreases |a|
  {
    if |a| == 0 then |b| > 0
    else if |b| == 0 then false
    else if a[0] != b[0] then a[0] < b[0]
    else StrLess(a[1..], b[1..])
  }

  lemma {:induction false} StrLessIrreflexive(a: string)
    ensures !StrLess(a, a)
    decreases |a|
  {
    if |a| > 0 { StrLessIrreflexive(a[1..]); }
  }

  lemma {:induction false} StrLessTotal(a: string, b: string)
    ensures a == b || StrLess(a, b) || StrLess(b, a)
    decreases |a|
  {
    if |a| > 0 && |b| > 0 && a[0] == b[0] {
      StrLessTotal(a[1..], b[1..]);
      if a[1..] == b[1..] {
        assert a == [a[0]] + a[1..] && b == [b[0]] + b[1..];
      }
    }
  }

  lemma {:induction false} StrLessTransitive(a: string, b: string, c: string)
    requires StrLess(a, b) && StrLess(b, c)
    ensures StrLess(a, c)
    decreases |a|
  {
    if |a| > 0 && |b| > 0 && |c| > 0 && a[0] == b[0] && b[0] == c[0] {
      StrLessTransitive(a[1..], b[1..], c[1..]);
    }
  }

  lemma StrLessAsymmetric(a: string, b: string)
    requires StrLess(a, b)
    ensures !StrLess(b, a)
  {
    if StrLess(b, a) {
      StrLessTransitive(a, b, a);
      StrLessIrreflexive(a);
    }
  }

  /** `a <= b` on Python strings. */
  predicate StrAtMost(a: string, b: string)
  {
    a == b || StrLess(a, b)
  }

  predicate StrSorted(s: seq<string>)
  {
    forall i, j :: 0 <= i < j < |s| ==> StrAtMost(s[i], s[j])
  }

  /** Place `x` after every element that is at most `x`. */
  function InsertString(s: seq<string>, x: string): (r: seq<string>)
    ensures |r| == |s| + 1
    ensures multiset(r) == multiset(s) + multiset{x}
    decreases |s|
  {
    if |s| == 0 || StrAtMost(s[|s| - 1], x) then s + [x]
    else
      var n := |s| - 1;
      assert s == s[..n] + [s[n]];
      InsertString(s[..n], x) + [s[n]]
  }

  lemma {:induction false} InsertStringSorted(s: seq<string>, x: string)
    requires StrSorted(s)
    ensures StrSorted(InsertString(s, x))
    decreases |s|
  {
    if |s| == 0 {
    } else if StrAtMost(s[|s| - 1], x) {
      AppendLargest(s, x);
    } else {
      var n := |s| - 1;
      assert StrSorted(s[..n]);
      InsertStringSorted(s[..n], x);
      InsertBeforeLast(s, x);
    }
  }

  lemma AppendLargest(s: seq<string>, x: string)
    requires StrSorted(s) && |s| > 0 && StrAtMost(s[|s| - 1], x)
    ensures StrSorted(s + [x])
  {
    forall y | y in s
      ensures StrAtMost(y, x)
    {
      var k :| 0 <= k < |s| && s[k] == y;
      if k < |s| - 1 {
        StrAtMostTransitive(y, s[|s| - 1], x);
      }
    }
    AppendSorted(s, x);
  }

  lemma InsertBeforeLast(s: seq<string>, x: string)
    requires StrSorted(s) && |s| > 0 && !StrAtMost(s[|s| - 1], x)
    requires StrSorted(InsertString(s[..|s| - 1], x))
    ensures StrSorted(InsertString(s, x))
  {
    var n := |s| - 1;
    var a := s[n];
    StrLessTotal(x, a);
    var r := InsertString(s[..n], x);
    forall y | y in r
      ensures StrAtMost(y, a)
    {
      assert y in multiset(r);
      if y != x {
        assert y in multiset(s[..n]);
        var k :| 0 <= k < n && s[..n][k] == y;
        assert s[k] == y;
      }
    }
    AppendSorted(r, a);
  }

  /** A sorted list stays sorted when an element at least as large as all of it is appended. */
  lemma AppendSorted(s: seq<string>, x: string)
    requires StrSorted(s)
    requires forall y :: y in s ==> StrAtMost(y, x)
    ensures StrSorted(s + [x])
  {
    forall i, j | 0 <= i < j < |s| + 1
      ensures StrAtMost((s + [x])[i], (s + [x])[j])
    {
      if j == |s| {
        assert s[i] in s;
      } else {
        assert (s + [x])[i] == s[i] && (s + [x])[j] == s[j];
      }
    }
  }

  lemma StrAtMostTransitive(a: string, b: string, c: string)
    requires StrAtMost(a, b) && StrAtMost(b, c)
    ensures StrAtMost(a, c)
  {
    if a != b && b != c {
      StrLessTransitive(a, b, c);
    }
  }

  /** `sorted(names)` on a list of strings, as an insertion sort. */
  function SortStrings(s: seq<string>): (r: seq<string>)
    ensures |r| == |s|
    ensures multiset(r) == multiset(s)
    decreases |s|
  {
    if |s| == 0 then []
    else
      var n := |s| - 1;
      assert s == s[..n] + [s[n]];
      InsertString(SortStrings(s[..n]), s[n])
  }

  /** `sorted` orders its result. */
  lemma {:induction false} SortStringsSorted(s: seq<string>)
    ensures StrSorted(SortStrings(s))
    decreases |s|
  {
    if |s| > 0 {
      SortStringsSorted(s[..|s| - 1]);
      InsertStringSorted(SortStrings(s[..|s| - 1]), s[|s| - 1]);
    }
  }

  /** A common prefix does not change the order of two strings. */
  lemma {:induction false} StrLessPrefix(p: string, a: string, b: string)
    ensures StrLess(p + a, p + b) <==> StrLess(a, b)
    decreases |p|
  {
    if |p| > 0 {
      assert (p + a)[0] == (p + b)[0];
      assert (p + a)[1..] == p[1..] + a && (p + b)[1..] == p[1..] + b;
      StrLessPrefix(p[1..], a, b);
    } else {
      assert p + a == a && p + b == b;
    }
  }
}
