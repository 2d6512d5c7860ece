/**
 * The POSIX path functions the core calls: `os.path.dirname`, `basename`,
 * `join` and `splitext`, and `pathlib`'s `name`, `suffix` and `stem`.
 */
module PyPath {

  /** `s.rfind(c)`: the last index of `c`, or -1. */
  function RFind(s: string, c: char): (i: int)
    ensures -1 <= i < |s|
    ensures 0 <= i ==> s[i] == c
    ensures forall j :: i < j < |s| ==> s[j] != c
  {
    if |s| == 0 then -1
    else if s[|s| - 1] == c then |s| - 1
    else RFind(s[..|s| - 1], c)
  }

  /** `str.rstrip('/')` */
  function StripSlashes(s: string): (r: string)
    ensures |r| <= |s| && r == s[..|r|]
    ensures r != [] ==> r[|r| - 1] != '/'
  {
    if |s| > 0 && s[|s| - 1] == '/' then StripSlashes(s[..|s| - 1]) else s
  }

  predicate AllSlashes(s: string)
  {
    forall i :: 0 <= i < |s| ==> s[i] == '/'
  }

  /** `os.path.dirname(p)`: everything up to the last '/', trailing slashes removed unless it is all slashes. */
  function Dirname(p: string): (d: string)
    ensures |d| <= |p| && d == p[..|d|]
  {
    var head := p[..RFind(p, '/') + 1];
    if head != [] && !AllSlashes(head) then StripSlashes(head) else head
  }

  /** `os.path.basename(p)`: everything after the last '/'. */
  function Basename(p: string): (b: string)
    ensures forall j :: 0 <= j < |b| ==> b[j] != '/'
    ensures |b| <= |p| && b == p[|p| - |b|..]
  {
    p[RFind(p, '/') + 1..]
  }

  /** `os.path.join(a, b)` for two components. */
  function Join(a: string, b: string): (r: string)
  {
    if |b| > 0 && b[0] == '/' then b
    else if a == [] || a[|a| - 1] == '/' then a + b
    else a + "/" + b
  }

  /** The extension `os.path.splitext(p)[1]`: from the last '.' of the last component, unless only dots precede it. */
  function SplitExt(p: string): (ext: string)
    ensures ext == [] || ext[0] == '.'
  {
    var sep := RFind(p, '/');
    var dot := RFind(p, '.');
    if dot > sep && exists k :: sep + 1 <= k < dot && p[k] != '.' then p[dot..] else []
  }

  /** `PurePosixPath(p).name` for a path with no trailing '/', the form file dialogs return. */
  function Name(p: string): (n: string)
    ensures forall j :: 0 <= j < |n| ==> n[j] != '/'
  {
    Basename(p)
  }

  /** `PurePosixPath(p).suffix`: from the last '.' of the name, if it is neither first nor last. */
  function Suffix(p: string): (s: string)
    ensures s == [] || (s[0] == '.' && |s| >= 2)
  {
    var n := Name(p);
    var i := RFind(n, '.');
    if 0 < i < |n| - 1 then n[i..] else []
  }

  /** `PurePosixPath(p).stem`: the name without its suffix. */
  function Stem(p: string): (s: string)
    ensures Name(p) == s + Suffix(p)
  {
    var n := Name(p);
    var i := RFind(n, '.');
    if 0 < i < |n| - 1 then n[..i] else n
  }

  /** The last component of `dir + "/" + n`, for a slash-free `n`, is `n`. */
  lemma NameOfJoined(dir: string, n: string)
    requires '/' !in n
    ensures Name(dir + "/" + n) == n
  {
    var p := dir + "/" + n;
    var i := RFind(p, '/');
    assert p[|dir|] == '/';
    assert forall j :: |dir| < j < |p| ==> p[j] == n[j - |dir| - 1];
    assert i == |dir|;
    assert p[|dir| + 1..] == n;
  }

  /** The last dot of `s + e`, when `e` starts with the only dot it holds, is the one that starts `e`. */
  lemma LastDotOfExtension(s: string, e: string)
    requires |e| >= 1 && e[0] == '.' && '.' !in e[1..]
    ensures RFind(s + e, '.') == |s|
  {
    var n := s + e;
    assert n[|s|] == '.';
    assert forall j :: |s| < j < |n| ==> n[j] == e[1..][j - |s| - 1];
  }

  /** A name `s + e`, where `e` is a dot followed by at least one character and no other dot, has stem `s` and suffix `e`. */
  lemma StemOfNameWithExtension(dir: string, s: string, e: string)
    requires s != [] && '/' !in s
    requires |e| >= 2 && e[0] == '.' && '.' !in e[1..] && '/' !in e
    ensures Stem(dir + "/" + s + e) == s
    ensures Suffix(dir + "/" + s + e) == e
  {
    var n := s + e;
    assert dir + "/" + s + e == dir + "/" + n;
    NameOfJoined(dir, n);
    LastDotOfExtension(s, e);
    assert n[..|s|] == s && n[|s|..] == e;
  }

  /** `splitext` of a dot-free name ending in a dot reports the extension `.`. */
  lemma TrailingDotExtension(s: string)
    requires s != [] && '.' !in s && '/' !in s
    ensures SplitExt(s + ".") == "."
  {
    var p := s + ".";
    assert p[|s|] == '.';
    assert forall j :: 0 <= j < |s| ==> p[j] == s[j];
    assert RFind(p, '/') == -1;
    assert RFind(p, '.') == |s|;
    assert p[0] != '.';
    assert p[|s|..] == ".";
  }
}
