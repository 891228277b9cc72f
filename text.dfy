/** The pieces of Python's `str` and `os.path` the pipeline relies on:
    `str.lower`, `str.endswith`, `str.split('.')[-1]`, `os.path.join` and
    `os.path.splitext` on POSIX paths. */
module Text {

  /** `str.lower` on one character; letters outside ASCII are left as they are. */
  function LowerChar(c: char): char
  {
    if 'A' <= c <= 'Z' then (c as int - 'A' as int + 'a' as int) as char else c
  }

  /** `s.lower()`: no upper-case ASCII letter is left, each one becomes the
      letter 32 code points above it, and every other character stays. */
  function Lower(s: string): (r: string)
    ensures |r| == |s|
    ensures forall k :: 0 <= k < |r| ==> !('A' <= r[k] <= 'Z')
    ensures forall k :: 0 <= k < |s| && !('A' <= s[k] <= 'Z') ==> r[k] == s[k]
    ensures forall k :: 0 <= k < |s| && 'A' <= s[k] <= 'Z' ==> r[k] as int == s[k] as int + 32
  {
    seq(|s|, k requires 0 <= k < |s| => LowerChar(s[k]))
  }

  /** Lower-casing twice is lower-casing once. */
  lemma LowerIdempotent(s: string)
    ensures Lower(Lower(s)) == Lower(s)
  {
  }

  /** `s.endswith(suffix)`. */
  predicate EndsWith(s: string, suffix: string)
  {
    |suffix| <= |s| && s[|s| - |suffix|..] == suffix
  }

  /** Character `i` of a suffix is the matching character of `s`. */
  lemma EndsWithAt(s: string, suffix: string, i: int)
    requires EndsWith(s, suffix) && 0 <= i < |suffix|
    ensures s[|s| - |suffix| + i] == suffix[i]
  {
    assert s[|s| - |suffix|..][i] == suffix[i];
  }

  /** `s.rfind(c)`: the index of the last occurrence of `c`, or -1. */
  function LastIndexOf(s: string, c: char): (i: int)
    ensures -1 <= i < |s|
    ensures 0 <= i ==> s[i] == c
    ensures forall k :: i < k < |s| ==> s[k] != c
  {
    if |s| == 0 then -1
    else if s[|s| - 1] == c then |s| - 1
    else LastIndexOf(s[..|s| - 1], c)
  }

  /** The last occurrence is the one no later occurrence follows. */
  lemma LastIndexOfAt(s: string, c: char, i: int)
    requires -1 <= i < |s| && (0 <= i ==> s[i] == c)
    requires forall k :: i < k < |s| ==> s[k] != c
    ensures LastIndexOf(s, c) == i
  {
  }

  /** `s.find(c)`: the index of the first occurrence of `c`, or -1. */
  function FirstIndexOf(s: string, c: char): (i: int)
    ensures -1 <= i < |s|
    ensures 0 <= i ==> s[i] == c
    ensures forall k :: 0 <= k < |s| && (i == -1 || k < i) ==> s[k] != c
  {
    if |s| == 0 then -1
    else if s[0] == c then 0
    else
      var j := FirstIndexOf(s[1..], c);
      if j == -1 then -1 else j + 1
  }

  /** True when some character of `s[from..to]` is not a dot. */
  predicate HasNonDot(s: string, from: int, to: int)
    requires 0 <= from <= to <= |s|
  {
    exists k :: from <= k < to && s[k] != '.'
  }

  /** `os.path.splitext(p)[1]` with `/` as separator: the text from the last
      dot of the last path component, provided that component has a non-dot
      character before that dot; otherwise the empty string. */
  function SplitExt(p: string): string
  {
    var sep := LastIndexOf(p, '/');
    var dot := LastIndexOf(p, '.');
    if dot > sep && HasNonDot(p, sep + 1, dot) then p[dot..] else ""
  }

  /** The extension is empty, or a dot followed by neither dots nor slashes
      that ends the path after a component part that is not all dots. */
  lemma SplitExtShape(p: string)
    ensures var ext := SplitExt(p);
      ext == "" ||
      (ext[0] == '.' && EndsWith(p, ext) &&
       (forall k :: 0 < k < |ext| ==> ext[k] != '.' && ext[k] != '/') &&
       exists k :: 0 <= k < |p| - |ext| && p[k] != '.' && p[k] != '/')
  {
    var sep := LastIndexOf(p, '/');
    var dot := LastIndexOf(p, '.');
    if dot > sep && HasNonDot(p, sep + 1, dot) {
      var k :| sep + 1 <= k < dot && p[k] != '.';
      assert p[k] != '/';
    }
  }

  /** Conversely, a dot followed by neither dots nor slashes, with a
      character other than a dot or a slash between it and the previous
      slash, starts the extension. */
  lemma SplitExtAt(p: string, d: int, k: int)
    requires 0 <= k < d < |p| && p[d] == '.'
    requires forall m :: d < m < |p| ==> p[m] != '.' && p[m] != '/'
    requires p[k] != '.' && p[k] != '/'
    requires forall m :: k < m < d ==> p[m] != '/'
    ensures SplitExt(p) == p[d..]
  {
    LastIndexOfAt(p, '.', d);
    var sep := LastIndexOf(p, '/');
    assert sep < k;
    assert HasNonDot(p, sep + 1, d);
  }

  /** `s.split('.')[-1]`: the text after the last dot, or all of `s` when it
      has none. */
  function AfterLastDot(s: string): string
  {
    s[LastIndexOf(s, '.') + 1..]
  }

  /** The tag is the dot-free end of `s`: all of `s`, or what follows a dot. */
  lemma AfterLastDotShape(s: string)
    ensures var tag := AfterLastDot(s);
      EndsWith(s, tag) &&
      (forall k :: 0 <= k < |tag| ==> tag[k] != '.') &&
      (|tag| < |s| ==> s[|s| - |tag| - 1] == '.')
  {
  }

  /** `os.path.join(folder, name)` on POSIX: an absolute name replaces the
      folder; otherwise one `/` separates the two unless the folder is empty
      or already ends in one. */
  function Join(folder: string, name: string): string
  {
    if |name| > 0 && name[0] == '/' then name
    else if folder == [] || folder[|folder| - 1] == '/' then folder + name
    else folder + "/" + name
  }

  /** The joined path ends with the name, and a relative name is preceded by
      the folder and at most one added separator. */
  lemma JoinShape(folder: string, name: string)
    ensures EndsWith(Join(folder, name), name)
    ensures !(|name| > 0 && name[0] == '/') ==>
      Join(folder, name) == folder + name || Join(folder, name) == folder + "/" + name
  {
  }
}
