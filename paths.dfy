/**
  The path-string operations the scripts rely on: `os.path.basename`,
  `os.path.dirname`, `os.path.join` and `os.path.splitext` of POSIX Python,
  and the `name`, `stem`, `suffix` and `with_name` of `pathlib.PurePosixPath`.
  Paths are plain strings with '/' as the only separator.
*/
module Paths {
  import opened Results

  /** `str.rfind(c)`: the index of the last `c`, or -1 when there is none. */
  function RFind(s: string, c: char): (i: int)
    ensures -1 <= i < |s|
    ensures i >= 0 ==> s[i] == c
    ensures forall k :: i < k < |s| ==> s[k] != c
  {
    if s == [] then -1
    else if s[|s| - 1] == c then |s| - 1
    else RFind(s[..|s| - 1], c)
  }

  /** `str.find(c)`: the index of the first `c`, or -1 when there is none. */
  function Find(s: string, c: char): (i: int)
    ensures -1 <= i < |s|
    ensures i >= 0 ==> s[i] == c
    ensures forall k :: 0 <= k < |s| && (i < 0 || k < i) ==> s[k] != c
  {
    if s == [] then -1
    else if s[0] == c then 0
    else
      var j := Find(s[1..], c);
      if j < 0 then -1 else j + 1
  }

  /** Searching a concatenation finds the last `c` of the right part if it has one. */
  lemma {:induction false} RFindAppend(s: string, t: string, c: char)
    ensures RFind(s + t, c) == if RFind(t, c) >= 0 then |s| + RFind(t, c) else RFind(s, c)
  {
    if t != [] {
      assert (s + t)[..|s + t| - 1] == s + t[..|t| - 1];
      if t[|t| - 1] != c {
        RFindAppend(s, t[..|t| - 1], c);
      }
    } else {
      assert s + t == s;
    }
  }

  predicate AllSlashes(s: string) {
    forall k :: 0 <= k < |s| ==> s[k] == '/'
  }

  /** `str.rstrip('/')`. */
  function RStripSlashes(s: string): (r: string)
    ensures |r| <= |s| && r == s[..|r|]
    ensures r == [] || r[|r| - 1] != '/'
    ensures forall k :: |r| <= k < |s| ==> s[k] == '/'
  {
    if s != [] && s[|s| - 1] == '/' then RStripSlashes(s[..|s| - 1]) else s
  }

  /** `os.path.basename(p)`: everything after the last separator. */
  function Basename(p: string): (b: string)
    ensures '/' !in b
    ensures |b| <= |p|
  {
    p[RFind(p, '/') + 1..]
  }

  /**
    `os.path.dirname(p)`: everything up to the last separator, with trailing
    separators removed unless the head consists of separators only.
  */
  function Dirname(p: string): string {
    var head := p[..RFind(p, '/') + 1];
    if head != [] && !AllSlashes(head) then RStripSlashes(head) else head
  }

  /** `os.path.join(a, b)` for two components. */
  function Join(a: string, b: string): (r: string)
    ensures |b| > 0 && b[0] == '/' ==> r == b
    ensures (|b| == 0 || b[0] != '/') ==> r == a + b || r == a + "/" + b
  {
    if |b| > 0 && b[0] == '/' then b
    else if a == [] || a[|a| - 1] == '/' then a + b
    else a + "/" + b
  }

  /** Stripping a single trailing separator after a character that is not one. */
  lemma RStripOneSlash(dir: string)
    requires dir != [] && dir[|dir| - 1] != '/'
    ensures RStripSlashes(dir + "/") == dir
  {
    assert (dir + "/")[..|dir + "/"| - 1] == dir;
  }

  /**
    `os.path.splitext(p)`: the extension starts at the last dot of the last
    component, provided that component has a character other than a dot
    before it; otherwise the extension is empty.
  */
  function SplitExt(p: string): (string, string) {
    var sepIndex := RFind(p, '/');
    var dotIndex := RFind(p, '.');
    if dotIndex > sepIndex && exists k :: sepIndex + 1 <= k < dotIndex && p[k] != '.'
    then (p[..dotIndex], p[dotIndex..])
    else (p, "")
  }

  /**
    `PurePosixPath(p).name`: the last component once trailing separators are
    dropped, so `sub-01/` is named `sub-01` and `/` has an empty name.
  */
  function Name(p: string): string {
    Basename(RStripSlashes(p))
  }

  /** The position of the suffix dot of a name, or -1 (Python 3.13 and earlier). */
  function SuffixDot(name: string): (i: int)
    ensures i == -1 || (0 < i < |name| - 1 && name[i] == '.')
  {
    var i := RFind(name, '.');
    if 0 < i < |name| - 1 then i else -1
  }

  /** `PurePath.suffix`: from the last dot on, unless that dot is first or last. */
  function Suffix(name: string): string {
    var i := SuffixDot(name);
    if i == -1 then "" else name[i..]
  }

  /** `PurePath.stem`: the name without its suffix. */
  function Stem(name: string): string {
    var i := SuffixDot(name);
    if i == -1 then name else name[..i]
  }

  /** A name splits into its stem and suffix, and a suffix holds exactly one dot, in front. */
  lemma StemSuffixSplit(name: string)
    ensures Stem(name) + Suffix(name) == name
    ensures Suffix(name) == "" || (|Suffix(name)| >= 2 && Suffix(name)[0] == '.' && '.' !in Suffix(name)[1..])
    ensures Suffix(name) != "" ==> Stem(name) != ""
  {
    var i := SuffixDot(name);
    if i != -1 {
      var suf := name[i..];
      forall k | 1 <= k < |suf| ensures suf[k] != '.' {
        assert suf[k] == name[i + k];
      }
    }
  }

  /**
    `str(PurePosixPath(p).with_name(n))`: the last component replaced by `n`,
    trailing separators dropped. A path with an empty name raises
    ValueError, modelled as None.
  */
  function WithName(p: string, n: string): (r: Option<string>)
    ensures r.None? <==> Name(p) == ""
    ensures r.Some? ==> var q := RStripSlashes(p); r.value == q[..|q| - |Name(p)|] + n
  {
    var q := RStripSlashes(p);
    if Name(p) == "" then None else Some(q[..RFind(q, '/') + 1] + n)
  }

  /**
    Renaming replaces exactly the last component and keeps the directory
    part of the path without its trailing separators.
  */
  lemma WithNameReplacesName(p: string, n: string)
    requires Name(p) != "" && n != "" && '/' !in n
    ensures WithName(p, n).Some?
    ensures Name(WithName(p, n).value) == n
    ensures Dirname(WithName(p, n).value) == Dirname(RStripSlashes(p))
  {
    var q := RStripSlashes(p);
    var r := ReplaceLastComponent(q, n);
    assert WithName(p, n) == Some(r);
    RStripWithoutTrailingSlash(r);
    assert Name(r) == Basename(r);
  }

  /** A path whose last character is not a separator has nothing to strip. */
  lemma RStripWithoutTrailingSlash(r: string)
    requires r != [] && r[|r| - 1] != '/'
    ensures RStripSlashes(r) == r
  {
  }

  /** The last component of `q` replaced by `n`, keeping the directory part. */
  lemma ReplaceLastComponent(q: string, n: string) returns (r: string)
    requires n != "" && '/' !in n
    ensures r == q[..RFind(q, '/') + 1] + n
    ensures r != [] && r[|r| - 1] != '/'
    ensures Basename(r) == n && Dirname(r) == Dirname(q)
  {
    var i := RFind(q, '/');
    var dir := q[..i + 1];
    r := dir + n;
    assert r[|r| - 1] == n[|n| - 1];
    assert RFind(dir, '/') == i by {
      RFindAppend(dir, q[i + 1..], '/');
      assert dir + q[i + 1..] == q;
    }
    assert RFind(r, '/') == i by {
      RFindAppend(dir, n, '/');
      assert RFind(n, '/') == -1;
    }
    assert r[..i + 1] == dir && r[i + 1..] == n;
    SameHeadSameDirname(r, q);
  }

  /** Two paths with the same part up to their last separator have the same dirname. */
  lemma SameHeadSameDirname(p: string, q: string)
    requires p[..RFind(p, '/') + 1] == q[..RFind(q, '/') + 1]
    ensures Dirname(p) == Dirname(q)
  {
  }

  /** Under a directory written with its separator, a plain name is the path's name and is what `with_name` replaces. */
  lemma RenameInDirectory(head: string, name: string, n: string)
    requires head != [] && head[|head| - 1] == '/'
    requires name != [] && '/' !in name
    ensures Name(head + name) == name
    ensures WithName(head + name, n) == Some(head + n)
  {
    var p := head + name;
    assert p[|p| - 1] == name[|name| - 1];
    RStripWithoutTrailingSlash(p);
    assert RFind(name, '/') == -1;
    RFindAppend(head, name, '/');
    assert p[..|head|] == head && p[|head|..] == name;
  }
}
