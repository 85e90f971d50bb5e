/**
 * The pieces of Python's `str` and `posixpath` that the editor relies on:
 * `str.rfind`, `os.path.splitext`, the tail of `os.path.split`,
 * `str.lower`/`str.upper` and `str.rstrip('\x00')`.
 */
module PyText {

  /** `s.rfind(c)`: the index of the last `c` in `s`, or -1. */
  function RFind(s: string, c: char): (r: int)
    ensures -1 <= r < |s|
    ensures r >= 0 ==> s[r] == c
    ensures forall j :: r < j < |s| ==> s[j] != c
    ensures r == -1 <==> c !in s
  {
    if s == [] then -1
    else if s[|s| - 1] == c then |s| - 1
    else RFind(s[..|s| - 1], c)
  }

  /** Some character of `s[lo..hi]` is not a dot. */
  predicate HasNonDot(s: string, lo: int, hi: int)
    requires 0 <= lo <= hi <= |s|
  {
    exists i :: lo <= i < hi && s[i] != '.'
  }

  /**
   * `os.path.splitext(p)`: the extension starts at the last dot of the last path
   * component, provided some character before it in that component is not a dot
   * (so `.bashrc` has no extension); otherwise the extension is empty.
   */
  function Splitext(p: string): (r: (string, string))
    ensures r.0 + r.1 == p
    ensures r.1 != [] ==> r.1[0] == '.' && '.' !in r.1[1..] && '/' !in r.1
  {
    var sep := RFind(p, '/');
    var dot := RFind(p, '.');
    if sep < dot && HasNonDot(p, sep + 1, dot) then
      NoCharAfter(p, dot, '.');
      NoCharAfter(p, dot - 1, '/');
      assert p[dot + 1..] == p[dot..][1..];
      (p[..dot], p[dot..])
    else
      (p, "")
  }

  /** The tail returned by `os.path.split(p)`: everything after the last `/`. */
  function Basename(p: string): (r: string)
    ensures '/' !in r
    ensures |r| <= |p| && p == p[..|p| - |r|] + r
    ensures |r| < |p| ==> p[|p| - |r| - 1] == '/'
  {
    var sep := RFind(p, '/');
    NoCharAfter(p, sep, '/');
    p[sep + 1..]
  }

  /** No `c` after index `i`: the suffix from `i + 1` holds no `c`. */
  lemma NoCharAfter(s: string, i: int, c: char)
    requires -1 <= i < |s|
    requires forall j :: i < j < |s| ==> s[j] != c
    ensures c !in s[i + 1..]
    ensures s == s[..i + 1] + s[i + 1..]
  {
  }

  function LowerChar(c: char): char {
    if 'A' <= c <= 'Z' then (c as int + 32) as char else c
  }

  function UpperChar(c: char): char {
    if 'a' <= c <= 'z' then (c as int - 32) as char else c
  }

  /** `s.lower()` on the ASCII letters. */
  function Lower(s: string): (r: string)
    ensures |r| == |s| && forall i :: 0 <= i < |s| ==> r[i] == LowerChar(s[i])
  {
    seq(|s|, i requires 0 <= i < |s| => LowerChar(s[i]))
  }

  /** `s.upper()` on the ASCII letters. */
  function Upper(s: string): (r: string)
    ensures |r| == |s| && forall i :: 0 <= i < |s| ==> r[i] == UpperChar(s[i])
  {
    seq(|s|, i requires 0 <= i < |s| => UpperChar(s[i]))
  }

  /** Upper-casing forgets an earlier lower-casing. */
  lemma UpperOfLower(s: string)
    ensures Upper(Lower(s)) == Upper(s)
  {
  }

  /** `s.rstrip('\x00')`: `s` without its trailing NUL characters. */
  function StripTrailingNul(s: string): (r: string)
    ensures |r| <= |s| && r == s[..|r|]
    ensures r == [] || r[|r| - 1] != '\0'
    ensures forall i :: |r| <= i < |s| ==> s[i] == '\0'
  {
    if s == [] || s[|s| - 1] != '\0' then s
    else StripTrailingNul(s[..|s| - 1])
  }

  /** Stripping twice strips nothing more. */
  lemma StripTrailingNulIdempotent(s: string)
    ensures StripTrailingNul(StripTrailingNul(s)) == StripTrailingNul(s)
  {
  }

  /** Where the last occurrence of `c` lies in a concatenation. */
  lemma {:induction false} RFindAppend(a: string, b: string, c: char)
    ensures RFind(a + b, c) == if c in b then |a| + RFind(b, c) else RFind(a, c)
    decreases |b|
  {
    if b != [] {
      var ab := a + b;
      assert ab[|ab| - 1] == b[|b| - 1];
      if b[|b| - 1] != c {
        assert ab[..|ab| - 1] == a + b[..|b| - 1];
        RFindAppend(a, b[..|b| - 1], c);
        assert c in b <==> c in b[..|b| - 1] by {
          assert b == b[..|b| - 1] + [b[|b| - 1]];
        }
      }
    } else {
      assert a + b == a;
    }
  }

  /** A range of `name` has a non-dot exactly when the same range, shifted past `dir`, does. */
  lemma HasNonDotShifted(dir: string, name: string, d: int)
    requires 0 <= d <= |name|
    ensures HasNonDot(dir + name, |dir|, |dir| + d) <==> HasNonDot(name, 0, d)
  {
    var p := dir + name;
    if HasNonDot(p, |dir|, |dir| + d) {
      var i :| |dir| <= i < |dir| + d && p[i] != '.';
      assert name[i - |dir|] == p[i];
    }
    if HasNonDot(name, 0, d) {
      var i :| 0 <= i < d && name[i] != '.';
      assert p[|dir| + i] == name[i];
    }
  }

  /**
   * The extension of a path is that of its last component: whatever comes before
   * the last `/` does not matter.
   */
  lemma ExtOfLastComponent(dir: string, name: string)
    requires '/' !in name
    requires dir == [] || dir[|dir| - 1] == '/'
    ensures Splitext(dir + name).1 == Splitext(name).1
  {
    var p := dir + name;
    RFindAppend(dir, name, '/');
    RFindAppend(dir, name, '.');
    assert RFind(p, '/') == |dir| - 1;
    if '.' in name {
      var d := RFind(name, '.');
      assert RFind(p, '.') == |dir| + d;
      HasNonDotShifted(dir, name, d);
      assert p[|dir| + d..] == name[d..];
    } else {
      assert RFind(p, '.') < |dir|;
    }
  }

  /** The extension of a path whose last component is `name + ext`. */
  lemma SplitextOfNamedFile(dir: string, name: string, ext: string)
    requires '/' !in name && '/' !in ext
    requires dir == [] || dir[|dir| - 1] == '/'
    requires HasNonDot(name, 0, |name|)
    requires |ext| > 0 && ext[0] == '.' && '.' !in ext[1..]
    ensures Splitext(dir + name + ext) == (dir + name, ext)
  {
    var p := dir + name + ext;
    assert p == (dir + name) + ext;
    RFindAppend(dir + name, ext, '/');
    RFindAppend(dir + name, ext, '.');
    RFindAppend(dir, name, '/');
    assert ext == [ext[0]] + ext[1..];
    assert RFind(ext, '.') == 0;
    var sep := RFind(p, '/');
    var dot := RFind(p, '.');
    assert sep == |dir| - 1 && dot == |dir| + |name|;
    var i :| 0 <= i < |name| && name[i] != '.';
    assert p[|dir| + i] == name[i];
    assert HasNonDot(p, sep + 1, dot);
    assert p[..dot] == dir + name;
  }

  /** The same for a bare file name. */
  lemma SplitextOfFileName(name: string, ext: string)
    requires '/' !in name && '/' !in ext
    requires HasNonDot(name, 0, |name|)
    requires |ext| > 0 && ext[0] == '.' && '.' !in ext[1..]
    ensures Splitext(name + ext) == (name, ext)
  {
    SplitextOfNamedFile("", name, ext);
    assert "" + name == name;
  }
}
