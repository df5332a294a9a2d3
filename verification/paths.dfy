/** POSIX path helpers with the semantics of Python's `os.path` on Linux:
    `basename`, `join` (two arguments) and `splitext`. */
module Paths {
  import opened Results
  import opened Text

  /** Index of the last occurrence of `c` in `s` (Python's `s.rfind(c)`),
      `None` when `c` does not occur. */
  function RFind(s: string, c: char): (r: Option<nat>)
    ensures r.Some? ==> r.value < |s| && s[r.value] == c
    ensures r.Some? ==> forall j :: r.value < j < |s| ==> s[j] != c
    ensures r.None? ==> c !in s
    decreases |s|
  {
    if s == [] then None
    else if s[|s| - 1] == c then Some(|s| - 1)
    else
      var r := RFind(s[..|s| - 1], c);
      assert r.None? ==> forall j :: 0 <= j < |s| ==> s[j] != c by {
        if r.None? {
          forall j | 0 <= j < |s| - 1 ensures s[j] != c {
            assert s[..|s| - 1][j] == s[j];
          }
        }
      }
      r
  }

  /** `os.path.basename(p)`: everything after the last '/'. */
  function Basename(p: string): (b: string)
    ensures '/' !in b
  {
    match RFind(p, '/')
    case None => p
    case Some(i) => p[i + 1..]
  }

  /** The basename is the part of the path after its last separator: a
      suffix of the path, preceded by '/' unless it is the whole path. */
  lemma {:induction false} BasenameIsSuffix(p: string)
    ensures var b := Basename(p);
      |b| <= |p| && p[|p| - |b|..] == b
    ensures var b := Basename(p);
      |b| < |p| ==> p[|p| - |b| - 1] == '/'
  {
  }

  /** A suffix free of separators survives `basename`. */
  lemma {:induction false} BasenameKeepsSuffix(p: string, suffix: string)
    requires '/' !in suffix && EndsWith(p, suffix)
    ensures EndsWith(Basename(p), suffix)
  {
    var b := Basename(p);
    assert p[|p| - |suffix|..] == b[|b| - |suffix|..];
  }

  /** The basename of `a + "/" + b` is `b` when `b` contains no '/'. */
  lemma {:induction false} BasenameAfterSlash(a: string, b: string)
    requires '/' !in b
    ensures Basename(a + "/" + b) == b
  {
    var p := a + "/" + b;
    assert forall j :: |a| < j < |p| ==> p[j] == b[j - |a| - 1];
    RFindIsLast(p, '/', |a|);
    assert p[|a| + 1..] == b;
  }

  /** The last occurrence is the only index holding `c` with no `c` after it. */
  lemma {:induction false} RFindIsLast(s: string, c: char, i: nat)
    requires i < |s| && s[i] == c
    requires forall j :: i < j < |s| ==> s[j] != c
    ensures RFind(s, c) == Some(i)
  {
  }

  lemma {:induction false} RFindAbsent(s: string, c: char)
    requires c !in s
    ensures RFind(s, c) == None
  {
  }

  /** `os.path.join(a, b)` for two components. */
  function JoinPath(a: string, b: string): string
  {
    if |b| > 0 && b[0] == '/' then b
    else if a == [] || a[|a| - 1] == '/' then a + b
    else a + "/" + b
  }

  /** A joined path ends with the name joined on. */
  lemma {:induction false} JoinPathEndsWith(a: string, b: string)
    ensures EndsWith(JoinPath(a, b), b)
  {
    if !(|b| > 0 && b[0] == '/') && !(a == [] || a[|a| - 1] == '/') {
      assert a + "/" + b == (a + "/") + b;
    }
  }

  /** The basename of a path joined onto a directory is the joined name
      again, so long as that name contains no separator. */
  lemma {:induction false} BasenameOfJoin(dir: string, name: string)
    requires '/' !in name
    ensures Basename(JoinPath(dir, name)) == name
  {
    var p := JoinPath(dir, name);
    var k := |p| - |name|;
    assert p[k..] == name;
    if dir == [] {
      assert p == name;
    } else {
      assert p[k - 1] == '/';
      var i := RFind(p, '/').value;
      assert i >= k - 1;
      assert forall j :: k <= j < |p| ==> p[j] == name[j - k];
    }
  }

  /** The file a path names, as far as the spelling of the path goes: POSIX
      treats a run of '/' like a single one, so "out//x.jpg" and "out/x.jpg"
      name the same file. */
  function FileKey(p: string): string
    decreases |p|
  {
    if |p| < 2 then p
    else if p[0] == '/' && p[1] == '/' then FileKey(p[1..])
    else [p[0]] + FileKey(p[1..])
  }

  /** A doubled separator names the same file as a single one. */
  lemma {:induction false} FileKeyDoubleSlash(x: string, y: string)
    ensures FileKey(x + "//" + y) == FileKey(x + "/" + y)
    decreases |x|
  {
    if x == [] {
      assert ("//" + y)[1..] == "/" + y;
    } else {
      var p, q := x + "//" + y, x + "/" + y;
      assert p[0] == q[0] == x[0] && p[1] == q[1];
      assert p[1..] == x[1..] + "//" + y && q[1..] == x[1..] + "/" + y;
      FileKeyDoubleSlash(x[1..], y);
    }
  }

  /** A path with no doubled separator is its own file key. */
  lemma {:induction false} FileKeyOfSingleSlashes(p: string)
    requires forall i :: 0 < i < |p| ==> p[i - 1] != '/' || p[i] != '/'
    ensures FileKey(p) == p
    decreases |p|
  {
    if |p| >= 2 {
      assert p[1 - 1] != '/' || p[1] != '/';
      assert forall i :: 0 < i < |p[1..]| ==> p[1..][i - 1] == p[i] && p[1..][i] == p[i + 1];
      FileKeyOfSingleSlashes(p[1..]);
      assert p == [p[0]] + p[1..];
    }
  }

  /** A name without '/' is its own file key. */
  lemma {:induction false} FileKeyOfName(name: string)
    requires '/' !in name
    ensures FileKey(name) == name
  {
    forall i | 0 < i < |name|
      ensures name[i] != '/'
    {
      assert name[i] in name;
    }
    FileKeyOfSingleSlashes(name);
  }

  /** A directory and a name, neither containing '/', joined by one '/'
      form their own file key. */
  lemma {:induction false} FileKeyOfDirName(dir: string, name: string)
    requires '/' !in dir && '/' !in name
    ensures FileKey(dir + "/" + name) == dir + "/" + name
  {
    var p := dir + "/" + name;
    forall i | 0 < i < |p|
      ensures p[i - 1] != '/' || p[i] != '/'
    {
      if i - 1 < |dir| {
        assert p[i - 1] == dir[i - 1] && dir[i - 1] in dir;
      } else {
        assert p[i] == name[i - |dir| - 1] && name[i - |dir| - 1] in name;
      }
    }
    FileKeyOfSingleSlashes(p);
  }

  /** `join(dir, name)` names the file `dir + "/" + name` when `dir` is not
      empty and `name` does not start at the root, whether or not `dir` ends
      in '/'. */
  lemma {:induction false} JoinPathSameFile(dir: string, name: string)
    requires dir != [] && (name == [] || name[0] != '/')
    ensures FileKey(JoinPath(dir, name)) == FileKey(dir + "/" + name)
    ensures dir[|dir| - 1] != '/' ==> JoinPath(dir, name) == dir + "/" + name
  {
    if dir[|dir| - 1] == '/' {
      var d := dir[..|dir| - 1];
      assert dir == d + "/";
      assert dir + "/" + name == d + "//" + name && JoinPath(dir, name) == d + "/" + name;
      FileKeyDoubleSlash(d, name);
    }
  }

  /** Joined onto the empty directory, a name stays relative, while the
      name written after "" + "/" is at the root: the two are different
      files. */
  lemma {:induction false} JoinPathOntoEmpty(name: string)
    requires '/' !in name
    ensures JoinPath("", name) == name
    ensures FileKey(JoinPath("", name)) != FileKey("" + "/" + name)
  {
    FileKeyOfName(name);
    assert name == [] || name[0] != '/' by {
      if name != [] {
        assert name[0] in name;
      }
    }
    var p := "/" + name;
    assert "" + "/" + name == p;
    if name != [] {
      assert p[0] == '/' && p[1] == name[0] && p[1..] == name;
      assert FileKey(p) == "/" + name;
    }
  }

  /** Where the final component of `p` begins: just after its last '/'. */
  function NameStart(p: string): nat {
    match RFind(p, '/') case None => 0 case Some(s) => s + 1
  }

  /** An extension starts at the last '.' of the path, inside its final
      component. */
  lemma {:induction false} ExtensionAtLastDot(p: string)
    requires SplitExt(p).1 != []
    ensures RFind(p, '.') == Some(|SplitExt(p).0|) && NameStart(p) <= |SplitExt(p).0|
  {
  }

  /** The last '.' starts the extension when some other character of the
      final component precedes it. */
  lemma {:induction false} SplitAtLastDot(p: string, dot: nat, k: nat)
    requires RFind(p, '.') == Some(dot)
    requires NameStart(p) <= k < dot && p[k] != '.'
    ensures SplitExt(p) == (p[..dot], p[dot..])
  {
  }

  /** `os.path.splitext(p)`: the extension is the text from the last '.' of
      the final component, unless that component consists only of dots
      before it (a leading-dot name such as ".bashrc" has no extension). */
  function SplitExt(p: string): (r: (string, string))
    ensures r.0 + r.1 == p
    ensures r.1 != [] ==> r.1[0] == '.' && '/' !in r.1 && '.' !in r.1[1..]
  {
    match RFind(p, '.')
    case None => (p, "")
    case Some(dot) =>
      var sepEnd := NameStart(p);
      if sepEnd <= dot && exists k :: sepEnd <= k < dot && p[k] != '.' then
        assert p[..dot] + p[dot..] == p;
        assert forall j :: 0 <= j < |p[dot..]| ==> p[dot..][j] == p[dot + j];
        (p[..dot], p[dot..])
      else (p, "")
  }
}
