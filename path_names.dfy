/** File-name arithmetic: the renderer's own basename expression, and the parts
    of Node's `path` module that the main process calls (`basename`,
    `dirname`, `extname`, `join`), with POSIX separators. */
module PathNames {
  import opened Seqs
  import opened Text

  /** The renderer's basename,
      `p.substring(p.lastIndexOf(p.includes('/') ? '/' : '\\') + 1)`:
      the text after the last `/` if there is one, else after the last `\`,
      else the whole path. */
  function DisplayName(p: string): (r: string)
    ensures |r| <= |p| && r == p[|p| - |r|..]
    ensures '/' !in r
    ensures '/' !in p ==> '\\' !in r
    ensures '/' in p ==> |r| < |p| && p[|p| - |r| - 1] == '/'
    ensures '/' !in p && '\\' in p ==> |r| < |p| && p[|p| - |r| - 1] == '\\'
    ensures '/' !in p && '\\' !in p ==> r == p
  {
    var sep := if '/' in p then '/' else '\\';
    var k := LastIndexOf(p, sep);
    assert p[k + 1..] == p[|p| - |p[k + 1..]|..];
    p[k + 1..]
  }

  /** `path.basename(p)`: the text after the last `/`. */
  function Basename(p: string): (r: string)
    ensures |r| <= |p| && r == p[|p| - |r|..]
    ensures '/' !in r
    ensures '/' !in p ==> r == p
    ensures '/' in p ==> EndsWith(p, "/" + r)
  {
    var k := LastIndexOf(p, '/');
    assert k >= 0 ==> p[k..] == "/" + p[k + 1..];
    p[k + 1..]
  }

  /** `path.dirname(p)`: the text before the last `/`; `/` for a file in the
      root directory and `.` for a bare name. */
  function Dirname(p: string): string {
    var k := LastIndexOf(p, '/');
    if k == -1 then "." else if k == 0 then "/" else p[..k]
  }

  /** The extension of a file name: from its last `.` to its end, unless that
      dot is the name's first character (a hidden file) or the name is `..`,
      when it is empty. */
  function ExtensionOf(b: string): (r: string)
    ensures r == [] || (r[0] == '.' && '.' !in r[1..])
    ensures r == [] || (EndsWith(b, r) && |r| < |b|)
    ensures r == [] <==> (b == ".." || forall k :: 1 <= k < |b| ==> b[k] != '.')
  {
    var k := LastIndexOf(b, '.');
    LastDotPosition(b);
    if k <= 0 || b == ".." then "" else b[k..]
  }

  /** The last `.` of a name is past its first character exactly when the
      name has a `.` after its first character. */
  lemma LastDotPosition(b: string)
    ensures LastIndexOf(b, '.') > 0 <==> exists j :: 1 <= j < |b| && b[j] == '.'
  {
    var k := LastIndexOf(b, '.');
    if k <= 0 {
      forall j | 1 <= j < |b| ensures b[j] != '.' {
        assert b[j] == b[k + 1..][j - k - 1];
      }
    }
  }

  /** `path.extname(p)`: the extension of the basename. */
  function Extname(p: string): (r: string)
    ensures r == [] || (r[0] == '.' && '.' !in r[1..])
    ensures r == [] || (EndsWith(Basename(p), r) && |r| < |Basename(p)|)
    ensures '/' !in r
    ensures var b := Basename(p);
      r == [] <==> (b == ".." || forall k :: 1 <= k < |b| ==> b[k] != '.')
  {
    var b := Basename(p);
    var r := ExtensionOf(b);
    assert r != [] ==> r == b[|b| - |r|..];
    r
  }

  /** `path.basename(p, suffix)`: the basename with `suffix` cut off its end
      when it ends with it (case-sensitively) and is not just `suffix`. */
  function BasenameWithout(p: string, suffix: string): (r: string)
    ensures '/' !in r
  {
    if suffix == [] then Basename(p)
    else if p == suffix then ""
    else
      var b := Basename(p);
      if b != suffix && EndsWith(b, suffix) then b[..|b| - |suffix|] else b
  }

  /** `path.basename(p, path.extname(p))`. */
  function Stem(p: string): string {
    BasenameWithout(p, Extname(p))
  }

  /** A non-empty extension is cut off the basename to give the stem. */
  lemma StemCutsExtension(p: string)
    requires Extname(p) != []
    ensures |Extname(p)| < |Basename(p)|
    ensures Stem(p) == Basename(p)[..|Basename(p)| - |Extname(p)|]
  {
    var b, e := Basename(p), Extname(p);
    assert |e| < |b| <= |p|;
    assert p != e && b != e;
  }

  /** The stem and the extension put back together give the basename. */
  lemma StemAndExtension(p: string)
    ensures Stem(p) + Extname(p) == Basename(p)
  {
    if Extname(p) == [] {
      assert Stem(p) == Basename(p);
    } else {
      StemCutsExtension(p);
      CutSuffix(Basename(p), Extname(p));
    }
  }

  /** `path.join(dir, name)` for a name without `.` or `..` segments and a
      directory that `dirname` returned: `.` disappears and exactly one `/`
      separates the two. */
  function Join(dir: string, name: string): (r: string)
    ensures EndsWith(r, name)
  {
    if dir == "." then name
    else if EndsWith(dir, "/") then dir + name
    else dir + "/" + name
  }

  /** The directory part `Join` puts in front of a name does not depend on the name. */
  function JoinPrefix(dir: string): string {
    if dir == "." then "" else if EndsWith(dir, "/") then dir else dir + "/"
  }

  lemma JoinIsPrefixed(dir: string, name: string)
    ensures Join(dir, name) == JoinPrefix(dir) + name
  {
  }

  /** Joining one directory with two different names gives two different paths. */
  lemma JoinInjective(dir: string, a: string, b: string)
    requires Join(dir, a) == Join(dir, b)
    ensures a == b
  {
    JoinIsPrefixed(dir, a);
    JoinIsPrefixed(dir, b);
    var pre := JoinPrefix(dir);
    assert a == (pre + a)[|pre|..];
    assert b == (pre + b)[|pre|..];
  }

  /** The basename of a joined path is the name that was joined, when that
      name has no `/` of its own. */
  lemma BasenameOfJoin(dir: string, name: string)
    requires '/' !in name
    requires dir == "." || name != []
    ensures Basename(Join(dir, name)) == name
  {
    var r := Join(dir, name);
    JoinIsPrefixed(dir, name);
    var pre := JoinPrefix(dir);
    if dir != "." {
      assert pre[|pre| - 1] == '/';
      var k := LastIndexOf(r, '/');
      assert r[|pre| - 1] == '/';
      assert r[|pre|..] == name;
      assert k <= |pre| - 1 by {
        assert forall i :: |pre| <= i < |r| ==> r[i] == name[i - |pre|];
      }
      assert k >= |pre| - 1 by {
        assert forall i :: k < i < |r| ==> r[i] != '/';
      }
    }
  }
}
