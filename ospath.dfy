/** The two posixpath functions the model needs: join and basename. */
module OsPath {
  import opened PyStr

  /** os.path.join(a, b) on POSIX: an absolute b replaces a; otherwise one '/' separates them. */
  function Join(a: string, b: string): string {
    if StartsWith(b, "/") then b
    else if a == "" || EndsWith(a, "/") then a + b
    else a + "/" + b
  }

  /** The joined path ends with b and, when b is relative, starts with a. */
  lemma JoinShape(a: string, b: string)
    ensures EndsWith(Join(a, b), b)
    ensures !StartsWith(b, "/") ==> StartsWith(Join(a, b), a)
  {
    var r := Join(a, b);
    assert r[|r| - |b|..] == b;
    if !StartsWith(b, "/") {
      assert r[..|a|] == a;
    }
  }

  /** os.path.basename(p): the text after the last '/'. */
  function Basename(p: string): string {
    if p == "" then ""
    else if p[|p| - 1] == '/' then ""
    else Basename(p[..|p| - 1]) + [p[|p| - 1]]
  }

  /** The basename is the longest suffix of p without '/'. */
  lemma {:induction false} BasenameSpec(p: string)
    ensures var r := Basename(p);
      '/' !in r && EndsWith(p, r) && (|r| == |p| || p[|p| - |r| - 1] == '/')
  {
    if p != "" && p[|p| - 1] != '/' {
      var init := p[..|p| - 1];
      BasenameSpec(init);
      var b := Basename(init);
      var r := Basename(p);
      assert r == b + [p[|p| - 1]];
      assert p[|p| - |r|..] == init[|init| - |b|..] + [p[|p| - 1]];
      if |r| < |p| {
        assert p[|p| - |r| - 1] == init[|init| - |b| - 1];
      }
    }
  }

  /** A suffix without '/' survives into the basename. */
  lemma BasenameKeepsSuffix(p: string, x: string)
    requires EndsWith(p, x) && '/' !in x
    ensures EndsWith(Basename(p), x)
  {
    BasenameSpec(p);
    var b := Basename(p);
    assert b[|b| - |x|..] == p[|p| - |x|..];
  }
}
