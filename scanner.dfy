/**
 * The file filter of main: of every file the walk of the project
 * directory yields, the .gd files whose full path contains no ignored
 * word are the scripts to document, in walk order.
 *
 * The walk is given as its (folder, file names) pairs.
 */
module Scanner {
  import opened PyStr
  import opened OsPath

  /** IGNORES: folders whose scripts are not documented. */
  const Ignores: seq<string> := ["modules"]

  /** Some word of `words` occurs in the path. */
  predicate AnyIn(fullPath: string, words: seq<string>) {
    |words| > 0 && (AnyIn(fullPath, words[..|words| - 1]) || Contains(fullPath, words[|words| - 1]))
  }

  /** The `ignored` flag the loop computes for one file. */
  predicate IsIgnored(fullPath: string, filename: string) {
    !EndsWith(filename, ".gd") || AnyIn(fullPath, Ignores)
  }

  predicate Keep(folder: string, filename: string) {
    !IsIgnored(Join(folder, filename), filename)
  }

  /** The full paths kept from one folder's files, in order. */
  function KeptIn(folder: string, files: seq<string>): seq<string> {
    if |files| == 0 then []
    else
      var last := files[|files| - 1];
      KeptIn(folder, files[..|files| - 1]) + (if Keep(folder, last) then [Join(folder, last)] else [])
  }

  /** The full paths kept from the whole walk, in order. */
  function Selected(walk: seq<(string, seq<string>)>): seq<string> {
    if |walk| == 0 then []
    else Selected(walk[..|walk| - 1]) + KeptIn(walk[|walk| - 1].0, walk[|walk| - 1].1)
  }

  /** The `ignored` flag: set unless the name ends in .gd, and set again by any ignored word in the path. */
  method Ignored(fullPath: string, filename: string) returns (ignored: bool)
    ensures ignored == IsIgnored(fullPath, filename)
  {
    ignored := true;
    if EndsWith(filename, ".gd") {
      ignored := false;
    }
    var g := 0;
    while g < |Ignores|
      invariant 0 <= g <= |Ignores|
      invariant ignored == (!EndsWith(filename, ".gd") || AnyIn(fullPath, Ignores[..g]))
    {
      assert Ignores[..g + 1][..g] == Ignores[..g];
      if Contains(fullPath, Ignores[g]) {
        ignored := true;
      }
      g := g + 1;
    }
    assert Ignores[..|Ignores|] == Ignores;
  }

  /** The nested loops of main that fill script_files. */
  method CollectScripts(walk: seq<(string, seq<string>)>) returns (scriptFiles: seq<string>)
    ensures scriptFiles == Selected(walk)
  {
    scriptFiles := [];
    var w := 0;
    while w < |walk|
      invariant 0 <= w <= |walk|
      invariant scriptFiles == Selected(walk[..w])
    {
      var folder := walk[w].0;
      var files := walk[w].1;
      var f := 0;
      while f < |files|
        invariant 0 <= f <= |files|
        invariant scriptFiles == Selected(walk[..w]) + KeptIn(folder, files[..f])
      {
        var filename := files[f];
        var fullPath := Join(folder, filename);
        var ignored := Ignored(fullPath, filename);
        KeptInStep(folder, files, f, fullPath, ignored);
        Assoc(Selected(walk[..w]), KeptIn(folder, files[..f]), if ignored then [] else [fullPath]);
        if !ignored {
          scriptFiles := scriptFiles + [fullPath];
        }
        f := f + 1;
      }
      assert files[..|files|] == files;
      SelectedStep(walk, w);
      w := w + 1;
    }
    assert walk[..|walk|] == walk;
  }

  lemma SelectedStep(walk: seq<(string, seq<string>)>, w: nat)
    requires w < |walk|
    ensures Selected(walk[..w + 1]) == Selected(walk[..w]) + KeptIn(walk[w].0, walk[w].1)
  {
    assert walk[..w + 1][..w] == walk[..w];
  }

  lemma KeptInStep(folder: string, files: seq<string>, f: nat, fullPath: string, ignored: bool)
    requires f < |files| && fullPath == Join(folder, files[f]) && ignored == IsIgnored(fullPath, files[f])
    ensures KeptIn(folder, files[..f + 1]) == KeptIn(folder, files[..f]) + (if ignored then [] else [fullPath])
  {
    assert files[..f + 1][..f] == files[..f];
  }

  // ---------------------------------------------------------------------
  // What the filter keeps

  /** The j-th file of the folder passes the filter and p is its full path. */
  predicate KeptAt(folder: string, files: seq<string>, j: int, p: string) {
    0 <= j < |files| && Keep(folder, files[j]) && p == Join(folder, files[j])
  }

  /** A folder's file is kept exactly when it passes the filter. */
  lemma KeptInMember(folder: string, files: seq<string>, p: string)
    ensures p in KeptIn(folder, files) <==> exists j :: KeptAt(folder, files, j, p)
  {
    if p in KeptIn(folder, files) {
      KeptInFrom(folder, files, p);
    }
    if exists j :: KeptAt(folder, files, j, p) {
      var j :| KeptAt(folder, files, j, p);
      KeptInHas(folder, files, j, p);
    }
  }

  /** Every kept path comes from a file that passes the filter. */
  lemma {:induction false} KeptInFrom(folder: string, files: seq<string>, p: string)
    requires p in KeptIn(folder, files)
    ensures exists j :: KeptAt(folder, files, j, p)
  {
    var n := |files| - 1;
    var init := files[..n];
    var added := if Keep(folder, files[n]) then [Join(folder, files[n])] else [];
    assert KeptIn(folder, files) == KeptIn(folder, init) + added;
    if p in KeptIn(folder, init) {
      KeptInFrom(folder, init, p);
      var j :| KeptAt(folder, init, j, p);
      assert init[j] == files[j];
      assert KeptAt(folder, files, j, p);
    } else {
      assert p in added;
      assert KeptAt(folder, files, n, p);
    }
  }

  /** Every file that passes the filter has its path kept. */
  lemma {:induction false} KeptInHas(folder: string, files: seq<string>, j: int, p: string)
    requires KeptAt(folder, files, j, p)
    ensures p in KeptIn(folder, files)
  {
    var n := |files| - 1;
    var init := files[..n];
    var added := if Keep(folder, files[n]) then [Join(folder, files[n])] else [];
    assert KeptIn(folder, files) == KeptIn(folder, init) + added;
    if j < n {
      assert init[j] == files[j];
      KeptInHas(folder, init, j, p);
    } else {
      assert p in added;
    }
  }

  /** A path is selected exactly when some file of some folder of the walk passes the filter there. */
  lemma {:induction false} SelectedMember(walk: seq<(string, seq<string>)>, p: string)
    ensures p in Selected(walk)
        <==> exists i, j :: 0 <= i < |walk| && KeptAt(walk[i].0, walk[i].1, j, p)
  {
    if |walk| > 0 {
      var init := walk[..|walk| - 1];
      var last := walk[|walk| - 1];
      SelectedMember(init, p);
      KeptInMember(last.0, last.1, p);
      forall i | 0 <= i < |init| ensures init[i] == walk[i] {
      }
    }
  }

  /** Every selected path is a .gd file with no ignored word in it. */
  lemma SelectedAreScripts(walk: seq<(string, seq<string>)>, p: string)
    requires p in Selected(walk)
    ensures EndsWith(p, ".gd")
    ensures forall k :: 0 <= k < |Ignores| ==> !Contains(p, Ignores[k])
  {
    SelectedMember(walk, p);
    var i, j :| 0 <= i < |walk| && KeptAt(walk[i].0, walk[i].1, j, p);
    JoinShape(walk[i].0, walk[i].1[j]);
    EndsWithTrans(p, walk[i].1[j], ".gd");
    AnyInIff(p, Ignores);
  }

  lemma {:induction false} AnyInIff(fullPath: string, words: seq<string>)
    ensures AnyIn(fullPath, words) <==> exists k :: 0 <= k < |words| && Contains(fullPath, words[k])
  {
    if |words| > 0 {
      var init := words[..|words| - 1];
      AnyInIff(fullPath, init);
      if exists k :: 0 <= k < |words| && Contains(fullPath, words[k]) {
        var k :| 0 <= k < |words| && Contains(fullPath, words[k]);
        if k < |words| - 1 {
          assert init[k] == words[k];
        }
      }
      if AnyIn(fullPath, init) {
        var k :| 0 <= k < |init| && Contains(fullPath, init[k]);
        assert words[k] == init[k];
      }
    }
  }

  /** The ignore test looks at the whole path: a project inside a folder named modules keeps nothing. */
  lemma IgnoredFolder(folder: string, filename: string)
    requires Contains(folder, "modules") && !StartsWith(filename, "/")
    ensures !Keep(folder, filename)
  {
    var p := Join(folder, filename);
    JoinShape(folder, filename);
    ContainsInPrefix(p, folder, "modules");
    assert Ignores[..0] == [];
  }
}
