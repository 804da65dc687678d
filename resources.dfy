/**
 * Project paths: clean_path turns a res:// path into a file-system path,
 * find_script reads the script a scene's root node carries, and
 * localise_path names the Markdown file a script's documentation goes to.
 *
 * Files are a map from path to contents; reading a missing path is a
 * FileNotFound error. os.path.relpath is a parameter of the model.
 */
module Resources {
  import opened PyStr
  import opened PyInt
  import opened Outcomes
  import opened OsPath
  import opened Between

  const ResPrefix := "res://"

  // The markers find_script looks for in a scene file.
  const NodeStart := "[node "
  const NodeEnd := "["
  const ScriptStart := "script = ExtResource("
  const ScriptEnd := ")"
  const ExtStart := "[ext_resource path=\""

  /** The text that ends the path of the ext_resource entry with the given id. */
  function ExtEnd(id: int): (r: string)
    ensures StartsWith(r, "\" type=\"Script\" id=") && |r| > |"\" type=\"Script\" id="|
  {
    "\" type=\"Script\" id=" + IntToString(id)
  }

  /** clean_path: every res:// removed, then joined under the project directory. */
  function CleanPath(path: string, projectDir: string): (r: string)
    ensures EndsWith(r, Replace(path, ResPrefix, ""))
  {
    JoinShape(projectDir, Replace(path, ResPrefix, ""));
    Join(projectDir, Replace(path, ResPrefix, ""))
  }

  /** The path find_script falls back to: every .tscn replaced by .gd. */
  function Fallback(tscnFile: string): string {
    Replace(tscnFile, ".tscn", ".gd")
  }

  /**
   * find_script over the scene's text: the first "[node " section up to
   * the next '[' is the root node; its script = ExtResource(id) names
   * an id; the path is the text between the first [ext_resource path="
   * and the first " type="Script" id=<id> after it. A missing step falls
   * back to the .gd next to the scene; an id that is not a number is
   * int()'s ValueError.
   */
  function FindScriptIn(data: string, tscnFile: string, projectDir: string): (r: Result<string>)
    ensures r.Err? ==> r.error == ValueError
  {
    var root := GetBetween(data, NodeStart, NodeEnd, 0, true);
    if root.None? then Ok(Fallback(tscnFile))
    else
      var resource := GetBetween(root.value.text, ScriptStart, ScriptEnd, 0, false);
      if resource.None? then Ok(Fallback(tscnFile))
      else
        match ParseInt(resource.value.text)
        case None => Err(ValueError)
        case Some(id) =>
          var path := GetBetween(data, ExtStart, ExtEnd(id), 0, false);
          if path.None? then Ok(Fallback(tscnFile))
          else Ok(CleanPath(path.value.text, projectDir))
  }

  /** find_script: the scene file is read first. */
  function FindScript(tscnFile: string, projectDir: string, fs: map<string, string>): (r: Result<string>)
    ensures tscnFile !in fs <==> r == Err(FileNotFound(tscnFile))
    ensures r.Err? ==> r.error == FileNotFound(tscnFile) || r.error == ValueError
  {
    if tscnFile !in fs then Err(FileNotFound(tscnFile))
    else FindScriptIn(fs[tscnFile], tscnFile, projectDir)
  }

  /**
   * localise_path: a scene stands for its script; the script's path
   * relative to the project has every .gd replaced by .md and is joined
   * under the output folder.
   */
  function LocalisePath(outfolder: string, projectDir: string, script: string, fs: map<string, string>,
                        relpath: (string, string) -> string): (r: Result<string>)
    ensures !EndsWith(script, ".tscn") ==> r.Ok?
    ensures r.Err? ==> r == FindScript(script, projectDir, fs)
  {
    var s :- if EndsWith(script, ".tscn") then FindScript(script, projectDir, fs) else Ok(script);
    Ok(Join(outfolder, Replace(relpath(s, projectDir), ".gd", ".md")))
  }

  // ---------------------------------------------------------------------
  // clean_path

  /** clean_path removes every res:// in one left-to-right pass: the pieces between them are joined. */
  lemma CleanPathRemovesEvery(path: string, projectDir: string)
    ensures CleanPath(path, projectDir) == Join(projectDir, JoinWith(Split(path, ResPrefix), ""))
    ensures forall k :: 0 <= k < |Split(path, ResPrefix)| ==> !Contains(Split(path, ResPrefix)[k], ResPrefix)
  {
    ReplaceBySplit(path, ResPrefix, "", 0);
    SplitPiecesFree(path, ResPrefix, 0);
  }

  /** A project path res://x becomes x under the project directory. */
  lemma CleanResPath(x: string, projectDir: string)
    requires !Contains(x, ResPrefix)
    ensures CleanPath(ResPrefix + x, projectDir) == Join(projectDir, x)
  {
    ReplaceLeading(ResPrefix, x, "");
    assert "" + x == x;
  }

  /** The removal is a single pass: a res:// that only forms once another is removed stays. */
  lemma CleanPathSinglePass(s: string, projectDir: string)
    requires s == "r" + ResPrefix + "es://"
    ensures CleanPath(s, projectDir) == Join(projectDir, ResPrefix)
  {
    assert s[0..6][1] == 'r' && ResPrefix[1] == 'e';
    assert s[1..7] == ResPrefix;
    ReplaceUpTo(s, ResPrefix, "", 0, 1);
    forall j | 7 <= j ensures !OccursAt(s, ResPrefix, j) {
    }
    ReplaceAbsent(s, ResPrefix, "", 7);
    assert s[0..1] + "" + s[7..] == ResPrefix;
  }

  // ---------------------------------------------------------------------
  // find_script

  lemma TscnNoSelfOverlap()
    ensures NoSelfOverlap(".tscn")
  {
    forall k | 0 < k < 5 ensures ".tscn"[k..] != ".tscn"[..5 - k] {
      assert ".tscn"[k..][0] != ".tscn"[..5 - k][0];
    }
  }

  lemma GdNoSelfOverlap()
    ensures NoSelfOverlap(".gd")
  {
    forall k | 0 < k < 3 ensures ".gd"[k..] != ".gd"[..3 - k] {
      assert ".gd"[k..][0] != ".gd"[..3 - k][0];
    }
  }

  /** The fallback of a scene path is a script path. */
  lemma FallbackIsScript(tscnFile: string)
    requires EndsWith(tscnFile, ".tscn")
    ensures EndsWith(Fallback(tscnFile), ".gd")
    ensures !EndsWith(Fallback(tscnFile), ".tscn")
  {
    TscnNoSelfOverlap();
    ReplaceAtEnd(tscnFile, ".tscn", ".gd", 0);
    var f := Fallback(tscnFile);
    assert f[|f| - 1] == ".gd"[2];
  }

  /** A scene without a root node section falls back to the .gd path. */
  lemma FindScriptNoRoot(data: string, tscnFile: string, projectDir: string)
    requires forall j :: !OccursAt(data, NodeStart, j)
    ensures FindScriptIn(data, tscnFile, projectDir) == Ok(Fallback(tscnFile))
  {
    GetBetweenNoStart(data, NodeStart, NodeEnd, 0, true);
  }

  /** A root node without a script falls back to the .gd path. */
  lemma FindScriptNoScript(data: string, tscnFile: string, projectDir: string, root: Span)
    requires GetBetween(data, NodeStart, NodeEnd, 0, true) == Some(root)
    requires forall j :: !OccursAt(root.text, ScriptStart, j)
    ensures FindScriptIn(data, tscnFile, projectDir) == Ok(Fallback(tscnFile))
  {
    GetBetweenNoStart(root.text, ScriptStart, ScriptEnd, 0, false);
  }

  /** A script id that int() rejects is a ValueError. */
  lemma FindScriptBadId(data: string, tscnFile: string, projectDir: string, root: Span, resource: Span)
    requires GetBetween(data, NodeStart, NodeEnd, 0, true) == Some(root)
    requires GetBetween(root.text, ScriptStart, ScriptEnd, 0, false) == Some(resource)
    requires ParseInt(resource.text) == None
    ensures FindScriptIn(data, tscnFile, projectDir) == Err(ValueError)
  {
  }

  /** No Script entry with the root node's id anywhere: the .gd fallback. */
  lemma FindScriptNoEntry(data: string, tscnFile: string, projectDir: string, root: Span, resource: Span, id: int)
    requires GetBetween(data, NodeStart, NodeEnd, 0, true) == Some(root)
    requires GetBetween(root.text, ScriptStart, ScriptEnd, 0, false) == Some(resource)
    requires ParseInt(resource.text) == Some(id)
    requires forall j :: !OccursAt(data, ExtEnd(id), j)
    ensures FindScriptIn(data, tscnFile, projectDir) == Ok(Fallback(tscnFile))
  {
    var a := Find(data, ExtStart, 0);
    if a >= 0 {
      GetBetweenNoEnd(data, ExtStart, ExtEnd(id), 0, false, a);
    } else {
      GetBetweenNoStart(data, ExtStart, ExtEnd(id), 0, false);
    }
  }

  /**
   * The whole lookup, stated by first occurrences: the root node runs from
   * the first "[node " to the next '['; its first script = ExtResource( is
   * closed by the next ')' on the same line and holds the id; the path starts
   * after the first [ext_resource path=" and ends at the first
   * " type="Script" id=<id> after it, on the same line.
   */
  lemma FindScriptResolves(data: string, tscnFile: string, projectDir: string,
                           n: nat, m: nat, j: nat, f: nat, id: int, a: nat, b: nat)
    requires IsFirst(data, NodeStart, 0, n) && IsFirst(data, NodeEnd, n + |NodeStart|, m)
    requires var node := data[n + |NodeStart|..m];
      IsFirst(node, ScriptStart, 0, j) && IsFirst(node, ScriptEnd, j + |ScriptStart|, f)
      && !Contains(node[j + |ScriptStart|..f], "\n") && ParseInt(node[j + |ScriptStart|..f]) == Some(id)
    requires IsFirst(data, ExtStart, 0, a) && IsFirst(data, ExtEnd(id), a + |ExtStart|, b)
    requires !Contains(data[a + |ExtStart|..b], "\n")
    ensures FindScriptIn(data, tscnFile, projectDir) == Ok(CleanPath(data[a + |ExtStart|..b], projectDir))
  {
    var node := data[n + |NodeStart|..m];
    GetBetweenFound(data, NodeStart, NodeEnd, 0, true, n, m);
    assert GetBetween(data, NodeStart, NodeEnd, 0, true) == Some(Span(n, m, node));
    GetBetweenFound(node, ScriptStart, ScriptEnd, 0, false, j, f);
    var idText := node[j + |ScriptStart|..f];
    assert GetBetween(node, ScriptStart, ScriptEnd, 0, false) == Some(Span(j, f, idText));
    GetBetweenFound(data, ExtStart, ExtEnd(id), 0, false, a, b);
    assert GetBetween(data, ExtStart, ExtEnd(id), 0, false) == Some(Span(a, b, data[a + |ExtStart|..b]));
  }

  /**
   * The path is searched from the first ext_resource entry only: when the
   * text from there to the first end marker for the id spans a line (the
   * entry with the id is on a later line), the lookup falls back to the
   * .gd path.
   */
  lemma FindScriptStopsAtFirstEntry(data: string, tscnFile: string, projectDir: string,
                                    root: Span, resource: Span, id: int, a: nat, b: nat)
    requires GetBetween(data, NodeStart, NodeEnd, 0, true) == Some(root)
    requires GetBetween(root.text, ScriptStart, ScriptEnd, 0, false) == Some(resource)
    requires ParseInt(resource.text) == Some(id)
    requires IsFirst(data, ExtStart, 0, a) && IsFirst(data, ExtEnd(id), a + |ExtStart|, b)
    requires Contains(data[a + |ExtStart|..b], "\n")
    ensures FindScriptIn(data, tscnFile, projectDir) == Ok(Fallback(tscnFile))
  {
    GetBetweenFound(data, ExtStart, ExtEnd(id), 0, false, a, b);
  }

  /** The id is matched as a prefix: an entry for id 10 also ends the path searched for id 1. */
  lemma IdMatchedAsPrefix(data: string, j: nat)
    requires OccursAt(data, ExtEnd(10), j)
    ensures OccursAt(data, ExtEnd(1), j)
  {
    var long := ExtEnd(10);
    var short := ExtEnd(1);
    assert IntToString(10) == "10";
    assert IntToString(1) == "1";
    assert long[..|short|] == short;
    assert data[j..j + |short|] == data[j..j + |long|][..|short|];
  }

  // ---------------------------------------------------------------------
  // localise_path

  /** Replacing with a non-empty text that does not start with '/' keeps a path relative. */
  lemma {:induction false} ReplaceKeepsRelative(s: string, pat: string, rep: string, i: nat)
    requires |pat| > 0 && rep != "" && rep[0] != '/'
    requires i <= |s| && !StartsWith(s[i..], "/")
    ensures !StartsWith(ReplaceFrom(s, pat, rep, i), "/")
  {
    if i < |s| {
      if OccursAt(s, pat, i) {
        assert ReplaceFrom(s, pat, rep, i)[0] == rep[0];
      } else {
        assert ReplaceFrom(s, pat, rep, i)[0] == s[i..][0];
      }
    }
  }

  /**
   * A script's documentation goes to its project-relative path with .gd
   * turned into .md: the result ends in .md, and a relative path stays
   * under the output folder.
   */
  lemma LocaliseScript(outfolder: string, projectDir: string, script: string, fs: map<string, string>,
                       relpath: (string, string) -> string)
    requires !EndsWith(script, ".tscn") && EndsWith(relpath(script, projectDir), ".gd")
    ensures var r := LocalisePath(outfolder, projectDir, script, fs, relpath);
      r.Ok? && EndsWith(r.value, ".md")
      && (!StartsWith(relpath(script, projectDir), "/") ==> StartsWith(r.value, outfolder))
  {
    var rel := relpath(script, projectDir);
    GdNoSelfOverlap();
    ReplaceAtEnd(rel, ".gd", ".md", 0);
    var md := Replace(rel, ".gd", ".md");
    JoinShape(outfolder, md);
    EndsWithTrans(Join(outfolder, md), md, ".md");
    if !StartsWith(rel, "/") {
      assert rel[0..] == rel;
      ReplaceKeepsRelative(rel, ".gd", ".md", 0);
    }
  }

  /** localise_path replaces every .gd of the relative path: the pieces between them are joined by .md. */
  lemma LocaliseReplacesEvery(outfolder: string, projectDir: string, script: string, fs: map<string, string>,
                              relpath: (string, string) -> string)
    requires !EndsWith(script, ".tscn")
    ensures var rel := relpath(script, projectDir);
      LocalisePath(outfolder, projectDir, script, fs, relpath) == Ok(Join(outfolder, JoinWith(Split(rel, ".gd"), ".md")))
      && forall k :: 0 <= k < |Split(rel, ".gd")| ==> !Contains(Split(rel, ".gd")[k], ".gd")
  {
    var rel := relpath(script, projectDir);
    ReplaceBySplit(rel, ".gd", ".md", 0);
    SplitPiecesFree(rel, ".gd", 0);
  }

  /** A scene's documentation goes where its script's does. */
  lemma SceneSharesScriptDoc(outfolder: string, projectDir: string, scene: string, fs: map<string, string>,
                             relpath: (string, string) -> string, script: string)
    requires EndsWith(scene, ".tscn")
    requires FindScript(scene, projectDir, fs) == Ok(script) && !EndsWith(script, ".tscn")
    ensures LocalisePath(outfolder, projectDir, scene, fs, relpath) == LocalisePath(outfolder, projectDir, script, fs, relpath)
  {
  }

  /** A scene whose root node has no script is documented as the .gd file beside it. */
  lemma SceneWithoutScript(outfolder: string, projectDir: string, scene: string, fs: map<string, string>,
                           relpath: (string, string) -> string)
    requires EndsWith(scene, ".tscn") && scene in fs
    requires forall j :: !OccursAt(fs[scene], NodeStart, j)
    ensures LocalisePath(outfolder, projectDir, scene, fs, relpath)
         == LocalisePath(outfolder, projectDir, Fallback(scene), fs, relpath)
  {
    FindScriptNoRoot(fs[scene], scene, projectDir);
    FallbackIsScript(scene);
  }

  /** A scene file that is missing is a FileNotFound error for that path. */
  lemma SceneMissing(outfolder: string, projectDir: string, scene: string, fs: map<string, string>,
                     relpath: (string, string) -> string)
    requires EndsWith(scene, ".tscn") && scene !in fs
    ensures LocalisePath(outfolder, projectDir, scene, fs, relpath) == Err(FileNotFound(scene))
  {
  }
}
