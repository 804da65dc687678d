/**
 * generate_index: the text of index.md, one Markdown link per autoload
 * (its name, in the dictionary's order) and per documented script (its
 * file name without .gd), each pointing at localise_path of the file.
 * The text is returned instead of written.
 */
module Index {
  import opened PyStr
  import opened Outcomes
  import opened OrderedDict
  import opened OsPath
  import opened Resources

  const Header := "# Generated Documentation Index\n## Autoloads\n"
  const ClassesHeading := "\n## Classes\n"

  /** One "- [name](link)" line. */
  function Entry(name: string, link: string): (r: string)
    ensures StartsWith(r, "- [" + name + "](") && EndsWith(r, ")\n")
  {
    "- [" + name + "](" + link + ")\n"
  }

  /** os.path.basename(class_path)[:-3]: the file name without its last three characters. */
  function ClassName(classPath: string): (r: string)
    ensures '/' !in r
  {
    var b := Basename(classPath);
    BasenameSpec(classPath);
    var r := DropLast(b, 3);
    assert |b| >= 3 ==> b == r + b[|b| - 3..];
    assert forall k :: 0 <= k < |r| ==> r[k] == b[k];
    r
  }

  /** The link of each file: localise_path under the output folder. */
  function Localiser(outfolder: string, projectDir: string, fs: map<string, string>,
                     relpath: (string, string) -> string): string -> Result<string>
  {
    s => LocalisePath(outfolder, projectDir, s, fs, relpath)
  }

  /** The autoload lines, in dictionary order; the first path that does not localise stops the index. */
  function AutoloadLines(autoloads: Dict, localise: string -> Result<string>): Result<string> {
    if |autoloads| == 0 then Ok("")
    else
      var last := autoloads[|autoloads| - 1];
      var init :- AutoloadLines(autoloads[..|autoloads| - 1], localise);
      var link :- localise(last.1);
      Ok(init + Entry(last.0, link))
  }

  /** The class lines, in the order of the list. */
  function ClassLines(classList: seq<string>, localise: string -> Result<string>): Result<string> {
    if |classList| == 0 then Ok("")
    else
      var last := classList[|classList| - 1];
      var init :- ClassLines(classList[..|classList| - 1], localise);
      var link :- localise(last);
      Ok(init + Entry(ClassName(last), link))
  }

  /** The whole of index.md. */
  function IndexText(autoloads: Dict, classList: seq<string>, outfolder: string, projectDir: string,
                     fs: map<string, string>, relpath: (string, string) -> string): Result<string>
  {
    var localise := Localiser(outfolder, projectDir, fs, relpath);
    var a :- AutoloadLines(autoloads, localise);
    var c :- ClassLines(classList, localise);
    Ok(Header + a + ClassesHeading + c)
  }

  /** generate_index: the autoload loop, then the class loop, writing into one text. */
  method GenerateIndex(autoloads: Dict, classList: seq<string>, outfolder: string, projectDir: string,
                       fs: map<string, string>, relpath: (string, string) -> string) returns (r: Result<string>)
    ensures r == IndexText(autoloads, classList, outfolder, projectDir, fs, relpath)
  {
    var localise := Localiser(outfolder, projectDir, fs, relpath);
    var a := WriteAutoloads(autoloads, localise);
    if a.Err? {
      return Err(a.error);
    }
    var c := WriteClasses(classList, localise);
    if c.Err? {
      return Err(c.error);
    }
    return Ok(Header + a.value + ClassesHeading + c.value);
  }

  /** The loop over the autoloads: one line each, stopping at the first path that fails. */
  method WriteAutoloads(autoloads: Dict, localise: string -> Result<string>) returns (r: Result<string>)
    ensures r == AutoloadLines(autoloads, localise)
  {
    var out := "";
    var i := 0;
    while i < |autoloads|
      invariant 0 <= i <= |autoloads|
      invariant AutoloadLines(autoloads[..i], localise) == Ok(out)
    {
      var link := localise(autoloads[i].1);
      AutoloadLinesStep(autoloads, localise, i, out);
      if link.Err? {
        AutoloadLinesFail(autoloads, localise, i + 1);
        assert autoloads[..|autoloads|] == autoloads;
        return Err(link.error);
      }
      out := out + Entry(autoloads[i].0, link.value);
      i := i + 1;
    }
    assert autoloads[..|autoloads|] == autoloads;
    return Ok(out);
  }

  /** The loop over the documented scripts: one line each, stopping at the first path that fails. */
  method WriteClasses(classList: seq<string>, localise: string -> Result<string>) returns (r: Result<string>)
    ensures r == ClassLines(classList, localise)
  {
    var classes := "";
    var j := 0;
    while j < |classList|
      invariant 0 <= j <= |classList|
      invariant ClassLines(classList[..j], localise) == Ok(classes)
    {
      var link := localise(classList[j]);
      ClassLinesStep(classList, localise, j, classes);
      if link.Err? {
        ClassLinesFail(classList, localise, j + 1);
        assert classList[..|classList|] == classList;
        return Err(link.error);
      }
      classes := classes + Entry(ClassName(classList[j]), link.value);
      j := j + 1;
    }
    assert classList[..|classList|] == classList;
    return Ok(classes);
  }

  /** One more autoload: its line is appended, or its error is the result. */
  lemma AutoloadLinesStep(autoloads: Dict, localise: string -> Result<string>, i: nat, out: string)
    requires i < |autoloads| && AutoloadLines(autoloads[..i], localise) == Ok(out)
    ensures var link := localise(autoloads[i].1);
      AutoloadLines(autoloads[..i + 1], localise)
      == if link.Err? then Err(link.error) else Ok(out + Entry(autoloads[i].0, link.value))
  {
    var pre := autoloads[..i + 1];
    assert pre[..|pre| - 1] == autoloads[..i];
    assert pre[|pre| - 1] == autoloads[i];
  }

  /** One more class: its line is appended, or its error is the result. */
  lemma ClassLinesStep(classList: seq<string>, localise: string -> Result<string>, j: nat, classes: string)
    requires j < |classList| && ClassLines(classList[..j], localise) == Ok(classes)
    ensures var link := localise(classList[j]);
      ClassLines(classList[..j + 1], localise)
      == if link.Err? then Err(link.error) else Ok(classes + Entry(ClassName(classList[j]), link.value))
  {
    var pre := classList[..j + 1];
    assert pre[..|pre| - 1] == classList[..j];
    assert pre[|pre| - 1] == classList[j];
  }

  // ---------------------------------------------------------------------
  // What the index holds

  /** A failure among the first n autoloads is a failure of the whole list. */
  lemma {:induction false} AutoloadLinesFail(autoloads: Dict, localise: string -> Result<string>, n: nat)
    requires n <= |autoloads| && AutoloadLines(autoloads[..n], localise).Err?
    ensures AutoloadLines(autoloads, localise) == AutoloadLines(autoloads[..n], localise)
    decreases |autoloads| - n
  {
    if n < |autoloads| {
      var longer := autoloads[..n + 1];
      assert longer[..|longer| - 1] == autoloads[..n];
      AutoloadLinesFail(autoloads, localise, n + 1);
    } else {
      assert autoloads[..n] == autoloads;
    }
  }

  /** A failure among the first n classes is a failure of the whole list. */
  lemma {:induction false} ClassLinesFail(classList: seq<string>, localise: string -> Result<string>, n: nat)
    requires n <= |classList| && ClassLines(classList[..n], localise).Err?
    ensures ClassLines(classList, localise) == ClassLines(classList[..n], localise)
    decreases |classList| - n
  {
    if n < |classList| {
      var longer := classList[..n + 1];
      assert longer[..|longer| - 1] == classList[..n];
      ClassLinesFail(classList, localise, n + 1);
    } else {
      assert classList[..n] == classList;
    }
  }

  /** A script's class name is its file name without the .gd. */
  lemma ClassNameOfScript(classPath: string)
    requires EndsWith(classPath, ".gd")
    ensures ClassName(classPath) + ".gd" == Basename(classPath)
  {
    BasenameKeepsSuffix(classPath, ".gd");
    var b := Basename(classPath);
    assert b == DropLast(b, 3) + b[|b| - 3..];
  }

  /** A scene autoload whose file is missing makes the whole index fail with FileNotFound. */
  lemma MissingSceneFails(outfolder: string, projectDir: string, autoloads: Dict, classList: seq<string>,
                          fs: map<string, string>, relpath: (string, string) -> string, k: nat)
    requires k < |autoloads|
    requires forall i :: 0 <= i < k ==> !EndsWith(autoloads[i].1, ".tscn")
    requires EndsWith(autoloads[k].1, ".tscn") && autoloads[k].1 !in fs
    ensures IndexText(autoloads, classList, outfolder, projectDir, fs, relpath) == Err(FileNotFound(autoloads[k].1))
  {
    var localise := Localiser(outfolder, projectDir, fs, relpath);
    AutoloadLinesOk(outfolder, projectDir, autoloads, fs, relpath, k);
    var out := AutoloadLines(autoloads[..k], localise).value;
    assert localise(autoloads[k].1) == Err(FileNotFound(autoloads[k].1));
    AutoloadLinesStep(autoloads, localise, k, out);
    AutoloadLinesFail(autoloads, localise, k + 1);
  }

  /** Autoloads that are not scenes always localise: their lines are produced. */
  lemma {:induction false} AutoloadLinesOk(outfolder: string, projectDir: string, autoloads: Dict, fs: map<string, string>,
                                           relpath: (string, string) -> string, k: nat)
    requires k <= |autoloads|
    requires forall i :: 0 <= i < k ==> !EndsWith(autoloads[i].1, ".tscn")
    ensures AutoloadLines(autoloads[..k], Localiser(outfolder, projectDir, fs, relpath)).Ok?
  {
    if k > 0 {
      var pre := autoloads[..k];
      assert pre[..|pre| - 1] == autoloads[..k - 1];
      assert pre[|pre| - 1] == autoloads[k - 1];
      AutoloadLinesOk(outfolder, projectDir, autoloads, fs, relpath, k - 1);
    }
  }

  /** The index text starts with its two headings and holds the class heading after the autoloads. */
  lemma IndexShape(autoloads: Dict, classList: seq<string>, outfolder: string, projectDir: string,
                   fs: map<string, string>, relpath: (string, string) -> string)
    requires IndexText(autoloads, classList, outfolder, projectDir, fs, relpath).Ok?
    ensures var t := IndexText(autoloads, classList, outfolder, projectDir, fs, relpath).value;
      var a := AutoloadLines(autoloads, Localiser(outfolder, projectDir, fs, relpath)).value;
      StartsWith(t, Header) && t[|Header| + |a|..][..|ClassesHeading|] == ClassesHeading
  {
    var localise := Localiser(outfolder, projectDir, fs, relpath);
    var t := IndexText(autoloads, classList, outfolder, projectDir, fs, relpath).value;
    var a := AutoloadLines(autoloads, localise).value;
    var c := ClassLines(classList, localise).value;
    assert t == Header + a + ClassesHeading + c;
    assert t[..|Header|] == Header;
    assert t[|Header| + |a|..] == ClassesHeading + c;
  }

  /** The autoload lines are produced exactly when every autoload's path localises. */
  lemma {:induction false} AutoloadLinesOkIff(autoloads: Dict, localise: string -> Result<string>)
    ensures AutoloadLines(autoloads, localise).Ok? <==> forall i :: 0 <= i < |autoloads| ==> localise(autoloads[i].1).Ok?
  {
    if |autoloads| > 0 {
      var init := autoloads[..|autoloads| - 1];
      AutoloadLinesOkIff(init, localise);
      assert forall i :: 0 <= i < |init| ==> init[i] == autoloads[i];
    }
  }

  /** The class lines are produced exactly when every class path localises. */
  lemma {:induction false} ClassLinesOkIff(classList: seq<string>, localise: string -> Result<string>)
    ensures ClassLines(classList, localise).Ok? <==> forall j :: 0 <= j < |classList| ==> localise(classList[j]).Ok?
  {
    if |classList| > 0 {
      var init := classList[..|classList| - 1];
      ClassLinesOkIff(init, localise);
      assert forall j :: 0 <= j < |init| ==> init[j] == classList[j];
    }
  }

  /** The index is written exactly when every autoload and every class localises. */
  lemma IndexSucceeds(autoloads: Dict, classList: seq<string>, outfolder: string, projectDir: string,
                      fs: map<string, string>, relpath: (string, string) -> string)
    ensures IndexText(autoloads, classList, outfolder, projectDir, fs, relpath).Ok?
        <==> (forall i :: 0 <= i < |autoloads| ==> LocalisePath(outfolder, projectDir, autoloads[i].1, fs, relpath).Ok?)
             && (forall j :: 0 <= j < |classList| ==> LocalisePath(outfolder, projectDir, classList[j], fs, relpath).Ok?)
  {
    var localise := Localiser(outfolder, projectDir, fs, relpath);
    AutoloadLinesOkIff(autoloads, localise);
    ClassLinesOkIff(classList, localise);
  }
}
