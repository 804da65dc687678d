/**
 * get_autoloads: the [autoload] section of project.godot, one
 * name="*res://path" line per singleton, read into a dictionary from
 * name to file-system path.
 */
module Autoloads {
  import opened PyStr
  import opened Outcomes
  import opened OrderedDict
  import opened Between
  import opened Resources

  const SectionStart := "[autoload]"
  const SectionEnd := "["
  /** What separates a singleton's name from its path. */
  const Separator := "=\"*"

  /**
   * One line of the section: blank after stripping, it is skipped (None);
   * otherwise it splits on =" * and the second piece without its last
   * character (the closing quote) is the path. A line without the
   * separator has no second piece: an IndexError.
   */
  function AliasEntry(line: string, projectDir: string): (r: Result<Option<(string, string)>>)
    ensures r.Err? <==> Strip(line) != "" && !Contains(Strip(line), Separator)
    ensures r.Err? ==> r.error == IndexError
    ensures r == Ok(None) <==> Strip(line) == ""
  {
    var t := Strip(line);
    if t == "" then Ok(None)
    else
      var cleaned := Split(t, Separator);
      SplitTwoIffContains(t, Separator);
      if |cleaned| < 2 then Err(IndexError)
      else Ok(Some((cleaned[0], CleanPath(DropLast(cleaned[1], 1), projectDir))))
  }

  /** A string splits into two or more pieces exactly when it contains the separator. */
  lemma SplitTwoIffContains(s: string, sep: string)
    requires |sep| > 0
    ensures |Split(s, sep)| >= 2 <==> Contains(s, sep)
  {
    var j := Find(s, sep, 0);
    if j >= 0 {
      assert |SplitFrom(s, sep, j + |sep|)| > 0;
    }
  }

  /** The for loop over the section's lines, from the dictionary built so far. */
  function ParseAliases(d: Dict, lines: seq<string>, projectDir: string): (r: Result<Dict>)
    ensures r.Err? ==> r.error == IndexError
    decreases |lines|
  {
    if |lines| == 0 then Ok(d)
    else
      match AliasEntry(lines[0], projectDir)
      case Err(e) => Err(e)
      case Ok(None) => ParseAliases(d, lines[1..], projectDir)
      case Ok(Some(entry)) => ParseAliases(Put(d, entry.0, entry.1), lines[1..], projectDir)
  }

  /**
   * The section is the text between the first [autoload] and the next '['.
   * When there is none, get_between's None is subscripted: a TypeError.
   */
  function AutoloadsOf(text: string, projectDir: string): (r: Result<Dict>)
    ensures r.Err? ==> r.error == IndexError || r.error == TypeError
  {
    match GetBetween(text, SectionStart, SectionEnd, 0, true)
    case None => Err(TypeError)
    case Some(raw) => ParseAliases([], Split(raw.text, "\n"), projectDir)
  }

  /** get_autoloads reads the project file first. */
  function Autoloads(projectDir: string, projectFile: string, fs: map<string, string>): (r: Result<Dict>)
    ensures projectFile !in fs <==> r == Err(FileNotFound(projectFile))
  {
    if projectFile !in fs then Err(FileNotFound(projectFile))
    else AutoloadsOf(fs[projectFile], projectDir)
  }

  /** The loop of get_autoloads, filling the dictionary line by line. */
  method GetAutoloads(projectDir: string, projectFile: string, fs: map<string, string>) returns (r: Result<Dict>)
    ensures r == Autoloads(projectDir, projectFile, fs)
  {
    if projectFile !in fs {
      return Err(FileNotFound(projectFile));
    }
    var found := GetBetween(fs[projectFile], SectionStart, SectionEnd, 0, true);
    if found.None? {
      return Err(TypeError);
    }
    var lines := Split(found.value.text, "\n");
    var autoloads: Dict := [];
    var i := 0;
    while i < |lines|
      invariant 0 <= i <= |lines|
      invariant ParseAliases(autoloads, lines[i..], projectDir) == ParseAliases([], lines, projectDir)
    {
      assert lines[i..][1..] == lines[i + 1..];
      var line := Strip(lines[i]);
      if line == "" {
        i := i + 1;
        continue;
      }
      var cleaned := Split(line, Separator);
      if |cleaned| < 2 {
        return Err(IndexError);
      }
      autoloads := Put(autoloads, cleaned[0], CleanPath(DropLast(cleaned[1], 1), projectDir));
      i := i + 1;
    }
    return Ok(autoloads);
  }

  // ---------------------------------------------------------------------
  // What the parse yields

  /** A line name="*path" (path closed by its quote) maps name to the cleaned path. */
  lemma WellFormedLine(name: string, path: string, projectDir: string)
    requires name == "" || !IsSpace(name[0])
    requires !Contains(name, Separator) && !Contains(path, Separator)
    ensures AliasEntry(name + Separator + path + "\"", projectDir) == Ok(Some((name, CleanPath(path, projectDir))))
  {
    var line := name + Separator + path + "\"";
    assert line[0] == (if name == "" then '=' else name[0]) && line[|line| - 1] == '"';
    StripNoop(line);
    WellFormedSplit(name, path);
    assert DropLast(path + "\"", 1) == path;
  }

  /** Such a line splits into the name and the quoted path. */
  lemma WellFormedSplit(name: string, path: string)
    requires !Contains(name, Separator) && !Contains(path, Separator)
    ensures Split(name + Separator + path + "\"", Separator) == [name, path + "\""]
  {
    var line := name + Separator + path + "\"";
    var n := |name|;
    var m := n + |Separator|;
    SeparatorAtName(name, path);
    FindIsFirst(line, Separator, 0, n);
    NoSeparatorAfter(name, path);
    assert Find(line, Separator, m) < 0;
    assert line[0..n] == name;
    assert line[m..] == path + "\"";
    assert SplitFrom(line, Separator, m) == [path + "\""];
    assert Split(line, Separator) == [line[0..n]] + SplitFrom(line, Separator, m);
  }

  /** The first separator of the line is the one after the name. */
  lemma SeparatorAtName(name: string, path: string)
    requires !Contains(name, Separator)
    ensures IsFirst(name + Separator + path + "\"", Separator, 0, |name|)
  {
    var line := name + Separator + path + "\"";
    var n := |name|;
    assert line[n..n + 3] == Separator;
    ContainsIff(name, Separator);
    forall j | 0 <= j < n ensures !OccursAt(line, Separator, j) {
      if j + 3 <= n {
        assert line[j..j + 3] == name[j..j + 3];
        assert !OccursAt(name, Separator, j);
      } else {
        // a match here would put the '*' or the '"' of the separator on its '='
        assert line[j + 2] == (if j + 2 == n then '=' else '"');
        if j + 2 == n + 1 {
          assert line[j + 1] == '=';
        }
        assert line[j..j + 3][2] == line[j + 2];
        assert line[j..j + 3][1] == line[j + 1];
      }
    }
  }

  /** After it, the line holds no separator: the path holds none and its quote ends no match. */
  lemma NoSeparatorAfter(name: string, path: string)
    requires !Contains(path, Separator)
    ensures forall j :: |name| + |Separator| <= j ==> !OccursAt(name + Separator + path + "\"", Separator, j)
  {
    var line := name + Separator + path + "\"";
    var m := |name| + |Separator|;
    ContainsIff(path, Separator);
    forall j | m <= j ensures !OccursAt(line, Separator, j) {
      if j + 3 <= m + |path| {
        assert line[j..j + 3] == path[j - m..j - m + 3];
        assert !OccursAt(path, Separator, j - m);
      } else if j + 3 <= |line| {
        assert line[j + 2] == '"';
        assert line[j..j + 3][2] == line[j + 2];
      }
    }
  }

  /** Folding the lines one at a time: the dictionary after a + b continues from the one after a. */
  lemma {:induction false} ParseAliasesAppend(d: Dict, a: seq<string>, b: seq<string>, projectDir: string)
    ensures ParseAliases(d, a + b, projectDir)
         == match ParseAliases(d, a, projectDir)
            case Err(e) => Err(e)
            case Ok(d') => ParseAliases(d', b, projectDir)
    decreases |a|
  {
    if |a| > 0 {
      assert (a + b)[0] == a[0];
      assert (a + b)[1..] == a[1..] + b;
      match AliasEntry(a[0], projectDir)
      case Err(e) =>
      case Ok(None) => ParseAliasesAppend(d, a[1..], b, projectDir);
      case Ok(Some(entry)) => ParseAliasesAppend(Put(d, entry.0, entry.1), a[1..], b, projectDir);
    } else {
      assert a + b == b;
    }
  }

  /** A later line for the same name overwrites the earlier path; the other names keep theirs. */
  lemma LaterAliasWins(d: Dict, lines: seq<string>, line: string, projectDir: string, before: Dict)
    requires ParseAliases(d, lines, projectDir) == Ok(before)
    requires AliasEntry(line, projectDir).Ok? && AliasEntry(line, projectDir).value.Some?
    ensures var entry := AliasEntry(line, projectDir).value.value;
      var after := ParseAliases(d, lines + [line], projectDir);
      after.Ok? && Get(after.value, entry.0) == Some(entry.1)
      && forall k :: k != entry.0 ==> Get(after.value, k) == Get(before, k)
  {
    var entry := AliasEntry(line, projectDir).value.value;
    ParseAliasesAppend(d, lines, [line], projectDir);
    assert [line][1..] == [];
    assert ParseAliases(d, lines + [line], projectDir) == Ok(Put(before, entry.0, entry.1));
  }

  /** A non-blank line without =" * anywhere in the section makes the whole call fail. */
  lemma MalformedLineFails(d: Dict, a: seq<string>, line: string, b: seq<string>, projectDir: string)
    requires Strip(line) != "" && !Contains(Strip(line), Separator)
    ensures ParseAliases(d, a + [line] + b, projectDir) == Err(IndexError)
  {
    ParseAliasesAppend(d, a, [line] + b, projectDir);
    assert a + [line] + b == a + ([line] + b);
    assert ([line] + b)[0] == line;
  }

  /** A project file without an [autoload] section is a TypeError. */
  lemma NoSectionFails(text: string, projectDir: string)
    requires forall j :: !OccursAt(text, SectionStart, j)
    ensures AutoloadsOf(text, projectDir) == Err(TypeError)
  {
    GetBetweenNoStart(text, SectionStart, SectionEnd, 0, true);
  }

  /** So is one whose [autoload] section is the last one: no '[' ends it. */
  lemma LastSectionFails(text: string, projectDir: string, i: nat)
    requires IsFirst(text, SectionStart, 0, i)
    requires forall j :: i + |SectionStart| <= j < |text| ==> text[j] != '['
    ensures AutoloadsOf(text, projectDir) == Err(TypeError)
  {
    forall j | i + |SectionStart| <= j ensures !OccursAt(text, SectionEnd, j) {
      if j < |text| {
        assert text[j..j + 1][0] == text[j];
      }
    }
    GetBetweenNoEnd(text, SectionStart, SectionEnd, 0, true, i);
  }
}
