/**
 * markup_docs: res:// references in a documentation string become
 * Markdown links. Three passes, one per delimiter (space, newline,
 * double quote); each finds the first res:// reference ended by its
 * delimiter on the same line and replaces every copy of it.
 *
 * Where a link points (localise_path of the reference, made relative to
 * the page's folder) is the parameter `target`.
 */
module Markup {
  import opened PyStr
  import opened Outcomes
  import opened OsPath
  import opened Between
  import opened Resources

  /** format_url: every copy of res://url becomes [basename(url)](target(url)). */
  function FormatUrl(docs: string, url: string, target: string -> string): string {
    Replace(docs, ResPrefix + url, Link(url, target))
  }

  function Link(url: string, target: string -> string): (r: string)
    ensures StartsWith(r, "[" + Basename(url) + "](") && EndsWith(r, ")")
  {
    "[" + Basename(url) + "](" + target(url) + ")"
  }

  /** One pass: the first reference ended by `delim`, if any, rewritten everywhere. */
  function MarkupPass(docs: string, delim: string, target: string -> string): string {
    match GetBetween(docs, ResPrefix, delim, 0, false)
    case None => docs
    case Some(found) => FormatUrl(docs, found.text, target)
  }

  /** The three passes in the order markup_docs runs them. */
  function MarkupOf(docs: string, target: string -> string): string {
    MarkupPass(MarkupPass(MarkupPass(docs, " ", target), "\n", target), "\"", target)
  }

  /** markup_docs, reassigning docs pass by pass. */
  method MarkupDocs(docs: string, target: string -> string) returns (r: string)
    ensures r == MarkupOf(docs, target)
  {
    r := docs;
    var found := GetBetween(r, ResPrefix, " ", 0, false);
    if found.Some? {
      r := FormatUrl(r, found.value.text, target);
    }
    found := GetBetween(r, ResPrefix, "\n", 0, false);
    if found.Some? {
      r := FormatUrl(r, found.value.text, target);
    }
    found := GetBetween(r, ResPrefix, "\"", 0, false);
    if found.Some? {
      r := FormatUrl(r, found.value.text, target);
    }
  }

  // ---------------------------------------------------------------------
  // What a pass does

  /** Text without res:// passes through a pass unchanged. */
  lemma PassWithoutReference(docs: string, delim: string, target: string -> string)
    requires !Contains(docs, ResPrefix)
    ensures MarkupPass(docs, delim, target) == docs
  {
    GetBetweenNoStart(docs, ResPrefix, delim, 0, false);
  }

  /** Documentation without res:// comes back unchanged. */
  lemma MarkupWithoutReference(docs: string, target: string -> string)
    requires !Contains(docs, ResPrefix)
    ensures MarkupOf(docs, target) == docs
  {
    PassWithoutReference(docs, " ", target);
    PassWithoutReference(docs, "\n", target);
    PassWithoutReference(docs, "\"", target);
  }

  /**
   * The pass rewrote the reference that starts at the first res:// (at i)
   * and ends at the first delimiter after it (at e): every copy of
   * res://url is replaced, and nothing else, the text between the copies
   * is kept and joined by the link.
   */
  ghost predicate RewroteAt(docs: string, delim: string, target: string -> string, r: string, i: nat, e: nat) {
    IsFirst(docs, ResPrefix, 0, i) && IsFirst(docs, delim, i + |ResPrefix|, e)
    && var url := docs[i + |ResPrefix|..e];
    r == JoinWith(Split(docs, ResPrefix + url), Link(url, target))
  }

  /**
   * A pass either changes nothing or rewrites one reference, on one line
   * and without the delimiter inside it.
   */
  lemma PassRewritesOneReference(docs: string, delim: string, target: string -> string)
    requires |delim| == 1
    ensures var r := MarkupPass(docs, delim, target);
      r == docs
      || exists i: nat, e: nat :: RewroteAt(docs, delim, target, r, i, e)
                                 && '\n' !in docs[i + |ResPrefix|..e] && delim[0] !in docs[i + |ResPrefix|..e]
  {
    match GetBetween(docs, ResPrefix, delim, 0, false)
    case None =>
    case Some(found) =>
      var r := MarkupPass(docs, delim, target);
      var i := found.startIndex;
      var e := found.endIndex;
      var url := found.text;
      assert r == FormatUrl(docs, url, target);
      ReplaceBySplit(docs, ResPrefix + url, Link(url, target), 0);
      ContainsChar(url, '\n');
      NoDelimiterInside(docs, delim, i, e);
      assert RewroteAt(docs, delim, target, r, i, e);
  }

  /** The first res:// starts at i and is ended at e by the first delimiter after it, on the same line. */
  ghost predicate FirstReference(docs: string, delim: string, i: nat, e: nat) {
    IsFirst(docs, ResPrefix, 0, i) && IsFirst(docs, delim, i + |ResPrefix|, e)
    && !Contains(docs[i + |ResPrefix|..e], "\n")
  }

  /**
   * Conversely, a pass does rewrite: when the first res:// is followed on
   * its line by the delimiter, every copy of that reference becomes the link.
   */
  lemma PassRewritesFirst(docs: string, delim: string, target: string -> string, i: nat, e: nat)
    requires FirstReference(docs, delim, i, e)
    ensures MarkupPass(docs, delim, target) == FormatUrl(docs, docs[i + |ResPrefix|..e], target)
  {
    GetBetweenFound(docs, ResPrefix, delim, 0, false, i, e);
  }

  /** A pass leaves the text alone only when no such reference exists. */
  lemma PassUnchangedWithoutReference(docs: string, delim: string, target: string -> string)
    ensures !(exists i: nat, e: nat :: FirstReference(docs, delim, i, e)) ==> MarkupPass(docs, delim, target) == docs
  {
    match GetBetween(docs, ResPrefix, delim, 0, false)
    case None =>
    case Some(found) =>
      assert FirstReference(docs, delim, found.startIndex, found.endIndex);
  }

  /** Between a start and the first delimiter after it, the delimiter does not occur. */
  lemma NoDelimiterInside(s: string, delim: string, a: nat, e: nat)
    requires |delim| == 1 && a + |ResPrefix| <= e <= |s|
    requires IsFirst(s, delim, a + |ResPrefix|, e)
    ensures delim[0] !in s[a + |ResPrefix|..e]
  {
    var u := s[a + |ResPrefix|..e];
    forall k | 0 <= k < |u| ensures u[k] != delim[0] {
      var j := a + |ResPrefix| + k;
      assert u[k] == s[j];
      assert s[j..j + 1][0] == s[j];
      if s[j] == delim[0] {
        assert s[j..j + 1] == delim;
        assert OccursAt(s, delim, j);
      }
    }
  }

  /** The pieces a pass joins hold no copy of the reference it rewrote. */
  lemma PassReplacesEveryCopy(docs: string, url: string, target: string -> string)
    ensures FormatUrl(docs, url, target) == JoinWith(Split(docs, ResPrefix + url), Link(url, target))
    ensures forall k :: 0 <= k < |Split(docs, ResPrefix + url)| ==> !Contains(Split(docs, ResPrefix + url)[k], ResPrefix + url)
  {
    ReplaceBySplit(docs, ResPrefix + url, Link(url, target), 0);
    SplitPiecesFree(docs, ResPrefix + url, 0);
  }

  /** A reference with no delimiter after it on its line is left alone by that pass. */
  lemma PassNeedsDelimiter(docs: string, delim: string, target: string -> string, i: nat)
    requires IsFirst(docs, ResPrefix, 0, i)
    requires forall j :: i + |ResPrefix| <= j ==> !OccursAt(docs, delim, j)
    ensures MarkupPass(docs, delim, target) == docs
  {
    GetBetweenNoEnd(docs, ResPrefix, delim, 0, false, i);
  }

  /** With no res:// in `before`, the first one in before + tail is where tail starts with it. */
  lemma FirstAfterClean(before: string, tail: string)
    requires !Contains(before, ResPrefix) && StartsWith(tail, ResPrefix)
    ensures IsFirst(before + tail, ResPrefix, 0, |before|)
  {
    var s := before + tail;
    var i := |before|;
    assert s[i..i + |ResPrefix|] == tail[..|ResPrefix|];
    forall j | 0 <= j < i ensures !OccursAt(s, ResPrefix, j) {
      if j + |ResPrefix| <= i {
        assert s[j..j + |ResPrefix|] == before[j..j + |ResPrefix|];
        if OccursAt(before, ResPrefix, j) {
          ContainsIff(before, ResPrefix);
        }
      } else if j + |ResPrefix| <= |s| {
        // such a match would need a second 'r' inside res://
        var k := i - j;
        assert s[j..j + |ResPrefix|][k] == s[i] == tail[0];
      }
    }
  }

  /** The first newline at or after `from` ends a line of text without one. */
  lemma FirstNewlineAfter(s: string, from: nat, line: string)
    requires from + |line| < |s| && s[from..from + |line|] == line && s[from + |line|] == '\n' && '\n' !in line
    ensures IsFirst(s, "\n", from, from + |line|)
  {
    var e := from + |line|;
    assert s[e..e + 1] == "\n";
    forall j | from <= j < e ensures !OccursAt(s, "\n", j) {
      assert s[j] == s[from..from + |line|][j - from];
      assert s[j..j + 1][0] == s[j];
    }
  }

  /**
   * The newline pass takes everything up to the end of the line: a
   * reference followed by a space there becomes a link whose text is the
   * rest of the line.
   */
  lemma NewlinePassTakesRestOfLine(before: string, url: string, rest: string, after: string, target: string -> string)
    requires !Contains(before, ResPrefix) && '\n' !in url && '\n' !in rest
    ensures MarkupPass(before + ResPrefix + url + " " + rest + "\n" + after, "\n", target)
         == FormatUrl(before + ResPrefix + url + " " + rest + "\n" + after, url + " " + rest, target)
  {
    var line := url + " " + rest;
    var tail := ResPrefix + line + "\n" + after;
    var s := before + tail;
    assert s == before + ResPrefix + url + " " + rest + "\n" + after;
    var i := |before|;
    var from := i + |ResPrefix|;
    FirstAfterClean(before, tail);
    assert s[from..from + |line|] == line;
    assert s[from + |line|] == '\n';
    FirstNewlineAfter(s, from, line);
    GetBetweenFound(s, ResPrefix, "\n", 0, false, i, from + |line|);
    ContainsChar(line, '\n');
  }
}
