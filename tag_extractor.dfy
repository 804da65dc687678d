/**
 * The tag extractor of generate_script_doc: every "# PUBLIC" in a script
 * starts a block whose following lines are split into a signature
 * ("things") and documentation ("docs"), collected in a dict keyed by the
 * signature.
 */
module TagExtractor {
  import opened PyStr
  import opened OrderedDict
  import opened Outcomes

  const PublicTag: string := "# PUBLIC"
  const DoubleQuotes: string := "\"\"\""
  const SingleQuotes: string := "'''"

  /** How a line is treated, in the priority order of the script's if/elif chain. */
  datatype LineKind = Comment | DoubleQuoted | SingleQuoted | Plain

  function Classify(line: string): LineKind {
    if StartsWith(line, "#") then Comment
    else if Contains(line, DoubleQuotes) then DoubleQuoted
    else if Contains(line, SingleQuotes) then SingleQuoted
    else Plain
  }

  /** The accumulators of one block: signature text, documentation text, inside a docstring. */
  datatype Scan = Scan(things: string, docs: string, hasDocstr: bool)

  const Fresh: Scan := Scan("", "", false)

  /** A line holding quote markers without them, stripped: what it adds to the docs. */
  function Unquoted(line: string, quotes: string): string
    requires |quotes| > 0
  {
    Strip(Replace(line, quotes, ""))
  }

  /**
   * The state machine on one line. The second component says the block ends
   * with this line. A closing """ line ends the block; a closing ''' line
   * does not, and adds its text twice.
   */
  function Step(sc: Scan, line: string): (Scan, bool) {
    match Classify(line)
    case Comment =>
      (sc.(docs := sc.docs + Strip(line[1..]) + "\n"), false)
    case DoubleQuoted =>
      var t := Unquoted(line, DoubleQuotes);
      if sc.hasDocstr || Count(line, DoubleQuotes) == 2 then (sc.(docs := sc.docs + t + "\n"), true)
      else (Scan(sc.things, sc.docs + t + "\n", true), false)
    case SingleQuoted =>
      var t := Unquoted(line, SingleQuotes);
      if sc.hasDocstr || Count(line, SingleQuotes) == 2 then (sc.(docs := sc.docs + t + "\n" + t + "\n"), false)
      else (Scan(sc.things, sc.docs + t + "\n", true), false)
    case Plain =>
      if sc.hasDocstr then (sc.(docs := sc.docs + Strip(line) + "\n"), false)
      else if line != "" then (sc.(things := sc.things + line), false)
      else (sc, true)
  }

  /** Runs the state machine over the lines until one ends the block or the lines run out. */
  function Consume(sc: Scan, lines: seq<string>): Scan
    decreases |lines|
  {
    if |lines| == 0 then sc
    else
      var (next, stop) := Step(sc, lines[0]);
      if stop then next else Consume(next, lines[1..])
  }

  /**
   * The inner for-loop of generate_script_doc over data.split('\n'),
   * with the accumulators docs, things and has_docstr.
   */
  method ScanBlock(data: string) returns (things: string, docs: string)
    ensures things == Consume(Fresh, Split(data, "\n")).things
    ensures docs == Consume(Fresh, Split(data, "\n")).docs
  {
    docs := "";
    things := "";
    var hasDocstr := false;
    var lines := Split(data, "\n");
    var i := 0;
    while i < |lines|
      invariant 0 <= i <= |lines|
      invariant Consume(Scan(things, docs, hasDocstr), lines[i..]) == Consume(Fresh, lines)
    {
      var line := lines[i];
      ghost var before := Scan(things, docs, hasDocstr);
      ConsumeUnfold(before, lines, i);
      if StartsWith(line, "#") {
        docs := docs + Strip(line[1..]) + "\n";
        StepComment(before, line);
      } else if Find(line, DoubleQuotes, 0) != -1 {
        StepQuoted(before, line, DoubleQuotes);
        if hasDocstr || Count(line, DoubleQuotes) == 2 {
          line := Replace(line, DoubleQuotes, "");
          docs := docs + Strip(line) + "\n";
          break;
        } else {
          hasDocstr := true;
        }
        line := Replace(line, DoubleQuotes, "");
        docs := docs + Strip(line) + "\n";
      } else if Find(line, SingleQuotes, 0) != -1 {
        StepQuoted(before, line, SingleQuotes);
        if hasDocstr || Count(line, SingleQuotes) == 2 {
          line := Replace(line, SingleQuotes, "");
          docs := docs + Strip(line) + "\n";
          assert SingleQuotes == Triple('\'');
          RemoveTripleIdempotent(lines[i], '\'');
        } else {
          hasDocstr := true;
        }
        line := Replace(line, SingleQuotes, "");
        docs := docs + Strip(line) + "\n";
      } else {
        StepPlain(before, line);
        if hasDocstr {
          docs := docs + Strip(line) + "\n";
        } else if line != "" {
          things := things + line;
        } else {
          break;
        }
      }
      i := i + 1;
    }
  }

  /** A comment line adds its text, without the '#', to the docs. */
  lemma StepComment(sc: Scan, line: string)
    requires StartsWith(line, "#")
    ensures Step(sc, line) == (sc.(docs := sc.docs + Strip(line[1..]) + "\n"), false)
  {
  }

  /**
   * A line with quote markers. Closing markers: a """ line ends the block,
   * a ''' line adds its text twice; opening markers start a docstring.
   */
  lemma StepQuoted(sc: Scan, line: string, quotes: string)
    requires !StartsWith(line, "#")
    requires quotes == DoubleQuotes || (quotes == SingleQuotes && !Contains(line, DoubleQuotes))
    requires Contains(line, quotes)
    ensures var t := Strip(Replace(line, quotes, ""));
      var closes := sc.hasDocstr || Count(line, quotes) == 2;
      Step(sc, line)
      == if !closes then (Scan(sc.things, sc.docs + t + "\n", true), false)
         else if quotes == DoubleQuotes then (sc.(docs := sc.docs + t + "\n"), true)
         else (sc.(docs := sc.docs + t + "\n" + t + "\n"), false)
  {
  }

  /** A line without markers: docstring text, signature text, or the empty line that ends the block. */
  lemma StepPlain(sc: Scan, line: string)
    requires Classify(line) == Plain
    ensures Step(sc, line)
         == if sc.hasDocstr then (sc.(docs := sc.docs + Strip(line) + "\n"), false)
            else if line != "" then (sc.(things := sc.things + line), false)
            else (sc, true)
  {
  }

  /** One step of Consume, taken at index i of the lines. */
  lemma ConsumeUnfold(sc: Scan, lines: seq<string>, i: nat)
    requires i < |lines|
    ensures Consume(sc, lines[i..])
         == if Step(sc, lines[i]).1 then Step(sc, lines[i]).0
            else Consume(Step(sc, lines[i]).0, lines[i + 1..])
  {
    assert lines[i..][0] == lines[i] && lines[i..][1..] == lines[i + 1..];
  }

  /** Indices of every occurrence of sub at or after from, as repeated s.find(sub, i + 1) finds them. */
  function Occurrences(s: string, sub: string, from: nat): seq<nat>
    decreases |s| - from
  {
    var i := Find(s, sub, from);
    if i < 0 then [] else [i] + Occurrences(s, sub, i + 1)
  }

  /** The occurrences still to visit when the search stands at start (-1: none left). */
  function OccurrencesAt(s: string, sub: string, start: int): seq<nat> {
    if start < 0 then [] else [start] + Occurrences(s, sub, start + 1)
  }

  /** The (things, docs) pair of the block whose tag starts at index i. */
  function BlockAt(s: string, i: nat): (string, string) {
    var sc := Consume(Fresh, Split(Drop(s, i + |PublicTag| + 1), "\n"));
    (sc.things, sc.docs)
  }

  function BlocksOf(s: string, occs: seq<nat>): seq<(string, string)> {
    seq(|occs|, k requires 0 <= k < |occs| => BlockAt(s, occs[k]))
  }

  /** Every block of the script, in file order. */
  function Blocks(s: string): seq<(string, string)> {
    BlocksOf(s, Occurrences(s, PublicTag, 0))
  }

  /**
   * The outer while-loop of generate_script_doc: has_public and the
   * all_things dict it leaves.
   */
  method ExtractTagged(scriptData: string) returns (hasPublic: bool, allThings: Dict)
    ensures hasPublic <==> exists i :: OccursAt(scriptData, PublicTag, i)
    ensures allThings == FromPairs(Blocks(scriptData))
    ensures |allThings| <= |Occurrences(scriptData, PublicTag, 0)|
  {
    hasPublic := false;
    allThings := [];
    var start := Find(scriptData, PublicTag, 0);
    ghost var done: seq<nat> := [];
    while start != -1
      invariant -1 <= start <= |scriptData|
      invariant Occurrences(scriptData, PublicTag, 0) == done + OccurrencesAt(scriptData, PublicTag, start)
      invariant allThings == FromPairs(BlocksOf(scriptData, done))
      invariant hasPublic <==> |done| > 0
      decreases if start < 0 then 0 else |scriptData| + 1 - start
    {
      hasPublic := true;
      var data := Drop(scriptData, start + |PublicTag| + 1);
      var things, docs := ScanBlock(data);
      assert (things, docs) == BlockAt(scriptData, start);
      allThings := Put(allThings, things, docs);
      BlocksOfAppend(scriptData, done, start);
      OccurrencesAdvance(scriptData, PublicTag, done, start);
      done := done + [start];
      start := Find(scriptData, PublicTag, start + 1);
    }
    assert done + OccurrencesAt(scriptData, PublicTag, start) == done;
    AllVisited(scriptData, done);
  }

  /** Once every occurrence is visited, the blocks are all there and the flag says whether there was one. */
  lemma AllVisited(s: string, done: seq<nat>)
    requires Occurrences(s, PublicTag, 0) == done
    ensures |done| > 0 <==> exists i :: OccursAt(s, PublicTag, i)
    ensures Blocks(s) == BlocksOf(s, done)
    ensures |FromPairs(BlocksOf(s, done))| <= |done|
  {
    OccurrencesExact(s, PublicTag, 0);
    if |done| > 0 {
      assert done[0] in done;
    }
  }

  /** Adding one occurrence adds its block at the end and assigns it, as the loop does. */
  lemma BlocksOfAppend(s: string, done: seq<nat>, i: nat)
    ensures BlocksOf(s, done + [i]) == BlocksOf(s, done) + [BlockAt(s, i)]
    ensures FromPairs(BlocksOf(s, done + [i])) == Put(FromPairs(BlocksOf(s, done)), BlockAt(s, i).0, BlockAt(s, i).1)
  {
    var b := BlocksOf(s, done + [i]);
    assert b == BlocksOf(s, done) + [BlockAt(s, i)];
    assert b[..|b| - 1] == BlocksOf(s, done);
  }

  /** Moving the search past start moves start from the pending occurrences into the visited ones. */
  lemma OccurrencesAdvance(s: string, sub: string, done: seq<nat>, start: nat)
    ensures done + OccurrencesAt(s, sub, start)
         == (done + [start]) + OccurrencesAt(s, sub, Find(s, sub, start + 1))
  {
  }

  /** Occurrences lists exactly the indices at or after from where sub occurs. */
  lemma {:induction false} OccurrencesExact(s: string, sub: string, from: nat)
    ensures forall i :: i in Occurrences(s, sub, from) <==> from <= i && OccursAt(s, sub, i)
    decreases |s| - from
  {
    var i := Find(s, sub, from);
    if i >= 0 {
      OccurrencesExact(s, sub, i + 1);
      assert Occurrences(s, sub, from) == [i] + Occurrences(s, sub, i + 1);
    }
  }

  /** Occurrences lists them in increasing order. */
  lemma {:induction false} OccurrencesSorted(s: string, sub: string, from: nat)
    ensures forall a, b :: 0 <= a < b < |Occurrences(s, sub, from)|
              ==> Occurrences(s, sub, from)[a] < Occurrences(s, sub, from)[b]
    decreases |s| - from
  {
    var i := Find(s, sub, from);
    if i >= 0 {
      var tail := Occurrences(s, sub, i + 1);
      OccurrencesSorted(s, sub, i + 1);
      OccurrencesExact(s, sub, i + 1);
      var occ := Occurrences(s, sub, from);
      assert occ == [i] + tail;
      forall a, b | 0 <= a < b < |occ| ensures occ[a] < occ[b] {
        assert occ[b] == tail[b - 1] && tail[b - 1] in tail;
        if a > 0 {
          assert occ[a] == tail[a - 1];
        }
      }
    }
  }

  // ---------------------------------------------------------------------
  // What one block yields

  /** A line that is neither a comment nor holds quote markers, and is not empty: signature text. */
  predicate IsCode(line: string) {
    Classify(line) == Plain && line != ""
  }

  /** The signature lines of a run of lines, concatenated with no separator. */
  function Code(lines: seq<string>): string {
    if |lines| == 0 then ""
    else (if StartsWith(lines[0], "#") then "" else lines[0]) + Code(lines[1..])
  }

  /** The comment lines of a run of lines, each without its '#', stripped, ending in a newline. */
  function CommentDocs(lines: seq<string>): string {
    if |lines| == 0 then ""
    else (if StartsWith(lines[0], "#") then Strip(lines[0][1..]) + "\n" else "") + CommentDocs(lines[1..])
  }

  /** Every line stripped and ended with a newline. */
  function StrippedLines(lines: seq<string>): string {
    if |lines| == 0 then "" else Strip(lines[0]) + "\n" + StrippedLines(lines[1..])
  }

  /**
   * Outside a docstring, comment lines feed the docs and other non-empty
   * lines the signature, until an empty line ends the block.
   */
  lemma {:induction false} CommentsAndSignature(sc: Scan, lines: seq<string>, rest: seq<string>)
    requires !sc.hasDocstr
    requires forall k :: 0 <= k < |lines| ==> StartsWith(lines[k], "#") || IsCode(lines[k])
    ensures Consume(sc, lines + [""] + rest)
         == Scan(sc.things + Code(lines), sc.docs + CommentDocs(lines), false)
    decreases |lines|
  {
    if |lines| == 0 {
      assert lines + [""] + rest == [""] + rest;
      assert Classify("") == Plain;
    } else {
      var line := lines[0];
      var next := Step(sc, line).0;
      CommentOrCode(sc, line);
      assert lines + [""] + rest == [line] + (lines[1..] + [""] + rest);
      ConsumeCons(sc, line, lines[1..] + [""] + rest);
      CommentsAndSignature(next, lines[1..], rest);
      CodeCons(sc.things, lines);
      CommentDocsCons(sc.docs, lines);
    }
  }

  /** Outside a docstring a comment line feeds the docs and a code line the signature. */
  lemma CommentOrCode(sc: Scan, line: string)
    requires !sc.hasDocstr && (StartsWith(line, "#") || IsCode(line))
    ensures !Step(sc, line).1
    ensures Step(sc, line).0
         == Scan(sc.things + (if StartsWith(line, "#") then "" else line),
                 sc.docs + (if StartsWith(line, "#") then Strip(line[1..]) + "\n" else ""), false)
  {
    if StartsWith(line, "#") {
      assert sc.things + "" == sc.things;
    } else {
      assert sc.docs + "" == sc.docs;
    }
  }

  lemma CodeCons(things: string, lines: seq<string>)
    requires |lines| > 0
    ensures things + (if StartsWith(lines[0], "#") then "" else lines[0]) + Code(lines[1..]) == things + Code(lines)
  {
    var first := if StartsWith(lines[0], "#") then "" else lines[0];
    assert Code(lines) == first + Code(lines[1..]);
    Assoc(things, first, Code(lines[1..]));
  }

  lemma CommentDocsCons(docs: string, lines: seq<string>)
    requires |lines| > 0
    ensures docs + (if StartsWith(lines[0], "#") then Strip(lines[0][1..]) + "\n" else "") + CommentDocs(lines[1..])
         == docs + CommentDocs(lines)
  {
    var first := if StartsWith(lines[0], "#") then Strip(lines[0][1..]) + "\n" else "";
    assert CommentDocs(lines) == first + CommentDocs(lines[1..]);
    Assoc(docs, first, CommentDocs(lines[1..]));
  }

  /** Outside a docstring an empty line ends the block and adds nothing. */
  lemma BlankLineEnds(sc: Scan, rest: seq<string>)
    requires !sc.hasDocstr
    ensures Consume(sc, [""] + rest) == sc
  {
    assert Classify("") == Plain;
  }

  /**
   * Inside a docstring every line without markers, empty ones included, is
   * added to the docs stripped, and the block goes on.
   */
  lemma {:induction false} DocstringBody(sc: Scan, lines: seq<string>, rest: seq<string>)
    requires sc.hasDocstr
    requires forall k :: 0 <= k < |lines| ==> Classify(lines[k]) == Plain
    ensures Consume(sc, lines + rest) == Consume(sc.(docs := sc.docs + StrippedLines(lines)), rest)
    decreases |lines|
  {
    if |lines| == 0 {
      assert lines + rest == rest;
      assert sc.(docs := sc.docs + "") == sc;
    } else {
      var line := lines[0];
      var next := sc.(docs := sc.docs + Strip(line) + "\n");
      PlainInDocstring(sc, line);
      assert lines + rest == [line] + (lines[1..] + rest);
      ConsumeCons(sc, line, lines[1..] + rest);
      DocstringBody(next, lines[1..], rest);
      StrippedLinesCons(sc.docs, lines);
    }
  }

  /** Inside a docstring a line without markers is added stripped. */
  lemma PlainInDocstring(sc: Scan, line: string)
    requires sc.hasDocstr && Classify(line) == Plain
    ensures Step(sc, line) == (sc.(docs := sc.docs + Strip(line) + "\n"), false)
  {
  }

  /** One step of Consume on a line that does not end the block. */
  lemma ConsumeCons(sc: Scan, line: string, rest: seq<string>)
    requires !Step(sc, line).1
    ensures Consume(sc, [line] + rest) == Consume(Step(sc, line).0, rest)
  {
    assert ([line] + rest)[0] == line && ([line] + rest)[1..] == rest;
  }

  lemma StrippedLinesCons(docs: string, lines: seq<string>)
    requires |lines| > 0
    ensures docs + Strip(lines[0]) + "\n" + StrippedLines(lines[1..]) == docs + StrippedLines(lines)
  {
    var first := Strip(lines[0]);
    var tail := StrippedLines(lines[1..]);
    assert StrippedLines(lines) == first + "\n" + tail;
    Assoc(docs, first, "\n");
    Assoc(docs, first + "\n", tail);
  }

  /** A """ line that closes (inside a docstring, or holding exactly two markers) ends the block. */
  lemma DoubleQuoteCloses(sc: Scan, line: string, rest: seq<string>)
    requires Classify(line) == DoubleQuoted
    requires sc.hasDocstr || Count(line, DoubleQuotes) == 2
    ensures Consume(sc, [line] + rest) == sc.(docs := sc.docs + Unquoted(line, DoubleQuotes) + "\n")
  {
  }

  /** A ''' line that closes adds its text twice and the block goes on, has_docstr unchanged. */
  lemma SingleQuoteCloses(sc: Scan, line: string, rest: seq<string>)
    requires Classify(line) == SingleQuoted
    requires sc.hasDocstr || Count(line, SingleQuotes) == 2
    ensures var t := Unquoted(line, SingleQuotes);
      Consume(sc, [line] + rest) == Consume(sc.(docs := sc.docs + t + "\n" + t + "\n"), rest)
  {
    assert ([line] + rest)[1..] == rest;
  }

  /** A quote line that does not close opens a docstring: its text is added once. */
  lemma QuoteOpens(sc: Scan, line: string, rest: seq<string>)
    requires !sc.hasDocstr
    requires (Classify(line) == DoubleQuoted && Count(line, DoubleQuotes) != 2)
          || (Classify(line) == SingleQuoted && Count(line, SingleQuotes) != 2)
    ensures var t := Unquoted(line, if Classify(line) == DoubleQuoted then DoubleQuotes else SingleQuotes);
      Consume(sc, [line] + rest) == Consume(Scan(sc.things, sc.docs + t + "\n", true), rest)
  {
    assert ([line] + rest)[1..] == rest;
  }

  /**
   * The accumulators only grow, and once inside a docstring the signature
   * is final and the flag stays set.
   */
  lemma {:induction false} ConsumeGrows(sc: Scan, lines: seq<string>)
    ensures var r := Consume(sc, lines);
      StartsWith(r.things, sc.things) && StartsWith(r.docs, sc.docs)
      && (sc.hasDocstr ==> r.hasDocstr && r.things == sc.things)
    decreases |lines|
  {
    if |lines| > 0 {
      var line := lines[0];
      var next := Step(sc, line).0;
      StepGrows(sc, line);
      if !Step(sc, line).1 {
        assert lines == [line] + lines[1..];
        ConsumeCons(sc, line, lines[1..]);
        ConsumeGrows(next, lines[1..]);
        var r := Consume(next, lines[1..]);
        StartsWithTrans(r.things, next.things, sc.things);
        StartsWithTrans(r.docs, next.docs, sc.docs);
      }
    }
  }

  /** One step only appends, and inside a docstring leaves the signature and the flag alone. */
  lemma StepGrows(sc: Scan, line: string)
    ensures var next := Step(sc, line).0;
      StartsWith(next.things, sc.things) && StartsWith(next.docs, sc.docs)
      && (sc.hasDocstr ==> next.hasDocstr && next.things == sc.things)
  {
  }

  /** From lines without a newline, the signature is one line. */
  lemma {:induction false} SignatureOneLine(sc: Scan, lines: seq<string>)
    requires '\n' !in sc.things
    requires forall k :: 0 <= k < |lines| ==> '\n' !in lines[k]
    ensures '\n' !in Consume(sc, lines).things
    decreases |lines|
  {
    if |lines| > 0 {
      var next := Step(sc, lines[0]).0;
      assert '\n' !in next.things;
      SignatureOneLine(next, lines[1..]);
    }
  }

  /** Every signature the extractor records lies on one line. */
  lemma BlockSignatureOneLine(s: string, i: nat)
    ensures '\n' !in BlockAt(s, i).0
  {
    var data := Drop(s, i + |PublicTag| + 1);
    var lines := Split(data, "\n");
    SplitPiecesFree(data, "\n", 0);
    forall k | 0 <= k < |lines| ensures '\n' !in lines[k] {
      ContainsChar(lines[k], '\n');
    }
    SignatureOneLine(Fresh, lines);
  }

  /** The example of a tagged function: one comment line, one signature line, a blank line. */
  lemma AddExample(comment: string, signature: string, rest: seq<string>)
    requires comment == "# Adds two numbers" && signature == "func add(a, b):"
    ensures Consume(Fresh, [comment, signature, ""] + rest) == Scan(signature, "Adds two numbers\n", false)
  {
    AddSignatureIsCode(signature);
    AddCommentStripped(comment);
    CommentThenSignature(comment, signature, rest);
  }

  /** A comment line, a signature line and a blank line make a block. */
  lemma CommentThenSignature(c: string, d: string, rest: seq<string>)
    requires StartsWith(c, "#") && IsCode(d)
    ensures Consume(Fresh, [c, d, ""] + rest) == Scan(d, Strip(c[1..]) + "\n", false)
  {
    var lines := [c, d];
    assert lines + [""] + rest == [c, d, ""] + rest;
    CommentThenCode(c, d);
    assert forall k :: 0 <= k < |lines| ==> StartsWith(lines[k], "#") || IsCode(lines[k]);
    CommentsAndSignature(Fresh, lines, rest);
    assert Fresh.things + Code(lines) == d;
    assert Fresh.docs + CommentDocs(lines) == Strip(c[1..]) + "\n";
  }

  lemma AddSignatureIsCode(signature: string)
    requires signature == "func add(a, b):"
    ensures IsCode(signature)
  {
    assert '"' !in signature && '\'' !in signature;
    NoCharNoOccurrence(signature, DoubleQuotes);
    NoCharNoOccurrence(signature, SingleQuotes);
    assert signature[..1] != "#";
  }

  lemma AddCommentStripped(comment: string)
    requires comment == "# Adds two numbers"
    ensures StartsWith(comment, "#") && Strip(comment[1..]) == "Adds two numbers"
  {
    var t := comment[1..];
    var u := t[1..];
    assert u == "Adds two numbers";
    assert IsSpace(t[0]) && !IsSpace(u[0]) && !IsSpace(u[|u| - 1]);
    assert StripLeft(t) == StripLeft(u) == u;
    StripNoop(u);
  }

  /** A comment line followed by a signature line. */
  lemma CommentThenCode(c: string, d: string)
    requires StartsWith(c, "#") && !StartsWith(d, "#")
    ensures Code([c, d]) == d
    ensures CommentDocs([c, d]) == Strip(c[1..]) + "\n"
  {
    assert [c, d][1..] == [d];
    assert [d][1..] == [];
    assert Code([d]) == d + Code([]);
    assert Code([c, d]) == "" + Code([d]);
    assert CommentDocs([d]) == "" + CommentDocs([]);
    assert CommentDocs([c, d]) == Strip(c[1..]) + "\n" + CommentDocs([d]);
  }

  // ---------------------------------------------------------------------
  // What the whole scan yields

  /** Two blocks with the same signature leave one entry, holding the later block's docs. */
  lemma LaterBlockWins(s: string, j: nat)
    requires j < |Blocks(s)|
    requires forall j' :: j < j' < |Blocks(s)| ==> Blocks(s)[j'].0 != Blocks(s)[j].0
    ensures Get(FromPairs(Blocks(s)), Blocks(s)[j].0) == Some(Blocks(s)[j].1)
  {
    FromPairsLastWins(Blocks(s), j);
  }
}
