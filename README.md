# gdscript_docs in Dafny

A model of the minimal documentation generator for Godot projects, `gdscript_docs.py`. The generator:

- walks a project;
- keeps the `.gd` scripts whose full path contains no ignored word;
- collects, after every `# PUBLIC` tag of a script, a signature line and its documentation (comment lines and docstrings);
- rewrites res:// references in that documentation into Markdown links;
- writes an index page that lists the project's autoloads (singletons, read from the `[autoload]` section of `project.godot`) and its documented scripts.

The model covers the text processing of the generator, each part as its own module:

- **Between.** `get_between` is the delimiter search that every parser of the program is built from. It gives the first occurrence of the start marker. It then gives the first occurrence of the end marker after that one. It returns the text between them, unless that text spans a line and the search is not multiline.
- **TagExtractor.** The loop in `generate_script_doc` is a state machine over lines. Its state is the signature accumulator, the documentation accumulator and the "inside a docstring" flag. The loop runs once per tag occurrence and fills a dict keyed by signature.
  - `Step` and `Consume` are the machine as functions.
  - `ScanBlock` and `ExtractTagged` are the two loops as methods proved against `Consume` and `Blocks`.
- **Resources.** `clean_path`, `find_script` over a scene's text, and `localise_path`.
- **Autoloads.** `get_autoloads`: the `[autoload]` section's lines parsed into a dict.
- **Markup.** `markup_docs`: three passes, one per delimiter (space, newline, double quote).
- **Scanner.** The `.gd`/IGNORES filter of `main` over the walk of the project directory.
- **Index.** The text `generate_index` writes.

Supporting modules model the Python behaviour the program relies on:

- **PyStr.** `str.find`, `in`, `count`, `replace`, `split`, `join`, `strip`, `startswith`, `endswith` and the slices the program takes.
- **PyInt.** `int()` and `str()` on base-10 text.
- **OrderedDict.** A `dict` with insertion order and "last write wins".
- **OsPath.** POSIX `os.path.join` and `os.path.basename`.
- **Outcomes.** `Option`, and `Result` over the exceptions the code lets escape.

How the outside world enters the model:

- Files are a `map` from path to contents. Opening a missing file is `FileNotFound`.
- `os.path.relpath` is a function parameter.
- So is the target of a Markdown link, the relative path `markup_docs` computes for a reference.
- The walk of the project directory is given as its sequence of (folder, file names) pairs.
- Exceptions the code raises become `Err` values:
  - subscripting `None` is `TypeError`;
  - indexing past the end of a list is `IndexError`;
  - `int()` of a non-number is `ValueError`.

Behaviours of the code that the model keeps as written, each with a lemma:

- `find_script` searches for the script's path from the first `ext_resource` entry of a scene only. When the end marker for the id is on a later line, it falls back to the `.gd` path (`Resources.FindScriptStopsAtFirstEntry`).
- It matches the script id as a prefix, so id 1 also matches the entry for id 10 (`Resources.IdMatchedAsPrefix`).
- An `[autoload]` section that is the last section of the file is a `TypeError` (`Autoloads.LastSectionFails`).
- The newline pass of `markup_docs` takes the whole rest of the line as the reference (`Markup.NewlinePassTakesRestOfLine`).
- `clean_path` removes `res://` in a single pass (`Resources.CleanPathSinglePass`).
- A path is ignored when any part of it contains `modules`, a file name such as `modules_menu.gd` included; so a project kept in a folder named `modules` documents nothing (`Scanner.IgnoredFolder`).
- A closing `'''` line adds its text twice and does not end the block (`TagExtractor.SingleQuoteCloses`).

## Model

| member | source | states |
|---|---|---|
| Between.GetBetween | gdscript_docs.py:264-276 | On a hit, the start index is the first start marker at or after pos, the end index is the first end marker after that match, and the text is exactly the slice between them; without multiline the text holds no newline |
| Between.GetBetweenNoStart | gdscript_docs.py:266-268 | No start marker at or after pos gives None |
| Between.GetBetweenNoEnd | gdscript_docs.py:269-271 | A start marker with no end marker after it gives None |
| Between.GetBetweenFound | gdscript_docs.py:264-276 | With both first occurrences known, the result is the span between them, or None exactly when the text spans a line and multiline is off |
| PyStr.Find | gdscript_docs.py:266 | str.find returns -1 or the first index at or after pos where the substring occurs, and -1 only when none occurs |
| PyStr.FindIsFirst | gdscript_docs.py:266 | Any first occurrence at or after pos is what find returns |
| PyStr.Contains | gdscript_docs.py:245 | Python's `sub in s`, which is also `s.find(sub) != -1` as at 130: Find from index 0 gives an index; ContainsIff says this is exactly an occurrence somewhere |
| PyStr.ContainsIff | gdscript_docs.py:245 | `sub in s` holds exactly when sub occurs at some index |
| PyStr.ContainsChar | gdscript_docs.py:273 | A one-character substring is in s exactly when the character is |
| PyStr.NoCharNoOccurrence | gdscript_docs.py:130 | A substring whose first character is absent occurs nowhere, so `find` gives -1 for it |
| PyStr.Drop | gdscript_docs.py:120 | s[k:] is the rest after the first k characters, or empty past the end |
| PyStr.StartsWith | gdscript_docs.py:127 | str.startswith: the prefix is the first characters of s |
| PyStr.EndsWith | gdscript_docs.py:241 | str.endswith: the suffix is the last characters of s, used for `.gd` at 241 and `.tscn` at 104 |
| PyStr.DropLast | gdscript_docs.py:42 | s[:-k] followed by the last k characters is s, and it is empty when s is no longer than k |
| PyStr.SplitFrom | gdscript_docs.py:126 | str.split always gives at least one piece |
| PyStr.JoinWith | gdscript_docs.py:126 | sep.join(parts): the pieces with sep between them; SplitJoin proves it inverts split, and ReplaceBySplit that replace is a join of the split |
| PyStr.CountFrom | gdscript_docs.py:131 | str.count from an index: the non-overlapping matches, counted left to right, each search resuming after the previous match |
| PyStr.Count | gdscript_docs.py:131 | str.count of a non-empty substring over the whole string, as the closing tests at 131 and 142 use it |
| PyStr.ReplaceFrom | gdscript_docs.py:31 | str.replace of the rest from an index: each match, scanned left to right without overlap, becomes rep and other characters are copied; ReplaceBySplit, ReplaceUpTo and ReplaceCopies characterise it |
| PyStr.Replace | gdscript_docs.py:31 | str.replace over the whole string, as at 31, 107, 132 and 137 |
| PyStr.Split | gdscript_docs.py:37 | str.split always gives at least one piece |
| PyStr.SplitJoin | gdscript_docs.py:126 | Joining the pieces of split with the separator rebuilds the string |
| PyStr.SplitPiecesFree | gdscript_docs.py:126 | No piece of split contains the separator |
| PyStr.ReplaceBySplit | gdscript_docs.py:31 | replace(pat, rep) equals rep.join(split(pat)): every match, and nothing else, becomes rep |
| PyStr.ReplaceUpTo | gdscript_docs.py:31 | replace copies the text up to the first match and writes rep in its place |
| PyStr.ReplaceCopies | gdscript_docs.py:31 | Where no match starts, replace copies the text |
| PyStr.ReplaceAbsent | gdscript_docs.py:31 | With no match left, replace returns the rest unchanged |
| PyStr.ReplaceLeading | gdscript_docs.py:31 | A string that is pat followed by text without pat becomes rep followed by that text |
| PyStr.ReplaceAtEnd | gdscript_docs.py:107 | A string ending in a pattern that cannot overlap itself ends in rep after replace |
| PyStr.StripLeftSpec | gdscript_docs.py:38 | lstrip removes exactly the leading white space: the rest is a suffix that does not start with white space |
| PyStr.IsSpace | gdscript_docs.py:38 | The characters str.isspace accepts, which strip removes |
| PyStr.StripLeft | gdscript_docs.py:38 | str.lstrip: leading white space removed one character at a time; StripLeftSpec characterises it |
| PyStr.StripRight | gdscript_docs.py:38 | str.rstrip: trailing white space removed one character at a time; StripRightSpec characterises it |
| PyStr.Strip | gdscript_docs.py:38 | str.strip: rstrip after lstrip, as at 38, 128, 133 and 153; StripSpec and StripNoop characterise it |
| PyStr.StripRightSpec | gdscript_docs.py:38 | rstrip removes exactly the trailing white space |
| PyStr.StripSpec | gdscript_docs.py:38 | strip leaves text that neither starts nor ends with white space |
| PyStr.StripNoop | gdscript_docs.py:38 | strip leaves text without surrounding white space unchanged |
| PyStr.RemoveTripleClears | gdscript_docs.py:132 | Removing every triple quote leaves none behind |
| PyStr.RemoveTripleIdempotent | gdscript_docs.py:143-147 | Removing the triple quotes a second time, as the closing ''' branch does, changes nothing |
| PyInt.NatToString | gdscript_docs.py:92 | str of a natural number is a non-empty string of digits |
| PyInt.IntToString | gdscript_docs.py:92 | str of an int is non-empty |
| PyInt.NatToStringRoundTrip | gdscript_docs.py:92 | The digits str writes have the value of the number |
| PyInt.ParseIntRoundTrip | gdscript_docs.py:88 | int(str(i)) == i |
| PyInt.DigitsValue | gdscript_docs.py:88 | The base-10 value of a string of digits, most significant first |
| PyInt.ParseInt | gdscript_docs.py:88 | int() of a string: white space stripped, one optional sign, then at least one digit; anything else is None, the ValueError of 88; ParseIntRoundTrip ties it to IntToString |
| OrderedDict.Keys | gdscript_docs.py:65 | Iterating a dict gives its keys in stored order |
| OrderedDict.GetKeys | gdscript_docs.py:36-42 | A lookup finds a value exactly for the keys of the dict |
| OrderedDict.Get | gdscript_docs.py:68 | d[k], the lookup of 68, as an Option: the value stored under k or None; GetKeys says when it succeeds and Put and FromPairsLastWins what it returns |
| OrderedDict.Put | gdscript_docs.py:42 | After d[k] = v, k maps to v and every other key keeps its value |
| OrderedDict.PutKeys | gdscript_docs.py:42 | Assignment keeps an existing key in its place and appends a new key at the end |
| OrderedDict.PutDistinct | gdscript_docs.py:42 | Assignment never makes a key appear twice |
| OrderedDict.FromPairs | gdscript_docs.py:160 | The dict built by assigning pairs in order has distinct keys and no more entries than pairs |
| OrderedDict.FromPairsLastWins | gdscript_docs.py:160 | A key holds the value of the last pair assigned to it |
| OrderedDict.FromPairsAbsent | gdscript_docs.py:160 | A key no pair assigns is absent |
| OrderedDict.FromPairsKeyOrder | gdscript_docs.py:160 | The keys come in the order of their first assignment |
| OsPath.JoinShape | gdscript_docs.py:31 | The joined path ends with the second path and, when that is relative, starts with the first |
| OsPath.Join | gdscript_docs.py:31 | posixpath.join of two parts: an absolute second part replaces the first, otherwise one '/' separates them unless the first already ends in one; JoinShape characterises it |
| OsPath.Basename | gdscript_docs.py:75 | posixpath.basename: the text after the last '/'; BasenameSpec characterises it |
| OsPath.BasenameSpec | gdscript_docs.py:75 | The basename is the longest suffix of the path without '/' |
| OsPath.BasenameKeepsSuffix | gdscript_docs.py:75 | A suffix without '/' survives into the basename |
| TagExtractor.ScanBlock | gdscript_docs.py:122-158 | The for loop over the block's lines leaves the signature and docs that Consume computes from the lines of the block |
| TagExtractor.Classify | gdscript_docs.py:127-151 | The branch of the if/elif chain a line takes, tested in source order: starts with '#', then `find('"""') != -1`, then `find("'''") != -1`, otherwise the plain branch |
| TagExtractor.Unquoted | gdscript_docs.py:132-133 | What a quote line adds to the docs: the line with every quote marker removed, stripped |
| TagExtractor.Step | gdscript_docs.py:127-157 | One iteration of the loop body: the new accumulators and whether the line breaks the loop; StepComment, StepQuoted and StepPlain give each branch |
| TagExtractor.Consume | gdscript_docs.py:126-157 | The `for line` loop: steps through the lines until a step breaks or the lines run out; ScanBlock is proved equal to it and ConsumeUnfold unfolds one iteration |
| TagExtractor.StepComment | gdscript_docs.py:127-128 | A comment line adds its text after the '#', stripped and with a newline, and the block goes on |
| TagExtractor.StepQuoted | gdscript_docs.py:130-148 | A quote line opens a docstring, or closes one: a closing """ line ends the block after adding its text once, a closing ''' line adds its text twice and goes on |
| TagExtractor.StepPlain | gdscript_docs.py:151-157 | A line without markers is docstring text, signature text or, when empty outside a docstring, the end of the block |
| TagExtractor.ConsumeUnfold | gdscript_docs.py:126 | One iteration of the line loop is one Step, stopping where Step says the block ends |
| TagExtractor.ExtractTagged | gdscript_docs.py:113-162 | has_public holds exactly when "# PUBLIC" occurs; all_things is the dict built from the blocks at every tag occurrence in order; it has no more entries than there are tags |
| TagExtractor.AllVisited | gdscript_docs.py:117-119 | Once every occurrence is visited the flag says whether there was one, and the dict has at most one entry per occurrence |
| TagExtractor.Occurrences | gdscript_docs.py:162 | The indices the repeated `find(PUBLIC_TAG, start + 1)` visits, from an index on; OccurrencesExact says they are exactly the occurrences and OccurrencesSorted that they increase |
| TagExtractor.OccurrencesAt | gdscript_docs.py:117-118 | The tag positions still to visit when the search stands at start, none when start is -1 |
| TagExtractor.BlockAt | gdscript_docs.py:120-157 | The (things, docs) pair of the block whose tag starts at an index: Consume over the lines of the text from start + len(PUBLIC_TAG) + 1 |
| TagExtractor.BlocksOf | gdscript_docs.py:120-160 | The pairs of the blocks at the given tag positions, in order |
| TagExtractor.Blocks | gdscript_docs.py:117-162 | Every block of the script in file order, which ExtractTagged assigns into all_things |
| TagExtractor.BlocksOfAppend | gdscript_docs.py:160 | Visiting one more tag appends its block and assigns it into the dict |
| TagExtractor.OccurrencesAdvance | gdscript_docs.py:162 | The next search starts one past the current tag |
| TagExtractor.OccurrencesExact | gdscript_docs.py:117-162 | The tags the loop visits are exactly the indices where "# PUBLIC" occurs |
| TagExtractor.OccurrencesSorted | gdscript_docs.py:162 | They are visited in increasing order |
| TagExtractor.CommentsAndSignature | gdscript_docs.py:126-157 | Outside a docstring, comment lines feed the docs and other non-empty lines the signature, unstripped and with no separator, until an empty line ends the block |
| TagExtractor.CommentOrCode | gdscript_docs.py:127-155 | One such line outside a docstring feeds either the docs or the signature |
| TagExtractor.BlankLineEnds | gdscript_docs.py:156-157 | Outside a docstring an empty line ends the block and adds nothing |
| TagExtractor.DocstringBody | gdscript_docs.py:152-153 | Inside a docstring every line without markers, empty ones included, is added stripped and the block goes on |
| TagExtractor.PlainInDocstring | gdscript_docs.py:152-153 | Inside a docstring a line without markers is added stripped |
| TagExtractor.DoubleQuoteCloses | gdscript_docs.py:130-134 | A closing """ line adds its text once and ends the block |
| TagExtractor.SingleQuoteCloses | gdscript_docs.py:140-148 | A closing ''' line adds its text twice and the block goes on |
| TagExtractor.QuoteOpens | gdscript_docs.py:130-148 | A quote line that does not close opens a docstring and adds its text once |
| TagExtractor.ConsumeGrows | gdscript_docs.py:122-158 | The accumulators only grow; once inside a docstring the signature is final and the flag stays set |
| TagExtractor.StepGrows | gdscript_docs.py:126-157 | One line only appends, and inside a docstring leaves the signature and the flag alone |
| TagExtractor.SignatureOneLine | gdscript_docs.py:155 | From lines without newlines, the signature has no newline |
| TagExtractor.BlockSignatureOneLine | gdscript_docs.py:120-160 | Every signature recorded for a tag lies on one line |
| TagExtractor.AddExample | gdscript_docs.py:126-157 | "# Adds two numbers", "func add(a, b):" and an empty line give signature "func add(a, b):" and docs "Adds two numbers\n" |
| TagExtractor.CommentThenSignature | gdscript_docs.py:126-157 | A comment line, a signature line and an empty line make a block of that signature and that comment |
| TagExtractor.CommentThenCode | gdscript_docs.py:127-155 | A comment line followed by a signature line gives that signature and that comment's docs |
| TagExtractor.LaterBlockWins | gdscript_docs.py:160 | Of two blocks with one signature, the dict holds the later block's docs |
| Resources.ExtEnd | gdscript_docs.py:92 | The end marker for an id is the Script type text followed by the id's digits |
| Resources.CleanPath | gdscript_docs.py:30-31 | The cleaned path ends with the path with every res:// removed |
| Resources.CleanPathRemovesEvery | gdscript_docs.py:30-31 | clean_path joins under the project directory the pieces between the res:// matches, none of which holds res:// |
| Resources.CleanResPath | gdscript_docs.py:30-31 | res://x becomes x under the project directory |
| Resources.CleanPathSinglePass | gdscript_docs.py:31 | "rres://es://" cleans to "res://": a res:// that only forms once another is removed stays |
| Resources.FindScriptIn | gdscript_docs.py:84-96 | Reading a scene's text fails only with int()'s ValueError |
| Resources.FindScript | gdscript_docs.py:80-96 | Reading a scene fails with FileNotFound exactly when the scene is missing, and otherwise only with ValueError |
| Resources.FallbackIsScript | gdscript_docs.py:96 | The fallback of a scene path ends in .gd and no longer in .tscn |
| Resources.Fallback | gdscript_docs.py:96 | The path find_script falls back to: every `.tscn` replaced by `.gd`; FallbackIsScript characterises it |
| Resources.FindScriptNoRoot | gdscript_docs.py:84-85 | A scene without a root node falls back to the .gd path |
| Resources.FindScriptNoScript | gdscript_docs.py:86-87 | A root node without a script falls back to the .gd path |
| Resources.FindScriptBadId | gdscript_docs.py:88 | A script id that int() rejects is a ValueError |
| Resources.FindScriptNoEntry | gdscript_docs.py:89-96 | No Script entry with the id gives the .gd fallback |
| Resources.FindScriptResolves | gdscript_docs.py:84-95 | With the first root node, its script id and the first ext_resource entry ending with that id on one line, the result is that entry's path cleaned |
| Resources.FindScriptStopsAtFirstEntry | gdscript_docs.py:89-96 | When the text from the first ext_resource entry to the first end marker for the id spans a line, the lookup falls back to the .gd path |
| Resources.IdMatchedAsPrefix | gdscript_docs.py:92 | The entry for id 10 also ends the search for id 1 |
| Resources.LocalisePath | gdscript_docs.py:101-108 | A path that is not a scene always localises; any failure is the one find_script gives for the scene |
| Resources.ReplaceKeepsRelative | gdscript_docs.py:107 | Replacing .gd by .md keeps a relative path relative |
| Resources.LocaliseScript | gdscript_docs.py:104-108 | A script's documentation path ends in .md and, for a relative path, lies under the output folder |
| Resources.LocaliseReplacesEvery | gdscript_docs.py:106-108 | Every .gd of the relative path becomes .md, and nothing else changes |
| Resources.SceneSharesScriptDoc | gdscript_docs.py:104-105 | A scene's documentation goes where its script's does |
| Resources.SceneWithoutScript | gdscript_docs.py:96-105 | A scene without a root node is documented as the .gd file beside it |
| Resources.SceneMissing | gdscript_docs.py:82 | A missing scene file is FileNotFound for that path |
| Autoloads.AliasEntry | gdscript_docs.py:38-42 | A blank line is skipped; a line fails with IndexError exactly when it is not blank and lacks =" *; otherwise it gives a name and a path |
| Autoloads.SplitTwoIffContains | gdscript_docs.py:41-42 | A line splits into two or more pieces exactly when it holds the separator |
| Autoloads.ParseAliases | gdscript_docs.py:37-42 | The line loop fails only with IndexError |
| Autoloads.AutoloadsOf | gdscript_docs.py:35-43 | get_autoloads over the text fails only with IndexError or TypeError |
| Autoloads.Autoloads | gdscript_docs.py:34-43 | FileNotFound exactly when the project file is missing |
| Autoloads.GetAutoloads | gdscript_docs.py:34-43 | The loop of get_autoloads computes Autoloads |
| Autoloads.WellFormedLine | gdscript_docs.py:38-42 | A line name="*path" whose name and path hold no ="* (and whose name does not start with white space) maps name to clean_path of path |
| Autoloads.WellFormedSplit | gdscript_docs.py:41 | A line name="*path" whose name and path hold no ="* splits into the name and the quoted path |
| Autoloads.ParseAliasesAppend | gdscript_docs.py:37-42 | Parsing a + b continues from the dict left by a |
| Autoloads.LaterAliasWins | gdscript_docs.py:42 | A later line for a name overwrites its path; other names keep theirs |
| Autoloads.MalformedLineFails | gdscript_docs.py:41-42 | A non-blank line without =" * anywhere makes the whole call fail with IndexError |
| Autoloads.NoSectionFails | gdscript_docs.py:35 | A file without [autoload] is a TypeError |
| Autoloads.LastSectionFails | gdscript_docs.py:35 | An [autoload] section with no '[' after it is a TypeError |
| Markup.Link | gdscript_docs.py:202-205 | A link is [basename(url)](target) |
| Markup.FormatUrl | gdscript_docs.py:195-205 | format_url: every copy of `res://` + url replaced by the link; PassReplacesEveryCopy characterises it |
| Markup.MarkupPass | gdscript_docs.py:208-210 | One pass: the first reference ended by the delimiter, when get_between finds one, rewritten by format_url; otherwise the text; PassRewritesFirst and PassUnchangedWithoutReference characterise it |
| Markup.MarkupOf | gdscript_docs.py:208-219 | The space pass, then the newline pass, then the double-quote pass, each on the result of the one before; MarkupDocs is proved equal to it |
| Markup.MarkupDocs | gdscript_docs.py:192-222 | The three passes, in order space, newline, double quote, each applied to the result of the last |
| Markup.PassWithoutReference | gdscript_docs.py:208-210 | Text without res:// passes a pass unchanged |
| Markup.MarkupWithoutReference | gdscript_docs.py:192-222 | Documentation without res:// is returned unchanged |
| Markup.PassRewritesOneReference | gdscript_docs.py:195-210 | A pass either changes nothing, or rewrites the reference from the first res:// to the first delimiter after it, which holds neither a newline nor the delimiter, replacing every copy of it by the link |
| Markup.PassReplacesEveryCopy | gdscript_docs.py:202-205 | A rewrite joins with the link the pieces between the copies of the reference, none of which still holds it |
| Markup.PassRewritesFirst | gdscript_docs.py:208-218 | When the first res:// is ended by the pass's delimiter on its line, the pass rewrites every copy of that reference into the link |
| Markup.PassUnchangedWithoutReference | gdscript_docs.py:208-218 | A pass leaves the text unchanged when no res:// reference is ended by its delimiter on the same line |
| Markup.PassNeedsDelimiter | gdscript_docs.py:208-209 | A reference with no delimiter after it is left alone by that pass |
| Markup.NewlinePassTakesRestOfLine | gdscript_docs.py:212-214 | The newline pass takes the rest of the line, spaces included, as the reference |
| Scanner.Ignored | gdscript_docs.py:239-246 | The ignored flag is set unless the name ends in .gd, and set again by an ignored word in the path |
| Scanner.AnyIn | gdscript_docs.py:244-246 | Some word of the list occurs in the path; AnyInIff characterises it |
| Scanner.IsIgnored | gdscript_docs.py:239-246 | The final `ignored` flag: set unless the name ends in `.gd`, or when an ignored word is in the full path |
| Scanner.Keep | gdscript_docs.py:238-248 | A file of a folder is kept when its joined full path is not ignored |
| Scanner.KeptIn | gdscript_docs.py:237-249 | The full paths kept from one folder's files, in order; KeptInMember characterises it |
| Scanner.Selected | gdscript_docs.py:235-249 | The full paths kept from the whole walk, folder by folder, in order; SelectedMember characterises it |
| Scanner.CollectScripts | gdscript_docs.py:235-249 | The nested loops collect Selected(walk): the kept paths, in walk order |
| Scanner.KeptInMember | gdscript_docs.py:237-249 | A path is kept from a folder exactly when some file there passes the filter and the path is its full path |
| Scanner.KeptInFrom | gdscript_docs.py:248-249 | Every kept path comes from a file that passes the filter |
| Scanner.KeptInHas | gdscript_docs.py:248-249 | Every file that passes the filter has its path kept |
| Scanner.SelectedMember | gdscript_docs.py:235-249 | A path is selected exactly when some file of some folder passes the filter there |
| Scanner.SelectedAreScripts | gdscript_docs.py:239-249 | Every selected path ends in .gd and holds no ignored word |
| Scanner.AnyInIff | gdscript_docs.py:244-246 | The ignore loop finds a word exactly when some ignored word is in the path |
| Scanner.IgnoredFolder | gdscript_docs.py:244-246 | Nothing under a folder whose path holds "modules" is kept |
| Index.Entry | gdscript_docs.py:66 | One "- [name](link)" line |
| Index.ClassName | gdscript_docs.py:75 | The class name has no '/' |
| Index.ClassNameOfScript | gdscript_docs.py:75 | For a script, the class name followed by .gd is its file name |
| Index.GenerateIndex | gdscript_docs.py:61-77 | The method produces IndexText: the headings, the autoload lines, the class heading, and the class lines |
| Index.Localiser | gdscript_docs.py:68 | The link of an index line: localise_path under the output folder, as at 68 and 76 |
| Index.AutoloadLines | gdscript_docs.py:65-69 | The autoload lines in dictionary order, or the error of the first path that does not localise; AutoloadLinesOkIff and AutoloadLinesStep characterise it |
| Index.ClassLines | gdscript_docs.py:73-77 | The class lines in list order, or the error of the first path that does not localise; ClassLinesOkIff and ClassLinesStep characterise it |
| Index.IndexText | gdscript_docs.py:61-77 | The text of index.md: the title and autoload heading, the autoload lines, the classes heading and the class lines, or the first error; IndexSucceeds and IndexShape characterise it |
| Index.WriteAutoloads | gdscript_docs.py:65-69 | The autoload loop leaves AutoloadLines |
| Index.WriteClasses | gdscript_docs.py:73-77 | The class loop leaves ClassLines |
| Index.AutoloadLinesStep | gdscript_docs.py:65-69 | One more autoload appends its line, or makes its localisation error the result |
| Index.ClassLinesStep | gdscript_docs.py:73-77 | One more class appends its line, or makes its error the result |
| Index.AutoloadLinesFail | gdscript_docs.py:65-69 | A failure among the first autoloads is the failure of the whole index |
| Index.ClassLinesFail | gdscript_docs.py:73-77 | A failure among the first classes is the failure of the whole list |
| Index.AutoloadLinesOk | gdscript_docs.py:65-69 | Autoloads that are not scenes always give their lines |
| Index.MissingSceneFails | gdscript_docs.py:65-69 | A scene autoload with a missing file, after only non-scenes, makes the index FileNotFound for it |
| Index.AutoloadLinesOkIff | gdscript_docs.py:65-69 | The autoload lines are produced exactly when every autoload's path localises |
| Index.ClassLinesOkIff | gdscript_docs.py:73-77 | The class lines are produced exactly when every class path localises |
| Index.IndexSucceeds | gdscript_docs.py:61-77 | The index is written exactly when localise_path succeeds for every autoload and every documented script |
| Index.IndexShape | gdscript_docs.py:63-71 | The index starts with its headings and has the class heading right after the autoload lines |

## Left out

- File reading and writing are not modelled as I/O. Contents come from a `map`; `generate_index` and `generate_script_doc` return the text instead of writing it.
- `os.walk` is left out: the walk is an input.
- `ensure_dir` (46-57) is left out: it only creates folders.
- Argument parsing in `main` (225-233) is left out.
- `os.path.abspath`, `dirname` and `relpath` are not modelled. `relpath` is a parameter of `Resources.LocalisePath`.
- `Markup.MarkupDocs` does not compute the link target. It takes as a parameter the path `format_url` builds from `clean_path`, `localise_path` and `relpath` (196-200). So a `FileNotFound` or `ValueError` that `localise_path` could raise inside a rewrite is not modelled.
- The assignments to `found` that follow each rewrite in `markup_docs` (211, 215, 219) are left out: nothing reads them.
- The page rendering of `generate_script_doc` (165-188) is left out. It is I/O around `localise_path` and `markup_docs`, both of which are modelled.
- The `public_scripts` loop of `main` (251-261) is left out. It only calls `generate_script_doc` per script, and the index takes the list as a parameter.
- `Resources.FindScriptIn`: `int()` is modelled on ASCII digits with an optional sign and surrounding white space. Underscores and non-ASCII digits are not accepted.
- `TagExtractor.ExtractTagged`: newline translation when reading a file (`\r\n`) is not modelled. The text is taken as read.
- An uncaught exception ends the program with a traceback. The model returns the `Err` value instead.
- `Index.GenerateIndex`: its two loops are the methods `Index.WriteAutoloads` and `Index.WriteClasses`. Each link is computed through a localisation function parameter, which `GenerateIndex` instantiates with `Resources.LocalisePath`.
