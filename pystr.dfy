/**
 * Python's str methods, as the script uses them: find, `in`, count,
 * replace, split, join, strip, startswith, endswith and non-negative
 * slicing. Every search scans left to right and takes non-overlapping
 * matches, as CPython does.
 */
module PyStr {

  /** `sub` occurs in `s` at index `i`. */
  predicate OccursAt(s: string, sub: string, i: int) {
    0 <= i && i + |sub| <= |s| && s[i..i + |sub|] == sub
  }

  /** `i` is the first index at or after `from` where `sub` occurs. */
  ghost predicate IsFirst(s: string, sub: string, from: int, i: int) {
    from <= i && OccursAt(s, sub, i) && forall j :: from <= j < i ==> !OccursAt(s, sub, j)
  }

  /** s.find(sub, pos): the first index at or after pos, or -1. */
  function Find(s: string, sub: string, pos: nat): (r: int)
    ensures -1 <= r
    ensures r >= 0 ==> IsFirst(s, sub, pos, r)
    ensures r < 0 ==> forall j :: pos <= j ==> !OccursAt(s, sub, j)
    decreases |s| - pos
  {
    if pos + |sub| > |s| then -1
    else if s[pos..pos + |sub|] == sub then pos
    else Find(s, sub, pos + 1)
  }

  /** Find returns the first occurrence, whichever way it is described. */
  lemma FindIsFirst(s: string, sub: string, pos: nat, i: int)
    requires IsFirst(s, sub, pos, i)
    ensures Find(s, sub, pos) == i
  {
  }

  /** Python's `sub in s`. */
  predicate Contains(s: string, sub: string) {
    Find(s, sub, 0) >= 0
  }

  lemma ContainsIff(s: string, sub: string)
    ensures Contains(s, sub) <==> exists i :: OccursAt(s, sub, i)
  {
    if exists i :: OccursAt(s, sub, i) {
      var i :| OccursAt(s, sub, i);
      assert 0 <= i;
    }
  }

  /** An occurrence needs the first character of `sub`: no such character, no occurrence. */
  lemma NoCharNoOccurrence(s: string, sub: string)
    requires |sub| > 0 && sub[0] !in s
    ensures !Contains(s, sub)
    ensures forall j :: !OccursAt(s, sub, j)
  {
    forall j ensures !OccursAt(s, sub, j) {
      if OccursAt(s, sub, j) {
        assert false;
      }
    }
  }

  predicate StartsWith(s: string, prefix: string) {
    |prefix| <= |s| && s[..|prefix|] == prefix
  }

  predicate EndsWith(s: string, suffix: string) {
    |suffix| <= |s| && s[|s| - |suffix|..] == suffix
  }

  /** s[k:] for k >= 0: Python clamps an index past the end to an empty string. */
  function Drop(s: string, k: nat): (r: string)
    ensures k <= |s| ==> s == s[..k] + r
    ensures k >= |s| ==> r == ""
  {
    if k >= |s| then "" else s[k..]
  }

  /** s[:-k] for k > 0: everything but the last k characters, or "" if there are no more. */
  function DropLast(s: string, k: nat): (r: string)
    requires k > 0
    ensures |s| >= k ==> r + s[|s| - k..] == s
    ensures |s| <= k ==> r == ""
  {
    if |s| <= k then "" else s[..|s| - k]
  }

  /** s.count(sub) from index i, for a non-empty sub: non-overlapping matches. */
  function CountFrom(s: string, sub: string, i: nat): nat
    requires |sub| > 0
    decreases |s| - i
  {
    if i + |sub| > |s| then 0
    else if OccursAt(s, sub, i) then 1 + CountFrom(s, sub, i + |sub|)
    else CountFrom(s, sub, i + 1)
  }

  function Count(s: string, sub: string): nat
    requires |sub| > 0
  {
    CountFrom(s, sub, 0)
  }

  /** s[i:].replace(pat, rep), for a non-empty pat. */
  function ReplaceFrom(s: string, pat: string, rep: string, i: nat): string
    requires |pat| > 0
    decreases |s| - i
  {
    if i >= |s| then ""
    else if OccursAt(s, pat, i) then rep + ReplaceFrom(s, pat, rep, i + |pat|)
    else [s[i]] + ReplaceFrom(s, pat, rep, i + 1)
  }

  function Replace(s: string, pat: string, rep: string): string
    requires |pat| > 0
  {
    ReplaceFrom(s, pat, rep, 0)
  }

  /** s[i:].split(sep), for a non-empty sep. */
  function SplitFrom(s: string, sep: string, i: nat): (r: seq<string>)
    requires |sep| > 0 && i <= |s|
    ensures |r| > 0
    decreases |s| - i
  {
    var j := Find(s, sep, i);
    if j < 0 then [s[i..]] else [s[i..j]] + SplitFrom(s, sep, j + |sep|)
  }

  function Split(s: string, sep: string): (r: seq<string>)
    requires |sep| > 0
    ensures |r| > 0
  {
    SplitFrom(s, sep, 0)
  }

  /** At a match j, the split is the piece before it followed by the split of the rest. */
  lemma SplitFromAt(s: string, sep: string, i: nat, j: nat)
    requires |sep| > 0 && i <= |s| && Find(s, sep, i) == j
    ensures SplitFrom(s, sep, i) == [s[i..j]] + SplitFrom(s, sep, j + |sep|)
  {
  }

  /** sep.join(parts). */
  function JoinWith(parts: seq<string>, sep: string): string {
    if |parts| == 0 then ""
    else if |parts| == 1 then parts[0]
    else parts[0] + sep + JoinWith(parts[1..], sep)
  }

  /** The characters str.isspace() accepts, which str.strip() removes. */
  predicate IsSpace(c: char) {
    var n := c as int;
    n == 0x20 || 0x09 <= n <= 0x0D || 0x1C <= n <= 0x1F || n == 0x85 || n == 0xA0
    || n == 0x1680 || 0x2000 <= n <= 0x200A || n == 0x2028 || n == 0x2029
    || n == 0x202F || n == 0x205F || n == 0x3000
  }

  /** s.lstrip(). */
  function StripLeft(s: string): string {
    if |s| > 0 && IsSpace(s[0]) then StripLeft(s[1..]) else s
  }

  /** s.rstrip(). */
  function StripRight(s: string): string {
    if |s| > 0 && IsSpace(s[|s| - 1]) then StripRight(s[..|s| - 1]) else s
  }

  /** s.strip(). */
  function Strip(s: string): string {
    StripRight(StripLeft(s))
  }

  /** lstrip removes exactly the leading white space: what is left is a suffix not starting with it. */
  lemma {:induction false} StripLeftSpec(s: string)
    ensures var r := StripLeft(s);
      |r| <= |s| && r == s[|s| - |r|..]
      && (forall k :: 0 <= k < |s| - |r| ==> IsSpace(s[k]))
      && (r == "" || !IsSpace(r[0]))
  {
    if |s| > 0 && IsSpace(s[0]) {
      var t := s[1..];
      StripLeftSpec(t);
      var r := StripLeft(t);
      assert StripLeft(s) == r;
      assert t[|t| - |r|..] == s[|s| - |r|..];
      forall k | 0 <= k < |s| - |r| ensures IsSpace(s[k]) {
        if k > 0 {
          assert s[k] == t[k - 1];
        }
      }
    }
  }

  /** rstrip removes exactly the trailing white space: what is left is a prefix not ending with it. */
  lemma {:induction false} StripRightSpec(s: string)
    ensures var r := StripRight(s);
      |r| <= |s| && r == s[..|r|]
      && (forall k :: |r| <= k < |s| ==> IsSpace(s[k]))
      && (r == "" || !IsSpace(r[|r| - 1]))
  {
    if |s| > 0 && IsSpace(s[|s| - 1]) {
      var t := s[..|s| - 1];
      StripRightSpec(t);
      var r := StripRight(t);
      assert StripRight(s) == r;
      assert t[..|r|] == s[..|r|];
      forall k | |r| <= k < |s| ensures IsSpace(s[k]) {
        if k < |s| - 1 {
          assert s[k] == t[k];
        }
      }
    }
  }

  /** strip leaves a string that neither starts nor ends with white space. */
  lemma StripSpec(s: string)
    ensures var r := Strip(s); r == "" || (!IsSpace(r[0]) && !IsSpace(r[|r| - 1]))
  {
    StripLeftSpec(s);
    StripRightSpec(StripLeft(s));
    var l := StripLeft(s);
    var r := StripRight(l);
    if r != "" {
      assert r[0] == l[0];
    }
  }

  /** Strip leaves a string that neither starts nor ends with white space untouched. */
  lemma StripNoop(s: string)
    requires s == "" || (!IsSpace(s[0]) && !IsSpace(s[|s| - 1]))
    ensures Strip(s) == s
  {
  }

  // ---------------------------------------------------------------------
  // Facts about slices, searching and replacing

  /** An occurrence inside a slice is an occurrence in the whole string. */
  lemma OccursInSlice(s: string, sub: string, a: nat, b: nat, m: int)
    requires a <= b <= |s| && OccursAt(s[a..b], sub, m)
    ensures OccursAt(s, sub, a + m)
  {
    forall k | 0 <= k < |sub| ensures s[a + m..a + m + |sub|][k] == sub[k] {
      assert s[a..b][m..m + |sub|][k] == sub[k];
    }
  }

  /** With no match at or after i, replacing from i copies the rest of s. */
  lemma {:induction false} ReplaceAbsent(s: string, pat: string, rep: string, i: nat)
    requires |pat| > 0 && i <= |s|
    requires forall j :: i <= j ==> !OccursAt(s, pat, j)
    ensures ReplaceFrom(s, pat, rep, i) == s[i..]
    decreases |s| - i
  {
    if i < |s| {
      ReplaceAbsent(s, pat, rep, i + 1);
      assert s[i..] == [s[i]] + s[i + 1..];
    }
  }

  /** A match in p + x past p is a match in x. */
  lemma OccursAfterPrefix(p: string, x: string, sub: string, j: int)
    requires |p| <= j && OccursAt(p + x, sub, j)
    ensures OccursAt(x, sub, j - |p|)
  {
    assert (p + x)[j..j + |sub|] == x[j - |p|..j - |p| + |sub|];
  }

  /** A string that starts with pat and has no other match loses just that one. */
  lemma ReplaceLeading(pat: string, x: string, rep: string)
    requires |pat| > 0 && !Contains(x, pat)
    ensures ReplaceFrom(pat + x, pat, rep, 0) == rep + x
  {
    var s := pat + x;
    assert s[0..|pat|] == pat;
    ContainsIff(x, pat);
    forall j | |pat| <= j ensures !OccursAt(s, pat, j) {
      if OccursAt(s, pat, j) {
        OccursAfterPrefix(pat, x, pat, j);
      }
    }
    ReplaceAbsent(s, pat, rep, |pat|);
    assert s[|pat|..] == x;
  }

  /** Replacing copies everything up to the first match, then writes rep in its place. */
  lemma ReplaceUpTo(s: string, pat: string, rep: string, i: nat, j: nat)
    requires |pat| > 0 && IsFirst(s, pat, i, j)
    ensures ReplaceFrom(s, pat, rep, i) == s[i..j] + rep + ReplaceFrom(s, pat, rep, j + |pat|)
  {
    ReplaceCopies(s, pat, rep, i, j);
    assert ReplaceFrom(s, pat, rep, j) == rep + ReplaceFrom(s, pat, rep, j + |pat|);
  }

  /** Where no match starts, replacing copies the text. */
  lemma {:induction false} ReplaceCopies(s: string, pat: string, rep: string, i: nat, j: nat)
    requires |pat| > 0 && i <= j <= |s|
    requires forall k :: i <= k < j ==> !OccursAt(s, pat, k)
    ensures ReplaceFrom(s, pat, rep, i) == s[i..j] + ReplaceFrom(s, pat, rep, j)
    decreases j - i
  {
    if i < j {
      ReplaceCopies(s, pat, rep, i + 1, j);
      var tail := ReplaceFrom(s, pat, rep, j);
      assert ReplaceFrom(s, pat, rep, i) == [s[i]] + (s[i + 1..j] + tail);
      assert s[i..j] == [s[i]] + s[i + 1..j];
    }
  }

  /** s.replace(pat, rep) == rep.join(s.split(pat)): every match, and nothing else, becomes rep. */
  lemma {:induction false} ReplaceBySplit(s: string, pat: string, rep: string, i: nat)
    requires |pat| > 0 && i <= |s|
    ensures ReplaceFrom(s, pat, rep, i) == JoinWith(SplitFrom(s, pat, i), rep)
    decreases |s| - i
  {
    var j := Find(s, pat, i);
    if j < 0 {
      ReplaceBySplitNone(s, pat, rep, i);
    } else {
      ReplaceBySplit(s, pat, rep, j + |pat|);
      ReplaceBySplitFound(s, pat, rep, i, j);
    }
  }

  /** Without a match, replacing copies the one piece of the split. */
  lemma ReplaceBySplitNone(s: string, pat: string, rep: string, i: nat)
    requires |pat| > 0 && i <= |s| && Find(s, pat, i) < 0
    ensures ReplaceFrom(s, pat, rep, i) == JoinWith(SplitFrom(s, pat, i), rep)
  {
    ReplaceAbsent(s, pat, rep, i);
    assert SplitFrom(s, pat, i) == [s[i..]];
    assert JoinWith([s[i..]], rep) == s[i..];
  }

  /** At a match, the first piece, rep and the rest replaced. */
  lemma ReplaceBySplitFound(s: string, pat: string, rep: string, i: nat, j: nat)
    requires |pat| > 0 && i <= |s| && Find(s, pat, i) == j
    requires ReplaceFrom(s, pat, rep, j + |pat|) == JoinWith(SplitFrom(s, pat, j + |pat|), rep)
    ensures ReplaceFrom(s, pat, rep, i) == JoinWith(SplitFrom(s, pat, i), rep)
  {
    var rest := SplitFrom(s, pat, j + |pat|);
    SplitFromAt(s, pat, i, j);
    ReplaceUpTo(s, pat, rep, i, j);
    JoinWithCons(s[i..j], rest, rep);
  }

  /** sep.join(s.split(sep)) == s. */
  lemma {:induction false} SplitJoin(s: string, sep: string, i: nat)
    requires |sep| > 0 && i <= |s|
    ensures JoinWith(SplitFrom(s, sep, i), sep) == s[i..]
    decreases |s| - i
  {
    var j := Find(s, sep, i);
    if j >= 0 {
      SplitJoin(s, sep, j + |sep|);
      SplitJoinFound(s, sep, i, j);
    } else {
      SplitJoinNone(s, sep, i);
    }
  }

  /** Without a match the split is the one piece s[i:]. */
  lemma SplitJoinNone(s: string, sep: string, i: nat)
    requires |sep| > 0 && i <= |s| && Find(s, sep, i) < 0
    ensures JoinWith(SplitFrom(s, sep, i), sep) == s[i..]
  {
    assert SplitFrom(s, sep, i) == [s[i..]];
  }

  /** The step of SplitJoin at a match: the first piece, the separator and the joined rest. */
  lemma SplitJoinFound(s: string, sep: string, i: nat, j: nat)
    requires |sep| > 0 && i <= |s| && Find(s, sep, i) == j
    requires JoinWith(SplitFrom(s, sep, j + |sep|), sep) == s[j + |sep|..]
    ensures JoinWith(SplitFrom(s, sep, i), sep) == s[i..]
  {
    var head := s[i..j];
    var rest := SplitFrom(s, sep, j + |sep|);
    SplitFromAt(s, sep, i, j);
    JoinWithCons(head, rest, sep);
    Reassemble(s, sep, i, j);
  }

  /** The text before a match, the match and the text after it make up the whole. */
  lemma Reassemble(s: string, sep: string, i: nat, j: nat)
    requires i <= j && j + |sep| <= |s| && s[j..j + |sep|] == sep
    ensures s[i..j] + sep + s[j + |sep|..] == s[i..]
  {
    SliceSplit(s, i, j);
    SliceSplit(s, j, j + |sep|);
    assert s[i..j] + sep + s[j + |sep|..] == s[i..j] + (sep + s[j + |sep|..]);
  }

  /** Concatenation is associative. */
  lemma Assoc<T>(a: seq<T>, b: seq<T>, c: seq<T>)
    ensures a + b + c == a + (b + c)
  {
  }

  lemma SliceSplit(s: string, a: nat, b: nat)
    requires a <= b <= |s|
    ensures s[a..] == s[a..b] + s[b..]
  {
  }

  lemma JoinWithCons(x: string, rest: seq<string>, sep: string)
    requires |rest| > 0
    ensures JoinWith([x] + rest, sep) == x + sep + JoinWith(rest, sep)
  {
    assert ([x] + rest)[1..] == rest;
  }

  /** No piece of s.split(sep) contains sep. */
  lemma {:induction false} SplitPiecesFree(s: string, sep: string, i: nat)
    requires |sep| > 0 && i <= |s|
    ensures forall k :: 0 <= k < |SplitFrom(s, sep, i)| ==> !Contains(SplitFrom(s, sep, i)[k], sep)
    decreases |s| - i
  {
    var r := SplitFrom(s, sep, i);
    var j := Find(s, sep, i);
    var piece := if j < 0 then s[i..] else s[i..j];
    assert r[0] == piece;
    forall m | OccursAt(piece, sep, m) ensures false {
      if j < 0 {
        assert piece == s[i..|s|];
        OccursInSlice(s, sep, i, |s|, m);
      } else {
        OccursInSlice(s, sep, i, j, m);
      }
    }
    ContainsIff(piece, sep);
    if j >= 0 {
      SplitPiecesFree(s, sep, j + |sep|);
      assert r[1..] == SplitFrom(s, sep, j + |sep|);
    }
  }

  /** No proper suffix of pat is also a prefix of it: two matches of pat never overlap. */
  ghost predicate NoSelfOverlap(pat: string) {
    forall k :: 0 < k < |pat| ==> pat[k..] != pat[..|pat| - k]
  }

  /** Two overlapping matches of pat show a suffix of pat that is also its prefix. */
  lemma OverlapIsSelfOverlap(s: string, pat: string, i: nat, e: nat)
    requires OccursAt(s, pat, i) && OccursAt(s, pat, e) && i < e < i + |pat|
    ensures pat[e - i..] == pat[..|pat| - (e - i)]
  {
    var k := e - i;
    assert pat[k..] == s[e..i + |pat|];
    assert s[e..i + |pat|] == pat[..|pat| - k];
  }

  /** A string that ends with a non-self-overlapping pattern ends, after replacing, with rep. */
  lemma {:induction false} ReplaceAtEnd(s: string, pat: string, rep: string, i: nat)
    requires |pat| > 0 && NoSelfOverlap(pat) && EndsWith(s, pat) && i <= |s| - |pat|
    ensures EndsWith(ReplaceFrom(s, pat, rep, i), rep)
    decreases |s| - i
  {
    var e := |s| - |pat|;
    assert OccursAt(s, pat, e);
    if i == e {
      assert ReplaceFrom(s, pat, rep, i) == rep + "";
    } else if OccursAt(s, pat, i) {
      if i + |pat| > e {
        OverlapIsSelfOverlap(s, pat, i, e);
        assert false;
      }
      ReplaceAtEnd(s, pat, rep, i + |pat|);
    } else {
      ReplaceAtEnd(s, pat, rep, i + 1);
    }
  }

  /** A prefix of a prefix is a prefix. */
  lemma StartsWithTrans(s: string, t: string, u: string)
    requires StartsWith(s, t) && StartsWith(t, u)
    ensures StartsWith(s, u)
  {
    assert s[..|u|] == s[..|t|][..|u|];
  }

  /** A suffix of a suffix is a suffix. */
  lemma EndsWithTrans(s: string, t: string, u: string)
    requires EndsWith(s, t) && EndsWith(t, u)
    ensures EndsWith(s, u)
  {
    assert s[|s| - |u|..] == s[|s| - |t|..][|t| - |u|..];
  }

  /** What a prefix contains, the whole string contains. */
  lemma ContainsInPrefix(s: string, t: string, sub: string)
    requires StartsWith(s, t) && Contains(t, sub)
    ensures Contains(s, sub)
  {
    ContainsIff(t, sub);
    var i :| OccursAt(t, sub, i);
    assert s[i..i + |sub|] == t[i..i + |sub|];
    assert OccursAt(s, sub, i);
    ContainsIff(s, sub);
  }

  /** Three copies of one character, as in the docstring quotes. */
  function Triple(c: char): string {
    [c, c, c]
  }

  /** After removing the triples from s[i:], the result starts with two c's only if s[i:] did. */
  lemma RemoveTripleStart(s: string, c: char, i: nat)
    requires !(i + 1 < |s| && s[i] == c && s[i + 1] == c)
    ensures var r := ReplaceFrom(s, Triple(c), "", i); !(|r| >= 2 && r[0] == c && r[1] == c)
  {
    if i < |s| && !OccursAt(s, Triple(c), i) && s[i] == c && i + 1 < |s| {
      assert !OccursAt(s, Triple(c), i + 1);
    }
  }

  /** Removing every ccc from a string leaves no ccc behind. */
  lemma {:induction false} RemoveTripleClears(s: string, c: char, i: nat)
    ensures forall k :: !OccursAt(ReplaceFrom(s, Triple(c), "", i), Triple(c), k)
    decreases |s| - i
  {
    var t := Triple(c);
    var r := ReplaceFrom(s, t, "", i);
    if i < |s| {
      if OccursAt(s, t, i) {
        RemoveTripleClears(s, c, i + |t|);
        assert r == ReplaceFrom(s, t, "", i + |t|);
      } else {
        var tail := ReplaceFrom(s, t, "", i + 1);
        assert r == [s[i]] + tail;
        RemoveTripleClears(s, c, i + 1);
        forall k | OccursAt(r, t, k) ensures false {
          if k == 0 {
            assert r[0] == r[0..3][0] == c;
            assert tail[0] == r[0..3][1] == c;
            assert tail[1] == r[0..3][2] == c;
            RemoveTripleStart(s, c, i + 1);
          } else {
            assert r[k..k + 3] == tail[k - 1..k + 2];
            assert OccursAt(tail, t, k - 1);
          }
        }
      }
    }
  }

  /** Removing ccc twice is removing it once. */
  lemma RemoveTripleIdempotent(s: string, c: char)
    ensures Replace(Replace(s, Triple(c), ""), Triple(c), "") == Replace(s, Triple(c), "")
  {
    var r := Replace(s, Triple(c), "");
    RemoveTripleClears(s, c, 0);
    ReplaceAbsent(r, Triple(c), "", 0);
  }

  /** A one-character pattern occurs exactly where that character does. */
  lemma ContainsChar(s: string, c: char)
    ensures Contains(s, [c]) <==> c in s
  {
    ContainsIff(s, [c]);
    if c in s {
      var i :| 0 <= i < |s| && s[i] == c;
      assert s[i..i + 1] == [c];
      assert OccursAt(s, [c], i);
    }
    if Contains(s, [c]) {
      var i :| OccursAt(s, [c], i);
      assert s[i] == s[i..i + 1][0] == c;
    }
  }
}
