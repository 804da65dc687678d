/**
 * get_between: the delimiter search that every parser of the script is
 * built from. It finds start_str at or after pos, then end_str after
 * that match, and yields both indices and the text between them.
 */
module Between {
  import opened PyStr
  import opened Outcomes

  /** The ((start_index, end_index), res) tuple that get_between returns. */
  datatype Span = Span(startIndex: nat, endIndex: nat, text: string)

  function GetBetween(s: string, startStr: string, endStr: string, pos: nat, multiline: bool): (r: Option<Span>)
    ensures r.Some? ==> IsFirst(s, startStr, pos, r.value.startIndex)
    ensures r.Some? ==> IsFirst(s, endStr, r.value.startIndex + |startStr|, r.value.endIndex)
    ensures r.Some? ==> r.value.text == s[r.value.startIndex + |startStr|..r.value.endIndex]
    ensures r.Some? && !multiline ==> !Contains(r.value.text, "\n")
  {
    var startIndex := Find(s, startStr, pos);
    if startIndex == -1 then None
    else
      var from := if startIndex + |startStr| >= pos then startIndex + |startStr| else pos;
      var endIndex := Find(s, endStr, from);
      if endIndex == -1 then None
      else
        var res := s[startIndex + |startStr|..endIndex];
        if Contains(res, "\n") && !multiline then None
        else Some(Span(startIndex, endIndex, res))
  }

  /** No start_str at or after pos: None. */
  lemma GetBetweenNoStart(s: string, startStr: string, endStr: string, pos: nat, multiline: bool)
    requires forall j :: pos <= j ==> !OccursAt(s, startStr, j)
    ensures GetBetween(s, startStr, endStr, pos, multiline) == None
  {
  }

  /** start_str first at i, but no end_str after that match: None. */
  lemma GetBetweenNoEnd(s: string, startStr: string, endStr: string, pos: nat, multiline: bool, i: nat)
    requires IsFirst(s, startStr, pos, i)
    requires forall j :: i + |startStr| <= j ==> !OccursAt(s, endStr, j)
    ensures GetBetween(s, startStr, endStr, pos, multiline) == None
  {
    FindIsFirst(s, startStr, pos, i);
  }

  /**
   * start_str first at i and end_str first at e after it: the text between
   * them, unless it spans a line and multiline is off.
   */
  lemma GetBetweenFound(s: string, startStr: string, endStr: string, pos: nat, multiline: bool, i: nat, e: nat)
    requires IsFirst(s, startStr, pos, i)
    requires IsFirst(s, endStr, i + |startStr|, e)
    ensures GetBetween(s, startStr, endStr, pos, multiline)
         == if !multiline && Contains(s[i + |startStr|..e], "\n") then None
            else Some(Span(i, e, s[i + |startStr|..e]))
  {
    FindIsFirst(s, startStr, pos, i);
    FindIsFirst(s, endStr, i + |startStr|, e);
  }
}
