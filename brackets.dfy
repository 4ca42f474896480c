/** StringTemplate::getBracketEndPosition: finding the close delimiter that matches
    an open delimiter, counting nested openers of the same family. */
module Brackets {
  import opened CppString

  /** The two delimiter families of the template grammar. */
  datatype Family = Static | Conditional

  function Open(f: Family): (r: string)
  {
    match f
    case Static => "-=<"
    case Conditional => "-={"
  }

  function Close(f: Family): (r: string)
  {
    match f
    case Static => ">=-"
    case Conditional => "}=-"
  }

  /** The matching rule, read one position at a time from `p` with `depth`
      brackets open: a close delimiter starting at `p` lowers the depth,
      otherwise an open delimiter starting at `p` raises it. The result is the
      start of the close that brings the depth to 0, plus 2 (its last character
      for a three-character delimiter), or None for npos when the text ends
      first. At depth 0 the close that matched started at `p - 1`. */
  function MatchFrom(str: string, endBracket: string, startBracket: string, p: nat, depth: nat)
    : (r: Option<nat>)
    decreases |str| + 1 - p
  {
    if depth == 0 then Some(p + 1)
    else if p > |str| then None
    else if OccursAt(str, endBracket, p) then
      MatchFrom(str, endBracket, startBracket, p + 1, depth - 1)
    else if OccursAt(str, startBracket, p) then
      MatchFrom(str, endBracket, startBracket, p + 1, depth + 1)
    else
      MatchFrom(str, endBracket, startBracket, p + 1, depth)
  }

  /** A match found is the end of a close delimiter. */
  lemma {:induction false} MatchEndsWithClose(str: string, endBracket: string, startBracket: string, p: nat, depth: nat)
    requires depth >= 1
    requires MatchFrom(str, endBracket, startBracket, p, depth).Some?
    ensures var r := MatchFrom(str, endBracket, startBracket, p, depth).value;
            p + 2 <= r && OccursAt(str, endBracket, r - 2)
    decreases |str| + 1 - p
  {
    if OccursAt(str, endBracket, p) {
      if depth > 1 {
        MatchEndsWithClose(str, endBracket, startBracket, p + 1, depth - 1);
      }
    } else if OccursAt(str, startBracket, p) {
      MatchEndsWithClose(str, endBracket, startBracket, p + 1, depth + 1);
    } else {
      MatchEndsWithClose(str, endBracket, startBracket, p + 1, depth);
    }
  }

  /** The close that matches the opener at `startingPos`. */
  function MatchingClose(str: string, startingPos: nat, endBracket: string, startBracket: string)
    : (r: Option<nat>)
  {
    MatchFrom(str, endBracket, startBracket, startingPos + 1, 1)
  }

  /** A matched close lies inside the text, at least three characters after the
      opener. */
  lemma MatchingCloseInside(str: string, startingPos: nat, f: Family)
    requires MatchingClose(str, startingPos, Close(f), Open(f)).Some?
    ensures startingPos + 3 <= MatchingClose(str, startingPos, Close(f), Open(f)).value < |str|
  {
    MatchEndsWithClose(str, Close(f), Open(f), startingPos + 1, 1);
  }

  /** The last three characters up to a matched close are the close delimiter. */
  lemma MatchingCloseEndsUnit(str: string, startingPos: nat, f: Family, r: nat)
    requires MatchingClose(str, startingPos, Close(f), Open(f)) == Some(r)
    ensures 2 <= r < |str| && str[r - 2..r + 1] == Close(f)
  {
    MatchEndsWithClose(str, Close(f), Open(f), startingPos + 1, 1);
    OccursAtSlice(str, Close(f), r - 2);
  }

  /** Positions where neither delimiter starts change nothing. */
  lemma {:induction false} MatchSkipsPlainText(str: string, endBracket: string, startBracket: string,
                                                a: nat, b: nat, depth: nat)
    requires depth >= 1 && a <= b
    requires forall j :: a <= j < b ==> !OccursAt(str, endBracket, j) && !OccursAt(str, startBracket, j)
    ensures MatchFrom(str, endBracket, startBracket, a, depth) == MatchFrom(str, endBracket, startBracket, b, depth)
    decreases b - a
  {
    if a < b && a <= |str| {
      MatchSkipsPlainText(str, endBracket, startBracket, a + 1, b, depth);
    } else if a < b {
      MatchBeyondEnd(str, endBracket, startBracket, b, depth);
    }
  }

  lemma MatchBeyondEnd(str: string, endBracket: string, startBracket: string, p: nat, depth: nat)
    requires depth >= 1 && p > |str|
    ensures MatchFrom(str, endBracket, startBracket, p, depth) == None
  {
  }

  /** With no close delimiter at or after `p`, the match is npos. */
  lemma {:induction false} MatchWithoutClose(str: string, endBracket: string, startBracket: string, p: nat, depth: nat)
    requires depth >= 1
    requires forall j :: p <= j ==> !OccursAt(str, endBracket, j)
    ensures MatchFrom(str, endBracket, startBracket, p, depth) == None
    decreases |str| + 1 - p
  {
    if p <= |str| {
      if OccursAt(str, startBracket, p) {
        MatchWithoutClose(str, endBracket, startBracket, p + 1, depth + 1);
      } else {
        MatchWithoutClose(str, endBracket, startBracket, p + 1, depth);
      }
    }
  }

  /** One turn of getBracketEndPosition's loop when the next opener comes before
      the next close: the depth rises and the search resumes after the opener. */
  lemma MatchNestedStep(str: string, endBracket: string, startBracket: string, searchStart: nat, depth: nat,
                        e: Option<nat>, o: Option<nat>)
    requires depth >= 1
    requires IsFindResult(str, endBracket, searchStart, e) && e.Some?
    requires IsFindResult(str, startBracket, searchStart, o) && o.Some? && o.value < e.value
    ensures MatchFrom(str, endBracket, startBracket, searchStart, depth)
            == MatchFrom(str, endBracket, startBracket, o.value + 1, depth + 1)
  {
    MatchSkipsPlainText(str, endBracket, startBracket, searchStart, o.value, depth);
  }

  /** One turn of the loop when the next close comes first (or no opener is
      left): the depth falls and the search resumes after the close. */
  lemma MatchCloseStep(str: string, endBracket: string, startBracket: string, searchStart: nat, depth: nat,
                       e: Option<nat>, o: Option<nat>)
    requires depth >= 1
    requires IsFindResult(str, endBracket, searchStart, e) && e.Some?
    requires IsFindResult(str, startBracket, searchStart, o) && (o.Some? ==> e.value <= o.value)
    ensures MatchFrom(str, endBracket, startBracket, searchStart, depth)
            == MatchFrom(str, endBracket, startBracket, e.value + 1, depth - 1)
  {
    MatchSkipsPlainText(str, endBracket, startBracket, searchStart, e.value, depth);
  }

  /** The number of positions at or after `from` where `pat` starts. */
  function CountFrom(s: string, pat: string, from: nat): (r: nat)
    decreases |s| + 1 - from
  {
    if from > |s| then 0
    else (if OccursAt(s, pat, from) then 1 else 0) + CountFrom(s, pat, from + 1)
  }

  /** With fewer close delimiters left than brackets open, the match is npos:
      every close lowers the depth by one and nothing else lowers it. */
  lemma {:induction false} UnterminatedWithTooFewCloses(str: string, endBracket: string, startBracket: string,
                                                          p: nat, depth: nat)
    requires depth >= 1
    requires CountFrom(str, endBracket, p) < depth
    ensures MatchFrom(str, endBracket, startBracket, p, depth) == None
    decreases |str| + 1 - p
  {
    if p <= |str| {
      if OccursAt(str, endBracket, p) {
        UnterminatedWithTooFewCloses(str, endBracket, startBracket, p + 1, depth - 1);
      } else if OccursAt(str, startBracket, p) {
        UnterminatedWithTooFewCloses(str, endBracket, startBracket, p + 1, depth + 1);
      } else {
        UnterminatedWithTooFewCloses(str, endBracket, startBracket, p + 1, depth);
      }
    }
  }

  /** The loop of getBracketEndPosition, with `outstandingBrackets` counting the
      brackets still open and `searchStart` the resumption point. */
  method GetBracketEndPosition(str: string, startingPos: nat, endBracket: string, startBracket: string)
    returns (endBracketPos: Option<nat>)
    ensures endBracketPos == MatchingClose(str, startingPos, endBracket, startBracket)
  {
    var outstandingBrackets: nat := 1;
    var searchStart: nat := startingPos + 1;
    endBracketPos := None;
    while outstandingBrackets > 0
      invariant MatchFrom(str, endBracket, startBracket, searchStart, outstandingBrackets)
                == MatchingClose(str, startingPos, endBracket, startBracket)
      invariant outstandingBrackets == 0 ==> endBracketPos == Some(searchStart - 1)
      decreases |str| + 1 - searchStart
    {
      endBracketPos := FindFirst(str, endBracket, searchStart);
      if endBracketPos == None {
        MatchWithoutClose(str, endBracket, startBracket, searchStart, outstandingBrackets);
        break;
      }
      var startBracketPos := FindFirst(str, startBracket, searchStart);
      if startBracketPos.Some? && startBracketPos.value < endBracketPos.value {
        MatchNestedStep(str, endBracket, startBracket, searchStart, outstandingBrackets, endBracketPos, startBracketPos);
        outstandingBrackets := outstandingBrackets + 1;
        searchStart := startBracketPos.value + 1;
        continue;
      }
      MatchCloseStep(str, endBracket, startBracket, searchStart, outstandingBrackets, endBracketPos, startBracketPos);
      searchStart := endBracketPos.value + 1;
      outstandingBrackets := outstandingBrackets - 1;
    }
    if endBracketPos != None {
      endBracketPos := Some(endBracketPos.value + 2);
    }
  }
}
