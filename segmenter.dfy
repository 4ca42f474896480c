/** StringTemplate::getSegments: cutting a template into literal text and
    bracketed units, left to right, with at most 100 units split off. */
module Segmenter {
  import opened CppString
  import opened Brackets

  /** The safety valve: the number of passes of getSegments' loop. */
  const MaxUnits: nat := 100

  /** An opener found by the scan: where it starts and which family it opens. */
  datatype Opener = Opener(pos: nat, family: Family)

  /** The first opener of either family at or after `from`: a reference
      definition, one position at a time, of the opener a pass of getSegments
      acts on. */
  function NextOpener(str: string, from: nat): (r: Option<Opener>)
    decreases |str| - from
    ensures r.Some? ==> from <= r.value.pos && r.value.pos + 3 <= |str|
  {
    if from + 3 > |str| then None
    else if OccursAt(str, Open(Static), from) then Some(Opener(from, Static))
    else if OccursAt(str, Open(Conditional), from) then Some(Opener(from, Conditional))
    else NextOpener(str, from + 1)
  }

  /** The last segment, pushed only when the cursor is below `str.size() - 1`
      in size_t: a single remaining character is dropped, and an empty input
      yields one empty segment. */
  function Trailing(str: string, cursor: nat): (r: seq<string>)
    requires cursor <= |str|
  {
    if cursor < SizeSub(|str|, 1) then [str[cursor..]] else []
  }

  /** The state of getSegments' loop: the segments pushed so far, the cursor
      `segmentStartPos`, and whether a pass has ended the loop early. */
  datatype Progress = Progress(segments: seq<string>, cursor: nat, stopped: bool)

  /** One pass of getSegments' loop from `cursor`. The opener is searched for
      from `cursor + 1`, so the literal text before it is never empty. With no
      opener the loop ends; with an opener but no matching close, the literal
      text is pushed and the loop ends at the opener; otherwise the literal
      text and the unit are pushed and the cursor moves past the unit. */
  function Pass(str: string, segments: seq<string>, cursor: nat): (r: Progress)
    requires cursor <= |str|
    ensures r.cursor <= |str|
  {
    match NextOpener(str, cursor + 1)
    case None => Progress(segments, cursor, true)
    case Some(o) =>
      match MatchingClose(str, o.pos, Close(o.family), Open(o.family))
      case None => Progress(segments + [str[cursor..o.pos]], o.pos, true)
      case Some(bracketEnd) =>
        MatchingCloseInside(str, o.pos, o.family);
        Progress((segments + [str[cursor..o.pos]]) + [str[o.pos..bracketEnd + 1]], bracketEnd + 1, false)
  }

  /** The state after the next pass, unless the loop has already ended. */
  function Next(str: string, p: Progress): (r: Progress)
    requires p.cursor <= |str|
    ensures r.cursor <= |str|
  {
    if p.stopped then p else Pass(str, p.segments, p.cursor)
  }

  /** The state after `k` passes of getSegments' loop. */
  function Passes(str: string, k: nat): (r: Progress)
    ensures r.cursor <= |str|
  {
    if k == 0 then Progress([], 0, false) else Next(str, Passes(str, k - 1))
  }

  /** `run` lists the states of getSegments' loop, pass by pass. */
  ghost predicate IsRun(str: string, run: seq<Progress>)
  {
    && |run| >= 1
    && run[0] == Progress([], 0, false)
    && forall i :: 0 <= i < |run| - 1 ==> run[i].cursor <= |str| && run[i + 1] == Next(str, run[i])
  }

  /** The last state of a run is the state after that many passes. */
  lemma {:induction false} RunIsPasses(str: string, run: seq<Progress>)
    requires IsRun(str, run)
    ensures run[|run| - 1] == Passes(str, |run| - 1)
  {
    if |run| > 1 {
      var shorter := run[..|run| - 1];
      assert IsRun(str, shorter) by {
        forall i | 0 <= i < |shorter| - 1
          ensures shorter[i].cursor <= |str| && shorter[i + 1] == Next(str, shorter[i])
        {
          assert shorter[i] == run[i] && shorter[i + 1] == run[i + 1];
        }
      }
      RunIsPasses(str, shorter);
      assert run[|run| - 1] == Next(str, run[|run| - 2]);
    }
  }

  /** Once a pass has ended the loop, later passes change nothing. */
  lemma {:induction false} StoppedStays(str: string, k: nat, m: nat)
    requires k <= m && Passes(str, k).stopped
    ensures Passes(str, m) == Passes(str, k)
    decreases m - k
  {
    if k < m {
      StoppedStays(str, k, m - 1);
    }
  }

  /** A run that has made every pass, or whose last pass ended the loop, ends
      in the state the loop leaves behind. */
  lemma RunEnds(str: string, run: seq<Progress>)
    requires IsRun(str, run) && |run| <= MaxUnits + 1
    requires |run| == MaxUnits + 1 || run[|run| - 1].stopped
    ensures Passes(str, MaxUnits) == run[|run| - 1]
  {
    RunIsPasses(str, run);
    if |run| <= MaxUnits {
      StoppedStays(str, |run| - 1, MaxUnits);
    }
  }

  /** What a finished run leaves behind is the start of what getSegments
      returns. */
  lemma RunLeaves(str: string, run: seq<Progress>, segments: seq<string>, cursor: nat)
    requires IsRun(str, run) && |run| <= MaxUnits + 1
    requires |run| == MaxUnits + 1 || run[|run| - 1].stopped
    requires run[|run| - 1].segments == segments && run[|run| - 1].cursor == cursor
    ensures cursor <= |str| && Segments(str) == segments + Trailing(str, cursor)
  {
    RunEnds(str, run);
  }

  /** The segments getSegments returns for `str`: those its loop pushes in at
      most 100 passes, then the trailing segment. */
  function Segments(str: string): (r: seq<string>)
  {
    var p := Passes(str, MaxUnits);
    p.segments + Trailing(str, p.cursor)
  }

  /** No position starts both an opener of the static family and one of the
      conditional family. */
  lemma OpenersDiffer(str: string, j: nat)
    ensures !(OccursAt(str, Open(Static), j) && OccursAt(str, Open(Conditional), j))
  {
    if OccursAt(str, Open(Static), j) && OccursAt(str, Open(Conditional), j) {
      OccursAtSlice(str, Open(Static), j);
      OccursAtSlice(str, Open(Conditional), j);
    }
  }

  /** Comparing the two std::string::find results, as getSegments does, picks
      the first opener: the earlier of the two, and none when both are npos. */
  lemma {:induction false} NextOpenerFromFinds(str: string, from: nat, staticPos: Option<nat>,
                                               conditionalPos: Option<nat>)
    requires IsFindResult(str, "-=<", from, staticPos)
    requires IsFindResult(str, "-={", from, conditionalPos)
    ensures staticPos.None? && conditionalPos.None? ==> NextOpener(str, from).None?
    ensures staticPos.Some? && (conditionalPos.None? || staticPos.value < conditionalPos.value) ==>
              NextOpener(str, from) == Some(Opener(staticPos.value, Static))
    ensures conditionalPos.Some? && (staticPos.None? || conditionalPos.value <= staticPos.value) ==>
              NextOpener(str, from) == Some(Opener(conditionalPos.value, Conditional))
    decreases |str| - from
  {
    OpenersDiffer(str, from);
    if from + 3 <= |str| && !OccursAt(str, "-=<", from) && !OccursAt(str, "-={", from) {
      NextOpenerFromFinds(str, from + 1, staticPos, conditionalPos);
    }
  }

  /** A run goes on with the state after its next pass. */
  lemma RunExtends(str: string, run: seq<Progress>, p: Progress)
    requires IsRun(str, run) && run[|run| - 1].cursor <= |str|
    requires p == Next(str, run[|run| - 1])
    ensures IsRun(str, run + [p])
  {
  }

  /** A pass that finds no opener ends the loop where it is. */
  lemma PassFindsNothing(str: string, segments: seq<string>, cursor: nat)
    requires cursor <= |str| && NextOpener(str, cursor + 1).None?
    ensures Pass(str, segments, cursor) == Progress(segments, cursor, true)
  {
  }

  /** A pass whose opener has no matching close pushes the literal text and
      ends the loop at the opener. */
  lemma PassFindsNoClose(str: string, segments: seq<string>, cursor: nat, bracketStart: nat, f: Family)
    requires cursor <= |str| && NextOpener(str, cursor + 1) == Some(Opener(bracketStart, f))
    requires MatchingClose(str, bracketStart, Close(f), Open(f)).None?
    ensures Pass(str, segments, cursor) == Progress(segments + [str[cursor..bracketStart]], bracketStart, true)
  {
  }

  /** A pass whose opener has a matching close pushes the literal text and the
      unit, and moves past the unit. */
  lemma PassSplits(str: string, segments: seq<string>, cursor: nat, bracketStart: nat, f: Family,
                   bracketEnd: nat)
    requires cursor <= |str| && NextOpener(str, cursor + 1) == Some(Opener(bracketStart, f))
    requires MatchingClose(str, bracketStart, Close(f), Open(f)) == Some(bracketEnd)
    ensures cursor < bracketStart < bracketEnd < |str|
    ensures Pass(str, segments, cursor)
            == Progress((segments + [str[cursor..bracketStart]]) + [str[bracketStart..bracketEnd + 1]],
                        bracketEnd + 1, false)
  {
    MatchingCloseInside(str, bracketStart, f);
  }

  /** The first part of a pass of getSegments' loop: both openers are searched
      for from `from`, the later one is masked out, and the delimiters of the
      earlier one's family are chosen. */
  method ChooseBracket(str: string, from: nat)
    returns (bracketStartPos: Option<nat>, startBracket: string, endBracket: string, ghost family: Family)
    ensures bracketStartPos.None? <==> NextOpener(str, from).None?
    ensures bracketStartPos.Some? ==> NextOpener(str, from) == Some(Opener(bracketStartPos.value, family))
    ensures bracketStartPos.Some? ==> from <= bracketStartPos.value && bracketStartPos.value + 3 <= |str|
    ensures startBracket == Open(family) && endBracket == Close(family)
  {
    var staticBracketStartPos := FindFirst(str, "-=<", from);
    var conditionalBracketStartPos := FindFirst(str, "-={", from);
    NextOpenerFromFinds(str, from, staticBracketStartPos, conditionalBracketStartPos);
    if staticBracketStartPos.None? && conditionalBracketStartPos.None? {
      return None, "-=<", ">=-", Static;
    }

    if staticBracketStartPos.Some? && conditionalBracketStartPos.Some? {
      if staticBracketStartPos.value < conditionalBracketStartPos.value {
        conditionalBracketStartPos := None;
      } else {
        staticBracketStartPos := None;
      }
    }

    if staticBracketStartPos.Some? {
      bracketStartPos := staticBracketStartPos;
      startBracket := "-=<";
      endBracket := ">=-";
      family := Static;
    } else {
      bracketStartPos := conditionalBracketStartPos;
      startBracket := "-={";
      endBracket := "}=-";
      family := Conditional;
    }
  }

  /** StringTemplate::getSegments. */
  method GetSegments(str: string) returns (segments: seq<string>)
    ensures segments == Segments(str)
  {
    segments := [];
    var segmentStartPos: nat := 0;
    var safetyValve: nat := 0;
    ghost var run := [Progress(segments, segmentStartPos, false)];
    while safetyValve < MaxUnits
      invariant segmentStartPos <= |str| && safetyValve <= MaxUnits
      invariant IsRun(str, run) && |run| == safetyValve + 1
      invariant run[safetyValve] == Progress(segments, segmentStartPos, false)
      decreases MaxUnits - safetyValve
    {
      ghost var before := segments;
      ghost var cursor := segmentStartPos;
      safetyValve := safetyValve + 1;

      var found, startBracket, endBracket, family := ChooseBracket(str, segmentStartPos + 1);
      if found.None? {
        PassFindsNothing(str, segments, segmentStartPos);
        RunExtends(str, run, Progress(segments, segmentStartPos, true));
        run := run + [Progress(segments, segmentStartPos, true)];
        break;
      }
      var bracketStartPos := found.value;

      if bracketStartPos > segmentStartPos {
        segments := segments + [str[segmentStartPos..bracketStartPos]];
        segmentStartPos := bracketStartPos;
      }

      var bracketEndPos := GetBracketEndPosition(str, bracketStartPos, endBracket, startBracket);
      if bracketEndPos.None? {
        PassFindsNoClose(str, before, cursor, bracketStartPos, family);
        RunExtends(str, run, Progress(segments, segmentStartPos, true));
        run := run + [Progress(segments, segmentStartPos, true)];
        break;
      }

      PassSplits(str, before, cursor, bracketStartPos, family, bracketEndPos.value);
      segments := segments + [str[segmentStartPos..bracketEndPos.value + 1]];
      segmentStartPos := bracketEndPos.value + 1;
      RunExtends(str, run, Progress(segments, segmentStartPos, false));
      run := run + [Progress(segments, segmentStartPos, false)];
    }

    RunLeaves(str, run, segments, segmentStartPos);
    if segmentStartPos < SizeSub(|str|, 1) {
      segments := segments + [str[segmentStartPos..]];
    } else {
      assert segments + [] == segments;
    }
  }

  /** NextOpener finds an opener of the family it names. */
  lemma {:induction false} NextOpenerOccurs(str: string, from: nat)
    requires NextOpener(str, from).Some?
    ensures OccursAt(str, Open(NextOpener(str, from).value.family), NextOpener(str, from).value.pos)
    decreases |str| - from
  {
    if from + 3 <= |str| && !OccursAt(str, Open(Static), from) && !OccursAt(str, Open(Conditional), from) {
      NextOpenerOccurs(str, from + 1);
    }
  }

  /** Without an opener at or after `from`, NextOpener finds nothing. */
  lemma {:induction false} NextOpenerNone(str: string, from: nat)
    requires forall j :: from <= j ==> !OccursAt(str, Open(Static), j) && !OccursAt(str, Open(Conditional), j)
    ensures NextOpener(str, from).None?
    decreases |str| - from
  {
    if from + 3 <= |str| {
      NextOpenerNone(str, from + 1);
    }
  }

  /** A unit: an opener, then anything, then the close of the same family.
      The conditional units of seven characters or more are the segments
      Keys.IsConditionalUnit describes (Template.ConditionalUnitIsUnit). */
  predicate IsUnit(u: string)
  {
    && |u| >= 6
    && ((u[..3] == Open(Static) && u[|u| - 3..] == Close(Static))
        || (u[..3] == Open(Conditional) && u[|u| - 3..] == Close(Conditional)))
  }

  /** Opener and close of one family cannot overlap, so a text that starts with
      an opener and ends with its close has at least six characters. */
  lemma UnitIsLong(u: string, f: Family)
    requires |u| >= 4 && u[..3] == Open(f) && u[|u| - 3..] == Close(f)
    ensures IsUnit(u)
  {
    var n := |u|;
    assert u[0] == Open(f)[0] && u[1] == Open(f)[1] && u[2] == Open(f)[2];
    assert u[n - 3] == Close(f)[0] && u[n - 2] == Close(f)[1];
  }

  /** The shape getSegments gives its segments: literal text (never empty, as
      the opener search starts one past the cursor) at even positions, units
      at odd positions. */
  ghost predicate Alternates(segments: seq<string>)
  {
    forall i :: 0 <= i < |segments| ==> if i % 2 == 0 then segments[i] != [] else IsUnit(segments[i])
  }

  /** What one pass keeps: the segments pushed so far, glued together, are the
      text before the cursor, and they alternate between literal text and
      units, ending with a unit while the loop goes on. */
  ghost predicate Sound(str: string, p: Progress)
  {
    && p.cursor <= |str|
    && Concat(p.segments) == str[..p.cursor]
    && Alternates(p.segments)
    && (!p.stopped ==> |p.segments| % 2 == 0)
  }

  /** Text cut from an opener to the end of a close of the same family is a unit. */
  lemma CutIsUnit(str: string, b: nat, e: nat, f: Family)
    requires b + 3 <= e < |str|
    requires str[b..b + 3] == Open(f) && str[e - 2..e + 1] == Close(f)
    ensures IsUnit(str[b..e + 1])
  {
    var u := str[b..e + 1];
    assert u[..3] == str[b..b + 3];
    assert u[|u| - 3..] == str[e - 2..e + 1];
    UnitIsLong(u, f);
  }

  /** The unit a pass splits off is a unit. */
  lemma SplitUnit(str: string, b: nat, f: Family, e: nat)
    requires NextOpener(str, b) == Some(Opener(b, f))
    requires MatchingClose(str, b, Close(f), Open(f)) == Some(e)
    ensures b + 3 <= e < |str| && IsUnit(str[b..e + 1])
  {
    assert |Open(f)| == 3;
    NextOpenerOccurs(str, b);
    OccursAtSlice(str, Open(f), b);
    MatchingCloseInside(str, b, f);
    MatchingCloseEndsUnit(str, b, f, e);
    CutIsUnit(str, b, e, f);
  }

  /** The opener found from `from` is also the one found from its own position. */
  lemma {:induction false} NextOpenerAgain(str: string, from: nat)
    requires NextOpener(str, from).Some?
    ensures NextOpener(str, NextOpener(str, from).value.pos) == NextOpener(str, from)
    decreases |str| - from
  {
    if !OccursAt(str, Open(Static), from) && !OccursAt(str, Open(Conditional), from) {
      NextOpenerAgain(str, from + 1);
    }
  }

  /** Pushing literal text keeps the alternation. */
  lemma AlternatesPushText(segments: seq<string>, lit: string)
    requires Alternates(segments) && |segments| % 2 == 0 && lit != []
    ensures Alternates(segments + [lit])
  {
    var s := segments + [lit];
    forall i | 0 <= i < |s|
      ensures if i % 2 == 0 then s[i] != [] else IsUnit(s[i])
    {
      if i < |segments| {
        assert s[i] == segments[i];
      }
    }
  }

  /** Pushing literal text and a unit keeps the alternation. */
  lemma AlternatesPushUnit(segments: seq<string>, lit: string, u: string)
    requires Alternates(segments) && |segments| % 2 == 0 && lit != [] && IsUnit(u)
    ensures Alternates((segments + [lit]) + [u])
  {
    AlternatesPushText(segments, lit);
    var t := segments + [lit];
    var s := t + [u];
    forall i | 0 <= i < |s|
      ensures if i % 2 == 0 then s[i] != [] else IsUnit(s[i])
    {
      if i < |t| {
        assert s[i] == t[i];
      }
    }
  }

  /** A pass that pushes literal text and stops at an opener without a close
      keeps Sound. */
  lemma NoCloseSound(str: string, segments: seq<string>, cursor: nat, o: Opener)
    requires Sound(str, Progress(segments, cursor, false))
    requires NextOpener(str, cursor + 1) == Some(o)
    requires MatchingClose(str, o.pos, Close(o.family), Open(o.family)).None?
    ensures Sound(str, Pass(str, segments, cursor))
  {
    PassFindsNoClose(str, segments, cursor, o.pos, o.family);
    var lit := str[cursor..o.pos];
    ConcatPush(segments, lit);
    PrefixJoin(str, cursor, o.pos);
    AlternatesPushText(segments, lit);
  }

  /** Pushing the literal text up to `b` and the unit from `b` to `e` keeps Sound. */
  lemma SoundAfterSplit(str: string, segments: seq<string>, cursor: nat, b: nat, e: nat)
    requires Sound(str, Progress(segments, cursor, false))
    requires cursor < b <= e < |str| && IsUnit(str[b..e + 1])
    ensures Sound(str, Progress((segments + [str[cursor..b]]) + [str[b..e + 1]], e + 1, false))
  {
    var lit := str[cursor..b];
    var u := str[b..e + 1];
    ConcatPush(segments, lit);
    ConcatPush(segments + [lit], u);
    PrefixJoin(str, cursor, b);
    PrefixJoin(str, b, e + 1);
    AlternatesPushUnit(segments, lit, u);
    assert |(segments + [lit]) + [u]| == |segments| + 2;
  }

  /** A pass that splits off a unit keeps Sound. */
  lemma SplitSound(str: string, segments: seq<string>, cursor: nat, o: Opener, e: nat)
    requires Sound(str, Progress(segments, cursor, false))
    requires NextOpener(str, cursor + 1) == Some(o)
    requires MatchingClose(str, o.pos, Close(o.family), Open(o.family)) == Some(e)
    ensures Sound(str, Pass(str, segments, cursor))
  {
    var Opener(b, f) := o;
    PassSplits(str, segments, cursor, b, f, e);
    NextOpenerAgain(str, cursor + 1);
    SplitUnit(str, b, f, e);
    SoundAfterSplit(str, segments, cursor, b, e);
  }

  /** Every pass keeps Sound, and pushes at most two segments. */
  lemma NextSound(str: string, p: Progress)
    requires Sound(str, p)
    ensures Sound(str, Next(str, p))
    ensures |Next(str, p).segments| <= |p.segments| + 2
  {
    if !p.stopped {
      var c := p.cursor;
      match NextOpener(str, c + 1)
      case None =>
        PassFindsNothing(str, p.segments, c);
      case Some(o) =>
        match MatchingClose(str, o.pos, Close(o.family), Open(o.family))
        case None =>
          NoCloseSound(str, p.segments, c, o);
          PassFindsNoClose(str, p.segments, c, o.pos, o.family);
        case Some(e) =>
          SplitSound(str, p.segments, c, o, e);
          PassSplits(str, p.segments, c, o.pos, o.family, e);
    }
  }

  /** Sound holds after every number of passes, and `k` passes push at most
      `2 * k` segments. */
  lemma {:induction false} PassesSound(str: string, k: nat)
    ensures Sound(str, Passes(str, k))
    ensures |Passes(str, k).segments| <= 2 * k
  {
    if k > 0 {
      PassesSound(str, k - 1);
      NextSound(str, Passes(str, k - 1));
    }
  }

  /** getSegments loses no text but, when its loop stops just before the last
      character, that character; its segments alternate between literal text
      and units, with at most 100 units and 201 segments. */
  lemma SegmentsCover(str: string)
    ensures var c := Passes(str, MaxUnits).cursor;
            Concat(Segments(str)) == if c + 1 == |str| then str[..c] else str
    ensures Alternates(Passes(str, MaxUnits).segments)
    ensures |Segments(str)| <= 2 * MaxUnits + 1
  {
    var p := Passes(str, MaxUnits);
    PassesSound(str, MaxUnits);
    assert Segments(str) == p.segments + Trailing(str, p.cursor);
    TrailingCovers(str, p.segments, p.cursor);
  }

  /** The trailing segment completes the text, but for a last character that
      sits alone after the cursor. */
  lemma TrailingCovers(str: string, segments: seq<string>, cursor: nat)
    requires cursor <= |str| && Concat(segments) == str[..cursor]
    ensures Concat(segments + Trailing(str, cursor)) == if cursor + 1 == |str| then str[..cursor] else str
    ensures |Trailing(str, cursor)| <= 1
  {
    if cursor < SizeSub(|str|, 1) {
      ConcatPush(segments, str[cursor..]);
      assert str[..cursor] + str[cursor..] == str;
    } else {
      assert segments + [] == segments;
      assert cursor == |str| ==> str[..cursor] == str;
    }
  }

  /** An opener without a matching close ends the segmenting: the literal text
      before it, then everything from it on, verbatim, as the last segment. */
  lemma UnmatchedOpenerKeepsRest(str: string, k: nat, segments: seq<string>, cursor: nat, b: nat, f: Family)
    requires k < MaxUnits && Passes(str, k) == Progress(segments, cursor, false)
    requires NextOpener(str, cursor + 1) == Some(Opener(b, f))
    requires MatchingClose(str, b, Close(f), Open(f)).None?
    ensures cursor < b <= |str| - 3
    ensures Segments(str) == segments + [str[cursor..b], str[b..]]
  {
    PassFindsNoClose(str, segments, cursor, b, f);
    StoppedStays(str, k + 1, MaxUnits);
    NextOpenerOccurs(str, cursor + 1);
  }

  /** A text without any opener is one segment, unless it has exactly one
      character, which getSegments drops. */
  lemma PlainTextSegments(str: string)
    requires forall j :: !OccursAt(str, Open(Static), j) && !OccursAt(str, Open(Conditional), j)
    ensures Segments(str) == if |str| == 1 then [] else [str]
  {
    NextOpenerNone(str, 1);
    assert Passes(str, 1) == Progress([], 0, true);
    StoppedStays(str, 1, MaxUnits);
  }
}
