/** StringTemplate::applyReplacements and the processing of segments: static
    units are looked up in the replacement map, conditional units are kept or
    dropped according to their key and repeated for `_999` keys, and their
    bodies are expanded recursively. */
module Template {
  import opened CppString
  import opened Brackets
  import opened Segmenter
  import opened Replacing
  import opened Keys

  /** The replacement map, std::map<std::string, std::string>. */
  type Replacements = map<string, string>

  /** The `_999` marker of a repeating block and what it becomes on iteration `n`. */
  const Marker: string := "_999"

  function IterationSuffix(n: nat): (r: string)
    ensures |r| == 1 + |ToString(n)|
  {
    "_" + ToString(n)
  }

  /** The number of iterations tried by a repeating block is below 1000. */
  const IterationLimit: nat := 1000

  /** StringTemplate::applyReplacements: the template cut into segments, each
      segment processed on iteration 0, the results written one after the
      other. */
  function ApplyReplacements(str: string, replacements: Replacements): (r: string)
    decreases |str|, 3, 0
  {
    SegmentsCover(str);
    ProcessedSegments(Segments(str), replacements)
  }

  /** What StringTemplate::processSegments writes to its stream: the
      processed segments, in order. */
  function ProcessedSegments(segments: seq<string>, replacements: Replacements): (r: string)
    decreases |Concat(segments)|, 2, |segments|
  {
    if segments == [] then ""
    else
      ProcessedSegments(segments[..|segments| - 1], replacements)
      + ProcessSegment(segments[|segments| - 1], replacements, 0)
  }

  /** StringTemplate::processSegment. */
  function ProcessSegment(segment: string, replacements: Replacements, iteration: nat): (r: string)
    decreases |segment|, 1, 0
  {
    var n := |segment|;
    if n < 7 then segment
    else if segment[..3] == Open(Static) then
      if segment[n - 3..] == Close(Static) then
        var key := LookupKey(StaticKey(segment), iteration);
        if key in replacements then replacements[key] else ""
      else "[STATIC WITH NO CLOSE:" + segment + "(" + segment[n - 3..] + ")]"
    else if segment[..3] == Open(Conditional) then
      if segment[n - 3..] == Close(Conditional) then
        ConditionalValue(segment, replacements, ConditionalKey(segment))
      else "[CONDITIONAL WITH NO CLOSE:" + segment + "(" + segment[n - 3..] + ")]"
    else segment
  }

  /** What StringTemplate::processConditionalSegment returns: nothing when a
      plain key is missing from the map, the expanded body when it is present,
      and for an iteration key the expanded copies of the body, one per
      iteration from 1 on while the key of that iteration is present. */
  function ConditionalValue(segment: string, replacements: Replacements, key: string): (r: string)
    requires IsConditionalUnit(segment)
    decreases |segment|, 0, IterationLimit
  {
    if IsIterationKey(key) then Repetitions(segment, replacements, key, 1)
    else if key !in replacements then ""
    else
      InnerShorter(segment);
      ApplyReplacements(Inner(segment), replacements)
  }

  /** The body of a repeating block with `_999` turned into `_n`. */
  function IterationBody(segment: string, n: nat): (r: string)
    requires n < IterationLimit
    ensures |r| <= |Inner(segment)|
  {
    ReplaceAll(Inner(segment), Marker, IterationSuffix(n))
  }

  /** The expanded copies of a repeating block from iteration `n` on. */
  function Repetitions(segment: string, replacements: Replacements, key: string, n: nat): (r: string)
    requires IsConditionalUnit(segment) && IsIterationKey(key)
    decreases |segment|, 0, IterationLimit - n
  {
    if n >= IterationLimit || IterationKey(key, n) !in replacements then ""
    else
      InnerShorter(segment);
      ApplyReplacements(IterationBody(segment, n), replacements)
      + Repetitions(segment, replacements, key, n + 1)
  }

  /** One iteration of a repeating block: nothing when the key of the
      iteration is missing, otherwise its copy followed by the later ones. */
  lemma RepetitionStep(segment: string, replacements: Replacements, key: string, n: nat)
    requires IsConditionalUnit(segment) && IsIterationKey(key) && n < IterationLimit
    ensures Stem(key) + ToString(n) !in replacements ==> Repetitions(segment, replacements, key, n) == ""
    ensures Stem(key) + ToString(n) in replacements ==>
              Repetitions(segment, replacements, key, n)
              == ApplyReplacements(ReplaceAll(Inner(segment), Marker, "_" + ToString(n)), replacements)
                 + Repetitions(segment, replacements, key, n + 1)
  {
  }

  /** processSegments writes the segments one after the other: the output for
      two runs of segments is the output for the first, then for the second. */
  lemma {:induction false} ProcessedSegmentsAppend(a: seq<string>, b: seq<string>, replacements: Replacements)
    ensures ProcessedSegments(a + b, replacements)
            == ProcessedSegments(a, replacements) + ProcessedSegments(b, replacements)
    decreases |b|
  {
    if b == [] {
      assert a + b == a;
    } else {
      var init := b[..|b| - 1];
      ProcessedSegmentsAppend(a, init, replacements);
      assert (a + b)[..|a + b| - 1] == a + init;
      assert (a + b)[|a + b| - 1] == b[|b| - 1];
    }
  }

  /** The output is the in-order concatenation of the segments, each processed
      on iteration 0. */
  lemma {:induction false} ProcessedSegmentsInOrder(segments: seq<string>, replacements: Replacements)
    ensures ProcessedSegments(segments, replacements)
            == Concat(seq(|segments|, i requires 0 <= i < |segments| => ProcessSegment(segments[i], replacements, 0)))
    decreases |segments|
  {
    var outputs := seq(|segments|, i requires 0 <= i < |segments| => ProcessSegment(segments[i], replacements, 0));
    if segments != [] {
      var init := segments[..|segments| - 1];
      ProcessedSegmentsInOrder(init, replacements);
      assert outputs[..|outputs| - 1] == seq(|init|, i requires 0 <= i < |init| => ProcessSegment(init[i], replacements, 0));
    }
  }

  /** The segments processSegment hands on to processConditionalSegment
      (Keys.IsConditionalUnit) are exactly the conditional units getSegments
      cuts (Segmenter.IsUnit) that have seven characters or more. */
  lemma ConditionalUnitIsUnit(segment: string)
    ensures IsConditionalUnit(segment)
            <==> IsUnit(segment) && |segment| >= 7 && segment[..3] == Open(Conditional)
  {
  }

  /** A segment shorter than seven characters, or one that does not start
      with an opener, comes out unchanged. */
  lemma PassThrough(segment: string, replacements: Replacements, iteration: nat)
    requires |segment| < 7 || (segment[..3] != Open(Static) && segment[..3] != Open(Conditional))
    ensures ProcessSegment(segment, replacements, iteration) == segment
  {
  }

  /** A static unit is replaced by the value of its key (the text between the
      delimiters, with `_999` turned into the iteration number), or by nothing
      when the map has no such key. */
  lemma StaticUnit(segment: string, replacements: Replacements, iteration: nat)
    requires |segment| >= 7 && segment[..3] == Open(Static) && segment[|segment| - 3..] == Close(Static)
    ensures var key := LookupKey(segment[3..|segment| - 3], iteration);
            ProcessSegment(segment, replacements, iteration)
            == if key in replacements then replacements[key] else ""
  {
    var n := |segment|;
    var k := StaticKey(segment);
    assert segment[3..n - 3] == k by {
      assert |k| == n - 6;
      assert segment[3..n - 3] == (segment[..3] + k + segment[n - 3..])[3..n - 3];
    }
  }

  /** An opener whose segment does not end with the matching close is
      reported in the output: the segment and its last three characters. */
  lemma UnclosedUnit(segment: string, replacements: Replacements, iteration: nat, f: Family)
    requires |segment| >= 7 && segment[..3] == Open(f) && segment[|segment| - 3..] != Close(f)
    ensures var tail := segment[|segment| - 3..];
            ProcessSegment(segment, replacements, iteration)
            == (match f
                case Static => "[STATIC WITH NO CLOSE:"
                case Conditional => "[CONDITIONAL WITH NO CLOSE:")
               + segment + "(" + tail + ")]"
  {
  }

  /** A conditional unit is processed by its key: the text from index 3 up to
      the first colon. */
  lemma ConditionalUnit(segment: string, replacements: Replacements, iteration: nat)
    requires IsConditionalUnit(segment)
    ensures ProcessSegment(segment, replacements, iteration)
            == ConditionalValue(segment, replacements, ConditionalKey(segment))
  {
    assert segment[..3] != Open(Static) by {
      assert segment[2] == '{';
    }
  }

  /** A conditional unit whose plain key is missing from the map disappears. */
  lemma ConditionalAbsent(segment: string, replacements: Replacements, iteration: nat)
    requires IsConditionalUnit(segment)
    requires !IsIterationKey(ConditionalKey(segment)) && ConditionalKey(segment) !in replacements
    ensures ProcessSegment(segment, replacements, iteration) == ""
  {
    ConditionalUnit(segment, replacements, iteration);
  }

  /** A conditional unit `-={KEY:body}=-` whose plain key is in the map is
      replaced by its body, expanded as a template of its own. */
  lemma ConditionalPresent(segment: string, replacements: Replacements, iteration: nat, colon: nat)
    requires IsConditionalUnit(segment) && |segment| < WORD
    requires Find(segment, ":", 3) == Some(colon)
    requires !IsIterationKey(segment[3..colon]) && segment[3..colon] in replacements
    ensures colon < |segment| - 3
    ensures ProcessSegment(segment, replacements, iteration)
            == ApplyReplacements(segment[colon + 1..|segment| - 3], replacements)
  {
    ConditionalUnit(segment, replacements, iteration);
    InnerOfUnit(segment);
    InnerWithColon(segment, colon);
  }

  /** A conditional unit without a colon has the empty key; when the map holds
      that key, the unit is replaced by everything but its close, opener
      included, expanded as a template. */
  lemma ConditionalWithoutColon(segment: string, replacements: Replacements, iteration: nat)
    requires IsConditionalUnit(segment) && |segment| < WORD
    requires Find(segment, ":", 3).None? && "" in replacements
    ensures ProcessSegment(segment, replacements, iteration)
            == ApplyReplacements(segment[..|segment| - 3], replacements)
  {
    ConditionalUnit(segment, replacements, iteration);
    InnerOfUnit(segment);
    IterationKeyIff("");
  }

  /** The expanded copy of a repeating block's body for iteration `n`. */
  function Copy(segment: string, replacements: Replacements, n: nat): (r: string)
    requires n < IterationLimit
  {
    ApplyReplacements(IterationBody(segment, n), replacements)
  }

  /** The copies for iterations `lo` up to, not including, `hi`, in order. */
  function CopyList(segment: string, replacements: Replacements, lo: nat, hi: nat): (r: seq<string>)
    requires lo <= hi <= IterationLimit
    ensures |r| == hi - lo
    ensures forall i :: 0 <= i < hi - lo ==> r[i] == Copy(segment, replacements, lo + i)
  {
    seq(hi - lo, i requires 0 <= i < hi - lo => Copy(segment, replacements, lo + i))
  }

  /** Reference definition of a repeating block's output: the expanded copies
      for iterations `lo` up to, not including, `hi`, written in order. */
  function Copies(segment: string, replacements: Replacements, lo: nat, hi: nat): (r: string)
    requires lo <= hi <= IterationLimit
  {
    Concat(CopyList(segment, replacements, lo, hi))
  }

  /** The first copy can be split off the front. */
  lemma CopiesFront(segment: string, replacements: Replacements, lo: nat, hi: nat)
    requires lo < hi <= IterationLimit
    ensures Copies(segment, replacements, lo, hi)
            == Copy(segment, replacements, lo) + Copies(segment, replacements, lo + 1, hi)
  {
    var all := CopyList(segment, replacements, lo, hi);
    var rest := CopyList(segment, replacements, lo + 1, hi);
    forall i | 0 <= i < |rest|
      ensures all[i + 1] == rest[i]
    {
      assert lo + (i + 1) == lo + 1 + i;
    }
    SplitFront(all, rest);
    ConcatFront(all[0], rest);
  }

  lemma SplitFront<T>(all: seq<T>, rest: seq<T>)
    requires |all| == |rest| + 1
    requires forall i :: 0 <= i < |rest| ==> all[i + 1] == rest[i]
    ensures all == [all[0]] + rest
  {
  }

  /** A repeating block yields one copy per iteration from `n` on, up to the
      first iteration whose key is missing from the map, or up to 999. */
  lemma {:induction false} RepetitionsAreCopies(segment: string, replacements: Replacements, key: string,
                                                n: nat, last: nat)
    requires IsConditionalUnit(segment) && IsIterationKey(key)
    requires n <= last <= IterationLimit
    requires forall i :: n <= i < last ==> IterationKey(key, i) in replacements
    requires last == IterationLimit || IterationKey(key, last) !in replacements
    ensures Repetitions(segment, replacements, key, n) == Copies(segment, replacements, n, last)
    decreases last - n
  {
    if n < last {
      CopiesFront(segment, replacements, n, last);
      RepetitionsAreCopies(segment, replacements, key, n + 1, last);
    }
  }

  /** A conditional unit with an iteration key `KEY_999` needs no entry for
      that key itself: it yields a copy of its body for each of `KEY_1`,
      `KEY_2`, ... present in the map, stopping at the first missing one, with
      `_999` in the body turned into `_1`, `_2`, ... */
  lemma RepeatingUnit(segment: string, replacements: Replacements, iteration: nat, last: nat)
    requires IsConditionalUnit(segment) && IsIterationKey(ConditionalKey(segment))
    requires 1 <= last <= IterationLimit
    requires forall i :: 1 <= i < last ==> IterationKey(ConditionalKey(segment), i) in replacements
    requires last == IterationLimit || IterationKey(ConditionalKey(segment), last) !in replacements
    ensures ProcessSegment(segment, replacements, iteration) == Copies(segment, replacements, 1, last)
  {
    ConditionalUnit(segment, replacements, iteration);
    RepetitionsAreCopies(segment, replacements, ConditionalKey(segment), 1, last);
  }

  /** A template holding no opener comes out unchanged, except that a
      template of a single character comes out empty. */
  lemma PlainText(str: string, replacements: Replacements)
    requires forall j :: !OccursAt(str, Open(Static), j) && !OccursAt(str, Open(Conditional), j)
    ensures ApplyReplacements(str, replacements) == if |str| == 1 then "" else str
  {
    PlainTextSegments(str);
    if |str| != 1 {
      if |str| >= 7 {
        OccursAtSlice(str, Open(Static), 0);
        OccursAtSlice(str, Open(Conditional), 0);
      }
      PassThrough(str, replacements, 0);
      ProcessedOne(str, replacements);
    }
  }

  lemma ProcessedOne(segment: string, replacements: Replacements)
    ensures ProcessedSegments([segment], replacements) == ProcessSegment(segment, replacements, 0)
  {
    assert [segment][..0] == [];
  }
}

/** The imperative parts of StringTemplate: the loops of processSegments and
    processConditionalSegment, and applyReplacements putting getSegments and
    processSegments together. */
module StringTemplate {
  import opened CppString
  import opened Segmenter
  import opened Replacing
  import opened Keys
  import Template

  /** StringTemplate::applyReplacements. */
  method ApplyReplacements(str: string, replacements: Template.Replacements) returns (r: string)
    ensures r == Template.ApplyReplacements(str, replacements)
    decreases |str|, 4
  {
    var segments := GetSegments(str);
    SegmentsCover(str);
    r := ProcessSegments(segments, replacements);
  }

  /** StringTemplate::processSegments: each segment processed on iteration 0
      and written to the stream. */
  method ProcessSegments(segments: seq<string>, replacements: Template.Replacements) returns (r: string)
    ensures r == Template.ProcessedSegments(segments, replacements)
    decreases |Concat(segments)|, 3
  {
    r := "";
    for i := 0 to |segments|
      invariant r == Template.ProcessedSegments(segments[..i], replacements)
    {
      assert segments[..i + 1][..i] == segments[..i];
      PartWithinConcat(segments, i);
      var value := ProcessSegment(segments[i], replacements, 0);
      r := r + value;
    }
    assert segments[..|segments|] == segments;
  }

  /** StringTemplate::processSegment: texts too short to be a unit and texts
      not starting with an opener are kept, a static unit is looked up, a
      conditional unit goes to processConditionalSegment, and a unit without
      its close is reported. The function Template.ProcessSegment is the
      definition, and the rules of expansion are proved about it; this method
      is its step-by-step mirror, there so that the methods call one another
      as the code does. */
  method ProcessSegment(segment: string, replacements: Template.Replacements, iteration: nat)
    returns (value: string)
    ensures value == Template.ProcessSegment(segment, replacements, iteration)
    decreases |segment|, 2
  {
    var n := |segment|;
    if n < 7 {
      value := segment;
    } else if segment[..3] == "-=<" {
      if segment[n - 3..] == ">=-" {
        var key := StaticKey(segment);
        if IsIterationKey(key) {
          key := Stem(key) + ToString(iteration);
        }
        value := if key in replacements then replacements[key] else "";
      } else {
        value := "[STATIC WITH NO CLOSE:" + segment + "(" + segment[n - 3..] + ")]";
      }
    } else if segment[..3] == "-={" {
      if segment[n - 3..] == "}=-" {
        var key := ConditionalKey(segment);
        value := ProcessConditionalSegment(segment, replacements, key);
      } else {
        value := "[CONDITIONAL WITH NO CLOSE:" + segment + "(" + segment[n - 3..] + ")]";
      }
    } else {
      value := segment;
    }
  }

  /** StringTemplate::processConditionalSegment: a plain key must be in the
      map; the body is then expanded once, or, for an iteration key, once per
      iteration. */
  method ProcessConditionalSegment(segment: string, replacements: Template.Replacements, key: string)
    returns (value: string)
    requires IsConditionalUnit(segment)
    ensures value == Template.ConditionalValue(segment, replacements, key)
    decreases |segment|, 1
  {
    if !IsIterationKey(key) {
      if key !in replacements {
        return "";
      }
    }

    var segmentInner := ConditionalInner(segment);
    InnerShorter(segment);
    if IsIterationKey(key) {
      value := RepeatInner(segment, replacements, key, segmentInner);
    } else {
      value := ApplyReplacements(segmentInner, replacements);
    }
  }

  /** The body of a conditional unit, cut out as processConditionalSegment
      does: from one past the first colon, `size - 4 - colonPos` characters,
      in size_t (the function Keys.Inner states the same cut). For a unit,
      that is the text between the first colon and the close, or, without a
      colon, everything but the close. */
  method ConditionalInner(segment: string) returns (segmentInner: string)
    ensures segmentInner == Inner(segment)
    ensures IsConditionalUnit(segment) && |segment| < WORD ==>
              && (Find(segment, ":", 0).None? ==> segmentInner == segment[..|segment| - 3])
              && (Find(segment, ":", 0).Some? ==>
                    segmentInner == segment[Find(segment, ":", 0).value + 1..|segment| - 3])
  {
    var colonFound := FindFirst(segment, ":", 0);
    FindContractUnique(segment, ":", 0, colonFound);
    var colonPos := if colonFound.Some? then colonFound.value else NPOS;
    segmentInner := Substr(segment, SizeInc(colonPos), SizeSub(SizeSub(|segment|, 4), colonPos));
    if IsConditionalUnit(segment) && |segment| < WORD {
      match colonFound
      case None => InnerWithoutColon(segment);
      case Some(c) => InnerWithColon(segment, c);
    }
  }

  /** The repeating loop of processConditionalSegment: iterations 1 to 999,
      each appending the body with `_999` replaced by `_<iteration>`, expanded,
      until the key of an iteration is missing from the map. */
  method RepeatInner(segment: string, replacements: Template.Replacements, key: string, segmentInner: string)
    returns (value: string)
    requires IsConditionalUnit(segment) && IsIterationKey(key) && segmentInner == Inner(segment)
    ensures value == Template.Repetitions(segment, replacements, key, 1)
    decreases |segment|, 0
  {
    value := "";
    var iteration: nat := 1;
    while iteration < Template.IterationLimit
      invariant 1 <= iteration <= Template.IterationLimit
      invariant value + Template.Repetitions(segment, replacements, key, iteration)
                == Template.Repetitions(segment, replacements, key, 1)
      decreases Template.IterationLimit - iteration
    {
      var iterationKey := Stem(key) + ToString(iteration);
      Template.RepetitionStep(segment, replacements, key, iteration);
      if iterationKey !in replacements {
        break;
      }
      var segmentCopy := ReplaceAllOccurrences(segmentInner, Template.Marker, "_" + ToString(iteration));
      InnerShorter(segment);
      var expanded := ApplyReplacements(segmentCopy, replacements);
      AppendAssoc(value, expanded, Template.Repetitions(segment, replacements, key, iteration + 1));
      value := value + expanded;
      iteration := iteration + 1;
    }
  }
}
