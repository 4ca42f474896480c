/** Worked examples: the one in the comment above StringTemplate::getSegments,
    which splits into exactly five segments, and templates that show the
    quirks of the scan and of the suffix test. */
module Examples {
  import opened CppString
  import opened Brackets
  import opened Segmenter
  import opened Keys
  import opened Replacing
  import opened Template

  const Text0: string := "my text "
  const Unit1: string := "-=<ONE>=-"
  const Text2: string := " more text "
  const Unit3: string := "-={TWO:-=<TWO>=-}=-"
  const Text4: string := " final text"

  /** `my text -=<ONE>=- more text -={TWO:-=<TWO>=-}=- final text` */
  const DocTemplate: string := Text0 + Unit1 + Text2 + Unit3 + Text4

  /** A position whose character is not `pat`'s first does not start `pat`. */
  lemma NotStartedAt(str: string, pat: string, j: nat)
    requires pat != [] && j < |str| && str[j] != pat[0]
    ensures !OccursAt(str, pat, j)
  {
  }

  /** A position whose three characters spell `pat` starts it. */
  lemma StartedAt(str: string, pat: string, j: nat)
    requires j + |pat| <= |str| && str[j..j + |pat|] == pat
    ensures OccursAt(str, pat, j)
  {
    OccursAtSlice(str, pat, j);
  }

  /** Text without a `-` holds no opener. */
  lemma {:induction false} NextOpenerSkips(str: string, from: nat, to: nat)
    requires from <= to <= |str|
    requires forall j :: from <= j < to ==> str[j] != '-'
    ensures NextOpener(str, from) == NextOpener(str, to)
    decreases |str| - from
  {
    if from < to && from + 3 <= |str| {
      NotStartedAt(str, Open(Static), from);
      NotStartedAt(str, Open(Conditional), from);
      NextOpenerSkips(str, from + 1, to);
    }
  }

  /** Text without a `-` and without the first character of the close
      changes nothing in the bracket matching. */
  lemma MatchSkips(str: string, f: Family, a: nat, b: nat)
    requires a <= b <= |str|
    requires forall j :: a <= j < b ==> str[j] != '-' && str[j] != Close(f)[0]
    ensures MatchFrom(str, Close(f), Open(f), a, 1) == MatchFrom(str, Close(f), Open(f), b, 1)
  {
    forall j | a <= j < b
      ensures !OccursAt(str, Close(f), j) && !OccursAt(str, Open(f), j)
    {
      NotStartedAt(str, Close(f), j);
      NotStartedAt(str, Open(f), j);
    }
    MatchSkipsPlainText(str, Close(f), Open(f), a, b, 1);
  }

  lemma Layout()
    ensures |DocTemplate| == 58
    ensures DocTemplate[..8] == Text0 && DocTemplate[8..17] == Unit1 && DocTemplate[17..28] == Text2
    ensures DocTemplate[28..47] == Unit3 && DocTemplate[47..] == Text4
  {
  }

  /** The first opener is the static one at index 8. */
  lemma FirstOpener()
    ensures NextOpener(DocTemplate, 1) == Some(Opener(8, Static))
  {
    var s := DocTemplate;
    Layout();
    assert s[8..11] == Unit1[..3] == Open(Static);
    StartedAt(s, Open(Static), 8);
    NextOpenerSkips(s, 1, 8);
  }

  /** Its close ends at index 16. */
  lemma FirstClose()
    ensures MatchingClose(DocTemplate, 8, Close(Static), Open(Static)) == Some(16)
  {
    var s := DocTemplate;
    Layout();
    assert s[14..17] == Unit1[6..] == Close(Static);
    MatchSkips(s, Static, 9, 14);
    StartedAt(s, Close(Static), 14);
  }

  /** The first pass: the literal text and the static unit. */
  lemma FirstPass()
    ensures Passes(DocTemplate, 1) == Progress([Text0, Unit1], 17, false)
  {
    Layout();
    FirstOpener();
    FirstClose();
    PassPushes(DocTemplate, [], 0, 8, Static, 16, Text0, Unit1);
  }

  /** A pass that finds a unit, with the text and the unit it pushes named. */
  lemma PassPushes(str: string, segments: seq<string>, cursor: nat, b: nat, f: Family, e: nat,
                   text: string, unit: string)
    requires cursor < b < e < |str|
    requires NextOpener(str, cursor + 1) == Some(Opener(b, f))
    requires MatchingClose(str, b, Close(f), Open(f)) == Some(e)
    requires str[cursor..b] == text && str[b..e + 1] == unit
    ensures Next(str, Progress(segments, cursor, false)) == Progress(segments + [text, unit], e + 1, false)
  {
    PassSplits(str, segments, cursor, b, f, e);
    assert segments + [text] + [unit] == segments + [text, unit];
  }

  /** The next opener is the conditional one at index 28. */
  lemma SecondOpener()
    ensures NextOpener(DocTemplate, 18) == Some(Opener(28, Conditional))
  {
    var s := DocTemplate;
    Layout();
    assert s[28..31] == Unit3[..3] == Open(Conditional);
    assert s[30] != Open(Static)[2];
    StartedAt(s, Open(Conditional), 28);
    assert !OccursAt(s, Open(Static), 28) by {
      OccursAtSlice(s, Open(Static), 28);
    }
    NextOpenerSkips(s, 18, 28);
  }

  /** Inside the conditional unit, up to index 35 where the nested static
      opener starts, nothing is matched. */
  lemma SecondCloseSkips()
    ensures MatchFrom(DocTemplate, Close(Conditional), Open(Conditional), 29, 1)
            == MatchFrom(DocTemplate, Close(Conditional), Open(Conditional), 36, 1)
  {
    var s := DocTemplate;
    Layout();
    MatchSkips(s, Conditional, 29, 35);
    assert s[37] != Open(Conditional)[2];
    assert !OccursAt(s, Open(Conditional), 35) by {
      OccursAtSlice(s, Open(Conditional), 35);
    }
    NotStartedAt(s, Close(Conditional), 35);
    var c, o := Close(Conditional), Open(Conditional);
    assert MatchFrom(s, c, o, 35, 1) == MatchFrom(s, c, o, 36, 1);
  }

  /** Past the nested static unit the close of the conditional unit ends at
      index 46. */
  lemma SecondCloseEnds()
    ensures MatchFrom(DocTemplate, Close(Conditional), Open(Conditional), 36, 1) == Some(46)
  {
    var s := DocTemplate;
    Layout();
    MatchSkips(s, Conditional, 36, 43);
    assert s[44] != Open(Conditional)[1];
    assert !OccursAt(s, Open(Conditional), 43) by {
      OccursAtSlice(s, Open(Conditional), 43);
    }
    NotStartedAt(s, Close(Conditional), 43);
    assert s[44..47] == Unit3[16..] == Close(Conditional);
    StartedAt(s, Close(Conditional), 44);
    var c, o := Close(Conditional), Open(Conditional);
    assert MatchFrom(s, c, o, 43, 1) == MatchFrom(s, c, o, 44, 1) == Some(46);
  }

  /** The second pass: the literal text and the conditional unit, whose close
      is found past the nested static unit. */
  lemma SecondPass()
    ensures Next(DocTemplate, Progress([Text0, Unit1], 17, false))
            == Progress([Text0, Unit1, Text2, Unit3], 47, false)
  {
    Layout();
    SecondOpener();
    SecondCloseSkips();
    SecondCloseEnds();
    PassPushes(DocTemplate, [Text0, Unit1], 17, 28, Conditional, 46, Text2, Unit3);
  }

  /** The third pass finds no opener; the rest is the trailing segment. */
  lemma DocExampleSegments()
    ensures Segments(DocTemplate) == [Text0, Unit1, Text2, Unit3, Text4]
    ensures Segments(DocTemplate) == ["my text ", "-=<ONE>=-", " more text ", "-={TWO:-=<TWO>=-}=-", " final text"]
  {
    var s := DocTemplate;
    Layout();
    FirstPass();
    SecondPass();
    NextOpenerSkips(s, 48, 58);
    PassFindsNothing(s, [Text0, Unit1, Text2, Unit3], 47);
    assert Passes(s, 3) == Progress([Text0, Unit1, Text2, Unit3], 47, true);
    StoppedStays(s, 3, MaxUnits);
  }

  /** A conditional unit at index 0 is never split off, since the opener
      search starts one past the cursor: the scan splits
      `-={K_999:-=<K_999>=-}=-` at the nested static unit instead. */
  const QuirkHead: string := "-={K_999:"
  const QuirkUnit: string := "-=<K_999>=-"
  const QuirkTail: string := "}=-"
  const QuirkTemplate: string := QuirkHead + QuirkUnit + QuirkTail

  /** The first opener found is the nested static one at index 9... */
  lemma QuirkOpener()
    ensures NextOpener(QuirkTemplate, 1) == Some(Opener(9, Static))
  {
    var s := QuirkTemplate;
    assert |s| == 23 && s[9..20] == QuirkUnit;
    assert s[9..12] == QuirkUnit[..3] == Open(Static);
    StartedAt(s, Open(Static), 9);
    NextOpenerSkips(s, 1, 9);
  }

  /** ... and its close ends at index 19. */
  lemma QuirkClose()
    ensures MatchingClose(QuirkTemplate, 9, Close(Static), Open(Static)) == Some(19)
  {
    var s := QuirkTemplate;
    assert |s| == 23 && s[9..20] == QuirkUnit;
    assert s[17..20] == QuirkUnit[8..] == Close(Static);
    MatchSkips(s, Static, 10, 17);
    StartedAt(s, Close(Static), 17);
  }

  lemma QuirkSegments()
    ensures Segments(QuirkTemplate) == [QuirkHead, QuirkUnit, QuirkTail]
  {
    var s := QuirkTemplate;
    assert |s| == 23 && s[..9] == QuirkHead && s[9..20] == QuirkUnit && s[20..] == QuirkTail;
    QuirkOpener();
    QuirkClose();
    PassPushes(s, [], 0, 9, Static, 19, QuirkHead, QuirkUnit);
    assert Passes(s, 1) == Progress([QuirkHead, QuirkUnit], 20, false);
    PassFindsNothing(s, [QuirkHead, QuirkUnit], 20);
    assert Passes(s, 2) == Progress([QuirkHead, QuirkUnit], 20, true);
    StoppedStays(s, 2, MaxUnits);
  }

  /** The iteration key `K_999` of a static unit outside any repeating block
      is looked up as `K_0`. */
  lemma TopLevelIterationKey(replacements: Replacements)
    ensures ProcessSegment(QuirkUnit, replacements, 0)
            == if "K_0" in replacements then replacements["K_0"] else ""
  {
    var u := QuirkUnit;
    assert u[..3] == Open(Static) && u[|u| - 3..] == Close(Static);
    StaticUnit(u, replacements, 0);
    var key := u[3..|u| - 3];
    assert key == "K_999";
    IterationKeyIff(key);
    assert key[|key| - 4..] == "_999";
    assert key[..|key| - 3] + ToString(0) == "K_0";
  }

  /** A key of three characters passes the suffix test, so `-=<KEY>=-` looks
      up `0`. */
  lemma ThreeCharacterKey(replacements: Replacements)
    ensures ProcessSegment(Open(Static) + "KEY" + Close(Static), replacements, 0)
            == if "0" in replacements then replacements["0"] else ""
  {
    var key := "KEY";
    var u := Open(Static) + key + Close(Static);
    assert |u| == 9 && u[..3] == Open(Static) && u[|u| - 3..] == Close(Static);
    assert u[3..|u| - 3] == key;
    StaticUnit(u, replacements, 0);
    IterationKeyIff(key);
    assert key[..0] + ToString(0) == "0";
  }

  /** Inside a repeating block, iteration `n` turns the body `-=<K_999>=-`
      into `-=<K_n>=-`. */
  lemma IterationCopyOfUnit(n: nat)
    ensures ReplaceAll(QuirkUnit, Marker, IterationSuffix(n)) == "-=<K_" + ToString(n) + ">=-"
  {
    var u := QuirkUnit;
    StartedAt(u, Marker, 4);
    forall j | j < 4
      ensures !OccursAt(u, Marker, j)
    {
      NotStartedAt(u, Marker, j);
    }
    FindContractUnique(u, Marker, 0, Some(4));
    ReplaceAllUnchanged(u[8..], Marker, IterationSuffix(n));
    assert u[..4] == "-=<K" && u[8..] == ">=-";
  }

  /** For iterations 1 to 9 that copy has a three-character key `K_n`, which
      passes the suffix test, and the copy is expanded as a template of its
      own, on iteration 0: it looks up `0`, not `K_n`. */
  lemma RepeatedUnitLooksUpZero(n: nat, replacements: Replacements)
    requires 1 <= n <= 9
    ensures ApplyReplacements("-=<K_" + ToString(n) + ">=-", replacements)
            == if "0" in replacements then replacements["0"] else ""
  {
    var d := ToString(n);
    var key := "K_" + d;
    var u := Open(Static) + key + Close(Static);
    assert |u| == 9 && u == "-=<K_" + d + ">=-";
    forall j | 1 <= j
      ensures !OccursAt(u, Open(Static), j) && !OccursAt(u, Open(Conditional), j)
    {
      if j + 3 <= |u| {
        assert IsDigit(u[5]);
        NotStartedAt(u, Open(Static), j);
        NotStartedAt(u, Open(Conditional), j);
      }
    }
    NextOpenerNone(u, 1);
    assert Passes(u, 1) == Progress([], 0, true);
    StoppedStays(u, 1, MaxUnits);
    assert Segments(u) == [u];
    ProcessedOne(u, replacements);
    assert u[..3] == Open(Static) && u[|u| - 3..] == Close(Static);
    assert u[3..|u| - 3] == key;
    StaticUnit(u, replacements, 0);
    IterationKeyIff(key);
    assert key[..0] + ToString(0) == "0";
  }

  /** The conditional scenario `-={KEY:text}=-`, whose key has three
      characters. */
  const KeyTemplate: string := "-={KEY:text}=-"

  /** `-={KEY:text}=-` is a single segment: its only opener is at index 0. */
  lemma KeyTemplateSegment()
    ensures Segments(KeyTemplate) == [KeyTemplate]
  {
    var u := KeyTemplate;
    NextOpenerSkips(u, 1, 12);
    assert Passes(u, 1) == Progress([], 0, true);
    StoppedStays(u, 1, MaxUnits);
  }

  /** Its first colon is at index 6. */
  lemma KeyTemplateColon()
    ensures Find(KeyTemplate, ":", 0) == Some(6) && Find(KeyTemplate, ":", 3) == Some(6)
  {
    var u := KeyTemplate;
    StartedAt(u, ":", 6);
    forall j | j < 6
      ensures !OccursAt(u, ":", j)
    {
      NotStartedAt(u, ":", j);
    }
    FindContractUnique(u, ":", 3, Some(6));
    FindContractUnique(u, ":", 0, Some(6));
  }

  /** It is a conditional unit with the key `KEY` and the body `text`. */
  lemma KeyTemplateParts()
    ensures IsConditionalUnit(KeyTemplate) && ConditionalKey(KeyTemplate) == "KEY"
    ensures Inner(KeyTemplate) == "text"
  {
    var u := KeyTemplate;
    KeyTemplateColon();
    assert u[3..6] == "KEY";
    InnerWithColon(u, 6);
    assert u[7..11] == "text";
  }

  /** The one copy of the body of `-={KEY:text}=-` is `text` itself. */
  lemma KeyTemplateCopy(replacements: Replacements)
    ensures Copy(KeyTemplate, replacements, 1) == "text"
  {
    KeyTemplateParts();
    TextIsPlain();
    ReplaceAllUnchanged("text", Marker, IterationSuffix(1));
    PlainText("text", replacements);
  }

  /** `text` holds neither `_999` nor an opener. */
  lemma TextIsPlain()
    ensures forall j :: !OccursAt("text", Marker, j)
    ensures forall j :: !OccursAt("text", Open(Static), j) && !OccursAt("text", Open(Conditional), j)
  {
    forall j
      ensures !OccursAt("text", Marker, j)
        && !OccursAt("text", Open(Static), j) && !OccursAt("text", Open(Conditional), j)
    {
      if j < 4 {
        NotStartedAt("text", Marker, j);
        NotStartedAt("text", Open(Static), j);
        NotStartedAt("text", Open(Conditional), j);
      }
    }
  }

  /** The key `KEY` passes the suffix test; iterations 1 and 2 look up `1`
      and `2`. */
  lemma KeyTemplateIterates()
    ensures IsIterationKey(ConditionalKey(KeyTemplate))
    ensures IterationKey(ConditionalKey(KeyTemplate), 1) == "1"
    ensures IterationKey(ConditionalKey(KeyTemplate), 2) == "2"
  {
    KeyTemplateParts();
    IterationKeyIff("KEY");
  }

  /** The template is its one unit, processed on iteration 0. */
  lemma KeyTemplateIsUnit(replacements: Replacements)
    ensures ApplyReplacements(KeyTemplate, replacements) == ProcessSegment(KeyTemplate, replacements, 0)
  {
    KeyTemplateSegment();
    ProcessedOne(KeyTemplate, replacements);
  }

  /** Without `1` in the map, there is no copy. */
  lemma KeyTemplateWithoutOne(replacements: Replacements)
    requires "1" !in replacements
    ensures ProcessSegment(KeyTemplate, replacements, 0) == ""
  {
    var u := KeyTemplate;
    KeyTemplateParts();
    KeyTemplateIterates();
    RepeatingUnit(u, replacements, 0, 1);
    assert CopyList(u, replacements, 1, 1) == [];
  }

  /** With `1` but not `2` in the map, there is one copy. */
  lemma KeyTemplateWithOne(replacements: Replacements)
    requires "1" in replacements && "2" !in replacements
    ensures ProcessSegment(KeyTemplate, replacements, 0) == "text"
  {
    var u := KeyTemplate;
    KeyTemplateParts();
    KeyTemplateIterates();
    RepeatingUnit(u, replacements, 0, 2);
    CopiesFront(u, replacements, 1, 2);
    assert CopyList(u, replacements, 2, 2) == [];
    KeyTemplateCopy(replacements);
  }

  /** A conditional unit whose key has three characters passes the `_999`
      suffix test, so it is a repeating block over the keys `1`, `2`, ...:
      `KEY` itself is never looked up. Without `1` in the map it expands to
      nothing, and with `1` but not `2` its body is written once. */
  lemma ThreeCharacterConditional(replacements: Replacements)
    ensures "1" !in replacements ==> ApplyReplacements(KeyTemplate, replacements) == ""
    ensures "1" in replacements && "2" !in replacements ==>
              ApplyReplacements(KeyTemplate, replacements) == "text"
  {
    KeyTemplateIsUnit(replacements);
    if "1" !in replacements {
      KeyTemplateWithoutOne(replacements);
    } else if "2" !in replacements {
      KeyTemplateWithOne(replacements);
    }
  }

  /** Three segments are processed one after the other. */
  lemma ProcessedThree(a: string, b: string, c: string, replacements: Replacements)
    ensures ProcessedSegments([a, b, c], replacements)
            == ProcessSegment(a, replacements, 0) + ProcessSegment(b, replacements, 0)
               + ProcessSegment(c, replacements, 0)
  {
    var segs := [a, b, c];
    assert segs[..2] == [a, b] && [a, b][..1] == [a] && [a][..0] == [];
    assert ProcessedSegments([a], replacements) == ProcessSegment(a, replacements, 0);
    assert ProcessedSegments([a, b], replacements)
           == ProcessSegment(a, replacements, 0) + ProcessSegment(b, replacements, 0);
  }

  /** The head of the quirk template opens a conditional unit without closing
      it, and is reported with its last three characters. */
  lemma QuirkHeadReported(replacements: Replacements)
    ensures ProcessSegment(QuirkHead, replacements, 0)
            == "[CONDITIONAL WITH NO CLOSE:" + QuirkHead + "(" + "99:" + ")]"
  {
    var h := QuirkHead;
    assert h[..3] == Open(Conditional);
    assert h[|h| - 3..] == "99:" && h[|h| - 3..] != Close(Conditional);
    UnclosedUnit(h, replacements, 0, Conditional);
  }

  /** The whole expansion of the quirk template: the first segment starts
      with a conditional opener but does not end with its close, so it is
      reported; the nested unit is looked up as `K_0`; the close is too short
      to be processed and is copied. */
  lemma QuirkExpansion(replacements: Replacements)
    ensures ApplyReplacements(QuirkTemplate, replacements)
            == "[CONDITIONAL WITH NO CLOSE:" + QuirkHead + "(" + "99:" + ")]"
               + (if "K_0" in replacements then replacements["K_0"] else "")
               + QuirkTail
  {
    QuirkSegments();
    QuirkHeadReported(replacements);
    TopLevelIterationKey(replacements);
    PassThrough(QuirkTail, replacements, 0);
    ProcessedThree(QuirkHead, QuirkUnit, QuirkTail, replacements);
  }

  /** The same happens to a conditional unit holding a static unit: in
      `-={K:-=<K>=-!}=-` the scan splits at the static unit, and the pieces
      around it are too short to be units. */
  const NestedHead: string := "-={K:"
  const NestedUnit: string := "-=<K>=-"
  const NestedTail: string := "!}=-"
  const NestedTemplate: string := NestedHead + NestedUnit + NestedTail

  lemma NestedOpener()
    ensures NextOpener(NestedTemplate, 1) == Some(Opener(5, Static))
  {
    var s := NestedTemplate;
    assert |s| == 16 && s[..5] == NestedHead && s[5..12] == NestedUnit;
    assert s[5..8] == NestedUnit[..3] == Open(Static);
    StartedAt(s, Open(Static), 5);
    NextOpenerSkips(s, 1, 5);
  }

  lemma NestedClose()
    ensures MatchingClose(NestedTemplate, 5, Close(Static), Open(Static)) == Some(11)
  {
    var s := NestedTemplate;
    assert |s| == 16 && s[5..12] == NestedUnit;
    assert s[9..12] == NestedUnit[4..] == Close(Static);
    MatchSkips(s, Static, 6, 9);
    StartedAt(s, Close(Static), 9);
  }

  lemma NestedSegments()
    ensures Segments(NestedTemplate) == [NestedHead, NestedUnit, NestedTail]
  {
    var s := NestedTemplate;
    assert |s| == 16 && s[..5] == NestedHead && s[5..12] == NestedUnit && s[12..] == NestedTail;
    NestedOpener();
    NestedClose();
    PassPushes(s, [], 0, 5, Static, 11, NestedHead, NestedUnit);
    assert Passes(s, 1) == Progress([NestedHead, NestedUnit], 12, false);
    NextOpenerSkips(s, 13, 15);
    PassFindsNothing(s, [NestedHead, NestedUnit], 12);
    assert Passes(s, 2) == Progress([NestedHead, NestedUnit], 12, true);
    StoppedStays(s, 2, MaxUnits);
  }

  /** The expansion keeps the conditional's opener, header and close as
      literal text around the value of `K`, whatever the map holds. */
  lemma NestedExpansion(replacements: Replacements)
    ensures ApplyReplacements(NestedTemplate, replacements)
            == NestedHead + (if "K" in replacements then replacements["K"] else "") + NestedTail
  {
    NestedSegments();
    PassThrough(NestedHead, replacements, 0);
    PassThrough(NestedTail, replacements, 0);
    var u := NestedUnit;
    assert u[..3] == Open(Static) && u[|u| - 3..] == Close(Static) && u[3..|u| - 3] == "K";
    StaticUnit(u, replacements, 0);
    IterationKeyIff("K");
    ProcessedThree(NestedHead, NestedUnit, NestedTail, replacements);
  }
  /** A conditional unit holding two static units side by side. */
  const AdjacentHead: string := "-={K:"
  const AdjacentUnit: string := "-=<A>=-"
  const AdjacentTail: string := "-=<B>=-}=-"
  const AdjacentTemplate: string := AdjacentHead + AdjacentUnit + AdjacentTail

  lemma AdjacentOpener()
    ensures NextOpener(AdjacentTemplate, 1) == Some(Opener(5, Static))
  {
    var s := AdjacentTemplate;
    assert |s| == 22 && s[5..12] == AdjacentUnit;
    assert s[5..8] == AdjacentUnit[..3] == Open(Static);
    StartedAt(s, Open(Static), 5);
    NextOpenerSkips(s, 1, 5);
  }

  lemma AdjacentClose()
    ensures MatchingClose(AdjacentTemplate, 5, Close(Static), Open(Static)) == Some(11)
  {
    var s := AdjacentTemplate;
    assert |s| == 22 && s[5..12] == AdjacentUnit;
    assert s[9..12] == AdjacentUnit[4..] == Close(Static);
    MatchSkips(s, Static, 6, 9);
    StartedAt(s, Close(Static), 9);
  }

  /** The second static unit starts right at the cursor, and the search for
      an opener starts one past it, so nothing more is found. */
  lemma AdjacentRestHasNoOpener()
    ensures NextOpener(AdjacentTemplate, 13).None?
  {
    var s := AdjacentTemplate;
    assert |s| == 22 && s[12..] == AdjacentTail;
    NextOpenerSkips(s, 13, 18);
    assert s[18..21] == "-}=";
    OccursAtSlice(s, Open(Static), 18);
    OccursAtSlice(s, Open(Conditional), 18);
    NextOpenerSkips(s, 19, 20);
  }

  lemma AdjacentSegments()
    ensures Segments(AdjacentTemplate) == [AdjacentHead, AdjacentUnit, AdjacentTail]
  {
    var s := AdjacentTemplate;
    assert |s| == 22 && s[..5] == AdjacentHead && s[5..12] == AdjacentUnit && s[12..] == AdjacentTail;
    AdjacentOpener();
    AdjacentClose();
    PassPushes(s, [], 0, 5, Static, 11, AdjacentHead, AdjacentUnit);
    assert Passes(s, 1) == Progress([AdjacentHead, AdjacentUnit], 12, false);
    AdjacentRestHasNoOpener();
    PassFindsNothing(s, [AdjacentHead, AdjacentUnit], 12);
    assert Passes(s, 2) == Progress([AdjacentHead, AdjacentUnit], 12, true);
    StoppedStays(s, 2, MaxUnits);
  }

  /** The first static unit looks up `A`. */
  lemma AdjacentUnitValue(replacements: Replacements)
    ensures ProcessSegment(AdjacentUnit, replacements, 0)
            == if "A" in replacements then replacements["A"] else ""
  {
    var u := AdjacentUnit;
    assert u[..3] == Open(Static) && u[|u| - 3..] == Close(Static) && u[3..|u| - 3] == "A";
    StaticUnit(u, replacements, 0);
    IterationKeyIff("A");
  }

  /** The last segment starts with a static opener but ends with `}=-`. */
  lemma AdjacentTailReported(replacements: Replacements)
    ensures ProcessSegment(AdjacentTail, replacements, 0)
            == "[STATIC WITH NO CLOSE:" + AdjacentTail + "(" + "}=-" + ")]"
  {
    var t := AdjacentTail;
    assert t[..3] == Open(Static) && t[|t| - 3..] == "}=-" != Close(Static);
    UnclosedUnit(t, replacements, 0, Static);
  }

  /** The last segment is the second static unit followed by the conditional's
      close, so it is reported as a static unit without its close, and the
      close `}=-` is not copied. */
  lemma AdjacentExpansion(replacements: Replacements)
    ensures ApplyReplacements(AdjacentTemplate, replacements)
            == AdjacentHead + (if "A" in replacements then replacements["A"] else "")
               + ("[STATIC WITH NO CLOSE:" + AdjacentTail + "(" + "}=-" + ")]")
  {
    AdjacentSegments();
    ProcessedThree(AdjacentHead, AdjacentUnit, AdjacentTail, replacements);
    PassThrough(AdjacentHead, replacements, 0);
    AdjacentUnitValue(replacements);
    AdjacentTailReported(replacements);
  }
}
