# StringTemplate in Dafny

StringTemplate expands a text template against a map of replacements
(`std::map<std::string, std::string>`). A template mixes literal text with two
kinds of unit:

- a static unit `-=<KEY>=-`, replaced by the value of `KEY` in the map (or by
  nothing when the map has no such key);
- a conditional unit `-={KEY:body}=-`. When `KEY` fails the `_999` suffix
  test (below), the unit is dropped when `KEY` is missing and otherwise
  replaced by its body expanded as a template of its own. A key that passes
  it, one ending in `_999`, makes the unit a repeating block: its body is written once
  for each of `KEY_1`, `KEY_2`, ... up to the first one missing from the map
  (at most 999 times), with `_999` inside the body turned into `_1`, `_2`, ...
  Each copy is expanded as a template of its own, so for iterations 1 to 9 a
  unit `-=<K_999>=-` in the body becomes `-=<K_1>=-`, ..., whose key has three
  characters, passes the `_999` suffix test (see below) and looks up `0`
  rather than `K_1` (Examples.RepeatedUnitLooksUpZero).

Expansion runs in two stages. `getSegments` cuts the template into
alternating literal text and units, matching nested delimiters of the same
family with `getBracketEndPosition`. `processSegments` then writes each
processed segment to a stream.

The model follows `StringTemplate.cpp` function by function:

- `cpp_string.dfy` (module `CppString`) holds what the code uses from the C++
  standard library: `find`, `rfind`, `substr`, `to_string`, and `size_t`
  arithmetic with its wrap-around.
- `brackets.dfy` (module `Brackets`) covers `getBracketEndPosition`: its loop,
  proved against a one-position-at-a-time matching function.
- `segmenter.dfy` (module `Segmenter`) covers `getSegments`: its loop, proved
  against a pass-by-pass function of the loop state, plus what the segments
  say about the template.
- `replacing.dfy` (module `Replacing`) covers `replaceAllOccurrences`: its
  in-place loop, proved against a left-to-right reference definition.
- `keys.dfy` (module `Keys`) covers the `_999` suffix test, the static key,
  `getConditionalKey`, and the body of a conditional unit.
- `template.dfy` holds two modules:
  - `Template`: `applyReplacements`, `processSegments`, `processSegment` and
    `processConditionalSegment` as mutually recursive functions, with the
    rules of expansion as lemmas.
  - `StringTemplate`: the four functions as methods calling one another as
    the code does, with the loops of `processSegments` and
    `processConditionalSegment`, each proved equal to its function.
- `example.dfy` (module `Examples`) works through the example in the comment
  above `getSegments`, a conditional unit with a three-character key, and
  three templates that open with a conditional unit holding static units.

Behaviour of the code that the model keeps as written:

- The opener search starts one past the cursor. An opener at index 0, or one
  right after a unit, is never split off; it stays inside the literal text.
- The trailing segment is pushed only when the cursor is below
  `str.size() - 1`. A single remaining character is dropped, so a
  one-character template expands to nothing. An empty template gives one
  empty segment.
- The `_999` suffix test compares `rfind` with `size() - 4` in `size_t`, so a
  three-character key passes it. `-=<KEY>=-` then looks up `0`. A conditional
  unit with a three-character key is a repeating block over the keys `1`,
  `2`, ... and its own key is never looked up: `-={KEY:text}=-` with only
  `KEY` in the map expands to nothing (Examples.ThreeCharacterConditional).
- `processSegments` processes every segment on iteration 0, so a top-level
  static unit `-=<K_999>=-` looks up `K_0`.
- Without a colon, the body of a conditional unit is everything but its close.
  The `npos + 1` of the cut wraps around to 0.

What this means for a template that opens with a conditional unit holding
static units, such as the scenarios listed at StringTemplate.cpp:25 and 27
(`-={KEY:-=<KEY>=- -=<KEY2>=-}=-`, `-={KEY_999:-=<KEY_999>=- ...}=-`): the
search for an opener starts at index 1, so the conditional opener is not
split off. The first static unit inside is split off instead, and the text
before it becomes a literal segment that starts with `-={`. When that head
has seven or more characters it is reported as a conditional without a
close (Examples.QuirkExpansion, for `-={K_999:-=<K_999>=-}=-`); when it is
shorter it is copied unchanged (Examples.NestedExpansion, for
`-={K:-=<K>=-!}=-`). When the last static unit inside is followed by text
that does not start with an opener, the closing `}=-` ends up in that
trailing literal segment and is copied. When two static units sit side by
side, the second starts right at the cursor and is not found either: the
last segment is then that unit followed by `}=-`, which is reported as a
static unit without a close, so `}=-` is not copied
(Examples.AdjacentExpansion, for `-={K:-=<A>=--=<B>=-}=-`). This is one way
the static "no close" report is reached. The static units are expanded on
iteration 0, so `-=<K_999>=-` looks up `K_0`.

## Model

| member | source | states |
|---|---|---|
| CppString.SizeSub | StringTemplate.cpp:125 | `a - b` in size_t: the difference when it is not negative, otherwise the difference plus 2^64 |
| CppString.FindMeetsContract | StringTemplate.cpp:68-69 | `find(pat, from)` gives the first index at or after `from` where `pat` starts, and none exists when it gives npos |
| CppString.FindContractUnique | StringTemplate.cpp:309 | any result keeping find's promise is the one Find computes |
| CppString.FindShift | StringTemplate.cpp:309 | searching a suffix finds the same occurrence, shifted by the suffix's start |
| CppString.RFind | StringTemplate.cpp:204 | `rfind(pat)` gives an index where `pat` starts with no later occurrence, or npos when `pat` does not occur at all |
| CppString.ParseToString | StringTemplate.cpp:205 | the digits `to_string` writes read back as the number |
| CppString.ToStringInjective | StringTemplate.cpp:275 | distinct iterations give distinct decimal strings |
| CppString.ConcatFront | StringTemplate.cpp:183-188 | a stream written with one piece first holds that piece followed by the rest |
| Brackets.GetBracketEndPosition | StringTemplate.cpp:142-178 | the loop returns the matching close's last index: nested openers of the same family each need a close of their own, and npos comes back when the text runs out |
| Brackets.MatchEndsWithClose | StringTemplate.cpp:152-174 | a match found is two past the start of a close delimiter that lies after the opener |
| Brackets.MatchingCloseInside | StringTemplate.cpp:148-174 | a matched close ends inside the text, at least three characters after the opener |
| Brackets.MatchingCloseEndsUnit | StringTemplate.cpp:173-175 | the three characters ending at the returned position are the close delimiter |
| Brackets.MatchWithoutClose | StringTemplate.cpp:152-157 | with no close delimiter left, the result is npos |
| Brackets.UnterminatedWithTooFewCloses | StringTemplate.cpp:147-170 | with fewer close delimiters left than brackets open, the result is npos |
| Brackets.MatchSkipsPlainText | StringTemplate.cpp:152-165 | text holding neither delimiter leaves the match unchanged, so find may jump over it |
| Brackets.MatchNestedStep | StringTemplate.cpp:160-165 | an opener before the next close raises the depth, and the search resumes one past it |
| Brackets.MatchCloseStep | StringTemplate.cpp:167-169 | a close before any opener lowers the depth, and the search resumes one past it |
| Segmenter.ChooseBracket | StringTemplate.cpp:67-97 | of the two openers found from the cursor, the earlier is chosen with its family's delimiters, and none is chosen exactly when neither occurs |
| Segmenter.NextOpenerFromFinds | StringTemplate.cpp:68-82 | two finds and the masking of the later result give the first opener of either family |
| Segmenter.GetSegments | StringTemplate.cpp:58-130 | the loop returns the segments of at most 100 passes, then the trailing segment |
| Segmenter.RunEnds | StringTemplate.cpp:64-122 | a loop that made 100 passes, or whose last pass ended it, leaves the state after 100 passes |
| Segmenter.StoppedStays | StringTemplate.cpp:70-72 | once a pass has broken out of the loop, later passes change nothing |
| Segmenter.PassFindsNothing | StringTemplate.cpp:70-72 | a pass that finds no opener ends the loop where it is |
| Segmenter.PassFindsNoClose | StringTemplate.cpp:99-116 | a pass whose opener has no matching close pushes the text before it and ends the loop at the opener |
| Segmenter.PassSplits | StringTemplate.cpp:99-120 | a pass whose opener has a close pushes the text before the opener and the unit, and moves the cursor past the unit |
| Segmenter.SplitUnit | StringTemplate.cpp:111-119 | the unit a pass splits off starts with an opener and ends with the same family's close |
| Segmenter.PassesSound | StringTemplate.cpp:64-122 | after any number of passes, the pushed segments concatenate to the text before the cursor and alternate between non-empty text and units, with at most two segments a pass |
| Segmenter.SegmentsCover | StringTemplate.cpp:58-130 | the segments concatenate back to the template, less a lone last character after the cursor; they alternate text and units, with at most 201 segments |
| Segmenter.TrailingCovers | StringTemplate.cpp:124-127 | the trailing segment completes the text, except for a single remaining character |
| Segmenter.UnmatchedOpenerKeepsRest | StringTemplate.cpp:113-127 | an opener without a matching close makes everything from it on the last segment, verbatim |
| Segmenter.PlainTextSegments | StringTemplate.cpp:68-72 | a text without openers is one segment, and a one-character text gives none |
| Replacing.ReplaceAllOccurrences | StringTemplate.cpp:304-315 | the in-place loop gives the reference left-to-right replacement of every occurrence |
| Replacing.ReplaceInPlaceStep | StringTemplate.cpp:309-311 | editing the copy at an occurrence and resuming past the inserted text does not change the final result |
| Replacing.ReplaceInPlaceDone | StringTemplate.cpp:309 | once nothing is found from the cursor on, the copy is final |
| Replacing.ReplaceAllLength | StringTemplate.cpp:309-311 | each replacement changes the length by the difference of the two lengths |
| Replacing.ReplaceAllUnchanged | StringTemplate.cpp:309 | a text without the old substring comes back unchanged |
| Replacing.ReplaceAllNoRescan | StringTemplate.cpp:311 | inserted text is never searched again, even when it contains the old substring |
| Replacing.ReplaceAllAt | StringTemplate.cpp:309-311 | the first occurrence is replaced, and the rest is processed after it |
| Keys.IterationKeyIff | StringTemplate.cpp:204 | the suffix test holds exactly for keys ending in `_999` and for three-character keys |
| Keys.IterationKeyIsLong | StringTemplate.cpp:204-205 | a key passing the suffix test has at least three characters, so `size() - 3` does not wrap |
| Keys.IterationKey | StringTemplate.cpp:205 | an iteration key becomes the key less its last three characters, followed by the iteration's digits |
| Keys.StaticKey | StringTemplate.cpp:201 | a static unit is its opener, then its key, then its close |
| Keys.LookupKey | StringTemplate.cpp:203-206 | an iteration key is turned into the key of the iteration, and any other key is used as it is |
| Keys.ConditionalKey | StringTemplate.cpp:240-247 | the key is the text from index 3 up to the first colon from there on, holds no colon, and is empty without a colon |
| Keys.ColonAfterOpener | StringTemplate.cpp:267 | searching a conditional unit for a colon from 0 or from 3 finds the same one |
| Keys.InnerShorter | StringTemplate.cpp:267-268 | the body of a conditional unit is shorter than the unit, so expanding it recursively terminates |
| Keys.ColonInside | StringTemplate.cpp:267 | the first colon of a conditional unit lies past the opener and before the close |
| Keys.InnerWithoutColon | StringTemplate.cpp:267-268 | without a colon, the body is the unit less its close |
| Keys.InnerWithColon | StringTemplate.cpp:267-268 | with a colon, the body is the text between the first colon and the close |
| Keys.InnerOfUnit | StringTemplate.cpp:264-268 | a conditional unit with a colon reads `-={` key `:` body `}=-` |
| Template.ProcessedSegmentsAppend | StringTemplate.cpp:180-189 | the output for two runs of segments is the output for the first, then for the second |
| Template.ProcessedSegmentsInOrder | StringTemplate.cpp:183-188 | the output is each segment processed on iteration 0, concatenated in order |
| Template.ProcessedOne | StringTemplate.cpp:184-185 | a single segment's output is that segment processed on iteration 0 |
| Template.PassThrough | StringTemplate.cpp:195-196 | a segment shorter than seven characters, or one not starting with an opener, comes out unchanged |
| Template.StaticUnit | StringTemplate.cpp:199-216 | a closed static unit becomes the map's value for its key, with an iteration key turned into the iteration's key, or nothing when the key is missing |
| Template.UnclosedUnit | StringTemplate.cpp:217-230 | a unit that does not end with its family's close is reported with its last three characters |
| Template.ConditionalUnit | StringTemplate.cpp:222-227 | a closed conditional unit is processed by the key `getConditionalKey` gives |
| Template.ConditionalUnitIsUnit | StringTemplate.cpp:221-226 | the segments processSegment hands to processConditionalSegment are exactly the conditional units of seven characters or more |
| Template.ConditionalAbsent | StringTemplate.cpp:252-262 | a conditional unit whose plain key is missing from the map disappears |
| Template.ConditionalPresent | StringTemplate.cpp:264-268 | a conditional unit whose plain key is in the map becomes its body, expanded as a template |
| Template.ConditionalWithoutColon | StringTemplate.cpp:267-268 | a conditional unit without a colon, once the empty key is in the map, becomes everything but its close, expanded |
| Template.CopiesFront | StringTemplate.cpp:283-286 | the copies of a repeating block are the first copy followed by the rest |
| Template.RepetitionsAreCopies | StringTemplate.cpp:272-293 | the repeating loop writes one expanded copy per iteration, up to the first iteration whose key is missing or up to 999 |
| Template.RepeatingUnit | StringTemplate.cpp:272-294 | a `_999` conditional unit needs no entry for its own key, and becomes the copies of its body for iterations 1 up to the first missing key |
| Template.PlainText | StringTemplate.cpp:38-43 | a template without openers comes out unchanged, except that a one-character template comes out empty |
| StringTemplate.ApplyReplacements | StringTemplate.cpp:38-43 | the method gives the segments of the template, processed in order |
| StringTemplate.ProcessSegments | StringTemplate.cpp:180-189 | the stream holds each segment's output on iteration 0, in order |
| StringTemplate.ProcessSegment | StringTemplate.cpp:191-236 | the method gives what the expansion rules say of one segment: short texts and texts without an opener unchanged, a static unit its value, a conditional unit its processed body, an unclosed unit a report |
| StringTemplate.ProcessConditionalSegment | StringTemplate.cpp:249-302 | the method drops the unit when its plain key is missing, expands the body once for a plain key, and repeats it for an iteration key |
| StringTemplate.ConditionalInner | StringTemplate.cpp:267-268 | for a conditional unit, the size_t arithmetic of the cut gives the text between the first colon and the close, or, without a colon, the unit less its close (npos + 1 wraps to 0) |
| StringTemplate.RepeatInner | StringTemplate.cpp:272-294 | the loop writes the copies of iterations 1 up to the first missing key, at most 999 of them |
| Examples.DocExampleSegments | StringTemplate.cpp:48-56 | the template in the comment above getSegments gives the five segments listed there |
| Examples.QuirkSegments | StringTemplate.cpp:68-69 | a template that opens with `-={` does not have that opener split off, since the search starts at index 1 |
| Examples.TopLevelIterationKey | StringTemplate.cpp:185 | a top-level `-=<K_999>=-` looks up `K_0`, since top-level segments are processed on iteration 0 |
| Examples.ThreeCharacterKey | StringTemplate.cpp:204-205 | `-=<KEY>=-` passes the suffix test and looks up `0` |
| Examples.IterationCopyOfUnit | StringTemplate.cpp:283-286 | iteration `n` turns the body `-=<K_999>=-` into `-=<K_n>=-` |
| Examples.RepeatedUnitLooksUpZero | StringTemplate.cpp:204-205 | the copy `-=<K_n>=-` of iterations 1 to 9, expanded as a template, looks up `0`, not `K_n` |
| Examples.ThreeCharacterConditional | StringTemplate.cpp:249-294 | `-={KEY:text}=-` is a repeating block over the keys `1`, `2`, ...: it expands to nothing without `1` in the map, whatever else the map holds, and to `text` with `1` but not `2` |
| Examples.QuirkHeadReported | StringTemplate.cpp:228-230 | the literal head `-={K_999:`, which starts with `-={` but does not end with `}=-`, is reported with its last three characters `99:` |
| Examples.NestedSegments | StringTemplate.cpp:64-127 | `-={K:-=<K>=-!}=-` splits into `-={K:`, `-=<K>=-` and `!}=-` |
| Examples.NestedExpansion | StringTemplate.cpp:38-43 | `-={K:-=<K>=-!}=-` expands to `-={K:`, then the value of `K` (or nothing), then `!}=-`, whatever else the map holds |
| Examples.QuirkExpansion | StringTemplate.cpp:38-43 | the whole expansion of `-={K_999:-=<K_999>=-}=-`: the reported head, the value of `K_0`, then `}=-` copied |
| Examples.AdjacentSegments | StringTemplate.cpp:64-127 | `-={K:-=<A>=--=<B>=-}=-` splits into `-={K:`, `-=<A>=-` and `-=<B>=-}=-`: the second static unit starts at the cursor and is not found |
| Examples.AdjacentExpansion | StringTemplate.cpp:38-43 | the expansion is `-={K:`, the value of `A` (or nothing), then the last segment reported as a static unit without a close; `}=-` is not copied |

## Left out

- Strings are byte strings: each Dafny char stands for one byte of the
  std::string, so lengths, the seven-character threshold, three-character
  keys and the three-character tail of a report count bytes. A UTF-8
  character of n bytes is n chars here; the model does not decode UTF-8.
- StringTemplate.h is not part of this model. The constructor and destructor
  do nothing.
- Exceptions are not modelled. `replacements.at(key)` throwing `out_of_range`
  is a test of map membership. `substr` throwing `out_of_range` cannot happen
  at any call site; the model's `requires` proves that.
- The `std::stringstream` of `processSegments` and the `+=` of
  `processConditionalSegment` are modelled as string concatenation.
- Line 148 assigns `startingPos + 1` to an `int`. The model keeps it as an
  unbounded `nat`, so templates longer than 2^31 characters are not modelled
  faithfully.
- Line 225 builds a string that line 226 overwrites straight away, so it is
  not modelled.
- Conditional units with several keys are not modelled; the code does not
  implement them either (lines 238-239).
- Keys.IterationKeyIff: requires the key to be shorter than 2^64 characters,
  as every std::string is, so that `size() - 4` wraps only for keys shorter
  than four characters.
- Keys.InnerWithoutColon: requires the unit to be shorter than 2^64
  characters, as every std::string is.
- Keys.InnerWithColon: requires the unit to be shorter than 2^64 characters,
  as every std::string is.
- Keys.InnerOfUnit: requires the unit to be shorter than 2^64 characters, as
  every std::string is.
- Template.ConditionalPresent: requires the unit to be shorter than 2^64
  characters, as every std::string is.
- Template.ConditionalWithoutColon: requires the unit to be shorter than 2^64
  characters, as every std::string is.
