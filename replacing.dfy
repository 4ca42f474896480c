/** StringTemplate::replaceAllOccurrences: plain, delimiter-blind substitution of
    one substring by another, used to turn `_999` into `_<iteration>` inside the
    body of a repeating block. */
module Replacing {
  import opened CppString

  /** `s` with every occurrence of `target` replaced by `replacement`, found left
      to right and never overlapping; inserted text is never searched again. */
  function ReplaceAll(s: string, target: string, replacement: string): (r: string)
    requires target != []
    decreases |s|
    ensures |replacement| <= |target| ==> |r| <= |s|
  {
    match Find(s, target, 0)
    case None => s
    case Some(i) => s[..i] + replacement + ReplaceAll(s[i + |target|..], target, replacement)
  }

  /** Without an occurrence of `target`, the text comes back unchanged. */
  lemma ReplaceAllUnchanged(s: string, target: string, replacement: string)
    requires target != []
    requires forall j :: !OccursAt(s, target, j)
    ensures ReplaceAll(s, target, replacement) == s
  {
    FindMeetsContract(s, target, 0);
  }

  /** How many replacements ReplaceAll makes. */
  function ReplacementCount(s: string, target: string): (r: nat)
    requires target != []
    decreases |s|
  {
    match Find(s, target, 0)
    case None => 0
    case Some(i) => 1 + ReplacementCount(s[i + |target|..], target)
  }

  /** Each of the k replacements changes the length by |replacement| - |target|. */
  lemma {:induction false} ReplaceAllLength(s: string, target: string, replacement: string)
    requires target != []
    ensures |ReplaceAll(s, target, replacement)| ==
            |s| + ReplacementCount(s, target) * (|replacement| - |target|)
    decreases |s|
  {
    match Find(s, target, 0)
    case None =>
    case Some(i) =>
      var rest := s[i + |target|..];
      ReplaceAllLength(rest, target, replacement);
      var k := ReplacementCount(rest, target);
      var d := |replacement| - |target|;
      assert |ReplaceAll(s, target, replacement)| == i + |replacement| + |ReplaceAll(rest, target, replacement)|;
      assert |rest| == |s| - i - |target|;
      assert ReplacementCount(s, target) == k + 1;
      MulSucc(k, d);
  }

  lemma MulSucc(k: int, d: int)
    ensures (k + 1) * d == k * d + d
  {
  }

  /** One step of ReplaceAll, at the first occurrence `i`. */
  lemma {:induction false} ReplaceAllAt(s: string, target: string, replacement: string, i: nat)
    requires target != [] && Find(s, target, 0) == Some(i)
    ensures ReplaceAll(s, target, replacement)
            == s[..i] + replacement + ReplaceAll(s[i + |target|..], target, replacement)
  {
  }

  /** An occurrence is replaced exactly once: replacing `target` in `target`
      itself gives `replacement`, even when `replacement` contains `target`. */
  lemma ReplaceAllNoRescan(target: string, replacement: string)
    requires target != []
    ensures ReplaceAll(target, target, replacement) == replacement
  {
    OccursAtSlice(target, target, 0);
    assert target[|target|..] == [];
  }

  /** ReplaceAll of a suffix, re-expressed at the occurrence `i` it starts with. */
  lemma {:induction false} ReplaceAllSuffixAt(copy: string, pos: nat, i: nat, target: string, replacement: string)
    requires target != [] && pos <= i && i + |target| <= |copy|
    requires Find(copy[pos..], target, 0) == Some(i - pos)
    ensures copy[..pos] + ReplaceAll(copy[pos..], target, replacement)
            == copy[..i] + replacement + ReplaceAll(copy[i + |target|..], target, replacement)
  {
    var tail := ReplaceAll(copy[i + |target|..], target, replacement);
    SuffixFirstStep(copy, pos, i, target, replacement, tail);
    JoinAround(copy, pos, i, replacement, tail);
  }

  /** The first step of ReplaceAll on `copy[pos..]`, in terms of `copy`. */
  lemma SuffixFirstStep(copy: string, pos: nat, i: nat, target: string, replacement: string, tail: string)
    requires target != [] && pos <= i && i + |target| <= |copy|
    requires Find(copy[pos..], target, 0) == Some(i - pos)
    requires tail == ReplaceAll(copy[i + |target|..], target, replacement)
    ensures ReplaceAll(copy[pos..], target, replacement) == copy[pos..i] + replacement + tail
  {
    var rest := copy[pos..];
    ReplaceAllAt(rest, target, replacement, i - pos);
    assert rest[i - pos + |target|..] == copy[i + |target|..];
    assert rest[..i - pos] == copy[pos..i];
  }

  lemma JoinAround(s: string, pos: nat, i: nat, x: string, y: string)
    requires pos <= i <= |s|
    ensures s[..pos] + (s[pos..i] + x + y) == s[..i] + x + y
  {
    PrefixJoin(s, pos, i);
  }

  /** Editing the copy at the occurrence found from `pos` on, and resuming the
      search after the inserted text, leaves the overall result unchanged. */
  lemma {:induction false} ReplaceInPlaceStep(copy: string, pos: nat, i: nat, target: string, replacement: string,
                                              next: string)
    requires target != [] && pos <= |copy| && Find(copy, target, pos) == Some(i)
    requires next == copy[..i] + replacement + copy[i + |target|..]
    ensures i + |replacement| <= |next|
    ensures next[..i + |replacement|] + ReplaceAll(next[i + |replacement|..], target, replacement)
            == copy[..pos] + ReplaceAll(copy[pos..], target, replacement)
  {
    FindShift(copy, target, pos, 0);
    ReplaceAllSuffixAt(copy, pos, i, target, replacement);
    assert next[..i + |replacement|] == copy[..i] + replacement;
    assert next[i + |replacement|..] == copy[i + |target|..];
  }

  /** Once nothing is found from `pos` on, the rest of the copy is final. */
  lemma {:induction false} ReplaceInPlaceDone(copy: string, pos: nat, target: string, replacement: string)
    requires target != [] && pos <= |copy| && Find(copy, target, pos) == None
    ensures copy[..pos] + ReplaceAll(copy[pos..], target, replacement) == copy
  {
    FindShift(copy, target, pos, 0);
    assert copy[..pos] + copy[pos..] == copy;
  }

  /** The in-place loop of replaceAllOccurrences: the copy is edited at each
      occurrence found, and the search resumes just past the inserted text. */
  method ReplaceAllOccurrences(segment: string, oldSubstring: string, newSubstring: string)
    returns (segmentCopy: string)
    requires oldSubstring != []
    ensures segmentCopy == ReplaceAll(segment, oldSubstring, newSubstring)
  {
    segmentCopy := segment;
    var pos: nat := 0;
    var found := FindFirst(segmentCopy, oldSubstring, pos);
    FindContractUnique(segmentCopy, oldSubstring, pos, found);
    while found.Some?
      invariant pos <= |segmentCopy|
      invariant found == Find(segmentCopy, oldSubstring, pos)
      invariant segmentCopy[..pos] + ReplaceAll(segmentCopy[pos..], oldSubstring, newSubstring)
                == ReplaceAll(segment, oldSubstring, newSubstring)
      decreases |segmentCopy| - pos
    {
      var i := found.value;
      var next := segmentCopy[..i] + newSubstring + segmentCopy[i + |oldSubstring|..];
      ReplaceInPlaceStep(segmentCopy, pos, i, oldSubstring, newSubstring, next);
      segmentCopy := next;
      pos := i + |newSubstring|;
      found := FindFirst(segmentCopy, oldSubstring, pos);
      FindContractUnique(segmentCopy, oldSubstring, pos, found);
    }
    ReplaceInPlaceDone(segmentCopy, pos, oldSubstring, newSubstring);
  }
}
