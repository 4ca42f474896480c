/** The key rules of StringTemplate: the `_999` iteration marker, the key of a
    static unit, and the key and body of a conditional unit. */
module Keys {
  import opened CppString

  /** `key.rfind("_999") == key.size() - 4`, compared in size_t. A key of three
      characters passes too: it cannot hold the marker, so rfind gives npos, and
      `3 - 4` wraps around to npos. */
  predicate IsIterationKey(key: string)
  {
    match RFind(key, "_999")
    case None => SizeSub(|key|, 4) == NPOS
    case Some(p) => p == SizeSub(|key|, 4)
  }

  /** The suffix test holds exactly for keys ending in `_999` and for keys of
      three characters. */
  lemma IterationKeyIff(key: string)
    requires |key| < WORD
    ensures IsIterationKey(key) <==> |key| == 3 || (|key| >= 4 && key[|key| - 4..] == "_999")
  {
    var n := |key|;
    if n < 4 {
      assert SizeSub(n, 4) == WORD + n - 4;
    } else {
      OccursAtSlice(key, "_999", n - 4);
      assert key[n - 4..n] == key[n - 4..];
      match RFind(key, "_999")
      case None =>
      case Some(p) =>
        assert p + 4 <= n;
        assert OccursAt(key, "_999", n - 4) ==> p >= n - 4;
    }
  }

  /** An iteration key has at least three characters, whatever its length. */
  lemma IterationKeyIsLong(key: string)
    ensures IsIterationKey(key) ==> |key| >= 3
  {
    if |key| < 3 {
      assert SizeSub(|key|, 4) == WORD + |key| - 4;
    }
  }

  /** `key.substr(0, key.size() - 3)`: the key without the `999` of its marker. */
  function Stem(key: string): (r: string)
    ensures IsIterationKey(key) ==> r == key[..|key| - 3]
  {
    IterationKeyIsLong(key);
    Substr(key, 0, SizeSub(|key|, 3))
  }

  /** The key of iteration `n` of an iteration key: `KEY_999` becomes `KEY_n`,
      and a three-character key becomes just the digits of `n`. */
  function IterationKey(key: string, n: nat): (r: string)
    requires IsIterationKey(key)
    ensures r == key[..|key| - 3] + ToString(n)
  {
    Stem(key) + ToString(n)
  }

  /** The key a static unit looks up: between the three-character delimiters. */
  function StaticKey(segment: string): (r: string)
    requires |segment| >= 6
    ensures segment == segment[..3] + r + segment[|segment| - 3..]
  {
    Substr(segment, 3, |segment| - 6)
  }

  /** The key looked up on iteration `iteration`: an iteration key is turned
      into the key of that iteration, any other key is used as it is. */
  function LookupKey(key: string, iteration: nat): (r: string)
    ensures !IsIterationKey(key) ==> r == key
    ensures IsIterationKey(key) ==> r == key[..|key| - 3] + ToString(iteration)
  {
    if IsIterationKey(key) then IterationKey(key, iteration) else key
  }

  /** StringTemplate::getConditionalKey: the text from index 3 up to the first
      colon at or after index 3, or the empty key when there is no such colon.
      The key holds no colon itself. */
  function ConditionalKey(segment: string): (r: string)
    ensures Find(segment, ":", 3).None? ==> r == ""
    ensures Find(segment, ":", 3).Some? ==>
              var colon := Find(segment, ":", 3).value;
              && 3 <= colon < |segment| && segment[colon] == ':'
              && r == segment[3..colon]
              && forall i :: 0 <= i < |r| ==> r[i] != ':'
  {
    match Find(segment, ":", 3)
    case None => ""
    case Some(colon) =>
      FirstColon(segment, 3, colon);
      Substr(segment, 3, colon - 3)
  }

  /** The colon found from `from` is a colon, and none comes before it. */
  lemma FirstColon(segment: string, from: nat, colon: nat)
    requires Find(segment, ":", from) == Some(colon)
    ensures from <= colon < |segment| && segment[colon] == ':'
    ensures forall i :: from <= i < colon ==> segment[i] != ':'
  {
    FindMeetsContract(segment, ":", from);
    OccursAtSlice(segment, ":", colon);
    assert segment[colon..colon + 1] == [segment[colon]];
    forall i | from <= i < colon
      ensures segment[i] != ':'
    {
      OccursAtSlice(segment, ":", i);
      assert segment[i..i + 1] == [segment[i]];
    }
  }

  /** A segment that processSegment hands to processConditionalSegment: at
      least seven characters, opened by `-={` and closed by `}=-` (a
      conditional Segmenter.IsUnit, see Template.ConditionalUnitIsUnit). */
  predicate IsConditionalUnit(segment: string)
  {
    |segment| >= 7 && segment[..3] == "-={" && segment[|segment| - 3..] == "}=-"
  }

  /** `segment.substr(colonPos + 1, segment.size() - 4 - colonPos)` with
      `colonPos = segment.find(":", 0)`, all in size_t. Without a colon,
      colonPos is npos, `npos + 1` wraps to 0 and the count to
      `segment.size() - 3`. The method StringTemplate.ConditionalInner
      computes it step by step. */
  function Inner(segment: string): (r: string)
  {
    var colonPos := match Find(segment, ":", 0) case None => NPOS case Some(c) => c;
    var pos := SizeInc(colonPos);
    Substr(segment, pos, SizeSub(SizeSub(|segment|, 4), colonPos))
  }

  /** The body of a conditional unit is shorter than the unit. */
  lemma InnerShorter(segment: string)
    requires IsConditionalUnit(segment)
    ensures |Inner(segment)| < |segment|
  {
    var n := |segment|;
    assert segment[n - 3] == '}' && segment[n - 2] == '=' && segment[n - 1] == '-';
    match Find(segment, ":", 0)
    case None =>
    case Some(c) =>
      OccursAtSlice(segment, ":", c);
      assert segment[c..c + 1] == [segment[c]];
  }

  /** The colon search from index 0 finds what the search from index 3 finds:
      the opener holds no colon. */
  lemma ColonAfterOpener(segment: string)
    requires |segment| >= 3 && segment[..3] == "-={"
    ensures Find(segment, ":", 0) == Find(segment, ":", 3)
  {
    assert segment[0] == '-' && segment[1] == '=' && segment[2] == '{';
    assert !OccursAt(segment, ":", 0) && !OccursAt(segment, ":", 1) && !OccursAt(segment, ":", 2);
    assert Find(segment, ":", 0) == Find(segment, ":", 1) == Find(segment, ":", 2) == Find(segment, ":", 3);
  }

  /** Cutting a text at four ordered places and gluing the five pieces back. */
  lemma GlueFive(s: string, i: nat, j: nat, k: nat, l: nat)
    requires i <= j <= k <= l <= |s|
    ensures s == s[..i] + s[i..j] + s[j..k] + s[k..l] + s[l..]
  {
    assert s[..j] == s[..i] + s[i..j];
    assert s[..k] == s[..j] + s[j..k];
    assert s[..l] == s[..k] + s[k..l];
    assert s == s[..l] + s[l..];
  }

  /** Without a colon, the body is everything but the close. */
  lemma InnerWithoutColon(segment: string)
    requires IsConditionalUnit(segment) && |segment| < WORD && Find(segment, ":", 0).None?
    ensures Inner(segment) == segment[..|segment| - 3]
  {
    var n := |segment|;
    assert n - 4 < NPOS <= n - 4 + WORD;
    assert SizeSub(n - 4, NPOS) == n - 3;
  }

  /** With a colon, it lies past the opener and before the close, and the body
      is the text between the colon and the close. */
  lemma InnerWithColon(segment: string, c: nat)
    requires IsConditionalUnit(segment) && |segment| < WORD && Find(segment, ":", 0) == Some(c)
    ensures 3 <= c < |segment| - 3 && segment[c] == ':'
    ensures Inner(segment) == segment[c + 1..|segment| - 3]
  {
    var n := |segment|;
    ColonInside(segment, c);
    assert SizeSub(SizeSub(n, 4), c) == n - 4 - c;
    assert Inner(segment) == Substr(segment, c + 1, n - 4 - c);
  }

  /** The first colon of a conditional unit lies past the opener and before
      the close. */
  lemma ColonInside(segment: string, c: nat)
    requires IsConditionalUnit(segment) && Find(segment, ":", 0) == Some(c)
    ensures 3 <= c < |segment| - 3 && segment[c] == ':'
  {
    var n := |segment|;
    ColonAfterOpener(segment);
    OccursAtSlice(segment, ":", c);
    assert segment[c..c + 1] == [segment[c]];
    assert segment[n - 3] == '}' && segment[n - 2] == '=' && segment[n - 1] == '-';
  }

  /** The body of a conditional unit: with a colon, the text between the first
      colon and the close, so that the unit reads `-={` key `:` body `}=-`;
      without one, everything but the close. */
  lemma InnerOfUnit(segment: string)
    requires IsConditionalUnit(segment) && |segment| < WORD
    ensures Find(segment, ":", 0) == Find(segment, ":", 3)
    ensures Find(segment, ":", 0).None? ==> Inner(segment) == segment[..|segment| - 3]
    ensures Find(segment, ":", 0).Some? ==>
              segment == "-={" + ConditionalKey(segment) + ":" + Inner(segment) + "}=-"
  {
    var n := |segment|;
    ColonAfterOpener(segment);
    match Find(segment, ":", 0)
    case None =>
      InnerWithoutColon(segment);
    case Some(c) =>
      InnerWithColon(segment, c);
      GlueConditional(segment, c, ConditionalKey(segment), Inner(segment));
  }

  /** A conditional unit reassembled around its first colon `c`. */
  lemma GlueConditional(segment: string, c: nat, key: string, body: string)
    requires IsConditionalUnit(segment) && 3 <= c < |segment| - 3 && segment[c] == ':'
    requires key == segment[3..c] && body == segment[c + 1..|segment| - 3]
    ensures segment == "-={" + key + ":" + body + "}=-"
  {
    var n := |segment|;
    assert segment[c..c + 1] == ":";
    GlueFive(segment, 3, c, c + 1, n - 3);
  }
}
