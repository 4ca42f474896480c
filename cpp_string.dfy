/** The parts of the C++ standard library that StringTemplate.cpp relies on,
    stated over Dafny strings: std::string::find and rfind, std::string::substr,
    std::to_string, and the wrap-around of size_t arithmetic. A string is a
    byte string: each char stands for one byte of the std::string, so every
    length and index counts bytes. */
module CppString {

  datatype Option<T> = None | Some(value: T)

  /** size_t arithmetic is modulo 2^64. */
  const WORD: nat := 0x1_0000_0000_0000_0000

  /** std::string::npos, the largest size_t. */
  const NPOS: nat := WORD - 1

  /** `a - b` evaluated in size_t: a negative difference wraps around modulo
      2^64. Lengths and positions are sizes, so a difference that is not
      negative is taken as it is. */
  function SizeSub(a: nat, b: nat): (r: nat)
    ensures b <= a ==> r == a - b
    ensures a < b <= a + WORD ==> r == WORD + a - b
  {
    if b <= a then a - b else (a - b) % WORD
  }

  /** `a + 1` evaluated in size_t: npos + 1 wraps around to 0. Positions
      are below npos, so any other size is simply incremented. */
  function SizeInc(a: nat): (r: nat)
    ensures a < NPOS ==> r == a + 1
    ensures a == NPOS ==> r == 0
  {
    if a == NPOS then 0 else a + 1
  }

  /** `pat` occurs in `s` starting at index `i`, compared character by character. */
  predicate OccursAt(s: string, pat: string, i: nat)
    decreases |pat|
    ensures OccursAt(s, pat, i) ==> i + |pat| <= |s|
  {
    if pat == [] then i <= |s| else i < |s| && s[i] == pat[0] && OccursAt(s, pat[1..], i + 1)
  }

  /** OccursAt is the comparison of a slice of `s` with `pat`. */
  lemma {:induction false} OccursAtSlice(s: string, pat: string, i: nat)
    ensures OccursAt(s, pat, i) <==> i + |pat| <= |s| && s[i..i + |pat|] == pat
    decreases |pat|
  {
    if pat != [] && i < |s| {
      OccursAtSlice(s, pat[1..], i + 1);
      if i + |pat| <= |s| {
        assert s[i..i + |pat|] == [s[i]] + s[i + 1..i + |pat|];
        assert pat == [pat[0]] + pat[1..];
      }
    }
  }

  /** std::string::find(pat, from): the first index at or after `from` where
      `pat` starts, or None for npos. */
  function Find(s: string, pat: string, from: nat): (r: Option<nat>)
    decreases |s| - from
    ensures r.Some? ==> from <= r.value && OccursAt(s, pat, r.value)
  {
    if from + |pat| > |s| then None
    else if OccursAt(s, pat, from) then Some(from)
    else Find(s, pat, from + 1)
  }

  /** What std::string::find(pat, from) promises of its result `r`: the first
      index at or after `from` where `pat` starts, or npos when there is none. */
  ghost predicate IsFindResult(s: string, pat: string, from: nat, r: Option<nat>)
  {
    match r
    case Some(i) => from <= i && OccursAt(s, pat, i) && forall j :: from <= j < i ==> !OccursAt(s, pat, j)
    case None => forall j :: from <= j ==> !OccursAt(s, pat, j)
  }

  /** Find keeps that promise. */
  lemma {:induction false} FindMeetsContract(s: string, pat: string, from: nat)
    ensures IsFindResult(s, pat, from, Find(s, pat, from))
    decreases |s| - from
  {
    if from + |pat| <= |s| && !OccursAt(s, pat, from) {
      FindMeetsContract(s, pat, from + 1);
    }
  }

  /** The promise leaves no choice: whatever keeps it is Find's result. */
  lemma FindContractUnique(s: string, pat: string, from: nat, r: Option<nat>)
    requires IsFindResult(s, pat, from, r)
    ensures r == Find(s, pat, from)
  {
    FindMeetsContract(s, pat, from);
  }

  /** A call of std::string::find from the imperative code. */
  method FindFirst(s: string, pat: string, from: nat) returns (r: Option<nat>)
    ensures IsFindResult(s, pat, from, r)
  {
    r := Find(s, pat, from);
    FindMeetsContract(s, pat, from);
  }

  /** Searching a suffix of `s` finds the same occurrence, shifted. */
  lemma {:induction false} FindShift(s: string, pat: string, from: nat, k: nat)
    requires from <= |s|
    ensures Find(s, pat, from + k).None? ==> Find(s[from..], pat, k).None?
    ensures Find(s, pat, from + k).Some? ==>
              Find(s[from..], pat, k) == Some(Find(s, pat, from + k).value - from)
    decreases |s| - from - k
  {
    var t := s[from..];
    if k + |pat| <= |t| {
      OccursAtSlice(t, pat, k);
      OccursAtSlice(s, pat, from + k);
      assert t[k..k + |pat|] == s[from + k..from + k + |pat|];
      if !OccursAt(s, pat, from + k) {
        FindShift(s, pat, from, k + 1);
      }
    }
  }

  /** The last index at or below `k` where `pat` starts. */
  function RFindAtOrBelow(s: string, pat: string, k: nat): (r: Option<nat>)
    decreases k
    ensures r.Some? ==> r.value <= k && OccursAt(s, pat, r.value)
    ensures r.Some? ==> forall j :: r.value < j <= k ==> !OccursAt(s, pat, j)
    ensures r.None? ==> forall j: nat :: j <= k ==> !OccursAt(s, pat, j)
  {
    if OccursAt(s, pat, k) then Some(k)
    else if k == 0 then None
    else RFindAtOrBelow(s, pat, k - 1)
  }

  /** std::string::rfind(pat): the last index where `pat` starts, or None for npos. */
  function RFind(s: string, pat: string): (r: Option<nat>)
    ensures r.Some? ==> OccursAt(s, pat, r.value)
    ensures r.Some? ==> forall j :: r.value < j ==> !OccursAt(s, pat, j)
    ensures r.None? ==> forall j :: !OccursAt(s, pat, j)
  {
    RFindAtOrBelow(s, pat, |s|)
  }

  /** Concatenation is associative; stated once so that proofs can regroup. */
  lemma AppendAssoc<T>(a: seq<T>, b: seq<T>, c: seq<T>)
    ensures a + (b + c) == (a + b) + c
  {
  }

  /** The pieces written one after the other, as into a std::stringstream. */
  function Concat(parts: seq<string>): (r: string)
    ensures |parts| == 1 ==> r == parts[0]
  {
    if parts == [] then [] else Concat(parts[..|parts| - 1]) + parts[|parts| - 1]
  }

  /** Writing one more piece appends it. */
  lemma ConcatPush(parts: seq<string>, x: string)
    ensures Concat(parts + [x]) == Concat(parts) + x
  {
    assert (parts + [x])[..|parts|] == parts;
  }

  /** Every piece is written in full, so none is longer than the whole. */
  lemma {:induction false} PartWithinConcat(parts: seq<string>, i: nat)
    requires i < |parts|
    ensures |parts[i]| <= |Concat(parts)|
    decreases |parts|
  {
    if i < |parts| - 1 {
      PartWithinConcat(parts[..|parts| - 1], i);
    }
  }

  /** Writing a piece in front prepends it. */
  lemma {:induction false} ConcatFront(x: string, parts: seq<string>)
    ensures Concat([x] + parts) == x + Concat(parts)
    decreases |parts|
  {
    if parts != [] {
      var init := parts[..|parts| - 1];
      ConcatFront(x, init);
      assert ([x] + parts)[..|parts|] == [x] + init;
    }
  }

  /** A prefix is a shorter prefix followed by the slice between them. */
  lemma PrefixJoin<T>(s: seq<T>, i: nat, j: nat)
    requires i <= j <= |s|
    ensures s[..j] == s[..i] + s[i..j]
  {
  }

  /** std::string::substr(pos, len): at most `len` characters from `pos` on.
      A `pos` past the end throws std::out_of_range, which no caller here reaches. */
  function Substr(s: string, pos: nat, len: nat): (r: string)
    requires pos <= |s|
    ensures pos + len <= |s| ==> r == s[pos..pos + len]
    ensures |s| < pos + len ==> r == s[pos..]
  {
    if pos + len <= |s| then s[pos..pos + len] else s[pos..]
  }

  function DigitChar(d: nat): (c: char)
    requires d < 10
  {
    "0123456789"[d]
  }

  predicate IsDigit(c: char)
  {
    '0' <= c <= '9'
  }

  function DigitValue(c: char): (r: nat)
    requires IsDigit(c)
  {
    c as int - '0' as int
  }

  /** std::to_string of a non-negative number: its decimal digits. */
  function ToString(n: nat): (r: string)
    ensures |r| >= 1 && forall i :: 0 <= i < |r| ==> IsDigit(r[i])
    ensures n < 10 ==> |r| == 1
    ensures n < 100 ==> |r| <= 2
    ensures n < 1000 ==> |r| <= 3
    ensures r[0] == '0' <==> n == 0
  {
    if n < 10 then [DigitChar(n)] else ToString(n / 10) + [DigitChar(n % 10)]
  }

  /** Reads a string of decimal digits back as a number (the inverse of ToString). */
  function ParseDecimal(s: string): (r: nat)
    requires forall i :: 0 <= i < |s| ==> IsDigit(s[i])
  {
    if s == [] then 0
    else ParseDecimal(s[..|s| - 1]) * 10 + DigitValue(s[|s| - 1])
  }

  /** ToString loses nothing: its digits read back as the number. */
  lemma {:induction false} ParseToString(n: nat)
    ensures ParseDecimal(ToString(n)) == n
  {
    var r := ToString(n);
    if n >= 10 {
      ParseToString(n / 10);
      assert r[..|r| - 1] == ToString(n / 10);
      assert r[|r| - 1] == DigitChar(n % 10);
    }
    assert DigitValue(DigitChar(n % 10)) == n % 10;
  }

  /** Distinct numbers have distinct decimal strings. */
  lemma ToStringInjective(a: nat, b: nat)
    ensures ToString(a) == ToString(b) ==> a == b
  {
    ParseToString(a);
    ParseToString(b);
  }
}
