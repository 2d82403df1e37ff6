/**
 * String helpers shared by the two scrapers: the character classes that
 * Python's `isdigit`, `isspace`, `\d` and `\s` stand for, substring search
 * (`in`), `str.strip()`, `str.split(sep)[-1]` and the value of a digit string.
 */
module Text {
  import opened Wrappers

  /** ASCII decimal digit (the model's reading of `isdigit()` and `\d`). */
  predicate IsDigit(c: char) { '0' <= c <= '9' }

  predicate IsUpper(c: char) { 'A' <= c <= 'Z' }

  predicate IsLower(c: char) { 'a' <= c <= 'z' }

  /** The characters for which Python's `str.isspace()` holds; `\s` and `strip()` use this set. */
  predicate IsSpace(c: char) {
    || c == ' '
    || ('\t' <= c <= '\r')
    || ('\U{1c}' <= c <= '\U{1f}')
    || c == '\U{85}' || c == '\U{a0}' || c == '\U{1680}'
    || ('\U{2000}' <= c <= '\U{200a}')
    || c == '\U{2028}' || c == '\U{2029}' || c == '\U{202f}' || c == '\U{205f}' || c == '\U{3000}'
  }

  predicate AllDigits(s: string) { forall i :: 0 <= i < |s| ==> IsDigit(s[i]) }

  /** `s` begins with `p` (Python's `s.startswith(p)`). */
  predicate StartsWith(s: string, p: string) { |p| <= |s| && s[..|p|] == p }

  /** `p` occurs in `s` at index `j`. */
  predicate OccursAt(s: string, p: string, j: int) {
    0 <= j && j + |p| <= |s| && s[j..j + |p|] == p
  }

  /** Leftmost index at or after `from` where `pat` occurs in `s`. */
  function FindFrom(s: string, pat: string, from: nat): (r: Option<nat>)
    requires from <= |s|
    ensures r.Some? ==> from <= r.value && OccursAt(s, pat, r.value)
    ensures r.Some? ==> forall j :: from <= j < r.value ==> !OccursAt(s, pat, j)
    ensures r.None? ==> forall j :: from <= j ==> !OccursAt(s, pat, j)
    decreases |s| - from
  {
    if from + |pat| > |s| then None
    else if s[from..from + |pat|] == pat then Some(from)
    else FindFrom(s, pat, from + 1)
  }

  /** Python's `pat in s`. */
  predicate Contains(s: string, pat: string) { FindFrom(s, pat, 0).Some? }

  lemma ContainsIff(s: string, pat: string)
    ensures Contains(s, pat) <==> exists j :: OccursAt(s, pat, j)
  {
    if Contains(s, pat) {
      assert OccursAt(s, pat, FindFrom(s, pat, 0).value);
    }
  }

  /** An occurrence inside a slice is an occurrence in the whole string. */
  lemma {:induction false} ContainsSlice(s: string, a: nat, b: nat, pat: string)
    requires a <= b <= |s|
    ensures Contains(s[a..b], pat) ==> Contains(s, pat)
  {
    if Contains(s[a..b], pat) {
      var t := s[a..b];
      var j := FindFrom(t, pat, 0).value;
      assert t[j..j + |pat|] == s[a + j..a + j + |pat|];
      assert OccursAt(s, pat, a + j);
      ContainsIff(s, pat);
    }
  }

  /** Python's `s.lstrip()`. */
  function LStrip(s: string): (r: string)
  {
    if |s| > 0 && IsSpace(s[0]) then LStrip(s[1..]) else s
  }

  /** Python's `s.rstrip()`. */
  function RStrip(s: string): (r: string)
  {
    if |s| > 0 && IsSpace(s[|s| - 1]) then RStrip(s[..|s| - 1]) else s
  }

  /** Python's `s.strip()`. */
  function Strip(s: string): string { RStrip(LStrip(s)) }

  /** The number of whitespace characters `s` begins with. */
  function LeadingSpaces(s: string): (k: nat)
    ensures k <= |s|
    ensures forall i :: 0 <= i < k ==> IsSpace(s[i])
    ensures k < |s| ==> !IsSpace(s[k])
  {
    if |s| > 0 && IsSpace(s[0]) then 1 + LeadingSpaces(s[1..]) else 0
  }

  /** The number of whitespace characters `s` ends with. */
  function TrailingSpaces(s: string): (k: nat)
    ensures k <= |s|
    ensures forall i :: |s| - k <= i < |s| ==> IsSpace(s[i])
    ensures k < |s| ==> !IsSpace(s[|s| - k - 1])
  {
    if |s| > 0 && IsSpace(s[|s| - 1]) then 1 + TrailingSpaces(s[..|s| - 1]) else 0
  }

  /** `LStrip` drops exactly the leading whitespace. */
  lemma {:induction false} LStripSpec(s: string)
    ensures LStrip(s) == s[LeadingSpaces(s)..]
  {
    if |s| > 0 && IsSpace(s[0]) {
      LStripSpec(s[1..]);
      assert s[1..][LeadingSpaces(s[1..])..] == s[1 + LeadingSpaces(s[1..])..];
    }
  }

  /** `RStrip` drops exactly the trailing whitespace. */
  lemma {:induction false} RStripSpec(s: string)
    ensures RStrip(s) == s[..|s| - TrailingSpaces(s)]
  {
    if |s| > 0 && IsSpace(s[|s| - 1]) {
      var s' := s[..|s| - 1];
      RStripSpec(s');
      assert s'[..|s'| - TrailingSpaces(s')] == s[..|s| - TrailingSpaces(s)];
    }
  }

  /** `Strip` keeps the slice between the leading and the trailing whitespace. */
  lemma {:induction false} StripSlice(s: string)
    ensures var a := LeadingSpaces(s); var b := |s| - TrailingSpaces(s[a..]);
      a <= b <= |s| && Strip(s) == s[a..b]
  {
    LStripSpec(s);
    var a := LeadingSpaces(s);
    var l := s[a..];
    RStripSpec(l);
    assert l[..|l| - TrailingSpaces(l)] == s[a..|s| - TrailingSpaces(l)];
  }

  /** What `Strip` keeps neither begins nor ends with whitespace. */
  lemma {:induction false} StripEnds(s: string)
    ensures Strip(s) == [] || (!IsSpace(Strip(s)[0]) && !IsSpace(Strip(s)[|Strip(s)| - 1]))
  {
    StripSlice(s);
    var a := LeadingSpaces(s);
    var l := s[a..];
    var k := |l| - TrailingSpaces(l);
    var r := Strip(s);
    if r != [] {
      assert r[0] == s[a];
      assert r[|r| - 1] == l[k - 1];
    }
  }

  /** `Strip` keeps a slice of its input that neither begins nor ends with whitespace. */
  lemma {:induction false} StripSpec(s: string)
    ensures var a := LeadingSpaces(s); var b := |s| - TrailingSpaces(s[a..]);
      a <= b <= |s| && Strip(s) == s[a..b]
    ensures Strip(s) == [] || (!IsSpace(Strip(s)[0]) && !IsSpace(Strip(s)[|Strip(s)| - 1]))
  {
    StripSlice(s);
    StripEnds(s);
  }

  /** The bounds of the slice `Strip` keeps. */
  lemma {:induction false} StripBounds(s: string) returns (a: nat, b: nat)
    ensures a <= b <= |s| && Strip(s) == s[a..b]
  {
    StripSlice(s);
    a := LeadingSpaces(s);
    b := |s| - TrailingSpaces(s[a..]);
  }

  /** Stripping creates no occurrence of a pattern that was not already there. */
  lemma {:induction false} StripContains(s: string, pat: string)
    ensures Contains(Strip(s), pat) ==> Contains(s, pat)
  {
    var a, b := StripBounds(s);
    ContainsSlice(s, a, b, pat);
  }

  /** Stripping a suffix of `s` leaves a slice of `s`. */
  lemma {:induction false} StripOfSuffix(s: string, n: nat)
    requires n <= |s|
    ensures exists a, b :: 0 <= a <= b <= |s| && Strip(s[|s| - n..]) == s[a..b]
  {
    var m := |s| - n;
    var a, b := StripBounds(s[m..]);
    assert s[m..][a..b] == s[m + a..m + b];
  }

  /** Python's `s.split(sep)[-1]`: the piece after the last separator found by a left-to-right scan. */
  function SplitLast(s: string, sep: string): string
    requires |sep| > 0
  {
    s[SplitStart(s, sep, 0)..]
  }

  /**
   * Where the last piece starts when `split` scans from `from`: each separator
   * found resumes the scan right after it.
   */
  function SplitStart(s: string, sep: string, from: nat): (e: nat)
    requires |sep| > 0 && from <= |s|
    ensures from <= e <= |s|
    decreases |s| - from
  {
    match FindFrom(s, sep, from)
    case None => from
    case Some(j) => SplitStart(s, sep, j + |sep|)
  }

  /** One step of the scan: the first separator from `from` is at `j`, and the scan resumes after it. */
  lemma SplitStartStep(s: string, sep: string, from: nat) returns (j: nat)
    requires |sep| > 0 && from <= |s| && FindFrom(s, sep, from).Some?
    ensures from <= j && j + |sep| <= |s| && OccursAt(s, sep, j)
    ensures SplitStart(s, sep, from) == SplitStart(s, sep, j + |sep|)
  {
    j := FindFrom(s, sep, from).value;
  }

  /** The scan moves forward exactly when a separator is found. */
  lemma SplitStartMoves(s: string, sep: string, from: nat)
    requires |sep| > 0 && from <= |s|
    ensures FindFrom(s, sep, from).None? <==> SplitStart(s, sep, from) == from
  {
    if FindFrom(s, sep, from).Some? {
      var j := SplitStartStep(s, sep, from);
    }
  }

  /** No separator is found from where the last piece starts. */
  lemma {:induction false} SplitStartNone(s: string, sep: string, from: nat)
    requires |sep| > 0 && from <= |s|
    ensures FindFrom(s, sep, SplitStart(s, sep, from)).None?
    decreases |s| - from
  {
    if FindFrom(s, sep, from).Some? {
      var j := SplitStartStep(s, sep, from);
      SplitStartNone(s, sep, j + |sep|);
    }
  }

  /** A scan that moved found a first separator at `j` and resumed right after it. */
  lemma {:induction false} SplitStartMovedStep(s: string, sep: string, from: nat) returns (j: nat)
    requires |sep| > 0 && from <= |s| && SplitStart(s, sep, from) != from
    ensures from <= j && j + |sep| <= |s| && OccursAt(s, sep, j)
    ensures SplitStart(s, sep, from) == SplitStart(s, sep, j + |sep|)
  {
    SplitStartMoves(s, sep, from);
    j := SplitStartStep(s, sep, from);
  }

  /** When the scan from `from` moved on to `e`, the last piece starts right after an occurrence `k` of the separator. */
  lemma {:induction false} SplitStartAfterSep(s: string, sep: string, from: nat, e: nat) returns (k: nat)
    requires |sep| > 0 && from <= |s| && e == SplitStart(s, sep, from) && e != from
    ensures from <= k && k + |sep| == e
    ensures OccursAt(s, sep, k)
    decreases |s| - from
  {
    var j := SplitStartMovedStep(s, sep, from);
    if e != j + |sep| {
      k := SplitStartAfterSep(s, sep, j + |sep|, e);
    } else {
      k := j;
    }
  }

  /** No occurrence found at or after `e` in `s` means no occurrence in `s[e..]`. */
  lemma {:induction false} NoneInSuffix(s: string, sep: string, e: nat)
    requires e <= |s| && FindFrom(s, sep, e).None?
    ensures !Contains(s[e..], sep)
  {
    if Contains(s[e..], sep) {
      var k := FindFrom(s[e..], sep, 0).value;
      OccursInSuffix(s, e, sep, k);
      assert false;
    }
  }

  /** An occurrence in a suffix is an occurrence in the whole string, shifted by where the suffix starts. */
  lemma {:induction false} OccursInSuffix(s: string, m: nat, p: string, k: int)
    requires m <= |s| && OccursAt(s[m..], p, k)
    ensures OccursAt(s, p, m + k)
  {
    assert s[m..][k..k + |p|] == s[m + k..m + k + |p|];
  }

  /** The last piece is a suffix of the input in which the separator no longer occurs. */
  lemma {:induction false} SplitLastSpec(s: string, sep: string)
    requires |sep| > 0
    ensures |SplitLast(s, sep)| <= |s| && SplitLast(s, sep) == s[|s| - |SplitLast(s, sep)|..]
    ensures !Contains(SplitLast(s, sep), sep)
    ensures !Contains(s, sep) ==> SplitLast(s, sep) == s
  {
    var e := SplitStart(s, sep, 0);
    SplitStartNone(s, sep, 0);
    NoneInSuffix(s, sep, e);
    if !Contains(s, sep) {
      SplitStartMoves(s, sep, 0);
      assert s[0..] == s;
    }
  }

  /** When the separator occurs, the last piece starts right after an occurrence of it. */
  lemma {:induction false} SplitLastAfterSep(s: string, sep: string)
    requires |sep| > 0 && Contains(s, sep)
    ensures |SplitLast(s, sep)| + |sep| <= |s|
    ensures OccursAt(s, sep, |s| - |SplitLast(s, sep)| - |sep|)
  {
    SplitStartMoves(s, sep, 0);
    var k := SplitStartAfterSep(s, sep, 0, SplitStart(s, sep, 0));
  }

  /** The value of a string of decimal digits (leading zeros allowed, as `float()` allows them). */
  function DigitsValue(s: string): int
  {
    if s == [] then 0 else DigitsValue(s[..|s| - 1]) * 10 + (s[|s| - 1] as int - '0' as int)
  }

  lemma {:induction false} DigitsValueNonNegative(s: string)
    requires AllDigits(s)
    ensures DigitsValue(s) >= 0
  {
    if s != [] {
      DigitsValueNonNegative(s[..|s| - 1]);
    }
  }

  function Pow10(n: nat): (r: nat)
    ensures r >= 1
  {
    if n == 0 then 1 else 10 * Pow10(n - 1)
  }
}
