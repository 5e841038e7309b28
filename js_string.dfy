/**
 * The two JavaScript string operations the asset registries apply to their
 * keys: `toLowerCase` (on the ASCII letters) and `trim`.
 */
module JsString {

  /** True for an upper-case ASCII letter. */
  predicate IsUpper(c: char) {
    'A' <= c <= 'Z'
  }

  /** The lower-case form of one character. */
  function LowerChar(c: char): (r: char)
    ensures !IsUpper(r)
    ensures !IsUpper(c) ==> r == c
  {
    if IsUpper(c) then (c as int + 32) as char else c
  }

  /** A string with no upper-case letter, as toLowerCase returns. */
  predicate IsLower(s: string) {
    forall i :: 0 <= i < |s| ==> !IsUpper(s[i])
  }

  /** `s.toLowerCase()`: every letter lower-cased, nothing else changed. */
  function ToLower(s: string): (r: string)
    ensures |r| == |s| && IsLower(r)
    ensures forall i :: 0 <= i < |s| ==> r[i] == LowerChar(s[i])
  {
    seq(|s|, i requires 0 <= i < |s| => LowerChar(s[i]))
  }

  /** Lower-casing a lower-case string changes nothing. */
  lemma ToLowerOfLower(s: string)
    requires IsLower(s)
    ensures ToLower(s) == s
  {
    assert forall i :: 0 <= i < |s| ==> ToLower(s)[i] == s[i];
  }

  /** Lower-casing twice is lower-casing once. */
  lemma ToLowerIdempotent(s: string)
    ensures ToLower(ToLower(s)) == ToLower(s)
  {
    ToLowerOfLower(ToLower(s));
  }

  /** The white space and line terminators `trim` removes. */
  predicate IsJsWhitespace(c: char) {
    var n := c as int;
    (0x09 <= n <= 0x0D) || n == 0x20 || n == 0xA0 || n == 0x1680
    || (0x2000 <= n <= 0x200A) || n == 0x2028 || n == 0x2029 || n == 0x202F
    || n == 0x205F || n == 0x3000 || n == 0xFEFF
  }

  /** Every character of s in [from, to) is white space. */
  predicate WhitespaceBetween(s: string, from: nat, to: nat)
    requires from <= to <= |s|
  {
    forall k :: from <= k < to ==> IsJsWhitespace(s[k])
  }

  /** The end of the run of white space that starts at i. */
  function SpaceRunFrom(s: string, i: nat): (j: nat)
    requires i <= |s|
    ensures i <= j <= |s| && WhitespaceBetween(s, i, j)
    ensures j < |s| ==> !IsJsWhitespace(s[j])
    decreases |s| - i
  {
    if i == |s| || !IsJsWhitespace(s[i]) then i else SpaceRunFrom(s, i + 1)
  }

  /** The start of the run of white space that ends at j. */
  function SpaceRunBefore(s: string, j: nat): (i: nat)
    requires j <= |s|
    ensures i <= j && WhitespaceBetween(s, i, j)
    ensures 0 < i ==> !IsJsWhitespace(s[i - 1])
  {
    if j == 0 || !IsJsWhitespace(s[j - 1]) then j else SpaceRunBefore(s, j - 1)
  }

  /**
   * Where `trim` cuts s: before the first and after the last character that
   * is not white space, or to nothing when s is all white space.
   */
  function TrimBounds(s: string): (b: (nat, nat))
    ensures b.0 <= b.1 <= |s| && WhitespaceBetween(s, 0, b.0) && WhitespaceBetween(s, b.1, |s|)
    ensures b.0 < b.1 ==> !IsJsWhitespace(s[b.0]) && !IsJsWhitespace(s[b.1 - 1])
  {
    var a := SpaceRunFrom(s, 0);
    if a == |s| then (a, a) else (a, SpaceRunBefore(s, |s|))
  }

  /**
   * `s.trim()`: s without its leading and trailing white space; only white
   * space is cut, and the result neither starts nor ends with white space.
   */
  function Trim(s: string): (r: string)
    ensures var b := TrimBounds(s);
      r == s[b.0..b.1] && WhitespaceBetween(s, 0, b.0) && WhitespaceBetween(s, b.1, |s|)
    ensures r != [] ==> !IsJsWhitespace(r[0]) && !IsJsWhitespace(r[|r| - 1])
  {
    var b := TrimBounds(s);
    s[b.0..b.1]
  }

  lemma {:induction false} RunFromStops(s: string, i: nat, j: nat)
    requires i <= j < |s| && WhitespaceBetween(s, i, j) && !IsJsWhitespace(s[j])
    ensures SpaceRunFrom(s, i) == j
    decreases j - i
  {
    if i < j {
      RunFromStops(s, i + 1, j);
    }
  }

  lemma {:induction false} RunBeforeStops(s: string, i: nat, j: nat)
    requires 0 < i <= j <= |s| && WhitespaceBetween(s, i, j) && !IsJsWhitespace(s[i - 1])
    ensures SpaceRunBefore(s, j) == i
    decreases j - i
  {
    if i < j {
      RunBeforeStops(s, i, j - 1);
    }
  }

  /** A string that has no white space at either end is its own trim. */
  lemma TrimOfTrimmed(s: string)
    requires s != [] ==> !IsJsWhitespace(s[0]) && !IsJsWhitespace(s[|s| - 1])
    ensures Trim(s) == s
  {
    if s != [] {
      RunFromStops(s, 0, 0);
      RunBeforeStops(s, |s|, |s|);
    }
  }

  /** Trimming twice is trimming once. */
  lemma TrimIdempotent(s: string)
    ensures Trim(Trim(s)) == Trim(s)
  {
    TrimOfTrimmed(Trim(s));
  }

  /** Trimming cuts exactly the white space around a word that does not start or end with white space. */
  lemma TrimPadded(s: string, from: nat, to: nat)
    requires from < to <= |s| && WhitespaceBetween(s, 0, from) && WhitespaceBetween(s, to, |s|)
    requires !IsJsWhitespace(s[from]) && !IsJsWhitespace(s[to - 1])
    ensures Trim(s) == s[from..to]
  {
    RunFromStops(s, 0, from);
    RunBeforeStops(s, to, |s|);
  }

  /** Lower-casing keeps white space white space and everything else not. */
  lemma LowerCharKeepsWhitespace(c: char)
    ensures IsJsWhitespace(LowerChar(c)) <==> IsJsWhitespace(c)
  {}

  /** Two strings with white space at the same positions. */
  predicate SameSpacing(s: string, l: string) {
    |l| == |s| && forall k :: 0 <= k < |s| ==> (IsJsWhitespace(l[k]) <==> IsJsWhitespace(s[k]))
  }

  lemma {:induction false} RunFromOfSameSpacing(s: string, l: string, i: nat)
    requires SameSpacing(s, l) && i <= |s|
    ensures SpaceRunFrom(s, i) == SpaceRunFrom(l, i)
    decreases |s| - i
  {
    if i < |s| && IsJsWhitespace(s[i]) {
      RunFromOfSameSpacing(s, l, i + 1);
    }
  }

  lemma {:induction false} RunBeforeOfSameSpacing(s: string, l: string, j: nat)
    requires SameSpacing(s, l) && j <= |s|
    ensures SpaceRunBefore(s, j) == SpaceRunBefore(l, j)
  {
    if 0 < j && IsJsWhitespace(s[j - 1]) {
      RunBeforeOfSameSpacing(s, l, j - 1);
    }
  }

  /** Lower-casing leaves the white space where it was. */
  lemma LowerSameSpacing(s: string)
    ensures SameSpacing(s, ToLower(s))
  {
    forall k | 0 <= k < |s|
      ensures IsJsWhitespace(ToLower(s)[k]) <==> IsJsWhitespace(s[k])
    {
      LowerCharKeepsWhitespace(s[k]);
    }
  }

  /** Lower-casing a slice is slicing the lower-cased string. */
  lemma ToLowerSlice(s: string, from: nat, to: nat)
    requires from <= to <= |s|
    ensures ToLower(s[from..to]) == ToLower(s)[from..to]
  {
    assert forall k :: 0 <= k < to - from ==> ToLower(s[from..to])[k] == ToLower(s)[from..to][k];
  }

  /** Lower-casing and trimming commute. */
  lemma LowerTrimCommute(s: string)
    ensures Trim(ToLower(s)) == ToLower(Trim(s))
  {
    var l := ToLower(s);
    LowerSameSpacing(s);
    RunFromOfSameSpacing(s, l, 0);
    RunBeforeOfSameSpacing(s, l, |s|);
    var b := TrimBounds(s);
    ToLowerSlice(s, b.0, b.1);
  }
}
