/**
 * The three JavaScript string operations the components rely on:
 * `trim` (to reject blank chat input), `toLowerCase` (to match keywords
 * regardless of case) and `includes` (substring search).
 * Lower-casing is modelled over ASCII letters only.
 */
module Text {

  /** The code points ECMAScript's `trim` strips: its WhiteSpace and LineTerminator characters. */
  predicate IsWhitespace(c: char) {
    || c == '\t' || c == '\n' || c == '\U{000B}' || c == '\U{000C}' || c == '\r'
    || c == ' ' || c == '\U{00A0}' || c == '\U{1680}'
    || ('\U{2000}' <= c <= '\U{200A}')
    || c == '\U{2028}' || c == '\U{2029}' || c == '\U{202F}' || c == '\U{205F}'
    || c == '\U{3000}' || c == '\U{FEFF}'
  }

  /** Every character of `s` is whitespace; the empty string is blank. */
  ghost predicate IsBlank(s: string) {
    forall i :: 0 <= i < |s| ==> IsWhitespace(s[i])
  }

  /** Length of the longest all-whitespace prefix of `s`. */
  function LeadingSpace(s: string): (k: nat)
    ensures k <= |s|
    ensures IsBlank(s[..k])
    ensures k < |s| ==> !IsWhitespace(s[k])
  {
    if |s| == 0 || !IsWhitespace(s[0]) then 0
    else
      var k' := LeadingSpace(s[1..]);
      assert s[..1 + k'] == [s[0]] + s[1..][..k'];
      1 + k'
  }

  /** Length of the longest all-whitespace suffix of `s`. */
  function TrailingSpace(s: string): (k: nat)
    ensures k <= |s|
    ensures IsBlank(s[|s| - k..])
    ensures k < |s| ==> !IsWhitespace(s[|s| - 1 - k])
  {
    if |s| == 0 || !IsWhitespace(s[|s| - 1]) then 0
    else
      var init := s[..|s| - 1];
      var k' := TrailingSpace(init);
      assert s[|s| - (1 + k')..] == init[|init| - k'..] + [s[|s| - 1]];
      1 + k'
  }

  /**
   * `trim`: `s` without its leading and trailing whitespace. The result is
   * what remains after cutting a blank prefix and a blank suffix, it neither
   * starts nor ends with whitespace, and it is empty exactly when `s` is blank.
   */
  function Trim(s: string): (r: string)
    ensures exists a, b :: 0 <= a <= b <= |s| && r == s[a..b] && IsBlank(s[..a]) && IsBlank(s[b..])
    ensures r == [] || (!IsWhitespace(r[0]) && !IsWhitespace(r[|r| - 1]))
    ensures r == [] <==> IsBlank(s)
  {
    var a := LeadingSpace(s);
    var rest := s[a..];
    var t := TrailingSpace(rest);
    var b := a + |rest| - t;
    assert rest[..|rest| - t] == s[a..b];
    assert rest[|rest| - t..] == s[b..];
    LeadingSpaceCoversBlank(s);
    rest[..|rest| - t]
  }

  /** The whitespace prefix is the whole string exactly when the string is blank. */
  lemma LeadingSpaceCoversBlank(s: string)
    ensures LeadingSpace(s) == |s| <==> IsBlank(s)
  {
    if LeadingSpace(s) == |s| {
      assert s[..|s|] == s;
    }
  }

  /** ASCII `toLowerCase` of one character. */
  function LowerChar(c: char): char {
    if 'A' <= c <= 'Z' then (c as int + 32) as char else c
  }

  /** `toLowerCase` over ASCII: every upper-case letter replaced by its lower-case form, position by position. */
  function ToLower(s: string): (r: string)
    ensures |r| == |s|
    ensures forall i :: 0 <= i < |s| ==> r[i] == LowerChar(s[i])
  {
    if s == [] then [] else [LowerChar(s[0])] + ToLower(s[1..])
  }

  /** `upper` is an ASCII capital and `lower` is the same letter in lower case. */
  predicate IsCasePair(upper: char, lower: char) {
    'A' <= upper <= 'Z' && lower as int == upper as int + 32
  }

  /** Two strings that spell the same text up to the case of ASCII letters. */
  predicate SameIgnoringCase(a: string, b: string) {
    && |a| == |b|
    && forall i :: 0 <= i < |a| ==> a[i] == b[i] || IsCasePair(a[i], b[i]) || IsCasePair(b[i], a[i])
  }

  /** Lower-casing erases exactly the differences `SameIgnoringCase` allows. */
  lemma ToLowerIgnoresCase(a: string, b: string)
    requires SameIgnoringCase(a, b)
    ensures ToLower(a) == ToLower(b)
  {
  }

  /** Every string is a case variant of its lower-cased form. */
  lemma ToLowerIsCaseVariant(s: string)
    ensures SameIgnoringCase(s, ToLower(s))
  {
  }

  /** Lower-casing twice is lower-casing once. */
  lemma ToLowerIdempotent(s: string)
    ensures ToLower(ToLower(s)) == ToLower(s)
  {
  }

  /** `k` starts `s`. */
  predicate StartsWith(s: string, k: string) {
    |k| <= |s| && s[..|k|] == k
  }

  /** `k` occurs in `s` starting at position `i`. */
  ghost predicate OccursAt(s: string, k: string, i: int) {
    0 <= i && i + |k| <= |s| && s[i..i + |k|] == k
  }

  /**
   * `includes`: whether `k` starts `s` or any suffix of it. The empty
   * string is found everywhere, a prefix is found, and nothing longer than
   * `s` is.
   */
  predicate Contains(s: string, k: string)
    ensures k == [] || StartsWith(s, k) ==> Contains(s, k)
    ensures Contains(s, k) ==> |k| <= |s|
    decreases |s|
  {
    StartsWith(s, k) || (s != [] && Contains(s[1..], k))
  }

  /** `Contains` is substring search: it holds exactly when `k` occurs somewhere in `s`. */
  lemma {:induction false} ContainsIffOccurs(s: string, k: string)
    ensures Contains(s, k) <==> exists i :: OccursAt(s, k, i)
    decreases |s|
  {
    if |k| <= |s| {
      assert s[0..|k|] == s[..|k|];
    }
    if StartsWith(s, k) {
      assert OccursAt(s, k, 0);
    }
    if s != [] {
      ContainsIffOccurs(s[1..], k);
      if Contains(s[1..], k) {
        var i :| OccursAt(s[1..], k, i);
        assert s[1..][i..i + |k|] == s[i + 1..i + 1 + |k|];
        assert OccursAt(s, k, i + 1);
      }
      if exists i :: OccursAt(s, k, i) {
        var i :| OccursAt(s, k, i);
        if i >= 1 {
          assert s[1..][i - 1..i - 1 + |k|] == s[i..i + |k|];
          assert OccursAt(s[1..], k, i - 1);
        }
      }
    }
  }
}
