/**
 * Strings as the script sees them, and `String.prototype.trim`.
 * `trim` removes, from both ends, the code points ECMAScript counts as
 * WhiteSpace or LineTerminator.
 */
module Text {

  /** The WhiteSpace and LineTerminator code points of ECMAScript (all in the Basic Multilingual Plane). */
  predicate IsJsWhitespace(c: char)
  {
    || c == '\t' || c == '\n' || c == '\U{000B}' || c == '\U{000C}' || c == '\r' || c == ' '
    || c == '\U{00A0}' || c == '\U{1680}' || ('\U{2000}' <= c <= '\U{200A}')
    || c == '\U{2028}' || c == '\U{2029}' || c == '\U{202F}' || c == '\U{205F}'
    || c == '\U{3000}' || c == '\U{FEFF}'
  }

  predicate AllWhitespace(s: string)
  {
    forall i :: 0 <= i < |s| ==> IsJsWhitespace(s[i])
  }

  /** `s` has no whitespace at either end, so `trim` leaves it as it is. */
  predicate IsTrimmed(s: string)
  {
    s == [] || (!IsJsWhitespace(s[0]) && !IsJsWhitespace(s[|s| - 1]))
  }

  /** Where `trim` cuts the front: the first position at or after `i` holding no whitespace, or `|s|`. */
  function StartOfText(s: string, i: nat): (a: nat)
    requires i <= |s|
    ensures i <= a <= |s|
    ensures forall k :: i <= k < a ==> IsJsWhitespace(s[k])
    ensures a == |s| || !IsJsWhitespace(s[a])
    decreases |s| - i
  {
    if i < |s| && IsJsWhitespace(s[i]) then StartOfText(s, i + 1) else i
  }

  /** Where `trim` cuts the back: the end of the last position before `j`, and not before `a`, holding no whitespace. */
  function EndOfText(s: string, a: nat, j: nat): (b: nat)
    requires a <= j <= |s|
    ensures a <= b <= j
    ensures forall k :: b <= k < j ==> IsJsWhitespace(s[k])
    ensures b == a || !IsJsWhitespace(s[b - 1])
    decreases j
  {
    if a < j && IsJsWhitespace(s[j - 1]) then EndOfText(s, a, j - 1) else j
  }

  /**
   * `s.trim()`: the middle of `s` left after removing whitespace at both ends.
   * The result is a contiguous piece of `s`, everything cut off is whitespace,
   * and the result itself neither starts nor ends with whitespace.
   */
  function Trim(s: string): (r: string)
    ensures exists a, b :: 0 <= a <= b <= |s| && r == s[a..b] && AllWhitespace(s[..a]) && AllWhitespace(s[b..])
    ensures IsTrimmed(r)
  {
    var a := StartOfText(s, 0);
    var b := EndOfText(s, a, |s|);
    assert AllWhitespace(s[..a]) && AllWhitespace(s[b..]);
    assert b > a ==> s[a..b][0] == s[a] && s[a..b][b - a - 1] == s[b - 1];
    s[a..b]
  }

  /** `trim` yields the empty string exactly when the input is all whitespace. */
  lemma TrimEmptyIff(s: string)
    ensures Trim(s) == [] <==> AllWhitespace(s)
  {
    var a := StartOfText(s, 0);
    var b := EndOfText(s, a, |s|);
    if a < |s| {
      assert !IsJsWhitespace(s[a]);
      assert a < b;
    }
  }

  /** A trimmed string is left alone by `trim`. */
  lemma TrimmedIsFixed(s: string)
    requires IsTrimmed(s)
    ensures Trim(s) == s
  {
    var a := StartOfText(s, 0);
    if s != [] {
      assert a == 0;
      assert EndOfText(s, 0, |s|) == |s|;
    }
    assert s[0..|s|] == s;
  }

  /** `trim` is idempotent. */
  lemma TrimIdempotent(s: string)
    ensures Trim(Trim(s)) == Trim(s)
  {
    TrimmedIsFixed(Trim(s));
  }
}
