/**
 * `getWorkId`: the work id read off the page path with the regular
 * expression `/\/works\/(\d+)/`. The expression is unanchored, so its match
 * starts at the leftmost position where "/works/" is directly followed by a
 * digit, and the greedy `\d+` captures the whole digit run there. `\d` is
 * the ASCII digits only.
 */
module WorkId {
  import opened Wrappers

  const Prefix: string := "/works/"

  predicate IsDigit(c: char)
  {
    '0' <= c <= '9'
  }

  predicate AllDigits(s: string)
  {
    forall i :: 0 <= i < |s| ==> IsDigit(s[i])
  }

  /** The regular expression can start a match at position `i` of `path`. */
  predicate MatchesAt(path: string, i: int)
  {
    0 <= i && i + |Prefix| < |path| && path[i..i + |Prefix|] == Prefix && IsDigit(path[i + |Prefix|])
  }

  /**
   * `d` is what the capture group holds when the match is taken at `i`:
   * `i` is the leftmost match position and `d` the maximal digit run after "/works/".
   */
  ghost predicate CapturedAt(path: string, i: int, d: string)
  {
    && MatchesAt(path, i)
    && (forall k :: 0 <= k < i ==> !MatchesAt(path, k))
    && d != [] && AllDigits(d)
    && i + |Prefix| + |d| <= |path|
    && path[i + |Prefix|..i + |Prefix| + |d|] == d
    && (i + |Prefix| + |d| == |path| || !IsDigit(path[i + |Prefix| + |d|]))
  }

  /** Length of the run of digits that starts at `j`. */
  function DigitRun(s: string, j: nat): (n: nat)
    requires j <= |s|
    ensures j + n <= |s| && AllDigits(s[j..j + n])
    ensures j + n == |s| || !IsDigit(s[j + n])
    decreases |s| - j
  {
    if j < |s| && IsDigit(s[j]) then
      var n := 1 + DigitRun(s, j + 1);
      assert s[j..j + n] == [s[j]] + s[j + 1..j + n];
      n
    else 0
  }

  /** The first position at or after `from` where a match can start. */
  function FirstMatch(path: string, from: nat): (r: Option<nat>)
    requires from <= |path|
    ensures r.Some? ==> from <= r.value && MatchesAt(path, r.value)
    ensures r.Some? ==> forall k :: from <= k < r.value ==> !MatchesAt(path, k)
    ensures r.None? ==> forall k :: from <= k ==> !MatchesAt(path, k)
    decreases |path| - from
  {
    if from == |path| then None
    else if MatchesAt(path, from) then Some(from)
    else FirstMatch(path, from + 1)
  }

  /**
   * `getWorkId()` on `location.pathname == path`: the captured digit run, or
   * `None` (the script's `null`) when the expression does not match.
   */
  function GetWorkId(path: string): (r: Option<string>)
    ensures r.None? <==> forall i :: !MatchesAt(path, i)
    ensures r.Some? ==> exists i :: CapturedAt(path, i, r.value)
    ensures r.Some? ==> r.value != [] && AllDigits(r.value)
  {
    match FirstMatch(path, 0)
    case None => None
    case Some(i) =>
      var start := i + |Prefix|;
      var d := path[start..start + DigitRun(path, start)];
      assert CapturedAt(path, i, d);
      Some(d)
  }

  /** The capture is determined by the path: at most one position and one digit run satisfy `CapturedAt`. */
  lemma {:induction false} CaptureUnique(path: string, i: int, d: string, j: int, e: string)
    requires CapturedAt(path, i, d) && CapturedAt(path, j, e)
    ensures i == j && d == e
  {
    if i != j || |d| != |e| {
      assert false;
    }
  }

  /** A path of the form "/works/<digits><rest>", `rest` not starting with a digit, yields the digits. */
  lemma CanonicalPath(d: string, rest: string)
    requires d != [] && AllDigits(d)
    requires rest == [] || !IsDigit(rest[0])
    ensures GetWorkId(Prefix + d + rest) == Some(d)
  {
    var path := Prefix + d + rest;
    assert path[..|Prefix|] == Prefix;
    assert path[|Prefix|] == d[0];
    assert MatchesAt(path, 0);
    assert path[|Prefix|..|Prefix| + |d|] == d;
    assert |Prefix| + |d| == |path| || path[|Prefix| + |d|] == rest[0];
    assert CapturedAt(path, 0, d);
    var r := GetWorkId(path);
    var i :| CapturedAt(path, i, r.value);
    CaptureUnique(path, i, r.value, 0, d);
  }

  /** A chapter page of a work: the first digit run after "/works/" is the work id, not the chapter id. */
  lemma ChapterPath()
    ensures GetWorkId("/works/12345/chapters/678") == Some("12345")
  {
    var path := "/works/12345/chapters/678";
    assert MatchesAt(path, 0);
    assert path[7..12] == "12345";
    assert CapturedAt(path, 0, "12345");
    var r := GetWorkId(path);
    var i :| CapturedAt(path, i, r.value);
    CaptureUnique(path, i, r.value, 0, "12345");
  }

  /** "/works/" not followed by a digit is no match; the search moves on to a later "/works/". */
  lemma SkipsNonNumericPrefix()
    ensures GetWorkId("/works/new/works/9") == Some("9")
  {
    var path := "/works/new/works/9";
    assert MatchesAt(path, 10);
    assert forall k :: 0 <= k < 10 ==> !MatchesAt(path, k);
    assert path[17..18] == "9";
    assert CapturedAt(path, 10, "9");
    var r := GetWorkId(path);
    var i :| CapturedAt(path, i, r.value);
    CaptureUnique(path, i, r.value, 10, "9");
  }
}
