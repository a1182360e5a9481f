/**
 * The part of ECMAScript's String.prototype.trim that the two dialogs rely on:
 * `s.trim().length > 0` decides whether a typed task text is accepted.
 * Strings are sequences of Unicode scalar values; every character trim strips
 * lies in the Basic Multilingual Plane, so this agrees with JavaScript's
 * UTF-16 strings.
 */
module Text {

  /** WhiteSpace or LineTerminator in the sense of ECMAScript, the characters trim strips. */
  predicate IsWhitespace(c: char) {
    || c == '\t' || c == '\n' || c == '\U{000B}' || c == '\U{000C}' || c == '\r' || c == ' '
    || c == '\U{00A0}' || c == '\U{1680}' || ('\U{2000}' <= c <= '\U{200A}')
    || c == '\U{2028}' || c == '\U{2029}' || c == '\U{202F}' || c == '\U{205F}'
    || c == '\U{3000}' || c == '\U{FEFF}'
  }

  /** Drops the leading whitespace: the result is a suffix that does not start with whitespace. */
  function TrimStart(s: string): (r: string)
    ensures |r| <= |s| && r == s[|s| - |r|..]
    ensures forall i :: 0 <= i < |s| - |r| ==> IsWhitespace(s[i])
    ensures r == [] || !IsWhitespace(r[0])
  {
    if s != [] && IsWhitespace(s[0]) then TrimStart(s[1..]) else s
  }

  /** Drops the trailing whitespace: the result is a prefix that does not end with whitespace. */
  function TrimEnd(s: string): (r: string)
    ensures |r| <= |s| && r == s[..|r|]
    ensures forall i :: |r| <= i < |s| ==> IsWhitespace(s[i])
    ensures r == [] || !IsWhitespace(r[|r| - 1])
  {
    if s != [] && IsWhitespace(s[|s| - 1]) then TrimEnd(s[..|s| - 1]) else s
  }

  /** `r` is the slice of `s` at `a` with only whitespace before and after it. */
  ghost predicate WhitespaceAround(s: string, r: string, a: int) {
    && 0 <= a <= |s| - |r|
    && r == s[a..a + |r|]
    && (forall i :: 0 <= i < a ==> IsWhitespace(s[i]))
    && (forall i :: a + |r| <= i < |s| ==> IsWhitespace(s[i]))
  }

  /**
   * String.prototype.trim: the slice of the input left after dropping its
   * leading and trailing whitespace.
   */
  function Trim(s: string): (r: string)
    ensures |r| <= |s|
    ensures exists a :: WhitespaceAround(s, r, a)
    ensures r == [] || (!IsWhitespace(r[0]) && !IsWhitespace(r[|r| - 1]))
  {
    TrimSlice(s);
    TrimEnd(TrimStart(s))
  }

  /** What TrimStart and then TrimEnd drop is whitespace on either side of a slice. */
  lemma TrimSlice(s: string)
    ensures WhitespaceAround(s, TrimEnd(TrimStart(s)), |s| - |TrimStart(s)|)
  {
    SuffixThenPrefix(s, TrimStart(s), TrimEnd(TrimStart(s)));
  }

  /** A prefix `r` of a suffix `front` of `s`, with whitespace dropped on each side, is such a slice. */
  lemma SuffixThenPrefix(s: string, front: string, r: string)
    requires |front| <= |s| && front == s[|s| - |front|..]
    requires forall i :: 0 <= i < |s| - |front| ==> IsWhitespace(s[i])
    requires |r| <= |front| && r == front[..|r|]
    requires forall i :: |r| <= i < |front| ==> IsWhitespace(front[i])
    ensures WhitespaceAround(s, r, |s| - |front|)
  {
    var a := |s| - |front|;
    forall i | a + |r| <= i < |s| ensures IsWhitespace(s[i]) {
      assert s[i] == front[i - a];
    }
  }

  /**
   * The negation of the dialogs' guard `taskText.trim().length > 0`: a text is
   * blank exactly when every one of its characters is whitespace.
   */
  function IsBlank(s: string): (blank: bool)
    ensures blank <==> forall i :: 0 <= i < |s| ==> IsWhitespace(s[i])
  {
    |Trim(s)| == 0
  }

  /** Trimming twice is trimming once. */
  lemma TrimIdempotent(s: string)
    ensures Trim(Trim(s)) == Trim(s)
  {
    var r := Trim(s);
    assert TrimStart(r) == r;
    assert TrimEnd(r) == r;
  }
}
