/**
 * The few JavaScript string operations the components rely on: the
 * whitespace that `String.prototype.trim` removes, `trim` itself,
 * `endsWith`, and the line terminators that a regular-expression `.`
 * refuses to match.
 */
module JsString {

  /** ECMAScript LineTerminator: LF, CR, LINE SEPARATOR, PARAGRAPH SEPARATOR. */
  predicate IsLineTerminator(c: char) {
    c == '\n' || c == '\r' || c == '\U{2028}' || c == '\U{2029}'
  }

  /**
   * ECMAScript WhiteSpace or LineTerminator: TAB, VT, FF, ZWNBSP and the
   * space separators (Unicode category Zs), written out as a fixed set.
   */
  predicate IsWhitespace(c: char) {
    || IsLineTerminator(c)
    || c == '\t' || c == '\U{B}' || c == '\U{C}' || c == '\U{FEFF}'
    || c == ' ' || c == '\U{A0}' || c == '\U{1680}'
    || ('\U{2000}' <= c <= '\U{200A}')
    || c == '\U{202F}' || c == '\U{205F}' || c == '\U{3000}'
  }

  predicate AllWhitespace(s: string) {
    forall i | 0 <= i < |s| :: IsWhitespace(s[i])
  }

  /** `s` neither begins nor ends with whitespace. */
  predicate Trimmed(s: string) {
    s == [] || (!IsWhitespace(s[0]) && !IsWhitespace(s[|s| - 1]))
  }

  /** How many whitespace characters `s` begins with. */
  function LeadingWhitespace(s: string): (n: nat)
    ensures n <= |s|
    ensures forall i | 0 <= i < n :: IsWhitespace(s[i])
    ensures n == |s| || !IsWhitespace(s[n])
  {
    if s != [] && IsWhitespace(s[0]) then 1 + LeadingWhitespace(s[1..]) else 0
  }

  /** How many whitespace characters `s` ends with. */
  function TrailingWhitespace(s: string): (n: nat)
    ensures n <= |s|
    ensures forall i | |s| - n <= i < |s| :: IsWhitespace(s[i])
    ensures n == |s| || !IsWhitespace(s[|s| - n - 1])
  {
    if s != [] && IsWhitespace(s[|s| - 1]) then 1 + TrailingWhitespace(s[..|s| - 1]) else 0
  }

  /** `String.prototype.trim`: the text between the leading and the trailing whitespace. */
  function Trim(s: string): (r: string)
    ensures |r| <= |s|
  {
    var t := s[LeadingWhitespace(s)..];
    t[..|t| - TrailingWhitespace(t)]
  }

  /**
   * What `trim` promises: no whitespace is left at either end, only
   * whitespace is removed (text that has none at its ends is returned as
   * it is), and the result is empty exactly when the text is all whitespace.
   */
  lemma TrimSpec(s: string)
    ensures Trimmed(Trim(s))
    ensures Trim(s) == [] <==> AllWhitespace(s)
    ensures Trimmed(s) ==> Trim(s) == s
  {
    var a := LeadingWhitespace(s);
    var t := s[a..];
    assert forall i | 0 <= i < |t| :: t[i] == s[a + i];
  }

  /** Whitespace before or after the text does not survive `trim`. */
  lemma TrimDropsPadding(before: string, core: string, after: string)
    requires AllWhitespace(before) && AllWhitespace(after) && Trimmed(core)
    ensures Trim(before + core + after) == core
  {
    TrimSpec(core);
    var s := before + core + after;
    LeadingPadding(before, core + after);
    assert s == before + (core + after);
    if core != [] {
      assert (core + after)[0] == core[0];
      assert LeadingWhitespace(core + after) == 0;
      assert s[LeadingWhitespace(s)..] == core + after;
      TrailingPadding(core, after);
    } else {
      assert core + after == after;
      assert LeadingWhitespace(after) == |after|;
    }
  }

  lemma {:induction false} LeadingPadding(before: string, rest: string)
    requires AllWhitespace(before)
    ensures LeadingWhitespace(before + rest) == |before| + LeadingWhitespace(rest)
    decreases |before|
  {
    if before == [] {
      assert before + rest == rest;
    } else {
      assert (before + rest)[0] == before[0];
      assert (before + rest)[1..] == before[1..] + rest;
      LeadingPadding(before[1..], rest);
    }
  }

  lemma {:induction false} TrailingPadding(rest: string, after: string)
    requires AllWhitespace(after)
    ensures TrailingWhitespace(rest + after) == |after| + TrailingWhitespace(rest)
    decreases |after|
  {
    if after == [] {
      assert rest + after == rest;
    } else {
      var n := |rest + after|;
      assert (rest + after)[n - 1] == after[|after| - 1];
      assert (rest + after)[..n - 1] == rest + after[..|after| - 1];
      TrailingPadding(rest, after[..|after| - 1]);
    }
  }

  /** `String.prototype.endsWith`. */
  predicate EndsWith(s: string, suffix: string) {
    |suffix| <= |s| && s[|s| - |suffix|..] == suffix
  }
}
