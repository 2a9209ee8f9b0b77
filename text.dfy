/**
 * The two notions of "blank" text that the request checks rely on:
 * Spring's StringUtils.hasText (used by the message validator) and the
 * bean-validation @NotBlank constraint (used on the recipient), which trims
 * with Java's String.trim. They differ: hasText skips the Unicode white
 * space of Character.isWhitespace, trim skips every character up to U+0020.
 */
module Text {
  import opened Wrappers

  /**
   * Java's Character.isWhitespace: the space, line and paragraph separators
   * except the non-breaking ones (U+00A0, U+2007, U+202F), plus the control
   * characters U+0009..U+000D and U+001C..U+001F.
   */
  predicate IsWhitespace(c: char) {
    || ('\t' <= c <= '\r')
    || ('\U{1C}' <= c <= ' ')
    || c == '\U{1680}'
    || ('\U{2000}' <= c <= '\U{2006}')
    || ('\U{2008}' <= c <= '\U{200A}')
    || c == '\U{2028}' || c == '\U{2029}'
    || c == '\U{205F}' || c == '\U{3000}'
  }

  /** Whether some character of `s` is not white space (StringUtils.containsText). */
  function ContainsText(s: string): (b: bool)
    ensures b <==> exists i :: 0 <= i < |s| && !IsWhitespace(s[i])
  {
    if s == [] then false
    else if !IsWhitespace(s[0]) then true
    else
      var rest := ContainsText(s[1..]);
      assert forall i :: 0 < i < |s| ==> s[i] == s[1..][i - 1];
      rest
  }

  /** StringUtils.hasText: non-null, non-empty, and not only white space. */
  function HasText(s: Option<string>): (b: bool)
    ensures b <==> s.Some? && exists i :: 0 <= i < |s.value| && !IsWhitespace(s.value[i])
  {
    s.Some? && |s.value| > 0 && ContainsText(s.value)
  }

  /** Drops the leading characters at or below U+0020, as String.trim does. */
  function TrimStart(s: string): (r: string)
    ensures |r| <= |s| && r == s[|s| - |r|..]
    ensures forall i :: 0 <= i < |s| - |r| ==> s[i] <= ' '
    ensures r != [] ==> r[0] > ' '
  {
    if s != [] && s[0] <= ' ' then TrimStart(s[1..]) else s
  }

  /** Drops the trailing characters at or below U+0020, as String.trim does. */
  function TrimEnd(s: string): (r: string)
    ensures |r| <= |s| && r == s[..|r|]
    ensures forall i :: |r| <= i < |s| ==> s[i] <= ' '
    ensures r != [] ==> r[|r| - 1] > ' '
  {
    if s != [] && s[|s| - 1] <= ' ' then TrimEnd(s[..|s| - 1]) else s
  }

  /** Everything of `s` before `a` and from `b` on is at or below U+0020. */
  predicate StrippedBounds(s: string, a: int, b: int) {
    && 0 <= a <= b <= |s|
    && (forall i :: 0 <= i < a ==> s[i] <= ' ')
    && (forall i :: b <= i < |s| ==> s[i] <= ' ')
  }

  /**
   * String.trim: the slice of `s` left once every leading and trailing
   * character at or below U+0020 is removed; nothing is left exactly when
   * every character is at or below U+0020.
   */
  function Trim(s: string): (r: string)
    ensures exists a, b :: StrippedBounds(s, a, b) && r == s[a..b]
    ensures r != [] ==> r[0] > ' ' && r[|r| - 1] > ' '
    ensures r == [] <==> forall i :: 0 <= i < |s| ==> s[i] <= ' '
  {
    var t := TrimStart(s);
    var r := TrimEnd(t);
    PrefixOfSuffix(s, t, r);
    r
  }

  /**
   * If `t` is `s` less a stripped prefix and `r` is `t` less a stripped
   * suffix, then `r` is the slice of `s` between the stripped bounds.
   */
  lemma PrefixOfSuffix(s: string, t: string, r: string)
    requires |t| <= |s| && t == s[|s| - |t|..] && forall i :: 0 <= i < |s| - |t| ==> s[i] <= ' '
    requires |r| <= |t| && r == t[..|r|] && forall i :: |r| <= i < |t| ==> t[i] <= ' '
    ensures StrippedBounds(s, |s| - |t|, |s| - |t| + |r|)
    ensures r == s[|s| - |t|..|s| - |t| + |r|]
  {
    var a := |s| - |t|;
    forall i | a + |r| <= i < |s| ensures s[i] <= ' ' {
      assert s[i] == t[i - a];
    }
  }

  /** The @NotBlank constraint: non-null and non-empty after trimming. */
  function IsNotBlank(s: Option<string>): (b: bool)
    ensures b <==> s.Some? && exists i :: 0 <= i < |s.value| && s.value[i] > ' '
  {
    s.Some? && |Trim(s.value)| > 0
  }
}
