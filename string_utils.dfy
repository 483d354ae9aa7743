/** The blank test the service uses on passwords (commons-lang StringUtils.isBlank). */
module StringUtils {
  import opened Wrappers

  /** Java's Character.isWhitespace: the ASCII controls HT, LF, VT, FF, CR, the four
      information separators U+001C..U+001F, and every Unicode space, line or paragraph
      separator except the no-break ones (U+00A0, U+2007, U+202F). */
  predicate IsWhitespace(c: char) {
    var n := c as int;
    || 0x09 <= n <= 0x0D
    || 0x1C <= n <= 0x20
    || n == 0x1680
    || 0x2000 <= n <= 0x2006
    || 0x2008 <= n <= 0x200A
    || n == 0x2028 || n == 0x2029 || n == 0x205F || n == 0x3000
  }

  /** True when every character of `s` is whitespace (vacuously for the empty string). */
  function AllWhitespace(s: string): (b: bool)
    ensures b <==> forall i :: 0 <= i < |s| ==> IsWhitespace(s[i])
  {
    |s| == 0 || (IsWhitespace(s[0]) && AllWhitespace(s[1..]))
  }

  /** A null, empty or whitespace-only char sequence is blank. */
  predicate IsBlank(cs: Option<string>): (blank: bool)
    ensures blank <==> cs.None? || forall i :: 0 <= i < |cs.value| ==> IsWhitespace(cs.value[i])
  {
    cs.None? || AllWhitespace(cs.value)
  }

  /** A present char sequence with at least one non-whitespace character. */
  predicate IsNotBlank(cs: Option<string>): (notBlank: bool)
    ensures notBlank <==> cs.Some? && exists i :: 0 <= i < |cs.value| && !IsWhitespace(cs.value[i])
  {
    !IsBlank(cs)
  }

  /** The passwords the service's callers send: null and whitespace are blank, a word is not. */
  lemma BlankExamples()
    ensures IsBlank(None) && IsBlank(Some("")) && IsBlank(Some(" \t\n"))
    ensures IsNotBlank(Some("newPass")) && IsNotBlank(Some(" x "))
  {
  }
}
