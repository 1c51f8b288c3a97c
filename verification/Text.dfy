/** Blank strings, by the Unicode white space that `trim` removes. */
module Text {

  predicate Whitespace(c: char) {
    || '\t' <= c <= '\r' || c == ' ' || c == '\U{85}' || c == '\U{A0}' || c == '\U{1680}'
    || '\U{2000}' <= c <= '\U{200A}' || c == '\U{2028}' || c == '\U{2029}' || c == '\U{202F}'
    || c == '\U{205F}' || c == '\U{3000}'
  }

  /** `trim().is_empty()`. */
  predicate Blank(s: string) {
    forall c <- s :: Whitespace(c)
  }

  /** Blanks, tabs, line ends and a no-break space are blank, and no text with a letter or a digit is. */
  lemma KnownBlanks(s: string, c: char)
    requires c in s && ('0' <= c <= '9' || 'A' <= c <= 'Z' || 'a' <= c <= 'z')
    ensures !Blank(s) && Blank("") && Blank(" \t\r\n\U{A0}\U{3000}")
  {
    assert !Whitespace(c);
  }
}
