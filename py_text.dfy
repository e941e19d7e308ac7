/**
 * Character classes of Python's text handling that the tweet phraseologist
 * relies on.
 */
module PyText {

  /** `str.isspace`, which is also what `\s` matches in a `str` pattern and
      what `int()` strips: the ASCII whitespace characters, the four
      information separators, NEL, NBSP and the Unicode space separators and
      line and paragraph separators. */
  predicate IsSpace(c: char) {
    || c == ' '
    || ('\t' <= c <= '\r')
    || ('\U{1C}' <= c <= '\U{1F}')
    || c == '\U{85}' || c == '\U{A0}' || c == '\U{1680}'
    || ('\U{2000}' <= c <= '\U{200A}')
    || c == '\U{2028}' || c == '\U{2029}' || c == '\U{202F}' || c == '\U{205F}'
    || c == '\U{3000}'
  }

  /** No character of `w` is whitespace. */
  predicate NoSpace(w: string) {
    forall i :: 0 <= i < |w| ==> !IsSpace(w[i])
  }
}
