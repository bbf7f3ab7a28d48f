/**
 * The character classes of <ctype.h> in the "C" locale, over ASCII.
 * Characters outside ASCII belong to none of them.
 */
module CType {

  /** isalnum: an ASCII letter or decimal digit. */
  predicate IsAlnumChar(c: char)
  {
    ('a' <= c <= 'z') || ('A' <= c <= 'Z') || ('0' <= c <= '9')
  }

  /** isspace: space, horizontal tab, newline, vertical tab, form feed, carriage return. */
  predicate IsSpaceChar(c: char)
  {
    c == ' ' || c == '\t' || c == '\n' || c == '\U{000B}' || c == '\U{000C}' || c == '\r'
  }

  /** isblank: space or horizontal tab. */
  predicate IsBlankChar(c: char)
  {
    c == ' ' || c == '\t'
  }
}
