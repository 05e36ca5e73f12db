/**
 * The character model shared by the text normaliser.
 *
 * `IsSpace` is the set of characters for which Python's `str.isspace()`
 * holds; the `re` module's `\s` in a `str` pattern matches exactly the same
 * set, and `str.strip()` with no argument removes exactly these characters.
 *
 * `Lower` is `str.lower()` on one character, stated precisely for every
 * character whose lower-case form can contain an ASCII letter, an ASCII digit
 * or whitespace; every other character is left as it is (its real lower-case
 * form is neither, so the masking step turns it into a space either way).
 */
module Chars {

  /** The characters Python's `str.isspace()` accepts (and `\s` matches). */
  predicate IsSpace(c: char) {
    || ('\t' <= c <= '\r')              // \t \n \v \f \r
    || ('\U{001C}' <= c <= '\U{001F}')  // the four information separators
    || c == ' '
    || c == '\U{0085}'                  // next line
    || c == '\U{00A0}'                  // no-break space
    || c == '\U{1680}'                  // Ogham space mark
    || ('\U{2000}' <= c <= '\U{200A}')  // en quad .. hair space
    || c == '\U{2028}'                  // line separator
    || c == '\U{2029}'                  // paragraph separator
    || c == '\U{202F}'                  // narrow no-break space
    || c == '\U{205F}'                  // medium mathematical space
    || c == '\U{3000}'                  // ideographic space
  }

  /** The character class `[a-z0-9]`. */
  predicate IsLowerAlnum(c: char) {
    ('a' <= c <= 'z') || ('0' <= c <= '9')
  }

  predicate IsUpperAscii(c: char) {
    'A' <= c <= 'Z'
  }

  /** KELVIN SIGN, whose lower-case form is the ASCII letter `k`. */
  const KelvinSign: char := '\U{212A}'

  /** LATIN CAPITAL LETTER I WITH DOT ABOVE, which lower-cases to two characters. */
  const CapitalIWithDot: char := '\U{0130}'

  const CombiningDotAbove: char := '\U{0307}'

  /** The ASCII upper-case letter `c` as lower case. */
  function AsciiLower(c: char): (r: char)
    requires IsUpperAscii(c)
    ensures 'a' <= r <= 'z'
    ensures r as int - 'a' as int == c as int - 'A' as int
  {
    (c as int + 32) as char
  }

  /** `str.lower()` applied to the one-character string `[c]`. */
  function Lower(c: char): (r: string)
    ensures |r| == (if c == CapitalIWithDot then 2 else 1)
    ensures forall k :: 0 <= k < |r| ==> !IsUpperAscii(r[k])
    ensures IsSpace(c) || IsLowerAlnum(c) ==> r == [c]
    ensures IsUpperAscii(c) ==> r == [AsciiLower(c)]
    ensures c == KelvinSign ==> r == "k"
    ensures c == CapitalIWithDot ==> r == ['i', CombiningDotAbove]
  {
    if IsUpperAscii(c) then [AsciiLower(c)]
    else if c == KelvinSign then "k"
    else if c == CapitalIWithDot then ['i', CombiningDotAbove]
    else [c]
  }

  /**
   * The ASCII letters and digits that the lower-case form of `c` contains:
   * the part of `c` that survives normalisation.
   */
  function AsciiFold(c: char): (r: string)
    ensures forall k :: 0 <= k < |r| ==> IsLowerAlnum(r[k])
  {
    if IsUpperAscii(c) then [AsciiLower(c)]
    else if IsLowerAlnum(c) then [c]
    else if c == KelvinSign then "k"
    else if c == CapitalIWithDot then "i"
    else []
  }

  /** A character that contributes a letter or a digit to the normalised text. */
  predicate IsWordChar(c: char) {
    AsciiFold(c) != []
  }
}
