/** The character-category tests of Go's `unicode` package. Their answers come
    from the Unicode character database, which is not part of this model: a
    `Tables` value stands for any total choice of the three predicates, and
    every property proved about the checker holds for all of them. */
module Unicode {

  import opened Utf8

  /** `unicode.IsLetter`, `unicode.IsLower` and `unicode.IsDigit`. */
  datatype Tables = Tables(isLetter: Rune -> bool, isLower: Rune -> bool, isDigit: Rune -> bool)

  predicate IsAsciiLower(c: int) {
    'a' as int <= c <= 'z' as int
  }

  predicate IsAsciiUpper(c: int) {
    'A' as int <= c <= 'Z' as int
  }

  predicate IsAsciiDigit(c: int) {
    '0' as int <= c <= '9' as int
  }

  /** What the Unicode database says of the ASCII range: the letters are
      `a`-`z` (lower case) and `A`-`Z` (upper case), the decimal digits are
      `0`-`9`. Only concrete examples assume this. */
  ghost predicate AgreesOnAscii(t: Tables) {
    && (forall c: Rune :: c < 0x80 ==> (t.isLetter(c) <==> IsAsciiLower(c) || IsAsciiUpper(c)))
    && (forall c: Rune :: c < 0x80 ==> (t.isLower(c) <==> IsAsciiLower(c)))
    && (forall c: Rune :: c < 0x80 ==> (t.isDigit(c) <==> IsAsciiDigit(c)))
  }
}
