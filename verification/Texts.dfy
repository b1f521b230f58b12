/** Texts as Qt has them: sequences of UTF-16 code units. */
module Texts {
  type QChar = c: int | 0 <= c < 0x10000
  type QString = seq<QChar>

  predicate IsAsciiDigit(c: QChar) {
    '0' as int <= c <= '9' as int
  }

  predicate AllDigits(s: QString) {
    forall k :: 0 <= k < |s| ==> IsAsciiDigit(s[k])
  }
}
