/** Bytes, character classes and the small string tests of TinyXML-2 (XMLUtil, tinyxml2.h).
    Text is a sequence of bytes without a NUL; the terminating NUL of a C string is the
    byte Peek finds past its end. */
module XmlChars {

  type byte = x: int | 0 <= x < 256

  type bytes = seq<byte>

  const TAB: byte := 9
  const LF: byte := 10
  const CR: byte := 13
  const SPACE: byte := 32
  const BANG: byte := 33         // !
  const QUOTE: byte := 34        // "
  const HASH: byte := 35         // #
  const AMP: byte := 38          // &
  const APOS: byte := 39         // '
  const MINUS: byte := 45        // -
  const DOT: byte := 46          // .
  const SLASH: byte := 47        // /
  const COLON: byte := 58        // :
  const SEMI: byte := 59         // ;
  const LT: byte := 60           // <
  const EQ: byte := 61           // =
  const GT: byte := 62           // >
  const QUEST: byte := 63        // ?
  const LBRACKET: byte := 91     // [
  const RBRACKET: byte := 93     // ]
  const UNDERSCORE: byte := 95   // _
  const CH_X: byte := 120        // x

  predicate IsDigit(c: byte) {
    48 <= c <= 57
  }

  /** A letter; a byte above 127 counts as one. */
  predicate IsAlpha(c: byte) {
    65 <= c <= 90 || 97 <= c <= 122 || 128 <= c
  }

  predicate IsAlphaNum(c: byte) {
    IsAlpha(c) || IsDigit(c)
  }

  /** isspace of the C locale, for bytes below 128. */
  predicate IsWhiteSpace(c: byte) {
    TAB <= c <= CR || c == SPACE
  }

  /** The byte at position i, or the terminating NUL. */
  function Peek(s: bytes, i: nat): byte {
    if i < |s| then s[i] else 0
  }

  predicate NulFree(s: bytes) {
    forall i | 0 <= i < |s| :: s[i] != 0
  }

  predicate StartsWith(s: bytes, prefix: bytes) {
    prefix <= s
  }

  /** A byte that may stand in a name, first or not. */
  predicate IsNameByte(c: byte, first: bool) {
    IsAlphaNum(c) || c == UNDERSCORE || c == COLON || (!first && (c == MINUS || c == DOT))
  }

  /** What is left of s after leading white space. */
  function SkipWhite(s: bytes): (r: bytes)
    ensures |r| <= |s|
  {
    if s != [] && IsWhiteSpace(s[0]) then SkipWhite(s[1..]) else s
  }

  lemma {:induction false} SkipWhiteIsSuffix(s: bytes)
    ensures var r := SkipWhite(s); r == s[|s| - |r|..] && (r != [] ==> !IsWhiteSpace(r[0]))
    ensures forall k | 0 <= k < |s| - |SkipWhite(s)| :: IsWhiteSpace(s[k])
  {
    if s != [] && IsWhiteSpace(s[0]) {
      SkipWhiteIsSuffix(s[1..]);
      assert forall k | 1 <= k < |s| :: s[k] == s[1..][k - 1];
    }
  }
}
