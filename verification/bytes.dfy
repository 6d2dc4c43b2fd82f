/**
  Text as the macros see it: a Rust `&str` is a sequence of UTF-8 bytes, and every
  length and index in the source (`len()`, `bytes()`, `&s[i..j]`) counts bytes.

  A byte is written here as the `char` with the same code (0 to 255), so that the
  ASCII literals of the source ("%s", "__", '"') read as themselves.
*/
module Bytes {

  type Byte = c: char | c <= '\U{FF}'

  type Bytes = seq<Byte>

  /** `s.starts_with(p)` */
  predicate StartsWith(s: Bytes, p: Bytes) {
    |p| <= |s| && s[..|p|] == p
  }

  /** No byte of `s` is an underscore. */
  predicate NoUnderscore(s: Bytes) {
    forall i :: 0 <= i < |s| ==> s[i] != '_'
  }

  /** A UTF-8 continuation byte (0b10xx_xxxx): it never starts a character. */
  predicate IsContinuation(b: Byte) {
    '\U{80}' <= b < '\U{C0}'
  }

  /**
    Rust's `str::is_char_boundary(i)`: index 0, the end of the text, or an index
    whose byte starts a character.
  */
  predicate IsCharBoundary(s: Bytes, i: nat) {
    i == 0 || i == |s| || (i < |s| && !IsContinuation(s[i]))
  }
}
