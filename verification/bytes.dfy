/** Byte strings. Every Ruby string the object store handles is a byte
    string, so the model works on sequences of octets throughout: hashes,
    paths, type names, object dumps and commit text. */
module Bytes {

  type byte = b: int | 0 <= b < 256

  type Bytes = seq<byte>

  const NUL: byte := 0
  const LF: byte := 10
  const SP: byte := 32
  const SLASH: byte := 47

  /** The bytes of an ASCII literal (the model only applies it to ASCII text). */
  function Ascii(s: string): (r: Bytes)
    ensures |r| == |s|
  {
    seq(|s|, i requires 0 <= i < |s| => (s[i] as int) % 256)
  }

  /** `\d` in a Ruby regular expression. */
  predicate IsDigit(b: byte) {
    48 <= b <= 57
  }

  /** `\w` in a Ruby regular expression: ASCII letters, digits and `_`. */
  predicate IsWordChar(b: byte) {
    IsDigit(b) || 65 <= b <= 90 || 97 <= b <= 122 || b == 95
  }

  /** The characters of a lower-case hexadecimal digest. */
  predicate IsLowerHex(b: byte) {
    IsDigit(b) || 97 <= b <= 102
  }

  predicate AllDigits(s: Bytes) {
    forall i | 0 <= i < |s| :: IsDigit(s[i])
  }

  predicate AllWordChars(s: Bytes) {
    forall i | 0 <= i < |s| :: IsWordChar(s[i])
  }

  /** A 40-character lower-case hex rendering of a SHA-1 digest. */
  predicate IsHexDigest(h: Bytes) {
    |h| == 40 && forall i | 0 <= i < |h| :: IsLowerHex(h[i])
  }

  lemma HexDigestIsWord(h: Bytes)
    requires IsHexDigest(h)
    ensures AllWordChars(h) && |h| == 40
  {
  }

  /** Concatenation regrouped to the right. */
  lemma Regroup<T>(x: seq<T>, y: seq<T>, z: seq<T>)
    ensures x + y + z == x + (y + z)
  {
  }
}
