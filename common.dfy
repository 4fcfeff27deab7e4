/** Types shared by the tool handlers: bytes, Unicode code points and an
    optional value for operations that can fail. */
module Common {

  /** An octet. */
  type Byte = x: int | 0 <= x < 256

  /** A Unicode code point, the element type of a Python `str`. Unlike Dafny's
      `char`, it includes the surrogate range U+D800..U+DFFF, which a Python
      string may hold but UTF-8 cannot encode. */
  type CodePoint = c: int | 0 <= c < 0x11_0000

  datatype Option<+T> = None | Some(value: T)

  /** Bytes or code points below 0x80: ASCII, which UTF-8 writes one byte
      per character. */
  predicate IsAscii(s: seq<int>) {
    forall i :: 0 <= i < |s| ==> s[i] < 0x80
  }

  /** A decimal digit, 0 to 9. */
  predicate IsDigit(c: char) { '0' <= c <= '9' }
}
