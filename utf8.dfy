/**
 * UTF-8, as Go stores strings: a Go `string` is a sequence of bytes, and
 * `len(s)` counts bytes, not characters. The model represents a Go string
 * by its characters (Unicode scalar values) and recovers the bytes here.
 */
module Utf8 {

  newtype byte = b: int | 0 <= b < 256

  /** True if `c` is a 7-bit ASCII character. */
  predicate IsAscii(c: char) {
    (c as int) < 0x80
  }

  /** The UTF-8 encoding of one scalar value (RFC 3629, section 3). */
  function EncodeChar(c: char): (r: seq<byte>)
    ensures 1 <= |r| <= 4
    ensures |r| == 1 <==> IsAscii(c)
    ensures IsAscii(c) ==> r[0] as int == c as int
    ensures !IsAscii(c) ==> forall i :: 0 <= i < |r| ==> r[i] >= 0x80
  {
    var n := c as int;
    if n < 0x80 then
      [n as byte]
    else if n < 0x800 then
      [(0xC0 + n / 0x40) as byte, (0x80 + n % 0x40) as byte]
    else if n < 0x10000 then
      [(0xE0 + n / 0x1000) as byte, (0x80 + n / 0x40 % 0x40) as byte, (0x80 + n % 0x40) as byte]
    else
      [(0xF0 + n / 0x40000) as byte, (0x80 + n / 0x1000 % 0x40) as byte,
       (0x80 + n / 0x40 % 0x40) as byte, (0x80 + n % 0x40) as byte]
  }

  /** The bytes of a string: what Go's `[]byte(s)` yields. */
  function Bytes(s: string): (r: seq<byte>)
    ensures |r| >= |s|
  {
    if s == [] then [] else EncodeChar(s[0]) + Bytes(s[1..])
  }

  /** Go's `len(s)`: the number of bytes of the string. */
  function ByteLen(s: string): (n: nat)
    ensures n >= |s|
  {
    |Bytes(s)|
  }

  /** A string is one byte per character exactly when it is all ASCII. */
  lemma {:induction false} ByteLenAscii(s: string)
    ensures ByteLen(s) == |s| <==> forall i :: 0 <= i < |s| ==> IsAscii(s[i])
  {
    if s != [] {
      ByteLenAscii(s[1..]);
      assert forall i :: 1 <= i < |s| ==> s[i] == s[1..][i - 1];
    }
  }

  /** On ASCII text the bytes are the character codes themselves. */
  lemma {:induction false} BytesAscii(s: string)
    requires forall i :: 0 <= i < |s| ==> IsAscii(s[i])
    ensures |Bytes(s)| == |s|
    ensures forall i :: 0 <= i < |s| ==> Bytes(s)[i] as int == s[i] as int
  {
    if s != [] {
      BytesAscii(s[1..]);
      assert forall i :: 1 <= i < |s| ==> s[i] == s[1..][i - 1];
    }
  }
}
