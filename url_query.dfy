/**
 * Go's url.QueryEscape and url.QueryUnescape: the escaping used for the
 * values of an application/x-www-form-urlencoded body. Escaping works on the
 * UTF-8 bytes of the text: the unreserved characters (ASCII letters, digits,
 * '-', '_', '.', '~') stay as they are, a space becomes '+', and every other
 * byte becomes '%' followed by two upper-case hexadecimal digits.
 */
module UrlQuery {
  import opened Wrappers
  import opened Utf8

  /** A byte that QueryEscape copies unchanged. */
  predicate IsUnreserved(b: byte) {
    (0x41 <= b <= 0x5A) || (0x61 <= b <= 0x7A) || (0x30 <= b <= 0x39) ||
    b == 0x2D || b == 0x5F || b == 0x2E || b == 0x7E
  }

  /** An ASCII letter or digit. */
  predicate IsAlphanumeric(c: char) {
    ('A' <= c <= 'Z') || ('a' <= c <= 'z') || ('0' <= c <= '9')
  }

  /** The upper-case hexadecimal digit for `v`. */
  function HexDigit(v: nat): (c: char)
    requires v < 16
    ensures IsHex(c) && HexValue(c) == v
  {
    if v < 10 then ('0' as int + v) as char else ('A' as int + v - 10) as char
  }

  predicate IsHex(c: char) {
    ('0' <= c <= '9') || ('a' <= c <= 'f') || ('A' <= c <= 'F')
  }

  /** The value of a hexadecimal digit (either case, as Go's unhex accepts). */
  function HexValue(c: char): (v: nat)
    requires IsHex(c)
    ensures v < 16
  {
    if '0' <= c <= '9' then c as int - '0' as int
    else if 'a' <= c <= 'f' then c as int - 'a' as int + 10
    else c as int - 'A' as int + 10
  }

  /** The escape of one byte. */
  function EscapeByte(b: byte): (r: string)
    ensures '&' !in r
  {
    if IsUnreserved(b) then [b as int as char]
    else if b == 0x20 then "+"
    else ['%', HexDigit(b as int / 16), HexDigit(b as int % 16)]
  }

  /** The escape of a byte sequence, byte by byte. */
  function EscapeBytes(bs: seq<byte>): (r: string)
    ensures '&' !in r
  {
    if bs == [] then [] else EscapeByte(bs[0]) + EscapeBytes(bs[1..])
  }

  /** url.QueryEscape. */
  function QueryEscape(s: string): (r: string)
    ensures '&' !in r
  {
    EscapeBytes(Bytes(s))
  }

  /**
   * url.QueryUnescape, as bytes: '+' is a space, '%' must be followed by two
   * hexadecimal digits, and any other character stands for its own bytes.
   * A malformed '%' escape is an error.
   */
  function QueryUnescape(s: string): (r: Option<seq<byte>>)
    decreases |s|
  {
    if s == [] then Some([])
    else
      var (head, width) :=
        if s[0] == '%' then
          if |s| < 3 || !IsHex(s[1]) || !IsHex(s[2]) then (None, 1)
          else (Some([(HexValue(s[1]) * 16 + HexValue(s[2])) as byte]), 3)
        else if s[0] == '+' then (Some([0x20 as byte]), 1)
        else (Some(EncodeChar(s[0])), 1);
      match head
      case None => None
      case Some(h) =>
        match QueryUnescape(s[width..])
        case None => None
        case Some(t) => Some(h + t)
  }

  lemma UnescapeEscapedByte(b: byte, rest: string)
    ensures QueryUnescape(EscapeByte(b) + rest) ==
            match QueryUnescape(rest)
            case None => None
            case Some(t) => Some([b] + t)
  {
    var e := EscapeByte(b);
    var s := e + rest;
    if IsUnreserved(b) {
      assert s[0] == b as int as char && s[1..] == rest;
      assert EncodeChar(s[0]) == [b];
    } else if b == 0x20 {
      assert s[0] == '+' && s[1..] == rest;
    } else {
      assert s[0] == '%' && s[1] == e[1] && s[2] == e[2] && s[3..] == rest;
      assert (HexValue(s[1]) * 16 + HexValue(s[2])) as byte == b;
    }
  }

  /** Unescaping undoes escaping: the body's text field gives back the text's bytes. */
  lemma {:induction false} UnescapeEscape(bs: seq<byte>)
    ensures QueryUnescape(EscapeBytes(bs)) == Some(bs)
  {
    if bs != [] {
      UnescapeEscape(bs[1..]);
      UnescapeEscapedByte(bs[0], EscapeBytes(bs[1..]));
      assert [bs[0]] + bs[1..] == bs;
    }
  }

  /** QueryUnescape(QueryEscape(s)) yields the UTF-8 bytes of `s`. */
  lemma QueryRoundTrip(s: string)
    ensures QueryUnescape(QueryEscape(s)) == Some(Bytes(s))
  {
    UnescapeEscape(Bytes(s));
  }

  /** A byte that is an ASCII letter, a digit or a space. */
  predicate IsPlainByte(b: byte) {
    (0x41 <= b <= 0x5A) || (0x61 <= b <= 0x7A) || (0x30 <= b <= 0x39) || b == 0x20
  }

  /** On letters, digits and spaces, escaping maps each byte to one character. */
  lemma {:induction false} EscapePlainBytes(bs: seq<byte>)
    requires forall i :: 0 <= i < |bs| ==> IsPlainByte(bs[i])
    ensures |EscapeBytes(bs)| == |bs|
    ensures forall i :: 0 <= i < |bs| ==> EscapeBytes(bs)[i] == if bs[i] == 0x20 then '+' else bs[i] as int as char
  {
    if bs != [] {
      EscapePlainBytes(bs[1..]);
      assert forall i :: 1 <= i < |bs| ==> bs[i] == bs[1..][i - 1];
    }
  }

  /**
   * On text made of ASCII letters, digits and spaces, QueryEscape turns each
   * space into '+' and keeps every other character.
   */
  lemma QueryEscapePlainText(s: string)
    requires forall i :: 0 <= i < |s| ==> IsAlphanumeric(s[i]) || s[i] == ' '
    ensures |QueryEscape(s)| == |s|
    ensures forall i :: 0 <= i < |s| ==> QueryEscape(s)[i] == if s[i] == ' ' then '+' else s[i]
  {
    BytesAscii(s);
    var bs := Bytes(s);
    assert forall i :: 0 <= i < |bs| ==> bs[i] as int == s[i] as int && IsPlainByte(bs[i]);
    EscapePlainBytes(bs);
  }
}
