/** Percent-encoding of text for URLs: `encodeURIComponent` (ECMA-262,
    section 19.2.6.5), the application/x-www-form-urlencoded serializer used by
    `URLSearchParams` (WHATWG URL Standard, section 5.2), and the form decoder
    a server applies to a query (same section), which inverts both. */
module Percent {
  import opened Wrappers
  import Utf8

  type Byte = Utf8.Byte

  predicate IsAsciiAlphanumeric(c: char) {
    ('0' <= c <= '9') || ('A' <= c <= 'Z') || ('a' <= c <= 'z')
  }

  /** Upper-case hexadecimal digit of a value below 16. */
  function HexDigit(d: int): (c: char)
    requires 0 <= d < 16
    ensures IsAsciiAlphanumeric(c)
  {
    if d < 10 then ('0' as int + d) as char else ('A' as int + d - 10) as char
  }

  /** The value of an ASCII hexadecimal digit of either case. */
  function HexValue(c: char): (r: Option<int>)
    ensures r.Some? ==> 0 <= r.value < 16
  {
    if '0' <= c <= '9' then Some(c as int - '0' as int)
    else if 'A' <= c <= 'F' then Some(c as int - 'A' as int + 10)
    else if 'a' <= c <= 'f' then Some(c as int - 'a' as int + 10)
    else None
  }

  lemma HexValueDigit(d: int)
    requires 0 <= d < 16
    ensures HexValue(HexDigit(d)) == Some(d)
  {
  }

  /** `%XY` for one octet, with upper-case hex digits. */
  function PercentByte(b: Byte): (r: string)
    ensures |r| == 3 && r[0] == '%'
    ensures '&' !in r && '=' !in r && '+' !in r
  {
    ['%', HexDigit(b / 16), HexDigit(b % 16)]
  }

  function PercentBytes(bs: seq<Byte>): (r: string)
    ensures '&' !in r && '=' !in r && '+' !in r
  {
    if bs == [] then [] else PercentByte(bs[0]) + PercentBytes(bs[1..])
  }

  /** The characters `encodeURIComponent` leaves as they are: ASCII letters,
      digits and `- _ . ! ~ * ' ( )`. */
  predicate IsComponentUnreserved(c: char) {
    IsAsciiAlphanumeric(c) || c in "-_.!~*'()"
  }

  /** `encodeURIComponent(s)`: an unreserved character stands for itself, any
      other is replaced by the percent-encoded octets of its UTF-8 encoding. */
  function EncodeURIComponent(s: string): (r: string)
    ensures '&' !in r && '=' !in r && '+' !in r
    ensures forall i | 0 <= i < |r| :: IsComponentUnreserved(r[i]) || r[i] == '%'
  {
    if s == [] then []
    else
      var head := if IsComponentUnreserved(s[0]) then [s[0]] else PercentBytes(Utf8.EncodeChar(s[0]));
      PercentBytesAlphabet(Utf8.EncodeChar(s[0]));
      head + EncodeURIComponent(s[1..])
  }

  lemma {:induction false} PercentBytesAlphabet(bs: seq<Byte>)
    ensures forall i | 0 <= i < |PercentBytes(bs)| :: IsAsciiAlphanumeric(PercentBytes(bs)[i]) || PercentBytes(bs)[i] == '%'
  {
    if bs != [] {
      PercentBytesAlphabet(bs[1..]);
    }
  }

  /** The octets the form serializer writes as themselves: ASCII letters,
      digits and `* - . _`. */
  predicate IsFormUnreserved(b: Byte) {
    IsAsciiAlphanumeric(b as char) || b as char in "*-._"
  }

  /** One octet as the form serializer writes it: space as `+`, an unreserved
      octet as its character, anything else percent-encoded. */
  function FormByte(b: Byte): (r: string)
    ensures '&' !in r && '=' !in r
  {
    if b == 0x20 then "+" else if IsFormUnreserved(b) then [b as char] else PercentByte(b)
  }

  function FormBytes(bs: seq<Byte>): (r: string)
    ensures '&' !in r && '=' !in r
  {
    if bs == [] then [] else FormByte(bs[0]) + FormBytes(bs[1..])
  }

  /** The application/x-www-form-urlencoded byte serializer applied to the
      UTF-8 encoding of `s`: how `URLSearchParams` writes a name or a value. */
  function FormSerialize(s: string): (r: string)
    ensures '&' !in r && '=' !in r
  {
    FormBytes(Utf8.Encode(s))
  }

  /** Text made only of characters the form serializer keeps (ASCII letters,
      digits and `* - . _`), such as parameter names and decimal numbers. */
  predicate IsFormPlain(s: string) {
    forall i | 0 <= i < |s| :: IsAsciiAlphanumeric(s[i]) || s[i] in "*-._"
  }

  /** Plain text is serialized as itself. */
  lemma {:induction false} FormSerializePlain(s: string)
    requires IsFormPlain(s)
    ensures FormSerialize(s) == s
  {
    if s != [] {
      assert IsFormPlain(s[1..]) by {
        forall i | 0 <= i < |s[1..]| ensures IsAsciiAlphanumeric(s[1..][i]) || s[1..][i] in "*-._" {
          assert s[1..][i] == s[i + 1];
        }
      }
      FormSerializePlain(s[1..]);
      assert Utf8.Encode(s) == [s[0] as int] + Utf8.Encode(s[1..]);
      assert FormBytes(Utf8.Encode(s)) == FormByte(s[0] as int) + FormBytes(Utf8.Encode(s[1..]));
      assert [s[0]] + s[1..] == s;
    }
  }

  /** The octets a server reads from an encoded name or value: `+` is a space,
      `%` with two hex digits is that octet, and every other character stands
      for its UTF-8 octets (a `%` without two hex digits stays a `%`). */
  function DecodeToBytes(s: string): seq<Byte>
    decreases |s|
  {
    if s == [] then []
    else if s[0] == '%' && |s| >= 3 && HexValue(s[1]).Some? && HexValue(s[2]).Some? then
      [HexValue(s[1]).value * 16 + HexValue(s[2]).value] + DecodeToBytes(s[3..])
    else if s[0] == '+' then [0x20] + DecodeToBytes(s[1..])
    else Utf8.EncodeChar(s[0]) + DecodeToBytes(s[1..])
  }

  /** A decoded name or value, or None when its octets are not UTF-8. */
  function FormDecode(s: string): Option<string>
  {
    Utf8.Decode(DecodeToBytes(s))
  }

  lemma DecodePlainChar(c: char, rest: string)
    requires c != '%' && c != '+'
    ensures DecodeToBytes([c] + rest) == Utf8.EncodeChar(c) + DecodeToBytes(rest)
  {
    assert ([c] + rest)[1..] == rest;
  }

  lemma DecodePercentByte(b: Byte, rest: string)
    ensures DecodeToBytes(PercentByte(b) + rest) == [b] + DecodeToBytes(rest)
  {
    var s := PercentByte(b) + rest;
    HexValueDigit(b / 16);
    HexValueDigit(b % 16);
    assert s[0] == '%' && s[1] == HexDigit(b / 16) && s[2] == HexDigit(b % 16);
    assert s[3..] == rest;
  }

  lemma {:induction false} DecodePercentBytes(bs: seq<Byte>, rest: string)
    ensures DecodeToBytes(PercentBytes(bs) + rest) == bs + DecodeToBytes(rest)
  {
    if bs == [] {
      assert PercentBytes(bs) + rest == rest;
    } else {
      var tail := PercentBytes(bs[1..]);
      assert PercentBytes(bs) + rest == PercentByte(bs[0]) + (tail + rest);
      DecodePercentByte(bs[0], tail + rest);
      DecodePercentBytes(bs[1..], rest);
      assert [bs[0]] + bs[1..] == bs;
    }
  }

  lemma {:induction false} DecodeFormBytes(bs: seq<Byte>)
    ensures DecodeToBytes(FormBytes(bs)) == bs
  {
    if bs != [] {
      var b, tail := bs[0], FormBytes(bs[1..]);
      assert FormBytes(bs) == FormByte(b) + tail;
      if b == 0x20 {
        assert (FormByte(b) + tail)[1..] == tail;
      } else if IsFormUnreserved(b) {
        DecodePlainChar(b as char, tail);
      } else {
        DecodePercentByte(b, tail);
      }
      DecodeFormBytes(bs[1..]);
      assert [b] + bs[1..] == bs;
    }
  }

  /** Round trip for `URLSearchParams`: the server decodes a serialized name
      or value back to the original text. */
  lemma FormDecodeSerialize(s: string)
    ensures FormDecode(FormSerialize(s)) == Some(s)
  {
    DecodeFormBytes(Utf8.Encode(s));
    Utf8.DecodeEncode(s);
  }

  lemma {:induction false} DecodeComponentBytes(s: string)
    ensures DecodeToBytes(EncodeURIComponent(s)) == Utf8.Encode(s)
  {
    if s != [] {
      var c, tail := s[0], EncodeURIComponent(s[1..]);
      if IsComponentUnreserved(c) {
        assert EncodeURIComponent(s) == [c] + tail;
        DecodePlainChar(c, tail);
      } else {
        assert EncodeURIComponent(s) == PercentBytes(Utf8.EncodeChar(c)) + tail;
        DecodePercentBytes(Utf8.EncodeChar(c), tail);
      }
      DecodeComponentBytes(s[1..]);
    }
  }

  /** Round trip for `encodeURIComponent`: a server decoding the emitted
      value as a form field recovers the original text, reserved characters
      and spaces included. */
  lemma FormDecodeEncodeURIComponent(s: string)
    ensures FormDecode(EncodeURIComponent(s)) == Some(s)
  {
    DecodeComponentBytes(s);
    Utf8.DecodeEncode(s);
  }
}
