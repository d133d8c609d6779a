/**
  Lower-case hexadecimal text of a byte sequence, as produced by Node's
  `buffer.toString('hex')`: two characters per byte, high nibble first,
  digits `0-9a-f`.
 */
module Hex {

  newtype byte = x: int | 0 <= x < 256

  /** A character `toString('hex')` can produce. */
  predicate IsLowerHex(c: char) {
    '0' <= c <= '9' || 'a' <= c <= 'f'
  }

  predicate IsLowerHexString(s: string) {
    forall i :: 0 <= i < |s| ==> IsLowerHex(s[i])
  }

  /** The value of one hexadecimal digit. */
  function DigitValue(c: char): (n: int)
    requires IsLowerHex(c)
    ensures 0 <= n < 16
  {
    if c <= '9' then c as int - '0' as int else c as int - 'a' as int + 10
  }

  /** The digit that stands for a nibble; reading it back gives the nibble. */
  function Digit(n: int): (c: char)
    requires 0 <= n < 16
    ensures IsLowerHex(c) && DigitValue(c) == n
  {
    if n < 10 then ('0' as int + n) as char else ('a' as int + n - 10) as char
  }

  /** The hexadecimal text of `bytes`: a lower-case hex string twice as long. */
  function Encode(bytes: seq<byte>): (s: string)
    ensures |s| == 2 * |bytes|
    ensures IsLowerHexString(s)
    ensures '.' !in s
  {
    if bytes == [] then []
    else [Digit(bytes[0] as int / 16), Digit(bytes[0] as int % 16)] + Encode(bytes[1..])
  }

  /** Reads hexadecimal text back into bytes. */
  function Decode(s: string): (bytes: seq<byte>)
    requires |s| % 2 == 0 && IsLowerHexString(s)
    ensures 2 * |bytes| == |s|
  {
    if s == [] then []
    else [(DigitValue(s[0]) * 16 + DigitValue(s[1])) as byte] + Decode(s[2..])
  }

  /** Encoding loses nothing: the bytes can be read back from the text. */
  lemma {:induction false} DecodeEncode(bytes: seq<byte>)
    ensures Decode(Encode(bytes)) == bytes
  {
    if bytes != [] {
      var s := Encode(bytes);
      assert s[2..] == Encode(bytes[1..]);
      DecodeEncode(bytes[1..]);
    }
  }

  /** Every even-length lower-case hex string is the encoding of some bytes. */
  lemma {:induction false} EncodeDecode(s: string)
    requires |s| % 2 == 0 && IsLowerHexString(s)
    ensures Encode(Decode(s)) == s
  {
    if s != [] {
      var b := (DigitValue(s[0]) * 16 + DigitValue(s[1])) as byte;
      assert b as int / 16 == DigitValue(s[0]) && b as int % 16 == DigitValue(s[1]);
      assert Digit(DigitValue(s[0])) == s[0] by {
        DigitRoundTrip(s[0]);
      }
      assert Digit(DigitValue(s[1])) == s[1] by {
        DigitRoundTrip(s[1]);
      }
      var t := Decode(s);
      assert t[1..] == Decode(s[2..]);
      EncodeDecode(s[2..]);
    }
  }

  lemma DigitRoundTrip(c: char)
    requires IsLowerHex(c)
    ensures Digit(DigitValue(c)) == c
  {
  }

  /** Different random bytes always give different text. */
  lemma EncodeInjective(a: seq<byte>, b: seq<byte>)
    requires Encode(a) == Encode(b)
    ensures a == b
  {
    DecodeEncode(a);
    DecodeEncode(b);
  }
}
