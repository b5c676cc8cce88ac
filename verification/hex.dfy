/**
  Lowercase hexadecimal rendering of bytes, as the scanner prints a dump's
  identifier: BitConverter.ToString gives upper-case pairs joined by '-',
  the '-' are removed and the result is lower-cased, which is the same as
  printing every byte as two lowercase digits, high nibble first.
 */
module Hex {
  import opened Maybe

  /** One byte of a dump file. */
  newtype byte = x: int | 0 <= x < 256

  predicate IsLowerHexDigit(c: char) {
    '0' <= c <= '9' || 'a' <= c <= 'f'
  }

  /** The value of one lowercase hex digit. */
  function DigitValue(c: char): (n: nat)
    requires IsLowerHexDigit(c)
    ensures n < 16
  {
    if c <= '9' then c as int - '0' as int else c as int - 'a' as int + 10
  }

  /** The lowercase digit for a nibble; DigitValue undoes it. */
  function Digit(n: nat): (c: char)
    requires n < 16
    ensures IsLowerHexDigit(c)
    ensures DigitValue(c) == n
  {
    if n < 10 then ('0' as int + n) as char else ('a' as int + (n - 10)) as char
  }

  /** Digit undoes DigitValue, so a digit character is determined by its value. */
  lemma DigitOfValue(c: char)
    requires IsLowerHexDigit(c)
    ensures Digit(DigitValue(c)) == c
  {
  }

  /** One byte as two lowercase digits, high nibble first. */
  function ByteHex(b: byte): (s: string)
    ensures |s| == 2 && IsLowerHexDigit(s[0]) && IsLowerHexDigit(s[1])
    ensures DigitValue(s[0]) * 16 + DigitValue(s[1]) == b as int
  {
    [Digit(b as int / 16), Digit(b as int % 16)]
  }

  /** Bytes rendered with no separators, two digits per byte. */
  function Encode(bs: seq<byte>): (s: string)
    ensures |s| == 2 * |bs|
    ensures forall i :: 0 <= i < |s| ==> IsLowerHexDigit(s[i])
  {
    if bs == [] then "" else ByteHex(bs[0]) + Encode(bs[1..])
  }

  /** Parses an even-length lowercase hex string back into bytes. */
  function Decode(s: string): (r: Option<seq<byte>>)
    ensures r.Some? ==> 2 * |r.value| == |s|
    decreases |s|
  {
    if s == [] then Some([])
    else if |s| < 2 || !IsLowerHexDigit(s[0]) || !IsLowerHexDigit(s[1]) then None
    else
      match Decode(s[2..])
      case None => None
      case Some(rest) => Some([(DigitValue(s[0]) * 16 + DigitValue(s[1])) as byte] + rest)
  }

  /** Decoding the rendering of any bytes gives the bytes back. */
  lemma {:induction false} DecodeEncode(bs: seq<byte>)
    ensures Decode(Encode(bs)) == Some(bs)
  {
    if bs != [] {
      var s := Encode(bs);
      assert s == ByteHex(bs[0]) + Encode(bs[1..]);
      assert s[2..] == Encode(bs[1..]);
      assert s[..2] == ByteHex(bs[0]);
      assert (DigitValue(s[0]) * 16 + DigitValue(s[1])) as byte == bs[0];
      DecodeEncode(bs[1..]);
      assert bs == [bs[0]] + bs[1..];
    }
  }

  /** The byte two digits stand for is rendered as those two digits. */
  lemma ByteHexOfDigits(c0: char, c1: char)
    requires IsLowerHexDigit(c0) && IsLowerHexDigit(c1)
    ensures ByteHex((DigitValue(c0) * 16 + DigitValue(c1)) as byte) == [c0, c1]
  {
    var v0, v1 := DigitValue(c0), DigitValue(c1);
    var n := v0 * 16 + v1;
    assert n / 16 == v0 && n % 16 == v1;
    DigitOfValue(c0);
    DigitOfValue(c1);
  }

  /** Decode accepts exactly the even-length strings of lowercase hex digits. */
  lemma {:induction false} DecodeSomeIff(s: string)
    ensures Decode(s).Some? <==> |s| % 2 == 0 && forall i :: 0 <= i < |s| ==> IsLowerHexDigit(s[i])
    decreases |s|
  {
    if |s| >= 2 {
      DecodeSomeIff(s[2..]);
      assert forall i :: 2 <= i < |s| ==> s[i] == s[2..][i - 2];
    }
  }

  /** Every string Decode accepts is the rendering of what it decodes to. */
  lemma {:induction false} EncodeDecode(s: string)
    requires Decode(s).Some?
    ensures Encode(Decode(s).value) == s
    decreases |s|
  {
    if s != [] {
      var rest := Decode(s[2..]).value;
      EncodeDecode(s[2..]);
      var b := (DigitValue(s[0]) * 16 + DigitValue(s[1])) as byte;
      assert Decode(s).value == [b] + rest;
      ByteHexOfDigits(s[0], s[1]);
      assert ([b] + rest)[1..] == rest;
      assert Encode([b] + rest) == ByteHex(b) + Encode(rest);
      assert s == [s[0], s[1]] + s[2..];
    }
  }

  /** Two byte sequences with the same rendering are equal. */
  lemma EncodeInjective(a: seq<byte>, b: seq<byte>)
    requires Encode(a) == Encode(b)
    ensures a == b
  {
    DecodeEncode(a);
    DecodeEncode(b);
  }
}
