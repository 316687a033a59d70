/**
 * UTF-8, the encoding in which the server puts text on the wire: the
 * generated directory listing is encoded as "UTF-8", and the response
 * header lines go out through a `PrintStream` whose platform charset this
 * model takes to be UTF-8 as well. A Dafny `char` is a Unicode scalar value,
 * so a Java string is read here as its sequence of code points.
 */
module Utf8 {

  newtype byte = x: int | 0 <= x < 256

  /** How many bytes UTF-8 spends on one scalar value. */
  function Width(c: char): nat {
    var v := c as int;
    if v < 0x80 then 1 else if v < 0x800 then 2 else if v < 0x1_0000 then 3 else 4
  }

  function EncodeChar(c: char): (b: seq<byte>)
    ensures |b| == Width(c)
    ensures c as int < 0x80 ==> b == [c as int as byte]
  {
    var v := c as int;
    if v < 0x80 then [v as byte]
    else if v < 0x800 then [(0xC0 + v / 0x40) as byte, (0x80 + v % 0x40) as byte]
    else if v < 0x1_0000 then
      [(0xE0 + v / 0x1000) as byte, (0x80 + v / 0x40 % 0x40) as byte, (0x80 + v % 0x40) as byte]
    else
      [(0xF0 + v / 0x4_0000) as byte, (0x80 + v / 0x1000 % 0x40) as byte,
       (0x80 + v / 0x40 % 0x40) as byte, (0x80 + v % 0x40) as byte]
  }

  /** `String.getBytes("UTF-8")`. */
  function Encode(s: string): seq<byte> {
    if s == [] then [] else EncodeChar(s[0]) + Encode(s[1..])
  }

  /** The byte count of the encoding, summed character by character without building it. */
  function EncodedLength(s: string): nat {
    if s == [] then 0 else Width(s[0]) + EncodedLength(s[1..])
  }

  /** The encoding's length is the per-character sum of widths. */
  lemma {:induction false} EncodeLength(s: string)
    ensures |Encode(s)| == EncodedLength(s)
  {
    if s != [] {
      EncodeLength(s[1..]);
    }
  }

  /** Encoding distributes over concatenation, so text written piece by piece equals the whole. */
  lemma {:induction false} EncodeAppend(a: string, b: string)
    ensures Encode(a + b) == Encode(a) + Encode(b)
  {
    if a == [] {
      assert a + b == b;
    } else {
      assert (a + b)[1..] == a[1..] + b;
      EncodeAppend(a[1..], b);
    }
  }

  predicate IsAscii(s: string) {
    forall i :: 0 <= i < |s| ==> s[i] as int < 0x80
  }

  /** ASCII text takes one byte per character. */
  lemma {:induction false} AsciiLength(s: string)
    requires IsAscii(s)
    ensures |Encode(s)| == |s|
  {
    if s != [] {
      AsciiLength(s[1..]);
    }
  }
}
