/** Lower-case hexadecimal text of a byte sequence, as Python's `bytes.hex()` produces it. */
module Hex {
  import opened Wrappers
  import opened Bytes

  /** The lower-case digit for a nibble. */
  function Digit(v: int): char
    requires 0 <= v < 16
  {
    if v < 10 then ('0' as int + v) as char else ('a' as int + v - 10) as char
  }

  /** The sixteen characters `0-9a-f`. */
  predicate IsDigit(c: char) {
    '0' <= c <= '9' || 'a' <= c <= 'f'
  }

  function DigitValue(c: char): (v: int)
    requires IsDigit(c)
    ensures 0 <= v < 16 && Digit(v) == c
  {
    if c <= '9' then c as int - '0' as int else c as int - 'a' as int + 10
  }

  /** Two digits per byte, high nibble first. */
  function Encode(b: seq<byte>): (s: string)
    ensures |s| == 2 * |b|
    ensures forall i | 0 <= i < |s| :: IsDigit(s[i])
  {
    if b == [] then [] else [Digit(b[0] as int / 16), Digit(b[0] as int % 16)] + Encode(b[1..])
  }

  /** The inverse of `Encode`: reads pairs of lower-case digits and fails on anything else. */
  function Decode(s: string): Option<seq<byte>>
    decreases |s|
  {
    if s == [] then Some([])
    else if |s| < 2 || !IsDigit(s[0]) || !IsDigit(s[1]) then None
    else match Decode(s[2..])
      case None => None
      case Some(rest) => Some([(DigitValue(s[0]) * 16 + DigitValue(s[1])) as byte] + rest)
  }

  /** Decoding the hex text of any bytes gives the bytes back. */
  lemma {:induction false} DecodeEncode(b: seq<byte>)
    ensures Decode(Encode(b)) == Some(b)
  {
    if b != [] {
      var s := Encode(b);
      assert s[2..] == Encode(b[1..]);
      DecodeEncode(b[1..]);
      var hi, lo := b[0] as int / 16, b[0] as int % 16;
      assert DigitValue(s[0]) == hi && DigitValue(s[1]) == lo;
      assert [b[0]] + b[1..] == b;
    }
  }

  /** Conversely, any text that decodes is the hex text of what it decodes to. */
  lemma {:induction false} EncodeDecode(s: string, b: seq<byte>)
    requires Decode(s) == Some(b)
    ensures Encode(b) == s
  {
    if s != [] {
      var rest := Decode(s[2..]).value;
      EncodeDecode(s[2..], rest);
      var v := DigitValue(s[0]) * 16 + DigitValue(s[1]);
      assert v / 16 == DigitValue(s[0]) && v % 16 == DigitValue(s[1]);
      assert b[1..] == rest;
      assert s == [s[0], s[1]] + s[2..];
    }
  }

  /** Distinct byte sequences have distinct hex texts. */
  lemma EncodeInjective(a: seq<byte>, b: seq<byte>)
    requires Encode(a) == Encode(b)
    ensures a == b
  {
    DecodeEncode(a);
    DecodeEncode(b);
  }
}
