/**
 * Standard Base64 with padding, as in section 4 of RFC 4648 (Node's `toString('base64')`).
 */
module Base64 {
  import opened Wrappers
  import opened Bytes

  /** The character for a 6-bit value, from the alphabet table of RFC 4648, section 4. */
  function Char(v: int): (c: char)
    requires 0 <= v < 64
    ensures IsAlphabet(c)
  {
    if v < 26 then ('A' as int + v) as char
    else if v < 52 then ('a' as int + v - 26) as char
    else if v < 62 then ('0' as int + v - 52) as char
    else if v == 62 then '+'
    else '/'
  }

  /** The 64 characters of the alphabet. */
  predicate IsAlphabet(c: char) {
    'A' <= c <= 'Z' || 'a' <= c <= 'z' || '0' <= c <= '9' || c == '+' || c == '/'
  }

  const Pad: char := '='

  function Value(c: char): (v: int)
    requires IsAlphabet(c)
    ensures 0 <= v < 64 && Char(v) == c
  {
    if 'A' <= c <= 'Z' then c as int - 'A' as int
    else if 'a' <= c <= 'z' then c as int - 'a' as int + 26
    else if '0' <= c <= '9' then c as int - '0' as int + 52
    else if c == '+' then 62
    else 63
  }

  lemma ValueOfChar(v: int)
    requires 0 <= v < 64
    ensures Value(Char(v)) == v
  {
  }

  /** Number of `=` characters that close the encoding of `n` bytes. */
  function Padding(n: nat): nat {
    (3 - n % 3) % 3
  }

  /** The four characters for a full group of three bytes. */
  function Quad(b0: byte, b1: byte, b2: byte): (s: string)
    ensures |s| == 4 && forall i | 0 <= i < 4 :: IsAlphabet(s[i])
  {
    var x, y, z := b0 as int, b1 as int, b2 as int;
    [Char(x / 4), Char(x % 4 * 16 + y / 16), Char(y % 16 * 4 + z / 64), Char(z % 64)]
  }

  /** The four characters, padding included, for a last group of one or two bytes. */
  function Final(b: seq<byte>): (s: string)
    requires 1 <= |b| <= 2
    ensures |s| == 4
    ensures forall i | 0 <= i < 4 - Padding(|b|) :: IsAlphabet(s[i])
    ensures forall i | 4 - Padding(|b|) <= i < 4 :: s[i] == Pad
  {
    var x := b[0] as int;
    if |b| == 1 then [Char(x / 4), Char(x % 4 * 16), Pad, Pad]
    else
      var y := b[1] as int;
      [Char(x / 4), Char(x % 4 * 16 + y / 16), Char(y % 16 * 4), Pad]
  }

  /** Four characters for each group of three bytes; a last group of one or two bytes is padded. */
  function Encode(b: seq<byte>): (s: string)
    ensures |s| == 4 * ((|b| + 2) / 3)
    ensures forall i | 0 <= i < |s| - Padding(|b|) :: IsAlphabet(s[i])
    ensures forall i | |s| - Padding(|b|) <= i < |s| :: s[i] == Pad
    decreases |b|
  {
    if |b| == 0 then []
    else if |b| < 3 then Final(b)
    else Quad(b[0], b[1], b[2]) + Encode(b[3..])
  }

  /** The three bytes a group of four alphabet characters stands for. */
  function Group(c0: int, c1: int, c2: int, c3: int): seq<byte>
    requires 0 <= c0 < 64 && 0 <= c1 < 64 && 0 <= c2 < 64 && 0 <= c3 < 64
  {
    [(c0 * 4 + c1 / 16) as byte, (c1 % 16 * 16 + c2 / 4) as byte, (c2 % 4 * 64 + c3) as byte]
  }

  /** Decodes a last group that ends in padding; the unused bits must be zero. */
  function DecodeFinal(q: string): Option<seq<byte>>
    requires |q| == 4
  {
    if !IsAlphabet(q[0]) || !IsAlphabet(q[1]) || q[3] != Pad then None
    else if q[2] == Pad then
      if Value(q[1]) % 16 == 0 then Some(Group(Value(q[0]), Value(q[1]), 0, 0)[..1]) else None
    else if IsAlphabet(q[2]) && Value(q[2]) % 4 == 0 then
      Some(Group(Value(q[0]), Value(q[1]), Value(q[2]), 0)[..2])
    else None
  }

  /**
   * The inverse of `Encode`: reads groups of four characters, with padding only in the last
   * group, and rejects texts whose unused padding bits are not zero.
   */
  function Decode(s: string): Option<seq<byte>>
    decreases |s|
  {
    if s == [] then Some([])
    else if |s| < 4 then None
    else if |s| == 4 && s[3] == Pad then DecodeFinal(s)
    else if !IsAlphabet(s[0]) || !IsAlphabet(s[1]) || !IsAlphabet(s[2]) || !IsAlphabet(s[3]) then None
    else match Decode(s[4..])
      case None => None
      case Some(rest) => Some(Group(Value(s[0]), Value(s[1]), Value(s[2]), Value(s[3])) + rest)
  }

  lemma GroupOfQuad(b0: byte, b1: byte, b2: byte)
    ensures var q := Quad(b0, b1, b2);
      Group(Value(q[0]), Value(q[1]), Value(q[2]), Value(q[3])) == [b0, b1, b2]
  {
    var x, y, z := b0 as int, b1 as int, b2 as int;
    var c0, c1, c2, c3 := x / 4, x % 4 * 16 + y / 16, y % 16 * 4 + z / 64, z % 64;
    ValueOfChar(c0);
    ValueOfChar(c1);
    ValueOfChar(c2);
    ValueOfChar(c3);
    assert c1 / 16 == x % 4 && c1 % 16 == y / 16;
    assert c2 / 4 == y % 16 && c2 % 4 == z / 64;
    assert c0 * 4 + c1 / 16 == x;
    assert c1 % 16 * 16 + c2 / 4 == y;
    assert c2 % 4 * 64 + c3 == z;
  }

  lemma DecodeFinalOfFinal(b: seq<byte>)
    requires 1 <= |b| <= 2
    ensures DecodeFinal(Final(b)) == Some(b)
  {
    var x := b[0] as int;
    ValueOfChar(x / 4);
    if |b| == 1 {
      ValueOfChar(x % 4 * 16);
      assert (x % 4 * 16) / 16 == x % 4 && (x % 4 * 16) % 16 == 0;
      assert x / 4 * 4 + x % 4 == x;
      var g := Group(x / 4, x % 4 * 16, 0, 0);
      assert g[0] == b[0];
      assert g[..1] == b;
    } else {
      var y := b[1] as int;
      var c1 := x % 4 * 16 + y / 16;
      ValueOfChar(c1);
      ValueOfChar(y % 16 * 4);
      assert c1 / 16 == x % 4 && c1 % 16 == y / 16;
      assert (y % 16 * 4) / 4 == y % 16;
      assert x / 4 * 4 + x % 4 == x;
      assert y / 16 * 16 + y % 16 == y;
      assert (y % 16 * 4) % 4 == 0;
      var g := Group(x / 4, c1, y % 16 * 4, 0);
      assert g[0] == b[0] && g[1] == b[1];
      assert g[..2] == b;
    }
  }

  /** Decoding the Base64 text of any bytes gives the bytes back. */
  lemma {:induction false} DecodeEncode(b: seq<byte>)
    ensures Decode(Encode(b)) == Some(b)
    decreases |b|
  {
    if 1 <= |b| < 3 {
      DecodeFinalOfFinal(b);
    } else if |b| >= 3 {
      var s := Encode(b);
      GroupOfQuad(b[0], b[1], b[2]);
      assert s[..4] == Quad(b[0], b[1], b[2]) && s[4..] == Encode(b[3..]);
      DecodeEncode(b[3..]);
      assert b == [b[0], b[1], b[2]] + b[3..];
    }
  }

  lemma QuadOfGroup(c0: int, c1: int, c2: int, c3: int)
    requires 0 <= c0 < 64 && 0 <= c1 < 64 && 0 <= c2 < 64 && 0 <= c3 < 64
    ensures var g := Group(c0, c1, c2, c3);
      Quad(g[0], g[1], g[2]) == [Char(c0), Char(c1), Char(c2), Char(c3)]
  {
    var g := Group(c0, c1, c2, c3);
    var x, y, z := g[0] as int, g[1] as int, g[2] as int;
    assert x / 4 == c0 && x % 4 == c1 / 16;
    assert y / 16 == c1 % 16 && y % 16 == c2 / 4;
    assert z / 64 == c2 % 4 && z % 64 == c3;
    assert x % 4 * 16 + y / 16 == c1;
    assert y % 16 * 4 + z / 64 == c2;
  }

  lemma FinalOfDecodeFinal(q: string, b: seq<byte>)
    requires |q| == 4 && DecodeFinal(q) == Some(b)
    ensures 1 <= |b| <= 2 && Final(b) == q
  {
    var c0, c1 := Value(q[0]), Value(q[1]);
    var x := (c0 * 4 + c1 / 16);
    assert b[0] as int == x && x / 4 == c0 && x % 4 == c1 / 16;
    if q[2] == Pad {
      assert x % 4 * 16 == c1;
    } else {
      var c2 := Value(q[2]);
      var y := c1 % 16 * 16 + c2 / 4;
      assert b[1] as int == y && y / 16 == c1 % 16 && y % 16 == c2 / 4;
      assert x % 4 * 16 + y / 16 == c1;
      assert y % 16 * 4 == c2;
    }
  }

  /** Conversely, any text that decodes is the Base64 text of what it decodes to. */
  lemma {:induction false} EncodeDecode(s: string, b: seq<byte>)
    requires Decode(s) == Some(b)
    ensures Encode(b) == s
    decreases |s|
  {
    if s != [] {
      if |s| == 4 && s[3] == Pad {
        FinalOfDecodeFinal(s, b);
      } else {
        var c0, c1, c2, c3 := Value(s[0]), Value(s[1]), Value(s[2]), Value(s[3]);
        var rest := Decode(s[4..]).value;
        EncodeDecode(s[4..], rest);
        QuadOfGroup(c0, c1, c2, c3);
        assert b == Group(c0, c1, c2, c3) + rest;
        assert b[3..] == rest;
        assert s == [Char(c0), Char(c1), Char(c2), Char(c3)] + s[4..];
      }
    }
  }

  /** Distinct byte sequences have distinct Base64 texts. */
  lemma EncodeInjective(a: seq<byte>, b: seq<byte>)
    requires Encode(a) == Encode(b)
    ensures a == b
  {
    DecodeEncode(a);
    DecodeEncode(b);
  }
}
