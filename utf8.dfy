/**
 * Strict UTF-8, as `std::str::from_utf8` accepts it (no overlong forms, no
 * surrogates, nothing above U+10FFFF), and the encoding of a `String`.
 */
module Utf8 {
  import opened Wrappers
  import Text

  predicate IsCont(b: byte)
  {
    0x80 <= b <= 0xBF
  }

  /** The UTF-8 bytes of one scalar value. */
  function EncodeChar(c: char): (r: seq<byte>)
    ensures 1 <= |r| <= 4
  {
    var n := c as int;
    if n < 0x80 then [n]
    else if n < 0x800 then [(0xC0 + n / 64), (0x80 + n % 64)]
    else if n < 0x1_0000 then
      [(0xE0 + n / 64 / 64), (0x80 + (n / 64) % 64), (0x80 + n % 64)]
    else
      [(0xF0 + n / 64 / 64 / 64), (0x80 + (n / 64 / 64) % 64),
       (0x80 + (n / 64) % 64), (0x80 + n % 64)]
  }

  /** The UTF-8 bytes of a string. */
  function Encode(s: string): seq<byte>
  {
    if s == [] then [] else EncodeChar(s[0]) + Encode(s[1..])
  }

  predicate IsScalar(n: int)
  {
    (0 <= n < 0xD800) || (0xE000 <= n < 0x11_0000)
  }

  /** Decodes the first scalar value of `b`, with the number of bytes it took. */
  function DecodeChar(b: seq<byte>): (r: Option<(char, nat)>)
    ensures r.Some? ==> 1 <= r.value.1 <= |b|
  {
    if |b| == 0 then None
    else
      var b0 := b[0] as int;
      if b0 < 0x80 then Some((b0 as char, 1))
      else if 0xC2 <= b0 <= 0xDF then
        if |b| >= 2 && IsCont(b[1]) then
          var n := (b0 - 0xC0) * 64 + (b[1] as int - 0x80);
          Some((n as char, 2))
        else None
      else if 0xE0 <= b0 <= 0xEF then
        if |b| >= 3 && IsCont(b[1]) && IsCont(b[2])
           && (b0 != 0xE0 || b[1] >= 0xA0) && (b0 != 0xED || b[1] <= 0x9F) then
          var n := (b0 - 0xE0) * 4096 + (b[1] as int - 0x80) * 64 + (b[2] as int - 0x80);
          Some((n as char, 3))
        else None
      else if 0xF0 <= b0 <= 0xF4 then
        if |b| >= 4 && IsCont(b[1]) && IsCont(b[2]) && IsCont(b[3])
           && (b0 != 0xF0 || b[1] >= 0x90) && (b0 != 0xF4 || b[1] <= 0x8F) then
          var n := (b0 - 0xF0) * 262144 + (b[1] as int - 0x80) * 4096
                   + (b[2] as int - 0x80) * 64 + (b[3] as int - 0x80);
          Some((n as char, 4))
        else None
      else None
  }

  /** `str::from_utf8`: the decoded string, or None when the bytes are not valid UTF-8. */
  function Decode(b: seq<byte>): Option<string>
    decreases |b|
  {
    if b == [] then Some("")
    else match DecodeChar(b)
      case None => None
      case Some((c, k)) =>
        match Decode(b[k..])
        case None => None
        case Some(rest) => Some([c] + rest)
  }

  /** Decoding the bytes of one character, whatever follows, yields that character and its width. */
  lemma DecodeEncodeChar(c: char, rest: seq<byte>)
    ensures DecodeChar(EncodeChar(c) + rest) == Some((c, |EncodeChar(c)|))
  {
    var n := c as int;
    if n < 0x80 {
    } else if n < 0x800 {
      DecodeTwo(n, rest);
    } else if n < 0x1_0000 {
      DecodeThree(n, rest);
    } else {
      DecodeFour(n, rest);
    }
  }

  lemma DecodeTwo(n: int, rest: seq<byte>)
    requires 0x80 <= n < 0x800
    ensures DecodeChar([0xC0 + n / 64, 0x80 + n % 64] + rest) == Some((n as char, 2))
  {
    var b: seq<byte> := [0xC0 + n / 64, 0x80 + n % 64] + rest;
    assert b[0] == 0xC0 + n / 64 && b[1] == 0x80 + n % 64;
    assert (b[0] as int - 0xC0) * 64 + (b[1] as int - 0x80) == n;
  }

  lemma DecodeThree(n: int, rest: seq<byte>)
    requires 0x800 <= n < 0x1_0000 && IsScalar(n)
    ensures DecodeChar([0xE0 + n / 64 / 64, 0x80 + (n / 64) % 64, 0x80 + n % 64] + rest) == Some((n as char, 3))
  {
    var a := n / 64;
    var h, m, l := a / 64, a % 64, n % 64;
    assert n == a * 64 + l && a == h * 64 + m;
    var b: seq<byte> := [0xE0 + h, 0x80 + m, 0x80 + l] + rest;
    assert b[0] == 0xE0 + h && b[1] == 0x80 + m && b[2] == 0x80 + l;
    assert h * 4096 + m * 64 + l == n;
  }

  lemma DecodeFour(n: int, rest: seq<byte>)
    requires 0x1_0000 <= n < 0x11_0000
    ensures DecodeChar([0xF0 + n / 64 / 64 / 64, 0x80 + (n / 64 / 64) % 64, 0x80 + (n / 64) % 64, 0x80 + n % 64] + rest)
         == Some((n as char, 4))
  {
    var a := n / 64;
    var c := a / 64;
    var t, h, m, l := c / 64, c % 64, a % 64, n % 64;
    assert n == a * 64 + l && a == c * 64 + m && c == t * 64 + h;
    var b: seq<byte> := [0xF0 + t, 0x80 + h, 0x80 + m, 0x80 + l] + rest;
    assert b[0] == 0xF0 + t && b[1] == 0x80 + h && b[2] == 0x80 + m && b[3] == 0x80 + l;
    assert t * 262144 + h * 4096 + m * 64 + l == n;
  }

  /** Decoding an encoded string gives the string back. */
  lemma {:induction false} DecodeEncode(s: string)
    ensures Decode(Encode(s)) == Some(s)
  {
    if s != [] {
      var e := EncodeChar(s[0]);
      DecodeEncodeChar(s[0], Encode(s[1..]));
      assert (e + Encode(s[1..]))[|e|..] == Encode(s[1..]);
      DecodeEncode(s[1..]);
      assert [s[0]] + s[1..] == s;
    }
  }

  /** A NUL-free string has NUL-free bytes. */
  lemma {:induction false} EncodeNoNul(s: string)
    requires '\0' !in s
    ensures 0 !in Encode(s)
  {
    if s != [] {
      EncodeNoNul(s[1..]);
    }
  }

  /** The encoding takes exactly as many bytes as `str::len` counts. */
  lemma {:induction false} EncodeLength(s: string)
    ensures |Encode(s)| == Text.Utf8Len(s)
  {
    if s != [] {
      EncodeLength(s[1..]);
    }
  }
}
