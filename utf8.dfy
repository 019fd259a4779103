/**
 * UTF-8 (RFC 3629) as .NET's Encoding.UTF8 applies it: encoding of Unicode scalar
 * values, and a decoder that turns every byte that does not start a well-formed
 * sequence into U+FFFD instead of failing.
 */
module Utf8 {
  import opened Wrappers

  newtype byte = x: int | 0 <= x < 256

  const Replacement: char := '\U{FFFD}'

  /** The bytes of one scalar value: 1 to 4 bytes by range. */
  function EncodeChar(c: char): (b: seq<byte>)
    ensures 1 <= |b| <= 4
  {
    var n := c as int;
    if n < 0x80 then [n as byte]
    else if n < 0x800 then [(0xC0 + n / 64) as byte, (0x80 + n % 64) as byte]
    else if n < 0x10000 then
      [(0xE0 + n / 4096) as byte, (0x80 + (n / 64) % 64) as byte, (0x80 + n % 64) as byte]
    else
      [(0xF0 + n / 262144) as byte, (0x80 + (n / 4096) % 64) as byte,
       (0x80 + (n / 64) % 64) as byte, (0x80 + n % 64) as byte]
  }

  /** Encoding.UTF8.GetBytes */
  function Encode(s: string): (b: seq<byte>)
  {
    if s == [] then [] else EncodeChar(s[0]) + Encode(s[1..])
  }

  lemma {:induction false} EncodeAppend(a: string, b: string)
    ensures Encode(a + b) == Encode(a) + Encode(b)
  {
    if a == [] {
      assert a + b == b;
    } else {
      assert (a + b)[0] == a[0];
      assert (a + b)[1..] == a[1..] + b;
      EncodeAppend(a[1..], b);
    }
  }

  /** An ASCII string encodes byte for byte. */
  lemma EncodeAscii(s: string)
    requires forall i :: 0 <= i < |s| ==> s[i] as int < 0x80
    ensures |Encode(s)| == |s|
    ensures forall i :: 0 <= i < |s| ==> Encode(s)[i] as int == s[i] as int
  {
    if s != [] { EncodeAscii(s[1..]); }
  }

  predicate IsCont(b: byte)
  {
    0x80 <= b < 0xC0
  }

  predicate IsScalar(n: int)
  {
    (0 <= n < 0xD800) || (0xE000 <= n < 0x110000)
  }

  /**
   * Decode the sequence that starts `b`: the character and the number of bytes it
   * used. A byte that does not start a well-formed sequence (a stray continuation
   * byte, an overlong form, a surrogate, a value above U+10FFFF, a truncated
   * sequence) becomes U+FFFD and uses one byte.
   */
  function DecodeOne(b: seq<byte>): (r: (char, nat))
    requires b != []
    ensures 1 <= r.1 <= |b| && r.1 <= 4
  {
    var b0 := b[0] as int;
    if b0 < 0x80 then (b0 as char, 1)
    else if 0xC2 <= b0 < 0xE0 && |b| >= 2 && IsCont(b[1]) then
      (((b0 - 0xC0) * 64 + (b[1] as int - 0x80)) as char, 2)
    else if 0xE0 <= b0 < 0xF0 && |b| >= 3 && IsCont(b[1]) && IsCont(b[2]) then
      var n := (b0 - 0xE0) * 4096 + (b[1] as int - 0x80) * 64 + (b[2] as int - 0x80);
      if 0x800 <= n && IsScalar(n) then (n as char, 3) else (Replacement, 1)
    else if 0xF0 <= b0 < 0xF5 && |b| >= 4 && IsCont(b[1]) && IsCont(b[2]) && IsCont(b[3]) then
      var n := (b0 - 0xF0) * 262144 + (b[1] as int - 0x80) * 4096
               + (b[2] as int - 0x80) * 64 + (b[3] as int - 0x80);
      if 0x10000 <= n < 0x110000 then (n as char, 4) else (Replacement, 1)
    else (Replacement, 1)
  }

  /** Encoding.UTF8.GetString */
  function Decode(b: seq<byte>): string
    decreases |b|
  {
    if b == [] then [] else
      var (c, k) := DecodeOne(b);
      [c] + Decode(b[k..])
  }

  lemma Split64(n: int)
    requires n >= 0
    ensures n == (n / 64) * 64 + n % 64
    ensures 0 <= n % 64 < 64
  {
  }

  /** Decoding the first sequence of an encoded character gives the character and its length. */
  lemma DecodeOneEncodeChar(c: char, rest: seq<byte>)
    ensures DecodeOne(EncodeChar(c) + rest) == (c, |EncodeChar(c)|)
  {
    var n := c as int;
    if n < 0x80 {
    } else if n < 0x800 {
      DecodeTwo(c, rest);
    } else if n < 0x10000 {
      DecodeThree(c, rest);
    } else {
      DecodeFour(c, rest);
    }
  }

  lemma DecodeTwo(c: char, rest: seq<byte>)
    requires 0x80 <= c as int < 0x800
    ensures DecodeOne(EncodeChar(c) + rest) == (c, 2)
  {
    var n := c as int;
    var b := EncodeChar(c) + rest;
    Split64(n);
    assert b[0] as int == 0xC0 + n / 64 && b[1] as int == 0x80 + n % 64;
  }

  lemma DecodeThree(c: char, rest: seq<byte>)
    requires 0x800 <= c as int < 0x10000
    ensures DecodeOne(EncodeChar(c) + rest) == (c, 3)
  {
    var n := c as int;
    var b := EncodeChar(c) + rest;
    var q := n / 64;
    Split64(n);
    Split64(q);
    assert q / 64 == n / 4096;
    assert b[0] as int == 0xE0 + n / 4096;
    assert b[1] as int == 0x80 + q % 64 && b[2] as int == 0x80 + n % 64;
    assert (n / 4096) * 4096 + (q % 64) * 64 + n % 64 == n;
  }

  lemma DecodeFour(c: char, rest: seq<byte>)
    requires 0x10000 <= c as int
    ensures DecodeOne(EncodeChar(c) + rest) == (c, 4)
  {
    var n := c as int;
    var b := EncodeChar(c) + rest;
    var q := n / 64;
    var q2 := q / 64;
    Split64(n);
    Split64(q);
    Split64(q2);
    assert q2 == n / 4096;
    assert q2 / 64 == n / 262144;
    assert b[0] as int == 0xF0 + n / 262144;
    assert b[1] as int == 0x80 + q2 % 64;
    assert b[2] as int == 0x80 + q % 64 && b[3] as int == 0x80 + n % 64;
    assert (n / 262144) * 262144 + (q2 % 64) * 4096 + (q % 64) * 64 + n % 64 == n;
  }

  /** Decoding what Encode produced gives the string back. */
  lemma {:induction false} DecodeEncode(s: string)
    ensures Decode(Encode(s)) == s
  {
    if s != [] {
      var e := EncodeChar(s[0]);
      DecodeOneEncodeChar(s[0], Encode(s[1..]));
      assert (e + Encode(s[1..]))[|e|..] == Encode(s[1..]);
      DecodeEncode(s[1..]);
    }
  }

  /**
   * A strict decoder, as decodeURIComponent applies it: None as soon as a byte does not
   * start a well-formed sequence, where the lenient decoder puts U+FFFD.
   */
  function DecodeValid(b: seq<byte>): (r: Option<string>)
    decreases |b|
  {
    if b == [] then Some([]) else
      var (c, k) := DecodeOne(b);
      if c == Replacement && k == 1 then None
      else match DecodeValid(b[k..])
        case None => None
        case Some(rest) => Some([c] + rest)
  }

  /** Where the strict decoder succeeds, the lenient one gives the same text. */
  lemma {:induction false} DecodeValidAgrees(b: seq<byte>)
    requires DecodeValid(b).Some?
    ensures Decode(b) == DecodeValid(b).value
    decreases |b|
  {
    if b != [] {
      var (c, k) := DecodeOne(b);
      DecodeValidAgrees(b[k..]);
    }
  }

  /** The strict decoder accepts what Encode produced and gives the string back. */
  lemma {:induction false} DecodeValidEncode(s: string)
    ensures DecodeValid(Encode(s)) == Some(s)
  {
    if s != [] {
      var e := EncodeChar(s[0]);
      var b := Encode(s);
      assert b == e + Encode(s[1..]);
      DecodeOneEncodeChar(s[0], Encode(s[1..]));
      assert DecodeOne(b) == (s[0], |e|);
      assert s[0] == Replacement ==> |e| == 3;
      assert b[|e|..] == Encode(s[1..]);
      DecodeValidEncode(s[1..]);
      assert DecodeValid(b) == Some([s[0]] + s[1..]);
      assert [s[0]] + s[1..] == s;
    }
  }

  /** A byte that starts no sequence, such as 0xFF, makes the strict decoder fail. */
  lemma StrayByteRefused(x: byte, rest: seq<byte>)
    requires IsCont(x) || 0xF5 <= x
    ensures DecodeValid([x] + rest).None?
  {
    assert ([x] + rest)[0] == x;
  }
}
