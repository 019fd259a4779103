/**
 * Base 64 encoding with the standard alphabet and '=' padding (section 4 of RFC 4648),
 * with the two decoders the system uses: the strict one of .NET's
 * Convert.FromBase64String and the forgiving one of the browser's atob()
 * (section 4.2 of the WHATWG Infra standard, "forgiving-base64 decode").
 */
module Base64 {
  import opened Wrappers
  import opened Utf8

  /** The character for a 6-bit value. */
  function Sym(i: nat): (c: char)
    requires i < 64
    ensures c != '=' && !IsAsciiWhite(c)
  {
    if i < 26 then ('A' as int + i) as char
    else if i < 52 then ('a' as int + i - 26) as char
    else if i < 62 then ('0' as int + i - 52) as char
    else if i == 62 then '+'
    else '/'
  }

  /** The 6-bit value of an alphabet character; None for anything else, '=' included. */
  function Index(c: char): (r: Option<nat>)
    ensures r.Some? ==> r.value < 64
    ensures c == '=' ==> r.None?
  {
    if 'A' <= c <= 'Z' then Some(c as int - 'A' as int)
    else if 'a' <= c <= 'z' then Some(c as int - 'a' as int + 26)
    else if '0' <= c <= '9' then Some(c as int - '0' as int + 52)
    else if c == '+' then Some(62)
    else if c == '/' then Some(63)
    else None
  }

  lemma IndexSym(i: nat)
    requires i < 64
    ensures Index(Sym(i)) == Some(i)
  {
  }

  /** The four 6-bit values that carry three bytes, most significant bits first. */
  function Six0(b0: byte): (i: nat) ensures i < 64 { b0 as int / 4 }
  function Six1(b0: byte, b1: byte): (i: nat) ensures i < 64 { (b0 as int % 4) * 16 + b1 as int / 16 }
  function Six2(b1: byte, b2: byte): (i: nat) ensures i < 64 { (b1 as int % 16) * 4 + b2 as int / 64 }
  function Six3(b2: byte): (i: nat) ensures i < 64 { b2 as int % 64 }

  /** The three bytes carried by four 6-bit values; bits beyond a byte are dropped. */
  function Byte0(i0: nat, i1: nat): byte requires i0 < 64 && i1 < 64 { ((i0 * 4 + i1 / 16) % 256) as byte }
  function Byte1(i1: nat, i2: nat): byte requires i1 < 64 && i2 < 64 { (((i1 % 16) * 16 + i2 / 4) % 256) as byte }
  function Byte2(i2: nat, i3: nat): byte requires i2 < 64 && i3 < 64 { (((i2 % 4) * 64 + i3) % 256) as byte }

  /** The alphabet characters without padding: 4 per 3 bytes, 2 or 3 for a tail of 1 or 2. */
  function EncodeUnpadded(b: seq<byte>): (s: string)
    ensures '=' !in s
    ensures |s| % 4 != 1
    ensures forall i :: 0 <= i < |s| ==> !IsAsciiWhite(s[i])
  {
    if |b| == 0 then []
    else if |b| == 1 then [Sym(Six0(b[0])), Sym(Six1(b[0], 0))]
    else if |b| == 2 then [Sym(Six0(b[0])), Sym(Six1(b[0], b[1])), Sym(Six2(b[1], 0))]
    else [Sym(Six0(b[0])), Sym(Six1(b[0], b[1])), Sym(Six2(b[1], b[2])), Sym(Six3(b[2]))] + EncodeUnpadded(b[3..])
  }

  /** Convert.ToBase64String: the alphabet characters, padded with '=' to a multiple of 4. */
  function Encode(b: seq<byte>): (s: string)
    ensures |s| % 4 == 0
    ensures forall i :: 0 <= i < |s| ==> !IsAsciiWhite(s[i])
  {
    var u := EncodeUnpadded(b);
    var pad := if |u| % 4 == 2 then "==" else if |u| % 4 == 3 then "=" else "";
    NoWhiteConcat(u, pad);
    u + pad
  }

  /** Two texts free of ASCII white space joined are free of it. */
  lemma NoWhiteConcat(a: string, b: string)
    requires forall i :: 0 <= i < |a| ==> !IsAsciiWhite(a[i])
    requires forall i :: 0 <= i < |b| ==> !IsAsciiWhite(b[i])
    ensures forall i :: 0 <= i < |a + b| ==> !IsAsciiWhite((a + b)[i])
  {
    forall i | 0 <= i < |a + b|
      ensures !IsAsciiWhite((a + b)[i])
    {
      if i >= |a| {
        assert (a + b)[i] == b[i - |a|];
      }
    }
  }

  /** Decode alphabet characters without padding; a tail of a single character is malformed. */
  function DecodeUnpadded(s: string): (r: Option<seq<byte>>)
  {
    if |s| == 0 then Some([])
    else if |s| == 1 then None
    else if Index(s[0]).None? || Index(s[1]).None? then None
    else
      var i0, i1 := Index(s[0]).value, Index(s[1]).value;
      if |s| == 2 then Some([Byte0(i0, i1)])
      else if Index(s[2]).None? then None
      else
        var i2 := Index(s[2]).value;
        if |s| == 3 then Some([Byte0(i0, i1), Byte1(i1, i2)])
        else if Index(s[3]).None? then None
        else
          var i3 := Index(s[3]).value;
          match DecodeUnpadded(s[4..])
          case None => None
          case Some(rest) => Some([Byte0(i0, i1), Byte1(i1, i2), Byte2(i2, i3)] + rest)
  }

  /** The characters Convert.FromBase64String skips wherever they occur. */
  predicate IsBase64Space(c: char)
  {
    c == ' ' || c == '\t' || c == '\r' || c == '\n'
  }

  /** ASCII white space, which atob() removes: the four above and form feed. */
  predicate IsAsciiWhite(c: char)
  {
    IsBase64Space(c) || c == '\U{C}'
  }

  /** The text without the characters `drop` holds for, in order. */
  function Without(s: string, drop: char -> bool): (r: string)
    ensures |r| <= |s|
    ensures forall i :: 0 <= i < |r| ==> !drop(r[i])
  {
    if s == [] then []
    else if drop(s[0]) then Without(s[1..], drop)
    else [s[0]] + Without(s[1..], drop)
  }

  /**
   * The padding step shared by both decoders: when the length is a multiple of 4,
   * one or two trailing '=' are dropped; a remaining length of 1 modulo 4, or any
   * character outside the alphabet, fails. Bits left over in the last character are ignored.
   */
  function DecodePadded(t: string): Option<seq<byte>>
  {
    DecodeUnpadded(Unpad(t))
  }

  /** The text without its padding: two trailing '=', else one, when the length is a multiple of 4. */
  function Unpad(t: string): (u: string)
    ensures u <= t && |t| - 2 <= |u|
    ensures forall i :: |u| <= i < |t| ==> t[i] == '='
  {
    if |t| % 4 == 0 && |t| >= 2 && t[|t| - 2..] == "==" then t[..|t| - 2]
    else if |t| % 4 == 0 && |t| >= 1 && t[|t| - 1] == '=' then t[..|t| - 1]
    else t
  }

  /** atob(): remove ASCII white space, then decode forgivingly. None stands for the thrown error. */
  function DecodeForgiving(s: string): Option<seq<byte>>
  {
    DecodePadded(Without(s, IsAsciiWhite))
  }

  /**
   * Convert.FromBase64String: space, tab, CR and LF are skipped anywhere; what is
   * left must have a length that is a multiple of 4, and padding may only end it.
   * None stands for the FormatException.
   */
  function DecodeStrict(s: string): Option<seq<byte>>
  {
    var t := Without(s, IsBase64Space);
    if |t| % 4 != 0 then None else DecodePadded(t)
  }

  /** The three bytes come back out of their four 6-bit values. */
  lemma GroupRoundTrip(b0: byte, b1: byte, b2: byte)
    ensures Byte0(Six0(b0), Six1(b0, b1)) == b0
            && Byte1(Six1(b0, b1), Six2(b1, b2)) == b1
            && Byte2(Six2(b1, b2), Six3(b2)) == b2
  {
    var x0, x1, x2 := b0 as int, b1 as int, b2 as int;
    var i1 := (x0 % 4) * 16 + x1 / 16;
    var i2 := (x1 % 16) * 4 + x2 / 64;
    assert i1 / 16 == x0 % 4;
    assert i1 % 16 == x1 / 16;
    assert i2 / 4 == x1 % 16;
    assert i2 % 4 == x2 / 64;
  }

  lemma HeadThree<T>(b: seq<T>)
    requires |b| >= 3
    ensures b == [b[0], b[1], b[2]] + b[3..]
  {
  }

  /** Decoding a group of four alphabet characters followed by more text. */
  lemma DecodeQuad(c: string, rest: string, i0: nat, i1: nat, i2: nat, i3: nat)
    requires |c| == 4
    requires Index(c[0]) == Some(i0) && Index(c[1]) == Some(i1)
    requires Index(c[2]) == Some(i2) && Index(c[3]) == Some(i3)
    ensures DecodeUnpadded(rest).Some? ==>
              DecodeUnpadded(c + rest) == Some([Byte0(i0, i1), Byte1(i1, i2), Byte2(i2, i3)] + DecodeUnpadded(rest).value)
  {
    assert (c + rest)[4..] == rest;
  }

  /** Decoding a final pair or triple of alphabet characters. */
  lemma DecodePair(c: string, i0: nat, i1: nat)
    requires |c| == 2 && Index(c[0]) == Some(i0) && Index(c[1]) == Some(i1)
    ensures DecodeUnpadded(c) == Some([Byte0(i0, i1)])
  {
  }

  lemma DecodeTriple(c: string, i0: nat, i1: nat, i2: nat)
    requires |c| == 3 && Index(c[0]) == Some(i0) && Index(c[1]) == Some(i1) && Index(c[2]) == Some(i2)
    ensures DecodeUnpadded(c) == Some([Byte0(i0, i1), Byte1(i1, i2)])
  {
  }

  lemma DecodeTailOne(b: seq<byte>)
    requires |b| == 1
    ensures DecodeUnpadded(EncodeUnpadded(b)) == Some(b)
  {
    assert b == [b[0]];
    var c := [Sym(Six0(b[0])), Sym(Six1(b[0], 0))];
    assert EncodeUnpadded(b) == c;
    IndexSym(Six0(b[0]));
    IndexSym(Six1(b[0], 0));
    DecodePair(c, Six0(b[0]), Six1(b[0], 0));
    GroupRoundTrip(b[0], 0, 0);
  }

  lemma DecodeTailTwo(b: seq<byte>)
    requires |b| == 2
    ensures DecodeUnpadded(EncodeUnpadded(b)) == Some(b)
  {
    assert b == [b[0], b[1]];
    var c := [Sym(Six0(b[0])), Sym(Six1(b[0], b[1])), Sym(Six2(b[1], 0))];
    assert EncodeUnpadded(b) == c;
    IndexSym(Six0(b[0]));
    IndexSym(Six1(b[0], b[1]));
    IndexSym(Six2(b[1], 0));
    DecodeTriple(c, Six0(b[0]), Six1(b[0], b[1]), Six2(b[1], 0));
    GroupRoundTrip(b[0], b[1], 0);
  }

  lemma DecodeGroup(b: seq<byte>)
    requires |b| >= 3
    requires DecodeUnpadded(EncodeUnpadded(b[3..])) == Some(b[3..])
    ensures DecodeUnpadded(EncodeUnpadded(b)) == Some(b)
  {
    HeadThree(b);
    var c := [Sym(Six0(b[0])), Sym(Six1(b[0], b[1])), Sym(Six2(b[1], b[2])), Sym(Six3(b[2]))];
    assert EncodeUnpadded(b) == c + EncodeUnpadded(b[3..]);
    IndexSym(Six0(b[0]));
    IndexSym(Six1(b[0], b[1]));
    IndexSym(Six2(b[1], b[2]));
    IndexSym(Six3(b[2]));
    DecodeQuad(c, EncodeUnpadded(b[3..]), Six0(b[0]), Six1(b[0], b[1]), Six2(b[1], b[2]), Six3(b[2]));
    GroupRoundTrip(b[0], b[1], b[2]);
  }

  lemma {:induction false} DecodeEncodeUnpadded(b: seq<byte>)
    ensures DecodeUnpadded(EncodeUnpadded(b)) == Some(b)
  {
    if |b| == 1 {
      DecodeTailOne(b);
    } else if |b| == 2 {
      DecodeTailTwo(b);
    } else if |b| >= 3 {
      DecodeEncodeUnpadded(b[3..]);
      DecodeGroup(b);
    }
  }

  /** Text none of whose characters `drop` holds for is kept whole. */
  lemma {:induction false} WithoutNone(s: string, drop: char -> bool)
    requires forall i :: 0 <= i < |s| ==> !drop(s[i])
    ensures Without(s, drop) == s
  {
    if s != [] {
      WithoutNone(s[1..], drop);
    }
  }

  /** Filtering distributes over concatenation. */
  lemma {:induction false} WithoutConcat(a: string, b: string, drop: char -> bool)
    ensures Without(a + b, drop) == Without(a, drop) + Without(b, drop)
  {
    if a != [] {
      assert (a + b)[0] == a[0] && (a + b)[1..] == a[1..] + b;
      WithoutConcat(a[1..], b, drop);
      if !drop(a[0]) {
        assert [a[0]] + (Without(a[1..], drop) + Without(b, drop)) == ([a[0]] + Without(a[1..], drop)) + Without(b, drop);
      }
    } else {
      assert a + b == b;
    }
  }

  /** Removing ASCII white space after the four skipped characters is removing it at once. */
  lemma {:induction false} WithoutTwice(s: string)
    ensures Without(Without(s, IsBase64Space), IsAsciiWhite) == Without(s, IsAsciiWhite)
  {
    if s != [] {
      WithoutTwice(s[1..]);
      if !IsBase64Space(s[0]) {
        assert Without(s, IsBase64Space) == [s[0]] + Without(s[1..], IsBase64Space);
        assert ([s[0]] + Without(s[1..], IsBase64Space))[1..] == Without(s[1..], IsBase64Space);
      }
    }
  }

  /** Alphabet characters are all that decode. */
  lemma {:induction false} DecodedAlphabet(u: string)
    requires DecodeUnpadded(u).Some?
    ensures forall i :: 0 <= i < |u| ==> Index(u[i]).Some?
  {
    if |u| >= 4 {
      DecodedAlphabet(u[4..]);
      forall i | 4 <= i < |u|
        ensures Index(u[i]).Some?
      {
        assert u[i] == u[4..][i - 4];
      }
    }
  }

  /** Text that decodes after its padding is dropped holds only alphabet characters and '='. */
  lemma DecodedPaddedAlphabet(t: string)
    requires DecodePadded(t).Some?
    ensures forall i :: 0 <= i < |t| ==> t[i] == '=' || Index(t[i]).Some?
  {
    var u := Unpad(t);
    DecodedAlphabet(u);
    forall i | 0 <= i < |t|
      ensures t[i] == '=' || Index(t[i]).Some?
    {
      if i < |u| {
        assert u[i] == t[i];
      }
    }
  }

  /** Round trip: the strict decoder recovers exactly the bytes that were encoded. */
  lemma DecodeStrictEncode(b: seq<byte>)
    ensures DecodeStrict(Encode(b)) == Some(b)
  {
    WithoutNone(Encode(b), IsBase64Space);
    DecodePaddedEncode(b);
  }

  /** Dropping the padding of an encoding leaves the characters that decode to the bytes. */
  lemma DecodePaddedEncode(b: seq<byte>)
    ensures DecodePadded(Encode(b)) == Some(b)
  {
    var u := EncodeUnpadded(b);
    var pad := if |u| % 4 == 2 then "==" else if |u| % 4 == 3 then "=" else "";
    assert Encode(b) == u + pad;
    StripPadding(u, pad);
    DecodeEncodeUnpadded(b);
  }

  /** Unpad removes exactly the padding Encode adds to a text free of '='. */
  lemma StripPadding(u: string, pad: string)
    requires '=' !in u && |u| % 4 != 1
    requires pad == if |u| % 4 == 2 then "==" else if |u| % 4 == 3 then "=" else ""
    ensures Unpad(u + pad) == u
  {
    var s := u + pad;
    if |u| % 4 == 2 {
      assert s[|s| - 2..] == "==" && s[..|s| - 2] == u;
    } else if |u| % 4 == 3 {
      assert s[|s| - 2..] != "==" by { assert s[|s| - 2] == u[|u| - 1]; }
      assert s[|s| - 1] == '=' && s[..|s| - 1] == u;
    } else {
      assert s == u;
      if |u| > 0 {
        assert s[|s| - 1] == u[|u| - 1];
        assert s[|s| - 2..] != "==" by { assert s[|s| - 2..][1] == s[|s| - 1]; }
      }
    }
  }

  /** Space, tab, CR and LF anywhere in the text do not change what the strict decoder gives. */
  lemma SpaceSkipped(a: string, c: char, b: string)
    requires IsBase64Space(c)
    ensures DecodeStrict(a + [c] + b) == DecodeStrict(a + b)
  {
    WithoutConcat(a + [c], b, IsBase64Space);
    WithoutConcat(a, [c], IsBase64Space);
    WithoutConcat(a, b, IsBase64Space);
    assert Without([c], IsBase64Space) == [];
    assert Without(a, IsBase64Space) + [] == Without(a, IsBase64Space);
  }

  /** The forgiving decoder agrees with the strict one on everything the strict one accepts. */
  lemma StrictImpliesForgiving(s: string)
    requires DecodeStrict(s).Some?
    ensures DecodeForgiving(s) == DecodeStrict(s)
  {
    var t := Without(s, IsBase64Space);
    DecodedPaddedAlphabet(t);
    forall i | 0 <= i < |t|
      ensures !IsAsciiWhite(t[i])
    {
      assert t[i] == '=' || Index(t[i]).Some?;
    }
    WithoutNone(t, IsAsciiWhite);
    WithoutTwice(s);
  }
}
