/**
 * Character and string primitives that the .NET and JavaScript code relies on:
 * ordinal and case-insensitive comparison, prefix tests, searching, splitting,
 * trimming, and decimal integer formatting and parsing.
 *
 * Case mapping is ASCII-only: the invariant-culture mappings of letters outside
 * A-Z/a-z are not part of this model.
 */
module Text {
  import opened Wrappers

  // ---------------------------------------------------------------- case

  function LowerChar(c: char): char
  {
    if 'A' <= c <= 'Z' then (c as int + 32) as char else c
  }

  function UpperChar(c: char): char
  {
    if 'a' <= c <= 'z' then (c as int - 32) as char else c
  }

  function Lower(s: string): (r: string)
    ensures |r| == |s|
    ensures forall i :: 0 <= i < |s| ==> r[i] == LowerChar(s[i])
  {
    if s == [] then [] else [LowerChar(s[0])] + Lower(s[1..])
  }

  function Upper(s: string): (r: string)
    ensures |r| == |s|
    ensures forall i :: 0 <= i < |s| ==> r[i] == UpperChar(s[i])
  {
    if s == [] then [] else [UpperChar(s[0])] + Upper(s[1..])
  }

  lemma LowerIdempotent(s: string)
    ensures Lower(Lower(s)) == Lower(s)
  {
  }

  lemma UpperIdempotent(s: string)
    ensures Upper(Upper(s)) == Upper(s)
  {
  }

  lemma LowerAppend(a: string, b: string)
    ensures Lower(a + b) == Lower(a) + Lower(b)
  {
  }

  /** Ordinal case-insensitive equality (StringComparison.OrdinalIgnoreCase). */
  predicate EqualsIgnoreCase(a: string, b: string)
  {
    Lower(a) == Lower(b)
  }

  // ---------------------------------------------------------------- prefixes and search

  predicate StartsWith(s: string, prefix: string)
  {
    |prefix| <= |s| && s[..|prefix|] == prefix
  }

  predicate StartsWithIgnoreCase(s: string, prefix: string)
  {
    StartsWith(Lower(s), Lower(prefix))
  }

  /** StartsWithIgnoreCase for a prefix already written in lower case. */
  predicate StartsWithLower(s: string, lowerPrefix: string)
  {
    StartsWith(Lower(s), lowerPrefix)
  }

  predicate OccursAt<T(==)>(s: seq<T>, needle: seq<T>, i: int)
  {
    0 <= i && i + |needle| <= |s| && s[i..i + |needle|] == needle
  }

  /** Index of the first occurrence of `c` in `s`, if any. */
  function IndexOfChar(s: string, c: char): (r: Option<nat>)
    ensures r.Some? ==> r.value < |s| && s[r.value] == c && c !in s[..r.value]
    ensures r.None? ==> c !in s
  {
    if s == [] then None
    else if s[0] == c then Some(0)
    else match IndexOfChar(s[1..], c)
      case None => None
      case Some(i) => assert s[1..][..i] == s[1..i + 1]; Some(i + 1)
  }

  /** Index of the first occurrence of `needle` in `s` at or after `from`, if any. */
  function Find<T(==)>(s: seq<T>, needle: seq<T>, from: nat): (r: Option<nat>)
    decreases |s| - from
    ensures r.Some? ==> from <= r.value && OccursAt(s, needle, r.value)
    ensures r.Some? ==> forall j :: from <= j < r.value ==> !OccursAt(s, needle, j)
    ensures r.None? ==> forall j :: from <= j ==> !OccursAt(s, needle, j)
  {
    if from + |needle| > |s| then None
    else if s[from..from + |needle|] == needle then Some(from)
    else Find(s, needle, from + 1)
  }

  // ---------------------------------------------------------------- splitting

  /** String.Split(c): every separator splits, empty parts are kept. */
  function Split(s: string, c: char): (parts: seq<string>)
    ensures |parts| >= 1
    ensures forall p :: p in parts ==> c !in p
    decreases |s|
  {
    match IndexOfChar(s, c)
    case None => [s]
    case Some(i) => [s[..i]] + Split(s[i + 1..], c)
  }

  /** Joining the parts of a split with the separator gives back the string. */
  lemma {:induction false} SplitJoin(s: string, c: char)
    ensures Join(Split(s, c), [c]) == s
    decreases |s|
  {
    match IndexOfChar(s, c)
    case None =>
    case Some(i) =>
      var head, rest := s[..i], s[i + 1..];
      var parts := Split(rest, c);
      SplitJoin(rest, c);
      assert Split(s, c) == [head] + parts;
      JoinCons(head, parts, [c]);
      assert s == head + [c] + rest;
  }

  /** Joining a part in front of at least one more puts the separator between. */
  lemma JoinCons(head: string, parts: seq<string>, sep: string)
    requires parts != []
    ensures Join([head] + parts, sep) == head + sep + Join(parts, sep)
  {
    assert ([head] + parts)[1..] == parts;
  }

  /** A string without the separator splits into itself. */
  lemma SplitNoSeparator(s: string, c: char)
    requires c !in s
    ensures Split(s, c) == [s]
  {
  }

  /** Splitting `a + [c] + b` with `c` not in `a` gives `a` followed by the parts of `b`. */
  lemma SplitAfterFirst(a: string, b: string, c: char)
    requires c !in a
    ensures Split(a + [c] + b, c) == [a] + Split(b, c)
  {
    var s := a + [c] + b;
    assert s[|a|] == c;
    assert s[..|a|] == a;
    assert IndexOfChar(s, c) == Some(|a|) by {
      var i := IndexOfChar(s, c);
      assert forall j :: 0 <= j < |a| ==> s[j] != c;
      assert i.Some? && i.value <= |a|;
    }
    assert s[|a| + 1..] == b;
  }

  /** Two separator-free texts joined by one ':' split back into the two. */
  lemma SplitAtColon(a: string, b: string)
    requires ':' !in a && ':' !in b
    ensures Split(a + ":" + b, ':') == [a, b]
  {
    assert a + ":" + b == a + [':'] + b;
    SplitAfterFirst(a, b, ':');
    SplitNoSeparator(b, ':');
  }

  /** String.Split(c, 2): the part before the first separator and, if there is one, the rest. */
  function SplitFirst(s: string, c: char): (r: (string, Option<string>))
    ensures c !in r.0
    ensures r.1.None? <==> c !in s
    ensures r.1.Some? ==> s == r.0 + [c] + r.1.value
    ensures r.1.None? ==> r.0 == s
  {
    match IndexOfChar(s, c)
    case None => (s, None)
    case Some(i) => assert s == s[..i] + [c] + s[i + 1..]; (s[..i], Some(s[i + 1..]))
  }

  /** Drop the empty strings (StringSplitOptions.RemoveEmptyEntries). */
  function NonEmpty(parts: seq<string>): (r: seq<string>)
    ensures forall p :: p in r ==> p != [] && p in parts
    ensures forall p :: p in parts && p != [] ==> p in r
  {
    if parts == [] then []
    else if parts[0] == [] then NonEmpty(parts[1..])
    else [parts[0]] + NonEmpty(parts[1..])
  }

  function Join(parts: seq<string>, sep: string): string
  {
    if parts == [] then []
    else if |parts| == 1 then parts[0]
    else parts[0] + sep + Join(parts[1..], sep)
  }

  // ---------------------------------------------------------------- trimming

  /** Char.IsWhiteSpace: the Unicode white-space characters that String.Trim() removes. */
  predicate IsWhiteSpace(c: char)
  {
    c == ' ' || ('\t' <= c <= '\r') || c == '\U{85}' || c == '\U{A0}' || c == '\U{1680}'
    || ('\U{2000}' <= c <= '\U{200A}') || c == '\U{2028}' || c == '\U{2029}'
    || c == '\U{202F}' || c == '\U{205F}' || c == '\U{3000}'
  }

  function TrimStartWhere(s: string, drop: char -> bool): (r: string)
    ensures |r| <= |s| && r == s[|s| - |r|..]
    ensures r != [] ==> !drop(r[0])
    ensures forall i :: 0 <= i < |s| - |r| ==> drop(s[i])
  {
    if s != [] && drop(s[0]) then TrimStartWhere(s[1..], drop) else s
  }

  function TrimEndWhere(s: string, drop: char -> bool): (r: string)
    ensures |r| <= |s| && r == s[..|r|]
    ensures r != [] ==> !drop(r[|r| - 1])
    ensures forall i :: |r| <= i < |s| ==> drop(s[i])
  {
    if s != [] && drop(s[|s| - 1]) then TrimEndWhere(s[..|s| - 1], drop) else s
  }

  /** String.Trim(): remove leading and trailing white space. */
  function Trim(s: string): string
  {
    TrimEndWhere(TrimStartWhere(s, IsWhiteSpace), IsWhiteSpace)
  }

  /** String.Trim(c): remove every leading and trailing `c`. */
  function TrimChar(s: string, c: char): string
  {
    TrimEndWhere(TrimStartWhere(s, x => x == c), x => x == c)
  }

  // ---------------------------------------------------------------- decimal numbers

  predicate IsDigit(c: char)
  {
    '0' <= c <= '9'
  }

  function DigitValue(c: char): nat
    requires IsDigit(c)
  {
    c as int - '0' as int
  }

  function DigitChar(d: nat): (c: char)
    requires d < 10
    ensures IsDigit(c) && DigitValue(c) == d
  {
    ('0' as int + d) as char
  }

  predicate AllDigits(s: string)
  {
    forall i :: 0 <= i < |s| ==> IsDigit(s[i])
  }

  /** Value of a non-empty run of decimal digits, most significant first. */
  function DigitsValue(s: string): nat
    requires AllDigits(s)
  {
    if s == [] then 0 else DigitsValue(s[..|s| - 1]) * 10 + DigitValue(s[|s| - 1])
  }

  /** The shortest decimal digits of a natural number. */
  function NatToDigits(n: nat): (s: string)
    ensures s != [] && AllDigits(s)
  {
    if n < 10 then [DigitChar(n)] else NatToDigits(n / 10) + [DigitChar(n % 10)]
  }

  lemma {:induction false} NatToDigitsValue(n: nat)
    ensures DigitsValue(NatToDigits(n)) == n
  {
    var s := NatToDigits(n);
    if n >= 10 {
      NatToDigitsValue(n / 10);
      assert s[..|s| - 1] == NatToDigits(n / 10);
    }
  }

  /** Int64.ToString() / JavaScript String(n) for an integer: an optional '-' and the digits. */
  function IntToString(n: int): (s: string)
    ensures s != []
    ensures ':' !in s && '&' !in s && '=' !in s && '?' !in s
  {
    var s := if n < 0 then "-" + NatToDigits(-n) else NatToDigits(n);
    assert forall i :: 0 <= i < |s| ==> s[i] == '-' || IsDigit(s[i]);
    s
  }

  const Int64Min: int := -0x8000_0000_0000_0000
  const Int64Max: int := 0x7FFF_FFFF_FFFF_FFFF

  /** The white space NumberStyles.Integer allows around a number: tab to carriage return, and space. */
  predicate IsNumberWhite(c: char)
  {
    c == ' ' || ('\t' <= c <= '\r')
  }

  predicate IsNul(c: char)
  {
    c == '\0'
  }

  /**
   * The part of the text Int64.Parse reads as the number: trailing NUL characters
   * are ignored, then the allowed white space at either end.
   */
  function NumberText(s: string): string
  {
    var t := TrimEndWhere(s, IsNul);
    TrimEndWhere(TrimStartWhere(t, IsNumberWhite), IsNumberWhite)
  }

  /**
   * Int64.Parse(s) with NumberStyles.Integer: optional leading and trailing white
   * space, an optional leading '+' or '-', then one or more decimal digits; the value
   * must fit in 64 bits. None stands for the FormatException or OverflowException.
   */
  function ParseInt64(s: string): (r: Option<int>)
    ensures r.Some? ==> Int64Min <= r.value <= Int64Max
  {
    SignedInt64(NumberText(s))
  }

  /** An optional leading '+' or '-' and one or more decimal digits, when the value fits in 64 bits. */
  function SignedInt64(t: string): (r: Option<int>)
    ensures r.Some? ==> Int64Min <= r.value <= Int64Max
  {
    var neg := t != [] && t[0] == '-';
    var body := if t != [] && (t[0] == '-' || t[0] == '+') then t[1..] else t;
    if body == [] || !AllDigits(body) then None
    else
      var mag: int := DigitsValue(body);
      var v := if neg then -mag else mag;
      if Int64Min <= v <= Int64Max then Some(v) else None
  }

  /** Leading characters that `drop` holds for are removed, up to the first one it does not. */
  lemma {:induction false} TrimStartPadded(lead: string, x: string, drop: char -> bool)
    requires forall i :: 0 <= i < |lead| ==> drop(lead[i])
    requires x != [] ==> !drop(x[0])
    ensures TrimStartWhere(lead + x, drop) == x
  {
    if lead != [] {
      assert (lead + x)[0] == lead[0] && (lead + x)[1..] == lead[1..] + x;
      TrimStartPadded(lead[1..], x, drop);
    } else {
      assert lead + x == x;
    }
  }

  /** Trailing characters that `drop` holds for are removed, back to the last one it does not. */
  lemma {:induction false} TrimEndPadded(x: string, trail: string, drop: char -> bool)
    requires forall i :: 0 <= i < |trail| ==> drop(trail[i])
    requires x != [] ==> !drop(x[|x| - 1])
    ensures TrimEndWhere(x + trail, drop) == x
  {
    if trail != [] {
      var t' := trail[..|trail| - 1];
      assert (x + trail)[|x + trail| - 1] == trail[|trail| - 1];
      assert (x + trail)[..|x + trail| - 1] == x + t';
      TrimEndPadded(x, t', drop);
    } else {
      assert x + trail == x;
    }
  }

  /** Padding around a text that neither starts nor ends with it is exactly what NumberText removes. */
  lemma NumberTextPadded(lead: string, core: string, trail: string, nuls: string)
    requires forall i :: 0 <= i < |lead| ==> IsNumberWhite(lead[i])
    requires core != [] && !IsNumberWhite(core[0])
    requires !IsNumberWhite(core[|core| - 1]) && !IsNul(core[|core| - 1])
    requires forall i :: 0 <= i < |trail| ==> IsNumberWhite(trail[i])
    requires forall i :: 0 <= i < |nuls| ==> IsNul(nuls[i])
    ensures NumberText(lead + core + trail + nuls) == core
  {
    var x := lead + (core + trail);
    assert lead + core + trail + nuls == x + nuls;
    assert x[|x| - 1] == (core + trail)[|core + trail| - 1];
    assert (core + trail)[|core + trail| - 1] == if trail == [] then core[|core| - 1] else trail[|trail| - 1];
    TrimEndPadded(x, nuls, IsNul);
    assert (core + trail)[0] == core[0];
    TrimStartPadded(lead, core + trail, IsNumberWhite);
    TrimEndPadded(core, trail, IsNumberWhite);
  }

  /** A text with nothing to remove at either end is read whole. */
  lemma NumberTextBare(core: string)
    requires core != [] && !IsNumberWhite(core[0])
    requires !IsNumberWhite(core[|core| - 1]) && !IsNul(core[|core| - 1])
    ensures NumberText(core) == core
  {
    NumberTextPadded("", core, "", "");
    assert "" + core + "" + "" == core;
  }

  /** A sign and digits read as the signed value, when it fits. */
  lemma SignedDigits(sign: string, d: string)
    requires sign == "" || sign == "+" || sign == "-"
    requires d != [] && AllDigits(d)
    ensures var mag: int := DigitsValue(d); var v := if sign == "-" then -mag else mag;
            SignedInt64(sign + d) == if Int64Min <= v <= Int64Max then Some(v) else None
  {
    if sign == "" {
      assert sign + d == d;
    } else {
      assert (sign + d)[0] == sign[0] && (sign + d)[1..] == d;
    }
  }

  /**
   * The texts Int64.Parse accepts: allowed white space, an optional sign, digits,
   * allowed white space and NUL characters; they give the signed value when it fits.
   */
  lemma ParseInt64Padded(lead: string, sign: string, d: string, trail: string, nuls: string)
    requires forall i :: 0 <= i < |lead| ==> IsNumberWhite(lead[i])
    requires sign == "" || sign == "+" || sign == "-"
    requires d != [] && AllDigits(d)
    requires forall i :: 0 <= i < |trail| ==> IsNumberWhite(trail[i])
    requires forall i :: 0 <= i < |nuls| ==> IsNul(nuls[i])
    ensures var mag: int := DigitsValue(d); var v := if sign == "-" then -mag else mag;
            ParseInt64(lead + (sign + d) + trail + nuls) == if Int64Min <= v <= Int64Max then Some(v) else None
  {
    var core := sign + d;
    assert core[|core| - 1] == d[|d| - 1];
    assert core[0] == if sign == "" then d[0] else sign[0];
    NumberTextPadded(lead, core, trail, nuls);
    SignedDigits(sign, d);
  }

  /** A text starting with anything but allowed white space, a sign or a digit is refused. */
  lemma ParseInt64RefusesOther(c: char, s: string)
    requires !IsNumberWhite(c) && c != '+' && c != '-' && !IsDigit(c)
    ensures ParseInt64([c] + s).None?
  {
    var t := TrimEndWhere([c] + s, IsNul);
    assert t != [] ==> t[0] == c;
    var u := TrimEndWhere(TrimStartWhere(t, IsNumberWhite), IsNumberWhite);
    if t != [] {
      assert TrimStartWhere(t, IsNumberWhite) == t;
    }
    assert u != [] ==> u[0] == c;
    assert NumberText([c] + s) == u;
    LeadingOtherRefused(u, c);
  }

  /** A text whose first character is no sign and no digit is no signed number. */
  lemma LeadingOtherRefused(u: string, c: char)
    requires c != '+' && c != '-' && !IsDigit(c)
    requires u != [] ==> u[0] == c
    ensures SignedInt64(u).None?
  {
  }

  /** Parsing the decimal text of a 64-bit integer gives the integer back. */
  lemma {:induction false} ParseIntToString(n: int)
    requires Int64Min <= n <= Int64Max
    ensures ParseInt64(IntToString(n)) == Some(n)
  {
    if n < 0 {
      ParseNegative(-n);
    } else {
      NatToDigitsValue(n);
      ParseDigits(NatToDigits(n));
    }
  }

  /** A minus sign and the digits of `m` parse as -m. */
  lemma ParseNegative(m: int)
    requires 0 < m <= -Int64Min
    ensures ParseInt64("-" + NatToDigits(m)) == Some(-m)
  {
    NatToDigitsValue(m);
    ParseMinusDigits(NatToDigits(m), m);
  }

  /** A minus sign and decimal digits of value m parse as -m, whenever it fits. */
  lemma ParseMinusDigits(d: string, m: int)
    requires d != [] && AllDigits(d) && DigitsValue(d) == m <= -Int64Min
    ensures ParseInt64("-" + d) == Some(-m)
  {
    assert ("-" + d)[|"-" + d| - 1] == d[|d| - 1];
    NumberTextBare("-" + d);
    SignedDigits("-", d);
  }

  /** Decimal digits parse as their value, whenever it fits. */
  lemma ParseDigits(d: string)
    requires d != [] && AllDigits(d) && DigitsValue(d) <= Int64Max
    ensures ParseInt64(d) == Some(DigitsValue(d))
  {
    DigitsBare(d);
    SignedDigits("", d);
    assert "" + d == d;
  }

  /** Decimal digits have no padding for NumberText to remove. */
  lemma DigitsBare(d: string)
    requires d != [] && AllDigits(d)
    ensures NumberText(d) == d
  {
    NumberTextBare(d);
  }
}
