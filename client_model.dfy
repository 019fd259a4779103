/**
 * The browser side's model layer (Server/extra_files/FE/User/js/model.js): the
 * history of visited pages (`Pages`) and the check the client makes on its stored
 * authorization token before it bothers the server (`isAuthTokenValid`). The
 * clock is a parameter in Unix milliseconds, as Date.now() returns it.
 */
module ClientModel {
  import opened Wrappers
  import opened Text
  import opened Hex
  import opened Utf8
  import Base64
  import Tokens

  // ---------------------------------------------------------------- page history

  /** The value of the page history: the earlier pages, most recent last, and the current one. */
  datatype History = History(stack: seq<string>, current: Option<string>)

  /** push(page): a current page moves onto the stack; `page` (possibly null) becomes current. */
  function Pushed(h: History, page: Option<string>): (r: History)
    ensures r.current == page
    ensures |r.stack| == |h.stack| + (if h.current.Some? then 1 else 0)
    ensures r.stack[..|h.stack|] == h.stack
    ensures h.current.Some? ==> r.stack == h.stack + [h.current.value]
  {
    History(if h.current.Some? then h.stack + [h.current.value] else h.stack, page)
  }

  /** back(): the top of the stack becomes current and is returned; null and no change on an empty stack. */
  function Popped(h: History): (r: (History, Option<string>))
    ensures h.stack == [] <==> r.1.None?
    ensures h.stack == [] ==> r.0 == h
    ensures h.stack != [] ==> r.0.stack + [r.1.value] == h.stack && r.0.current == r.1
  {
    if h.stack == [] then (h, None)
    else
      var top := h.stack[|h.stack| - 1];
      (History(h.stack[..|h.stack| - 1], Some(top)), Some(top))
  }

  /** Going back after a push restores the history, when a page was current. */
  lemma PushThenBack(h: History, page: Option<string>)
    requires h.current.Some?
    ensures Popped(Pushed(h, page)) == (h, h.current)
  {
    var p := Pushed(h, page);
    assert p.stack[..|p.stack| - 1] == h.stack;
  }

  /**
   * With no current page, a push records nothing: the following back returns the
   * page below instead (or null), so the page that was pushed is forgotten.
   */
  lemma FirstPushForgotten(h: History, page: Option<string>)
    requires h.current.None?
    ensures Pushed(h, page).stack == h.stack
    ensures Popped(Pushed(h, page)).1 == (if h.stack == [] then None else Some(h.stack[|h.stack| - 1]))
  {
  }

  /** Every page a sequence of pushes makes current, except the last, ends on the stack in order. */
  function PushAll(h: History, pages: seq<string>): (r: History)
    decreases |pages|
  {
    if pages == [] then h else PushAll(Pushed(h, Some(pages[0])), pages[1..])
  }

  lemma {:induction false} PushAllStack(h: History, pages: seq<string>)
    requires pages != []
    ensures PushAll(h, pages).current == Some(pages[|pages| - 1])
    ensures PushAll(h, pages).stack == Recorded(h) + pages[..|pages| - 1]
    decreases |pages|
  {
    var h1 := Pushed(h, Some(pages[0]));
    assert h1.stack == Recorded(h);
    if |pages| > 1 {
      var rest := pages[1..];
      PushAllStack(h1, rest);
      assert rest[..|rest| - 1] == pages[1..|pages| - 1];
      AppendHead(Recorded(h), pages);
    } else {
      assert Recorded(h) + pages[..0] == Recorded(h);
    }
  }

  /** The stack after a push: the earlier stack and, if there was one, the current page. */
  function Recorded(h: History): seq<string>
  {
    if h.current.Some? then h.stack + [h.current.value] else h.stack
  }

  lemma AppendHead(base: seq<string>, pages: seq<string>)
    requires |pages| > 1
    ensures (base + [pages[0]]) + pages[1..|pages| - 1] == base + pages[..|pages| - 1]
  {
    assert [pages[0]] + pages[1..|pages| - 1] == pages[..|pages| - 1];
  }

  /** The static fields Pages.stack and Pages.current, and the methods that change them. */
  class Pages {
    var stack: seq<string>
    var current: Option<string>

    /** The state of a freshly loaded script: an empty stack and a null current page. */
    constructor ()
      ensures stack == [] && current == None
    {
      stack := [];
      current := None;
    }

    function State(): History
      reads this
    {
      History(stack, current)
    }

    method Push(page: Option<string>)
      modifies this
      ensures State() == Pushed(old(State()), page)
    {
      if current != None {
        stack := stack + [current.value];
      }
      current := page;
    }

    method Back() returns (r: Option<string>)
      modifies this
      ensures (State(), r) == Popped(old(State()))
    {
      if |stack| > 0 {
        var prev := stack[|stack| - 1];
        stack := stack[..|stack| - 1];
        current := Some(prev);
        return Some(prev);
      }
      return None;
    }

    /** getStack: the pages as a value; what the caller does with it cannot reach the stack. */
    method GetStack() returns (s: seq<string>)
      ensures s == stack
    {
      s := stack;
    }

    method GetCurrent() returns (c: Option<string>)
      ensures c == current
    {
      c := current;
    }
  }

  /** push then back on the live object: the stack and the current page are as before. */
  method PushBack(p: Pages, page: string) returns (r: Option<string>)
    requires p.current.Some?
    modifies p
    ensures r == old(p.current) && p.stack == old(p.stack) && p.current == old(p.current)
  {
    ghost var h := p.State();
    p.Push(Some(page));
    r := p.Back();
    PushThenBack(h, Some(page));
  }

  // ---------------------------------------------------------------- JavaScript parseInt

  /** The characters parseInt skips at the start: white space and line terminators. */
  predicate IsJsWhiteSpace(c: char)
  {
    c == '\t' || c == '\n' || c == '\U{0B}' || c == '\U{0C}' || c == '\r' || c == ' '
    || c == '\U{A0}' || c == '\U{1680}' || ('\U{2000}' <= c <= '\U{200A}')
    || c == '\U{2028}' || c == '\U{2029}' || c == '\U{202F}' || c == '\U{205F}'
    || c == '\U{3000}' || c == '\U{FEFF}'
  }

  /** The longest run of decimal digits that starts `s`. */
  function DecimalPrefix(s: string): (r: string)
    ensures |r| <= |s| && r == s[..|r|] && AllDigits(r)
    ensures |r| < |s| ==> !IsDigit(s[|r|])
  {
    if s != [] && IsDigit(s[0]) then
      var rest := DecimalPrefix(s[1..]);
      assert forall i :: 1 <= i <= |rest| ==> ([s[0]] + rest)[i] == rest[i - 1];
      [s[0]] + rest
    else []
  }

  /** The longest run of hexadecimal digits that starts `s`. */
  function HexPrefix(s: string): (r: string)
    ensures |r| <= |s| && r == s[..|r|] && AllHexDigits(r)
    ensures |r| < |s| ==> !IsHexDigit(s[|r|])
  {
    if s != [] && IsHexDigit(s[0]) then
      var rest := HexPrefix(s[1..]);
      assert forall i :: 1 <= i <= |rest| ==> ([s[0]] + rest)[i] == rest[i - 1];
      [s[0]] + rest
    else []
  }

  function HexValue(s: string): nat
    requires AllHexDigits(s)
  {
    if s == [] then 0 else HexValue(s[..|s| - 1]) * 16 + HexDigitValue(s[|s| - 1])
  }

  /**
   * parseInt(s) with no radix: skip leading white space, take an optional sign,
   * then read the magnitude. None stands for NaN.
   */
  function ParseIntJs(s: string): Option<int>
  {
    ParseSigned(SkipJsWhiteSpace(s))
  }

  /** What is left after the leading white space. */
  function SkipJsWhiteSpace(s: string): (r: string)
    ensures |r| <= |s| && r == s[|s| - |r|..]
    ensures r != [] ==> !IsJsWhiteSpace(r[0])
  {
    if s != [] && IsJsWhiteSpace(s[0]) then SkipJsWhiteSpace(s[1..]) else s
  }

  /** The sign: a leading '-' negates the magnitude, a leading '+' is dropped. */
  function ParseSigned(t: string): Option<int>
  {
    if t != [] && t[0] == '-' then
      match ParseMagnitude(t[1..])
      case None => None
      case Some(m) => Some(0 - m as int)
    else if t != [] && t[0] == '+' then
      match ParseMagnitude(t[1..])
      case None => None
      case Some(m) => Some(m)
    else
      match ParseMagnitude(t)
      case None => None
      case Some(m) => Some(m)
  }

  /**
   * The magnitude: base 16 after "0x" or "0X" and base 10 otherwise, the longest
   * run of digits, ignoring whatever follows it; None (NaN) when that run is empty.
   */
  function ParseMagnitude(body: string): Option<nat>
  {
    var hex := |body| >= 2 && body[0] == '0' && (body[1] == 'x' || body[1] == 'X');
    if hex then
      var digits := HexPrefix(body[2..]);
      if digits == [] then None else Some(HexValue(digits))
    else
      var digits := DecimalPrefix(body);
      if digits == [] then None else Some(DigitsValue(digits))
  }

  /** Nothing is skipped before a character that is not white space. */
  lemma TrimNothing(s: string)
    requires s != [] && !IsJsWhiteSpace(s[0])
    ensures SkipJsWhiteSpace(s) == s
  {
  }

  /** The run of digits that starts `digits + rest` is `digits` when `rest` does not start with one. */
  lemma {:induction false} DecimalPrefixOf(digits: string, rest: string)
    requires AllDigits(digits)
    requires rest == [] || !IsDigit(rest[0])
    ensures DecimalPrefix(digits + rest) == digits
    decreases |digits|
  {
    if digits == [] {
      assert digits + rest == rest;
    } else {
      assert (digits + rest)[1..] == digits[1..] + rest;
      assert (digits + rest)[0] == digits[0];
      DecimalPrefixOf(digits[1..], rest);
      assert [digits[0]] + digits[1..] == digits;
    }
  }

  /** A run of decimal digits followed by a non-digit reads as the run's value. */
  lemma MagnitudeOfDigits(digits: string, rest: string)
    requires digits != [] && AllDigits(digits)
    requires rest == [] || !IsDigit(rest[0])
    requires |digits| >= 2 || rest == [] || (rest[0] != 'x' && rest[0] != 'X')
    ensures ParseMagnitude(digits + rest) == Some(DigitsValue(digits))
  {
    var s := digits + rest;
    if |s| >= 2 {
      if |digits| >= 2 {
        assert s[1] == digits[1];
      } else {
        assert s[1] == rest[0];
      }
    }
    DecimalPrefixOf(digits, rest);
  }

  /** parseInt reads back the decimal text of any integer. */
  lemma ParseIntJsToString(n: int)
    ensures ParseIntJs(IntToString(n)) == Some(n)
  {
    if n < 0 {
      ParseNegativeToString(n);
    } else {
      ParseNonNegativeToString(n);
    }
  }

  lemma ParseNegativeToString(n: int)
    requires n < 0
    ensures ParseIntJs(IntToString(n)) == Some(n)
  {
    var m: nat := 0 - n;
    var body := NatToDigits(m);
    NatToDigitsValue(m);
    NegativeText(n, body);
    NegativeDigits(body);
  }

  lemma NegativeText(n: int, body: string)
    requires n < 0 && body == NatToDigits(0 - n)
    ensures IntToString(n) == "-" + body
  {
  }

  lemma ParseNonNegativeToString(n: nat)
    ensures ParseIntJs(IntToString(n)) == Some(n)
  {
    var body := NatToDigits(n);
    assert IntToString(n) == body;
    NatToDigitsValue(n);
    ParseIntJsStops(body, []);
    assert body + [] == body;
  }

  /** A '-' before a run of digits negates its value. */
  lemma NegativeDigits(body: string)
    requires body != [] && AllDigits(body)
    ensures ParseIntJs("-" + body) == Some(0 - DigitsValue(body))
  {
    MinusFirst(body);
    TrimNothing("-" + body);
    DigitsMagnitude(body);
    MinusSign(body);
  }

  lemma MinusFirst(body: string)
    ensures ("-" + body)[0] == '-'
  {
  }

  /** A whole text of decimal digits reads as its value. */
  lemma DigitsMagnitude(body: string)
    requires body != [] && AllDigits(body)
    ensures ParseMagnitude(body) == Some(DigitsValue(body))
  {
    MagnitudeOfDigits(body, []);
    assert body + [] == body;
  }

  /** A leading '-' negates whatever the rest reads as. */
  lemma MinusSign(m: string)
    ensures ParseMagnitude(m).Some? ==> ParseSigned("-" + m) == Some(0 - ParseMagnitude(m).value)
  {
    assert ("-" + m)[1..] == m;
  }

  /** parseInt stops at the first character that is not a digit. */
  lemma ParseIntJsStops(digits: string, rest: string)
    requires digits != [] && AllDigits(digits)
    requires rest == [] || !IsDigit(rest[0])
    requires |digits| >= 2 || rest == [] || (rest[0] != 'x' && rest[0] != 'X')
    ensures ParseIntJs(digits + rest) == Some(DigitsValue(digits))
  {
    var s := digits + rest;
    assert s[0] == digits[0] && IsDigit(s[0]);
    TrimNothing(s);
    assert ParseIntJs(s) == ParseSigned(s);
    MagnitudeOfDigits(digits, rest);
    assert ParseSigned(s) == ParseMagnitude(s);
  }

  // ---------------------------------------------------------------- the token check

  /** atob's result: a "binary string" with one character per decoded byte. */
  function BinaryString(b: seq<byte>): (s: string)
    ensures |s| == |b| && forall i :: 0 <= i < |b| ==> s[i] as int == b[i] as int
  {
    if b == [] then [] else [b[0] as int as char] + BinaryString(b[1..])
  }

  /**
   * The part of isAuthTokenValid after atob: the second ':'-separated field (the
   * text "undefined" when there is none, as a missing array element reads) must
   * parse to a number of seconds beyond the current whole second.
   */
  function ClientPayloadValid(decoded: string, nowMs: int): bool
  {
    var parts := Split(decoded, ':');
    var expire := if |parts| >= 2 then parts[1] else "undefined";
    match ParseIntJs(expire)
    case None => false
    case Some(e) => e > nowMs / 1000
  }

  /**
   * isAuthTokenValid(token): atob (a null token reads as the text "null"), then the
   * payload test; every exception, a bad Base64 text among them, gives false.
   */
  function IsAuthTokenValid(token: Option<string>, nowMs: int): (r: bool)
    ensures Base64.DecodeForgiving(if token.Some? then token.value else "null").None? ==> !r
    ensures r ==> ClientPayloadValid(BinaryString(Base64.DecodeForgiving(if token.Some? then token.value else "null").value), nowMs)
  {
    match Base64.DecodeForgiving(if token.Some? then token.value else "null")
    case None => false
    case Some(bytes) => ClientPayloadValid(BinaryString(bytes), nowMs)
  }

  /** An ASCII text read back byte for byte from its UTF-8 encoding. */
  lemma AsciiBinary(s: string)
    requires forall i :: 0 <= i < |s| ==> s[i] as int < 0x80
    ensures BinaryString(Encode(s)) == s
  {
    EncodeAscii(s);
  }

  /** A payload the server writes is accepted by the client exactly while the clock is before its expiry second. */
  lemma ClientReadsPayload(sessionId: string, expiry: int, nowMs: int)
    requires ':' !in sessionId
    ensures ClientPayloadValid(Tokens.Payload(sessionId, expiry), nowMs) <==> nowMs < expiry * 1000
  {
    Tokens.SplitPayload(sessionId, expiry);
    ParseIntJsToString(expiry);
  }

  /**
   * For a token the server created, the client accepts while the clock is strictly
   * before the expiry second, one millisecond of instants fewer than the server.
   */
  lemma ClientAcceptsToken(sessionId: string, minutes: int, createdMs: int, nowMs: int)
    requires ':' !in sessionId && forall i :: 0 <= i < |sessionId| ==> sessionId[i] as int < 0x80
    requires Tokens.InDateRange(createdMs + minutes * 60000)
    ensures IsAuthTokenValid(Some(Tokens.CreateToken(sessionId, minutes, createdMs).value), nowMs)
            <==> nowMs < Tokens.ExpirySeconds(createdMs, minutes).value * 1000
  {
    var e := Tokens.ExpirySeconds(createdMs, minutes).value;
    var payload := Tokens.Payload(sessionId, e);
    var token := Tokens.CreateToken(sessionId, minutes, createdMs).value;
    Base64.StrictImpliesForgiving(token);
    PayloadAscii(sessionId, e);
    AsciiBinary(payload);
    assert Base64.DecodeForgiving(token) == Some(Encode(payload));
    assert IsAuthTokenValid(Some(token), nowMs) == ClientPayloadValid(payload, nowMs);
    ClientReadsPayload(sessionId, e, nowMs);
  }

  /** A payload with an ASCII session id is ASCII: the expiry is a sign and digits. */
  lemma PayloadAscii(sessionId: string, expiry: int)
    requires forall i :: 0 <= i < |sessionId| ==> sessionId[i] as int < 0x80
    ensures forall i :: 0 <= i < |Tokens.Payload(sessionId, expiry)| ==> Tokens.Payload(sessionId, expiry)[i] as int < 0x80
  {
    var payload := Tokens.Payload(sessionId, expiry);
    var d := IntToString(expiry);
    assert forall i :: 0 <= i < |d| ==> d[i] == '-' || IsDigit(d[i]) by {
      if expiry < 0 {
        assert d == "-" + NatToDigits(-expiry);
      }
    }
    assert payload == sessionId + ":" + d;
    forall i | 0 <= i < |payload| ensures payload[i] as int < 0x80 {
      if i < |sessionId| {
        assert payload[i] == sessionId[i];
      } else if i > |sessionId| {
        assert payload[i] == d[i - |sessionId| - 1];
      }
    }
  }

  /**
   * The client is stricter than the server: every token of the server that the
   * client accepts, the server accepts too, and at the instant of the expiry second
   * itself the server still accepts while the client already refuses.
   */
  lemma ClientStricterThanServer(sessionId: string, minutes: int, createdMs: int, nowMs: int)
    requires ':' !in sessionId && forall i :: 0 <= i < |sessionId| ==> sessionId[i] as int < 0x80
    requires Tokens.InDateRange(createdMs + minutes * 60000)
    ensures IsAuthTokenValid(Some(Tokens.CreateToken(sessionId, minutes, createdMs).value), nowMs)
            ==> Tokens.TryParseToken(Some(Tokens.CreateToken(sessionId, minutes, createdMs).value), nowMs).ok
    ensures nowMs == Tokens.ExpirySeconds(createdMs, minutes).value * 1000 ==>
              Tokens.TryParseToken(Some(Tokens.CreateToken(sessionId, minutes, createdMs).value), nowMs).ok
              && !IsAuthTokenValid(Some(Tokens.CreateToken(sessionId, minutes, createdMs).value), nowMs)
  {
    ClientAcceptsToken(sessionId, minutes, createdMs, nowMs);
    Tokens.TokenRoundTrip(sessionId, minutes, createdMs, nowMs);
  }

  /**
   * Fields after the second are ignored by the client, while the server refuses any
   * payload that does not split into exactly two fields.
   */
  lemma ExtraFieldsIgnored(sessionId: string, expiry: int, rest: string, nowMs: int)
    requires ':' !in sessionId
    ensures ClientPayloadValid(sessionId + ":" + IntToString(expiry) + ":" + rest, nowMs) <==> nowMs < expiry * 1000
    ensures !Tokens.ParsePayload(sessionId + ":" + IntToString(expiry) + ":" + rest, nowMs).ok
  {
    ThreeFields(sessionId, IntToString(expiry), rest);
    ParseIntJsToString(expiry);
  }

  /** Splitting "a:d:rest" on ':' gives at least three fields, the first two a and d. */
  lemma ThreeFields(a: string, d: string, rest: string)
    requires ':' !in a && ':' !in d
    ensures var parts := Split(a + ":" + d + ":" + rest, ':');
            |parts| >= 3 && parts[0] == a && parts[1] == d
  {
    assert a + ":" + d + ":" + rest == a + [':'] + (d + [':'] + rest);
    SplitAfterFirst(a, d + [':'] + rest, ':');
    SplitAfterFirst(d, rest, ':');
  }

  /** A payload whose second field does not start with a number is refused. */
  lemma NonNumericExpiryRefused(sessionId: string, expire: string, nowMs: int)
    requires ':' !in sessionId && ':' !in expire && ParseIntJs(expire).None?
    ensures !ClientPayloadValid(sessionId + ":" + expire, nowMs)
  {
    SplitAtColon(sessionId, expire);
  }

  /** A decoded text without ':' has no second field; "undefined" is not a number. */
  lemma NoSeparatorRefused(decoded: string, nowMs: int)
    requires ':' !in decoded
    ensures !ClientPayloadValid(decoded, nowMs)
  {
    SplitNoSeparator(decoded, ':');
    UndefinedIsNaN();
  }

  /** parseInt("undefined") is NaN. */
  lemma UndefinedIsNaN()
    ensures ParseIntJs("undefined").None?
  {
    var u := "undefined";
    assert u[0] == 'u';
    NoLeadingDigit(u);
  }

  /** A text that starts with neither white space, a sign nor a digit is NaN. */
  lemma NoLeadingDigit(s: string)
    requires s != [] && !IsJsWhiteSpace(s[0]) && !IsDigit(s[0]) && s[0] != '-' && s[0] != '+'
    ensures ParseIntJs(s).None?
  {
    TrimNothing(s);
    assert DecimalPrefix(s) == [];
  }
}
