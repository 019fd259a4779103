/**
 * The authorization token of the server (Server/LuciferCore/Helper/TokenHelper.cs):
 * the text `sessionId:expiry`, with the expiry in Unix seconds, UTF-8 encoded and
 * then Base64 encoded, carried in the X_Token_Authorization header.
 * Clock readings are Unix milliseconds.
 */
module Tokens {
  import opened Wrappers
  import opened Text
  import Utf8
  import Base64
  import opened Http

  const TokenHeader: string := "X_Token_Authorization"

  /** The Unix seconds of the first and the last second a DateTime can hold. */
  const MinUnixSeconds: int := -62135596800
  const MaxUnixSeconds: int := 253402300799

  /** An instant, in Unix milliseconds, that a DateTime can hold. */
  predicate InDateRange(ms: int)
  {
    MinUnixSeconds * 1000 <= ms < (MaxUnixSeconds + 1) * 1000
  }

  /**
   * UtcNow.AddMinutes(minutes).ToUnixTimeSeconds(): whole seconds, rounded down;
   * ArgumentOutOfRangeException when the instant falls outside the DateTime range.
   */
  function ExpirySeconds(nowMs: int, minutes: int): (r: Result<int>)
    ensures r.Success? <==> InDateRange(nowMs + minutes * 60000)
    ensures r.Failure? ==> r.error == "ArgumentOutOfRangeException"
    ensures r.Success? ==> MinUnixSeconds <= r.value <= MaxUnixSeconds
    ensures r.Success? ==> r.value * 1000 <= nowMs + minutes * 60000 < r.value * 1000 + 1000
  {
    var ms := nowMs + minutes * 60000;
    if InDateRange(ms) then Success(ms / 1000) else Failure("ArgumentOutOfRangeException")
  }

  /** The text a token carries. */
  function Payload(sessionId: string, expiry: int): string
  {
    sessionId + ":" + IntToString(expiry)
  }

  /**
   * CreateToken: the Base64 text of the UTF-8 bytes of `sessionId:expiry`, which the
   * strict decoder gives back; it throws when the expiry cannot be computed.
   */
  function CreateToken(sessionId: string, minutes: int, nowMs: int): (r: Result<string>)
    ensures r.Success? <==> InDateRange(nowMs + minutes * 60000)
    ensures r.Failure? ==> r.error == "ArgumentOutOfRangeException"
    ensures r.Success? ==> |r.value| % 4 == 0
    ensures r.Success? ==>
              Base64.DecodeStrict(r.value) == Some(Utf8.Encode(Payload(sessionId, ExpirySeconds(nowMs, minutes).value)))
  {
    match ExpirySeconds(nowMs, minutes)
    case Failure(e) => Failure(e)
    case Success(expiry) =>
      var bytes := Utf8.Encode(Payload(sessionId, expiry));
      Base64.DecodeStrictEncode(bytes);
      Success(Base64.Encode(bytes))
  }

  /** What TryParseToken returns and what it leaves in its out parameter. */
  datatype Parsed = Parsed(ok: bool, sessionId: string)

  /**
   * TryParseToken: decode, split at ':' into exactly two parts, read the expiry as a
   * 64-bit integer of Unix seconds, and accept while the clock has not passed that
   * second. Every exception (null token, bad Base64, bad number, expiry out of the
   * DateTime range) is caught and gives false. The session id is "" when the failure
   * comes before the split and the first part when it comes after.
   */
  function TryParseToken(token: Option<string>, nowMs: int): (p: Parsed)
    ensures p.ok ==> token.Some? && Base64.DecodeStrict(token.value).Some?
    ensures p.ok ==> ':' !in p.sessionId
  {
    if token.None? then Parsed(false, "")
    else match Base64.DecodeStrict(token.value)
      case None => Parsed(false, "")
      case Some(bytes) => ParsePayload(Utf8.Decode(bytes), nowMs)
  }

  /** The part of TryParseToken after decoding: the split, the expiry and the clock test. */
  function ParsePayload(raw: string, nowMs: int): (p: Parsed)
    ensures p.ok ==> ':' !in p.sessionId
  {
    var parts := Split(raw, ':');
    if |parts| != 2 then Parsed(false, "")
    else match ParseInt64(parts[1])
      case None => Parsed(false, parts[0])
      case Some(expiry) =>
        if expiry < MinUnixSeconds || MaxUnixSeconds < expiry then Parsed(false, parts[0])
        else Parsed(nowMs <= expiry * 1000, parts[0])
  }

  /** Splitting a payload separates the session id from the expiry digits. */
  lemma SplitPayload(sessionId: string, expiry: int)
    requires ':' !in sessionId
    ensures Split(Payload(sessionId, expiry), ':') == [sessionId, IntToString(expiry)]
  {
    SplitAtColon(sessionId, IntToString(expiry));
  }

  /** The text a token decodes to. */
  lemma DecodeToken(sessionId: string, minutes: int, nowMs: int)
    requires InDateRange(nowMs + minutes * 60000)
    ensures Base64.DecodeStrict(CreateToken(sessionId, minutes, nowMs).value).Some?
    ensures Utf8.Decode(Base64.DecodeStrict(CreateToken(sessionId, minutes, nowMs).value).value)
            == Payload(sessionId, ExpirySeconds(nowMs, minutes).value)
  {
    Utf8.DecodeEncode(Payload(sessionId, ExpirySeconds(nowMs, minutes).value));
  }

  /**
   * Round trip: a token made for a session id without ':' parses back to that id,
   * and it is accepted exactly while the clock is at or before its expiry second.
   */
  lemma TokenRoundTrip(sessionId: string, minutes: int, createdMs: int, nowMs: int)
    requires ':' !in sessionId
    requires InDateRange(createdMs + minutes * 60000)
    ensures TryParseToken(Some(CreateToken(sessionId, minutes, createdMs).value), nowMs)
            == Parsed(nowMs <= ExpirySeconds(createdMs, minutes).value * 1000, sessionId)
  {
    var e := ExpirySeconds(createdMs, minutes).value;
    DecodeToken(sessionId, minutes, createdMs);
    PayloadParses(sessionId, e, nowMs);
  }

  /** A payload with a session id free of ':' and an expiry in range parses back. */
  lemma PayloadParses(sessionId: string, expiry: int, nowMs: int)
    requires ':' !in sessionId && MinUnixSeconds <= expiry <= MaxUnixSeconds
    ensures ParsePayload(Payload(sessionId, expiry), nowMs) == Parsed(nowMs <= expiry * 1000, sessionId)
  {
    SplitPayload(sessionId, expiry);
    ParseIntToString(expiry);
  }

  /** A token made at some instant for at least one minute is accepted at that instant. */
  lemma FreshTokenAccepted(sessionId: string, minutes: int, nowMs: int)
    requires ':' !in sessionId && minutes >= 1
    requires InDateRange(nowMs + minutes * 60000)
    ensures TryParseToken(Some(CreateToken(sessionId, minutes, nowMs).value), nowMs) == Parsed(true, sessionId)
  {
    TokenRoundTrip(sessionId, minutes, nowMs, nowMs);
  }

  /** A token made for a session id that contains ':' never parses: its text splits into three or more parts. */
  lemma ColonSessionNeverParses(sessionId: string, minutes: int, createdMs: int, nowMs: int)
    requires ':' in sessionId
    requires InDateRange(createdMs + minutes * 60000)
    ensures !TryParseToken(Some(CreateToken(sessionId, minutes, createdMs).value), nowMs).ok
  {
    var e := ExpirySeconds(createdMs, minutes).value;
    DecodeToken(sessionId, minutes, createdMs);
    ColonPayloadRefused(sessionId, e, nowMs);
  }

  lemma ColonPayloadRefused(sessionId: string, e: int, nowMs: int)
    requires ':' in sessionId
    ensures !ParsePayload(Payload(sessionId, e), nowMs).ok
  {
    ColonPayloadSplits(sessionId, e);
  }

  /** A payload whose session id holds ':' splits into three or more parts. */
  lemma ColonPayloadSplits(sessionId: string, e: int)
    requires ':' in sessionId
    ensures |Split(Payload(sessionId, e), ':')| >= 3
  {
    ColonSplits(sessionId, IntToString(e));
  }

  /** Joining a text that holds ':' to any other text with ':' gives three or more parts. */
  lemma ColonSplits(a: string, b: string)
    requires ':' in a
    ensures |Split(a + ":" + b, ':')| >= 3
  {
    var j := IndexOfChar(a, ':').value;
    var tail := a[j + 1..] + ":" + b;
    assert a + ":" + b == a[..j] + [':'] + tail by {
      assert a == a[..j] + [':'] + a[j + 1..];
    }
    SplitAfterFirst(a[..j], tail, ':');
    assert tail[|a[j + 1..]|] == ':';
    SplitMore(tail, ':');
  }

  /** A string holding the separator splits into at least two parts. */
  lemma SplitMore(s: string, c: char)
    requires c in s
    ensures |Split(s, c)| >= 2
  {
  }

  /**
   * A failure after the split, such as an expiry that is not a number, still hands
   * back the first part as the session id.
   */
  lemma LateFailureKeepsSessionId(sessionId: string, expiry: string, nowMs: int)
    requires ':' !in sessionId && ':' !in expiry && ParseInt64(expiry).None?
    ensures ParsePayload(sessionId + ":" + expiry, nowMs) == Parsed(false, sessionId)
  {
    SplitAtColon(sessionId, expiry);
  }

  /**
   * White space that Char.IsWhiteSpace knows but Int64.Parse does not allow, such as
   * a no-break space, in front of the expiry makes the token fail after the split.
   */
  lemma UnicodeSpaceExpiryRefused(sessionId: string, c: char, expiry: string, nowMs: int)
    requires ':' !in sessionId && ':' !in expiry
    requires IsWhiteSpace(c) && !IsNumberWhite(c)
    ensures ParsePayload(sessionId + ":" + ([c] + expiry), nowMs) == Parsed(false, sessionId)
  {
    ParseInt64RefusesOther(c, expiry);
    LateFailureKeepsSessionId(sessionId, [c] + expiry, nowMs);
  }

  /** Space, tab, CR or LF inserted anywhere into a token does not change how it parses. */
  lemma SpacedTokenParses(a: string, c: char, b: string, nowMs: int)
    requires Base64.IsBase64Space(c)
    ensures TryParseToken(Some(a + [c] + b), nowMs) == TryParseToken(Some(a + b), nowMs)
  {
    Base64.SpaceSkipped(a, c, b);
  }

  /** The empty token that RemoveToken writes is refused, with an empty session id. */
  lemma EmptyTokenRefused(nowMs: int)
    ensures TryParseToken(Some(""), nowMs) == Parsed(false, "")
  {
    assert Utf8.Decode([]) == "";
    assert Split("", ':') == [""];
  }

  /** GetToken: the first header named X_Token_Authorization, ignoring case; null when there is none. */
  method GetToken(request: Request) returns (token: Option<string>)
    ensures token == ValueOf(request.headers, TokenHeader, true)
  {
    token := Lookup(request.headers, TokenHeader, true);
  }

  /** What TryParseToken makes of the token a request carries. */
  function RequestSession(request: Request, nowMs: int): Parsed
  {
    TryParseToken(ValueOf(request.headers, TokenHeader, true), nowMs)
  }

  /** GetToken followed by TryParseToken, as the session operations do. */
  method ParseRequestToken(request: Request, nowMs: int) returns (p: Parsed)
    ensures p == RequestSession(request, nowMs)
  {
    var token := GetToken(request);
    p := TryParseToken(token, nowMs);
  }

  /**
   * SetToken: appends the X_Token_Authorization header with a token for `sessionId`;
   * when the token cannot be made, the exception leaves the headers as they were.
   */
  method SetToken(response: Response, sessionId: string, minutes: int, nowMs: int) returns (r: Result<()>)
    modifies response
    ensures r.Success? <==> InDateRange(nowMs + minutes * 60000)
    ensures r.Failure? ==> r.error == "ArgumentOutOfRangeException"
    ensures response.headers == old(response.headers)
              + (if r.Success? then [(TokenHeader, CreateToken(sessionId, minutes, nowMs).value)] else [])
    ensures response.cookies == old(response.cookies)
  {
    var token := CreateToken(sessionId, minutes, nowMs);
    if token.Failure? {
      return Failure(token.error);
    }
    response.SetHeader(TokenHeader, token.value);
    return Success(());
  }

  /** The default lifetime of SetToken, in minutes. */
  const DefaultMinutes: int := 60

  /** RemoveToken: appends an empty X_Token_Authorization header. */
  method RemoveToken(response: Response)
    modifies response
    ensures response.headers == old(response.headers) + [(TokenHeader, "")]
    ensures response.cookies == old(response.cookies)
  {
    response.SetHeader(TokenHeader, "");
  }
}
