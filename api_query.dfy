/**
 * The query strings of the browser's API client (Server/extra_files/FE/User/js/api.js):
 * `buildQuery` turns the entries of a parameter object into "?k=v&k=v", each side
 * percent-encoded as encodeURIComponent does, and `buildPathWithQuery` puts a path
 * with a leading '/' in front of it. Parameter objects are given as the list
 * Object.entries returns, in that order.
 */
module ApiQuery {
  import opened Wrappers
  import opened Text
  import opened Hex
  import opened Utf8
  import Routing

  // ---------------------------------------------------------------- values

  /** A JavaScript value as the query builder may meet it. */
  datatype JsValue = Null | Undefined | Bool(b: bool) | Num(n: int) | Str(s: string)

  /** String(v): the text a value turns into before it is encoded. */
  function ToJsString(v: JsValue): string
  {
    match v
    case Null => "null"
    case Undefined => "undefined"
    case Bool(b) => if b then "true" else "false"
    case Num(n) => IntToString(n)
    case Str(s) => s
  }

  /** Truthiness: null, undefined, false, 0 and "" are falsy. */
  predicate Truthy(v: JsValue)
  {
    match v
    case Null => false
    case Undefined => false
    case Bool(b) => b
    case Num(n) => n != 0
    case Str(s) => s != ""
  }

  // ---------------------------------------------------------------- encodeURIComponent

  /** The characters encodeURIComponent leaves alone: letters, digits and - _ . ! ~ * ' ( ). */
  predicate IsUnreserved(c: char)
  {
    ('A' <= c <= 'Z') || ('a' <= c <= 'z') || IsDigit(c)
    || c == '-' || c == '_' || c == '.' || c == '!' || c == '~' || c == '*' || c == '\'' || c == '(' || c == ')'
  }

  /** The characters an encoded component is made of. */
  predicate IsEncodedChar(c: char)
  {
    IsUnreserved(c) || c == '%'
  }

  const HexChars: string := "0123456789ABCDEF"

  /** An upper-case hexadecimal digit. */
  function HexChar(d: nat): (c: char)
    requires d < 16
    ensures IsUnreserved(c) && IsHexDigit(c) && HexDigitValue(c) == d
  {
    HexChars[d]
  }

  /** Two runs of encoded characters joined are one. */
  lemma EncodedConcat(a: string, b: string)
    requires forall i :: 0 <= i < |a| ==> IsEncodedChar(a[i])
    requires forall i :: 0 <= i < |b| ==> IsEncodedChar(b[i])
    ensures forall i :: 0 <= i < |a + b| ==> IsEncodedChar((a + b)[i])
  {
    forall i | 0 <= i < |a + b|
      ensures IsEncodedChar((a + b)[i])
    {
      if i >= |a| {
        assert (a + b)[i] == b[i - |a|];
      }
    }
  }

  /** "%XX" for every byte, XX in upper-case hexadecimal. */
  function PercentBytes(b: seq<byte>): (s: string)
    ensures |s| == 3 * |b|
    ensures forall i :: 0 <= i < |s| ==> IsEncodedChar(s[i])
  {
    if b == [] then []
    else
      var head := ['%', HexChar(b[0] as int / 16), HexChar(b[0] as int % 16)];
      var rest := PercentBytes(b[1..]);
      EncodedConcat(head, rest);
      head + rest
  }

  /** One character: itself when unreserved, otherwise the escapes of its UTF-8 bytes. */
  function EncodeChar(c: char): (s: string)
    ensures forall i :: 0 <= i < |s| ==> IsEncodedChar(s[i])
  {
    if IsUnreserved(c) then [c] else PercentBytes(Utf8.EncodeChar(c))
  }

  /** encodeURIComponent(s). */
  function EncodeComponent(s: string): (r: string)
    ensures forall i :: 0 <= i < |r| ==> IsEncodedChar(r[i])
  {
    if s == [] then []
    else
      var head := EncodeChar(s[0]);
      var rest := EncodeComponent(s[1..]);
      EncodedConcat(head, rest);
      head + rest
  }

  /** The separators of a query never occur in an encoded component. */
  lemma EncodedHasNoSeparators(s: string)
    ensures '&' !in EncodeComponent(s) && '=' !in EncodeComponent(s)
      && '?' !in EncodeComponent(s) && '#' !in EncodeComponent(s)
  {
    var r := EncodeComponent(s);
    forall i | 0 <= i < |r|
      ensures r[i] != '&' && r[i] != '=' && r[i] != '?' && r[i] != '#'
    {
      NotSeparator(r[i]);
    }
  }

  /** No separator of a query is an encoded character. */
  lemma NotSeparator(c: char)
    requires IsEncodedChar(c)
    ensures c != '&' && c != '=' && c != '?' && c != '#'
  {
  }

  /** Text made of unreserved characters is left as it is. */
  lemma {:induction false} EncodeUnreserved(s: string)
    requires forall i :: 0 <= i < |s| ==> IsUnreserved(s[i])
    ensures EncodeComponent(s) == s
    decreases |s|
  {
    if s != [] {
      EncodeUnreserved(s[1..]);
      assert [s[0]] + s[1..] == s;
    }
  }

  // ---------------------------------------------------------------- decodeURIComponent

  /**
   * The bytes an encoded component stands for: "%XX" is the byte XX and any other
   * character its own UTF-8 bytes. None for a '%' without two hexadecimal digits.
   */
  function PercentDecode(s: string): Option<seq<byte>>
    decreases |s|
  {
    if s == [] then Some([])
    else if s[0] == '%' then
      if |s| >= 3 && IsHexDigit(s[1]) && IsHexDigit(s[2]) then
        match PercentDecode(s[3..])
        case None => None
        case Some(rest) => Some([(HexDigitValue(s[1]) * 16 + HexDigitValue(s[2])) as byte] + rest)
      else None
    else
      match PercentDecode(s[1..])
      case None => None
      case Some(rest) => Some(Utf8.EncodeChar(s[0]) + rest)
  }

  /**
   * decodeURIComponent(s): the text of the decoded bytes; None stands for the URIError
   * thrown on a malformed escape or on escaped bytes that are not well-formed UTF-8.
   */
  function DecodeComponent(s: string): Option<string>
  {
    match PercentDecode(s)
    case None => None
    case Some(b) => Utf8.DecodeValid(b)
  }

  /** An escaped byte that starts no UTF-8 sequence, such as "%FF", is refused. */
  lemma StrayEscapeRefused(x: byte, t: string)
    requires Utf8.IsCont(x) || 0xF5 <= x
    ensures DecodeComponent(['%', HexChar(x as int / 16), HexChar(x as int % 16)] + t).None?
  {
    PercentByteDecode(x, t);
    match PercentDecode(t)
    case None =>
    case Some(r) => Utf8.StrayByteRefused(x, r);
  }

  lemma {:induction false} PercentBytesDecode(b: seq<byte>, rest: string)
    ensures PercentDecode(PercentBytes(b) + rest)
            == (match PercentDecode(rest) case None => None case Some(r) => Some(b + r))
    decreases |b|
  {
    if b != [] {
      var t := PercentBytes(b[1..]) + rest;
      var head := ['%', HexChar(b[0] as int / 16), HexChar(b[0] as int % 16)];
      assert PercentBytes(b) + rest == head + t;
      PercentByteDecode(b[0], t);
      PercentBytesDecode(b[1..], rest);
      match PercentDecode(rest)
      case None =>
      case Some(r) => ConsAppend(b, r);
    } else {
      assert PercentBytes(b) + rest == rest;
      match PercentDecode(rest)
      case None =>
      case Some(r) => assert b + r == r;
    }
  }

  /** One escape "%XX" decodes to the byte XX in front of whatever follows decodes to. */
  lemma PercentByteDecode(x: byte, t: string)
    ensures PercentDecode(['%', HexChar(x as int / 16), HexChar(x as int % 16)] + t)
            == (match PercentDecode(t) case None => None case Some(r) => Some([x] + r))
  {
    var hi, lo := HexChar(x as int / 16), HexChar(x as int % 16);
    var s := ['%', hi, lo] + t;
    assert s[0] == '%' && s[1] == hi && s[2] == lo && s[3..] == t;
    ByteDigits(x);
    EscapeDecode(s, x);
  }

  /** A byte is its high hexadecimal digit times 16 plus its low one. */
  lemma ByteDigits(x: byte)
    ensures x as int / 16 * 16 + x as int % 16 == x as int
  {
  }

  /** Text that starts with a valid escape of `x` decodes to `x` in front of what follows decodes to. */
  lemma EscapeDecode(s: string, x: byte)
    requires |s| >= 3 && s[0] == '%' && IsHexDigit(s[1]) && IsHexDigit(s[2])
    requires HexDigitValue(s[1]) * 16 + HexDigitValue(s[2]) == x as int
    ensures PercentDecode(s) == (match PercentDecode(s[3..]) case None => None case Some(r) => Some([x] + r))
  {
  }

  /** Putting the head of `b` back in front of its tail and `r`. */
  lemma ConsAppend(b: seq<byte>, r: seq<byte>)
    requires b != []
    ensures [b[0]] + (b[1..] + r) == b + r
  {
    assert [b[0]] + b[1..] == b;
  }

  lemma EncodeCharDecode(c: char, rest: string)
    ensures PercentDecode(EncodeChar(c) + rest)
            == (match PercentDecode(rest) case None => None case Some(r) => Some(Utf8.EncodeChar(c) + r))
  {
    if IsUnreserved(c) {
      assert ([c] + rest)[1..] == rest;
    } else {
      PercentBytesDecode(Utf8.EncodeChar(c), rest);
    }
  }

  /** The bytes an encoded component stands for are the UTF-8 bytes of the text. */
  lemma {:induction false} PercentDecodeEncode(s: string)
    ensures PercentDecode(EncodeComponent(s)) == Some(Encode(s))
    decreases |s|
  {
    if s != [] {
      PercentDecodeEncode(s[1..]);
      EncodeCharDecode(s[0], EncodeComponent(s[1..]));
    }
  }

  /** Round trip: decodeURIComponent(encodeURIComponent(s)) == s. */
  lemma DecodeEncodeComponent(s: string)
    ensures DecodeComponent(EncodeComponent(s)) == Some(s)
  {
    PercentDecodeEncode(s);
    Utf8.DecodeValidEncode(s);
  }

  // ---------------------------------------------------------------- buildQuery

  /** One query field: the encoded key, '=', the encoded text of the value. */
  function Field(entry: (string, JsValue)): string
  {
    EncodeComponent(entry.0) + "=" + EncodeComponent(ToJsString(entry.1))
  }

  /** The fields of the entries, in order. */
  function Fields(entries: seq<(string, JsValue)>): (r: seq<string>)
    ensures |r| == |entries| && forall i :: 0 <= i < |r| ==> r[i] == Field(entries[i])
  {
    if entries == [] then []
    else
      var rest := Fields(entries[1..]);
      FieldsCons(entries, rest);
      [Field(entries[0])] + rest
  }

  /** The field of the first entry in front of the fields of the others. */
  lemma FieldsCons(entries: seq<(string, JsValue)>, rest: seq<string>)
    requires entries != [] && |rest| == |entries| - 1
    requires forall i :: 0 <= i < |rest| ==> rest[i] == Field(entries[1..][i])
    ensures forall i :: 0 <= i < |entries| ==> ([Field(entries[0])] + rest)[i] == Field(entries[i])
  {
    forall i | 0 <= i < |entries|
      ensures ([Field(entries[0])] + rest)[i] == Field(entries[i])
    {
      if i > 0 {
        assert ([Field(entries[0])] + rest)[i] == rest[i - 1];
        assert entries[1..][i - 1] == entries[i];
      }
    }
  }

  /** buildQuery(params): "" for no entries, otherwise '?' and the fields joined by '&'. */
  function BuildQuery(entries: seq<(string, JsValue)>): (r: string)
    ensures r == "" <==> entries == []
  {
    var query := Join(Fields(entries), "&");
    assert entries != [] ==> query != "" by {
      if entries != [] {
        assert Field(entries[0])[|EncodeComponent(entries[0].0)|] == '=';
        JoinNonEmpty(Fields(entries), "&");
      }
    }
    if query == "" then "" else "?" + query
  }

  lemma {:induction false} JoinNonEmpty(parts: seq<string>, sep: string)
    requires parts != [] && parts[0] != []
    ensures Join(parts, sep) != []
  {
    if |parts| > 1 {
      assert Join(parts, sep)[0] == parts[0][0];
    }
  }

  /** Splitting joined parts at the separator gives the parts back when none holds it. */
  lemma {:induction false} SplitJoined(parts: seq<string>, c: char)
    requires parts != [] && forall i :: 0 <= i < |parts| ==> c !in parts[i]
    ensures Split(Join(parts, [c]), c) == parts
    decreases |parts|
  {
    if |parts| == 1 {
      SplitNoSeparator(parts[0], c);
    } else {
      SplitJoined(parts[1..], c);
      SplitAfterFirst(parts[0], Join(parts[1..], [c]), c);
      assert [parts[0]] + parts[1..] == parts;
    }
  }

  /** The (key, value) texts a query carries, decoded; None when a field is malformed. */
  function ParseQuery(q: string): Option<seq<(string, string)>>
  {
    if q == "" then Some([])
    else if q[0] != '?' then None
    else ParseFields(Split(q[1..], '&'))
  }

  function ParseFields(fields: seq<string>): Option<seq<(string, string)>>
  {
    if fields == [] then Some([])
    else
      var kv := Split(fields[0], '=');
      if |kv| != 2 then None
      else match (DecodeComponent(kv[0]), DecodeComponent(kv[1]), ParseFields(fields[1..]))
        case (Some(k), Some(v), Some(rest)) => Some([(k, v)] + rest)
        case _ => None
  }

  /** The entries with their values turned into text. */
  function Stringified(entries: seq<(string, JsValue)>): (r: seq<(string, string)>)
    ensures |r| == |entries|
  {
    if entries == [] then [] else [(entries[0].0, ToJsString(entries[0].1))] + Stringified(entries[1..])
  }

  lemma FieldParses(entry: (string, JsValue))
    ensures Split(Field(entry), '=') == [EncodeComponent(entry.0), EncodeComponent(ToJsString(entry.1))]
  {
    var k := EncodeComponent(entry.0);
    var v := EncodeComponent(ToJsString(entry.1));
    EncodedHasNoSeparators(entry.0);
    EncodedHasNoSeparators(ToJsString(entry.1));
    assert Field(entry) == k + ['='] + v;
    SplitAfterFirst(k, v, '=');
    SplitNoSeparator(v, '=');
  }

  lemma {:induction false} FieldsParse(entries: seq<(string, JsValue)>)
    ensures ParseFields(Fields(entries)) == Some(Stringified(entries))
    decreases |entries|
  {
    if entries != [] {
      var fs := Fields(entries);
      FieldParses(entries[0]);
      DecodeEncodeComponent(entries[0].0);
      DecodeEncodeComponent(ToJsString(entries[0].1));
      FieldsParse(entries[1..]);
      assert fs[1..] == Fields(entries[1..]);
    }
  }

  /**
   * Round trip: the query buildQuery writes reads back, field by field in the order
   * of the entries, as each key with the text of its value.
   */
  lemma QueryRoundTrip(entries: seq<(string, JsValue)>)
    ensures ParseQuery(BuildQuery(entries)) == Some(Stringified(entries))
  {
    if entries != [] {
      var fs := Fields(entries);
      forall i | 0 <= i < |fs| ensures '&' !in fs[i] {
        EncodedHasNoSeparators(entries[i].0);
        EncodedHasNoSeparators(ToJsString(entries[i].1));
      }
      SplitJoined(fs, '&');
      var q := BuildQuery(entries);
      assert q == "?" + Join(fs, "&");
      assert q[1..] == Join(fs, "&");
      FieldsParse(entries);
    }
  }

  // ---------------------------------------------------------------- buildPathWithQuery

  /** buildPathWithQuery(path, params): the path with a leading '/', then the query. */
  function BuildPathWithQuery(path: string, entries: seq<(string, JsValue)>): (r: string)
    ensures StartsWith(r, "/")
  {
    var query := BuildQuery(entries);
    var prefix := if StartsWith(path, "/") then path else "/" + path;
    if query != "" then prefix + query else prefix
  }

  /** The path part is the path as a route attribute would normalise it, and the query follows it. */
  lemma PathWithQuery(path: string, entries: seq<(string, JsValue)>)
    ensures BuildPathWithQuery(path, entries) == Routing.NormalizePath(path) + BuildQuery(entries)
    ensures path == "" ==> BuildPathWithQuery(path, entries) == "/" + BuildQuery(entries)
  {
    if BuildQuery(entries) == "" {
      assert Routing.NormalizePath(path) + "" == Routing.NormalizePath(path);
    }
  }

  // ---------------------------------------------------------------- APIUser.GetUser

  /** The query GetUser sends: both parameters whenever either is truthy, none otherwise. */
  function GetUserQuery(userId: JsValue, username: JsValue): (r: string)
    ensures r == "" <==> !Truthy(userId) && !Truthy(username)
  {
    if Truthy(userId) || Truthy(username) then BuildQuery([("userId", userId), ("username", username)])
    else BuildQuery([])
  }

  /**
   * Whatever GetUser is given, a request with either parameter truthy reads back as
   * both parameters, in order, each as the text of its value: a missing one is sent too.
   */
  lemma GetUserReadsBack(userId: JsValue, username: JsValue)
    requires Truthy(userId) || Truthy(username)
    ensures ParseQuery(GetUserQuery(userId, username)) == Some([("userId", ToJsString(userId)), ("username", ToJsString(username))])
  {
    var entries := [("userId", userId), ("username", username)];
    assert GetUserQuery(userId, username) == BuildQuery(entries);
    QueryRoundTrip(entries);
    TwoStringified(entries);
  }

  lemma TwoStringified(entries: seq<(string, JsValue)>)
    requires |entries| == 2
    ensures Stringified(entries) == [(entries[0].0, ToJsString(entries[0].1)), (entries[1].0, ToJsString(entries[1].1))]
  {
    assert Stringified(entries[1..]) == [(entries[1].0, ToJsString(entries[1].1))] + Stringified(entries[2..]);
  }

  /** A user asked for by id alone sends its missing name as the text "null". */
  lemma GetUserById(id: int)
    requires id != 0
    ensures GetUserQuery(Num(id), Null) == "?userId=" + IntToString(id) + "&username=null"
  {
    var d := IntToString(id);
    var entries := [("userId", Num(id)), ("username", Null)];
    GetUserFields(id);
    var f1 := "userId=" + d;
    var f2 := "username=null";
    assert Join([f1, f2], "&") == f1 + "&" + f2;
    assert BuildQuery(entries) == "?" + (f1 + "&" + f2);
    GetUserText(d);
  }

  /** The two fields GetUser sends for an id and a null name. */
  lemma GetUserFields(id: int)
    ensures Fields([("userId", Num(id)), ("username", Null)]) == ["userId=" + IntToString(id), "username=null"]
  {
    var d := IntToString(id);
    assert forall i :: 0 <= i < |d| ==> IsUnreserved(d[i]) by {
      if id < 0 {
        assert d == "-" + NatToDigits(-id);
      }
    }
    EncodeUnreserved(d);
    UserIdEncoded();
    UsernameEncoded();
    NullEncoded();
    GetUserLiterals();
  }

  /** The parameter names of GetUser and the text of null need no escapes. */
  lemma UserIdEncoded()
    ensures EncodeComponent("userId") == "userId"
  {
  }

  lemma UsernameEncoded()
    ensures EncodeComponent("username") == "username"
  {
  }

  lemma NullEncoded()
    ensures EncodeComponent("null") == "null"
  {
  }

  lemma GetUserLiterals()
    ensures "userId" + "=" == "userId="
    ensures "username" + "=" + "null" == "username=null"
  {
  }

  lemma GetUserText(d: string)
    ensures "?" + (("userId=" + d) + "&" + "username=null") == "?userId=" + d + "&username=null"
  {
  }
}
