/**
 * What the helpers see of an HTTP request and write to an HTTP response: the URL,
 * the header list and the cookie list of a request, and the header lines and
 * cookies appended to a response. Header lookup is the index loop shared by
 * TokenHelper.GetToken and DecodeHelper.GetHeader.
 */
module Http {
  import opened Wrappers
  import opened Text

  type Header = (string, string)

  datatype Request = Request(url: string, headers: seq<Header>, cookies: seq<Header>)

  /** A Set-Cookie written by SetCookie: name, value and its attributes. */
  datatype Cookie = Cookie(name: string, value: string, maxAge: int, path: string,
                           secure: bool, strict: bool, httpOnly: bool)

  /** The response under construction: SetHeader and SetCookie append, they never replace. */
  class Response {
    var headers: seq<Header>
    var cookies: seq<Cookie>

    constructor ()
      ensures headers == [] && cookies == []
    {
      headers := [];
      cookies := [];
    }

    method SetHeader(name: string, value: string)
      modifies this
      ensures headers == old(headers) + [(name, value)] && cookies == old(cookies)
    {
      headers := headers + [(name, value)];
    }

    method SetCookie(c: Cookie)
      modifies this
      ensures cookies == old(cookies) + [c] && headers == old(headers)
    {
      cookies := cookies + [c];
    }
  }

  /** Header names compare ignoring case (OrdinalIgnoreCase); cookie names compare exactly. */
  predicate NameMatches(n: string, name: string, ignoreCase: bool)
  {
    if ignoreCase then EqualsIgnoreCase(n, name) else n == name
  }

  /** The position of the first entry named `name`, if any. */
  function FirstMatch(entries: seq<Header>, name: string, ignoreCase: bool): (r: Option<nat>)
    ensures r.Some? ==> r.value < |entries| && NameMatches(entries[r.value].0, name, ignoreCase)
    ensures r.Some? ==> forall j :: 0 <= j < r.value ==> !NameMatches(entries[j].0, name, ignoreCase)
    ensures r.None? ==> forall j :: 0 <= j < |entries| ==> !NameMatches(entries[j].0, name, ignoreCase)
  {
    if entries == [] then None
    else if NameMatches(entries[0].0, name, ignoreCase) then Some(0)
    else match FirstMatch(entries[1..], name, ignoreCase)
      case None => None
      case Some(i) => Some(i + 1)
  }

  /** The value of the first entry named `name`; None stands for null. */
  function ValueOf(entries: seq<Header>, name: string, ignoreCase: bool): Option<string>
  {
    match FirstMatch(entries, name, ignoreCase)
    case None => None
    case Some(i) => Some(entries[i].1)
  }

  /**
   * The value of the first entry named `name`, scanning by index; null when no
   * entry has that name.
   */
  method Lookup(entries: seq<Header>, name: string, ignoreCase: bool) returns (r: Option<string>)
    ensures r == ValueOf(entries, name, ignoreCase)
    ensures r.Some? <==> exists i :: 0 <= i < |entries| && NameMatches(entries[i].0, name, ignoreCase)
  {
    var i := 0;
    while i < |entries|
      invariant 0 <= i <= |entries|
      invariant forall j :: 0 <= j < i ==> !NameMatches(entries[j].0, name, ignoreCase)
    {
      var (key, value) := entries[i];
      if NameMatches(key, name, ignoreCase) {
        assert FirstMatch(entries, name, ignoreCase) == Some(i) by {
          FirstMatchAt(entries, name, ignoreCase, i);
        }
        return Some(value);
      }
      i := i + 1;
    }
    return None;
  }

  /** An entry that matches with no match before it is the first match. */
  lemma {:induction false} FirstMatchAt(entries: seq<Header>, name: string, ignoreCase: bool, i: nat)
    requires i < |entries| && NameMatches(entries[i].0, name, ignoreCase)
    requires forall j :: 0 <= j < i ==> !NameMatches(entries[j].0, name, ignoreCase)
    ensures FirstMatch(entries, name, ignoreCase) == Some(i)
  {
    if i > 0 {
      FirstMatchAt(entries[1..], name, ignoreCase, i - 1);
    }
  }
}
