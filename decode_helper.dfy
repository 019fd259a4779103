/**
 * URL and request decoding (Server/LuciferCore/Helper/DecodeHelper.cs): the path
 * before the query, the query parameters as a dictionary, one parameter, a header,
 * and the user a request speaks for. Percent-decoding (Uri.UnescapeDataString,
 * section 2.1 of RFC 3986) is the parameter `unescape`.
 */
module Decoding {
  import opened Wrappers
  import opened Text
  import opened Http
  import opened Tokens
  import opened Sessions

  /** GetBasePath: "" for a null or empty URL, otherwise the text before the first '?'. */
  function GetBasePath(url: Option<string>): (r: string)
    ensures '?' !in r
    ensures url.Some? ==> StartsWith(url.value, r)
    ensures url.Some? && '?' !in url.value ==> r == url.value
    ensures url.Some? && '?' in url.value ==> url.value[|r|] == '?'
  {
    if url.None? || url.value == "" then "" else SplitFirst(url.value, '?').0
  }

  /** The non-empty '&'-separated segments after the first '?'; none when there is no '?'. */
  function QueryPairs(path: string): (r: seq<string>)
    ensures '?' !in path ==> r == []
    ensures forall p :: p in r ==> p != [] && '&' !in p
  {
    match SplitFirst(path, '?').1
    case None => []
    case Some(query) => NonEmpty(Split(query, '&'))
  }

  /** One segment as a key and a value: split at its first '='; no '=' gives the value "". */
  function Entry(pair: string, unescape: string -> string): (r: (string, string))
    ensures '=' !in pair ==> r == (unescape(pair), "")
  {
    var (k, v) := SplitFirst(pair, '=');
    (unescape(k), if v.Some? then unescape(v.value) else "")
  }

  /** A segment is split at its first '=' only: later '=' belong to the value. */
  lemma EntryAt(key: string, value: string, unescape: string -> string)
    requires '=' !in key
    ensures Entry(key + "=" + value, unescape) == (unescape(key), unescape(value))
  {
    var pair := key + "=" + value;
    assert pair == key + ['='] + value;
    assert pair[|key|] == '=';
    assert SplitFirst(pair, '=').0 == key by {
      var r := SplitFirst(pair, '=');
      assert pair == r.0 + ['='] + r.1.value;
      assert r.0 == pair[..|r.0|];
    }
    assert SplitFirst(pair, '=').1 == Some(value);
  }

  function Entries(pairs: seq<string>, unescape: string -> string): (r: seq<(string, string)>)
    ensures |r| == |pairs|
    ensures forall i :: 0 <= i < |pairs| ==> r[i] == Entry(pairs[i], unescape)
  {
    if pairs == [] then [] else Entries(pairs[..|pairs| - 1], unescape) + [Entry(pairs[|pairs| - 1], unescape)]
  }

  /** Dictionary assignment in order: every key present, each with its last value. */
  function Collect(entries: seq<(string, string)>): (r: map<string, string>)
    ensures forall k :: k in r ==> exists i :: 0 <= i < |entries| && entries[i].0 == k
  {
    if entries == [] then map[]
    else Collect(entries[..|entries| - 1])[entries[|entries| - 1].0 := entries[|entries| - 1].1]
  }

  /** Every key that occurs is in the dictionary, with the value of its last occurrence. */
  lemma {:induction false} LastWins(entries: seq<(string, string)>, i: nat)
    requires i < |entries|
    requires forall j :: i < j < |entries| ==> entries[j].0 != entries[i].0
    ensures entries[i].0 in Collect(entries) && Collect(entries)[entries[i].0] == entries[i].1
  {
    if i < |entries| - 1 {
      LastWins(entries[..|entries| - 1], i);
    }
  }

  /** A key is present exactly when some segment carries it. */
  lemma {:induction false} KeyPresent(entries: seq<(string, string)>, k: string)
    ensures k in Collect(entries) <==> exists i :: 0 <= i < |entries| && entries[i].0 == k
  {
    if entries != [] && entries[|entries| - 1].0 != k {
      var init := entries[..|entries| - 1];
      KeyPresent(init, k);
      if exists i :: 0 <= i < |entries| && entries[i].0 == k {
        var i :| 0 <= i < |entries| && entries[i].0 == k;
        assert init[i].0 == k;
      }
    }
  }

  /** The dictionary ParseQueryParams builds. */
  function QueryParams(path: string, unescape: string -> string): map<string, string>
  {
    Collect(Entries(QueryPairs(path), unescape))
  }

  /** ParseQueryParams: one dictionary assignment per non-empty segment of the query, in order. */
  method ParseQueryParams(path: string, unescape: string -> string) returns (dict: map<string, string>)
    ensures dict == QueryParams(path, unescape)
    ensures '?' !in path ==> dict == map[]
  {
    dict := map[];
    var pairs := QueryPairs(path);
    var i := 0;
    while i < |pairs|
      invariant 0 <= i <= |pairs|
      invariant dict == Collect(Entries(pairs[..i], unescape))
    {
      var (k, v) := SplitFirst(pairs[i], '=');
      var key := unescape(k);
      var value := if v.Some? then unescape(v.value) else "";
      CollectStep(pairs, i, unescape);
      dict := dict[key := value];
      i := i + 1;
    }
    assert pairs[..i] == pairs;
  }

  /** One more segment adds (or overwrites) its own key. */
  lemma CollectStep(pairs: seq<string>, i: nat, unescape: string -> string)
    requires i < |pairs|
    ensures Collect(Entries(pairs[..i + 1], unescape))
            == Collect(Entries(pairs[..i], unescape))[Entry(pairs[i], unescape).0 := Entry(pairs[i], unescape).1]
  {
    assert pairs[..i + 1][..i] == pairs[..i];
  }

  /** GetParamWithURL: the value of `key` in the query, or null when it is absent. */
  method GetParamWithURL(key: string, url: string, unescape: string -> string) returns (r: Option<string>)
    ensures r.Some? <==> key in QueryParams(url, unescape)
    ensures r.Some? ==> r.value == QueryParams(url, unescape)[key]
  {
    var dict := ParseQueryParams(url, unescape);
    r := if key in dict then Some(dict[key]) else None;
  }

  /** GetHeader: the first header named `name`, ignoring case; null when there is none. */
  method GetHeader(request: Request, name: string) returns (r: Option<string>)
    ensures r == ValueOf(request.headers, name, true)
  {
    r := Lookup(request.headers, name, true);
  }

  /** The `userId` query parameter, when the URL carries a non-empty one. */
  function ExplicitUser(url: string, unescape: string -> string): Option<string>
  {
    var q := QueryParams(url, unescape);
    if "userId" in q && q["userId"] != "" then Some(q["userId"]) else None
  }

  /**
   * GetUserIdFromRequest: a non-empty `userId` query parameter wins; otherwise the
   * session named by the request's token is looked up (evicting it when dead);
   * without a parseable token the result is null.
   */
  method GetUserIdFromRequest(request: Request, sessions: SessionManager, now: int, unescape: string -> string)
    returns (r: Option<string>)
    modifies sessions
    ensures ExplicitUser(request.url, unescape).Some? ==>
              r == ExplicitUser(request.url, unescape) && sessions.sessions == old(sessions.sessions)
    ensures ExplicitUser(request.url, unescape).None? && !RequestSession(request, now).ok ==>
              r.None? && sessions.sessions == old(sessions.sessions)
    ensures ExplicitUser(request.url, unescape).None? && RequestSession(request, now).ok ==>
              && r == LiveUser(old(sessions.sessions), RequestSession(request, now).sessionId, now)
              && sessions.sessions == if r.Some? then old(sessions.sessions)
                                      else old(sessions.sessions) - {RequestSession(request, now).sessionId}
  {
    var userId := GetParamWithURL("userId", request.url, unescape);
    if userId.Some? && userId.value != "" {
      return userId;
    }
    var p := ParseRequestToken(request, now);
    if p.ok {
      r := sessions.GetUserId(p.sessionId, now);
      return r;
    }
    return None;
  }
}
