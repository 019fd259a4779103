/**
 * The session registry of the server (Server/LuciferCore/Manager/SessionManager.cs):
 * a dictionary from session id to the owning user and an expiry instant, with
 * lookups that evict a dead entry lazily and sweeps that remove entries in bulk.
 * Every operation takes the clock reading (Unix milliseconds) it would read.
 */
module Sessions {
  import opened Wrappers
  import opened Http
  import opened Tokens

  datatype Entry = Entry(userId: string, expireAt: int)

  /** Default lifetime of Store: one hour. */
  const DefaultTtl: int := 3600000

  /** IsExpired: an entry dies strictly after its expiry instant. */
  predicate Expired(e: Entry, now: int)
  {
    now > e.expireAt
  }

  /** What a lookup of `sessionId` finds at `now`: the user of a live entry, else null. */
  function LiveUser(sessions: map<string, Entry>, sessionId: string, now: int): (r: Option<string>)
    ensures r.Some? <==> sessionId in sessions && now <= sessions[sessionId].expireAt
    ensures r.Some? ==> r.value == sessions[sessionId].userId
  {
    if sessionId in sessions && !Expired(sessions[sessionId], now) then Some(sessions[sessionId].userId) else None
  }

  /** The entries of `sessions` whose ids are not in `ids`. */
  function Without(sessions: map<string, Entry>, ids: set<string>): (r: map<string, Entry>)
    ensures forall k :: k in r <==> k in sessions && k !in ids
    ensures forall k :: k in r ==> r[k] == sessions[k]
  {
    map k | k in sessions && k !in ids :: sessions[k]
  }

  /** The ids of the sessions that belong to `userId`. */
  function OwnedBy(sessions: map<string, Entry>, userId: string): set<string>
  {
    set k | k in sessions && sessions[k].userId == userId
  }

  /** The ids of the sessions whose expiry instant is at or before `now`. */
  function DueBy(sessions: map<string, Entry>, now: int): set<string>
  {
    set k | k in sessions && sessions[k].expireAt <= now
  }

  class SessionManager {
    var sessions: map<string, Entry>

    constructor ()
      ensures sessions == map[]
    {
      sessions := map[];
    }

    /** NumberSession. */
    function Count(): nat
      reads this
    {
      |sessions|
    }

    /**
     * Store: insert or replace the entry of `sessionId`, expiring `ttl` (one hour by
     * default) from now. The addition `UtcNow + ttl` throws ArgumentOutOfRangeException
     * before the write when the expiry falls outside the DateTime range.
     */
    method Store(sessionId: string, userId: string, ttl: Option<int>, now: int) returns (r: Result<()>)
      modifies this
      ensures r.Success? <==> InDateRange(now + ttl.GetOr(DefaultTtl))
      ensures r.Failure? ==> r.error == "ArgumentOutOfRangeException"
      ensures sessions == if r.Success? then old(sessions)[sessionId := Entry(userId, now + ttl.GetOr(DefaultTtl))]
                          else old(sessions)
      ensures Count() == if r.Success? && sessionId !in old(sessions) then old(Count()) + 1 else old(Count())
    {
      var expireAt := now + ttl.GetOr(DefaultTtl);
      if !InDateRange(expireAt) {
        return Failure("ArgumentOutOfRangeException");
      }
      sessions := sessions[sessionId := Entry(userId, expireAt)];
      return Success(());
    }

    /** RemoveSession / RemoveSessionInternal: drop one id, whether present or not. */
    method RemoveSession(sessionId: string)
      modifies this
      ensures sessions == old(sessions) - {sessionId}
    {
      sessions := sessions - {sessionId};
    }

    /**
     * GetUserId: the user of a live entry; otherwise null, and the id is removed
     * (an expired entry is evicted, an absent one stays absent).
     */
    method GetUserId(sessionId: string, now: int) returns (r: Option<string>)
      modifies this
      ensures r == LiveUser(old(sessions), sessionId, now)
      ensures sessions == if r.Some? then old(sessions) else old(sessions) - {sessionId}
    {
      if sessionId in sessions {
        var entry := sessions[sessionId];
        if !Expired(entry, now) {
          return Some(entry.userId);
        }
      }
      RemoveSession(sessionId);
      return None;
    }

    /** IsUser: true exactly when GetUserId would return a user, with the same eviction. */
    method IsUser(sessionId: string, now: int) returns (b: bool)
      modifies this
      ensures b == LiveUser(old(sessions), sessionId, now).Some?
      ensures sessions == if b then old(sessions) else old(sessions) - {sessionId}
    {
      if sessionId in sessions {
        var entry := sessions[sessionId];
        if !Expired(entry, now) {
          return true;
        }
      }
      RemoveSession(sessionId);
      return false;
    }

    /**
     * Authorization: the token of the request must parse and name a live session;
     * then the result is true with that session's user. Otherwise the user is "",
     * and when the token parsed but its session is dead the response (if any) gets
     * an empty token header.
     */
    method Authorization(request: Request, now: int, response: Option<Response>) returns (ok: bool, userId: string)
      modifies this, if response.Some? then {response.value} else {}
      ensures var p := RequestSession(request, now);
              && (ok <==> p.ok && LiveUser(old(sessions), p.sessionId, now).Some?)
              && (ok ==> userId == LiveUser(old(sessions), p.sessionId, now).value)
              && (!ok ==> userId == "")
      ensures var p := RequestSession(request, now);
              p.ok && !ok ==> sessions == old(sessions) - {p.sessionId}
      ensures !(RequestSession(request, now).ok && !ok) ==> sessions == old(sessions)
      ensures response.Some? && RequestSession(request, now).ok && !ok ==>
                response.value.headers == old(response.value.headers) + [(TokenHeader, "")]
      ensures response.Some? && !(RequestSession(request, now).ok && !ok) ==>
                response.value.headers == old(response.value.headers)
    {
      userId := "";
      var p := ParseRequestToken(request, now);
      if p.ok {
        var id := GetUserId(p.sessionId, now);
        if id.Some? {
          userId := id.value;
          return true, userId;
        } else if response.Some? {
          RemoveToken(response.value);
        }
      }
      return false, userId;
    }

    /**
     * RemoveCurrentSession: with a parseable token, its session is removed and the
     * response gets an empty token header; the result is true. The response is
     * dereferenced unconditionally there, so without one the call fails (after the
     * removal). Without a parseable token nothing changes and the result is false.
     */
    method RemoveCurrentSession(request: Request, now: int, response: Option<Response>) returns (r: Result<bool>)
      modifies this, if response.Some? then {response.value} else {}
      ensures var p := RequestSession(request, now);
              && sessions == (if p.ok then old(sessions) - {p.sessionId} else old(sessions))
              && r == (if !p.ok then Success(false) else if response.None? then Failure("NullReferenceException") else Success(true))
      ensures response.Some? ==>
                response.value.headers == old(response.value.headers)
                  + (if RequestSession(request, now).ok then [(TokenHeader, "")] else [])
    {
      var p := ParseRequestToken(request, now);
      if p.ok {
        RemoveSession(p.sessionId);
        if response.None? {
          return Failure("NullReferenceException");
        }
        RemoveToken(response.value);
        return Success(true);
      }
      return Success(false);
    }

    /** Remove every id of `ids`, one at a time. */
    method RemoveAll(ids: set<string>)
      modifies this
      ensures sessions == Without(old(sessions), ids)
    {
      var left := ids;
      while left != {}
        invariant left <= ids
        invariant sessions == Without(old(sessions), ids - left)
        decreases |left|
      {
        var id :| id in left;
        RemoveSession(id);
        left := left - {id};
      }
    }

    /** RemoveAllSessionOfUser: removes exactly the sessions of `userId`. */
    method RemoveAllSessionOfUser(userId: string)
      modifies this
      ensures sessions == Without(old(sessions), OwnedBy(old(sessions), userId))
      ensures forall k :: k in sessions <==> k in old(sessions) && old(sessions)[k].userId != userId
    {
      RemoveAll(OwnedBy(sessions, userId));
    }

    /** RemoveAllSessionsExcept: removes exactly the sessions of `userId` other than `keep`. */
    method RemoveAllSessionsExcept(userId: string, keep: string)
      modifies this
      ensures sessions == Without(old(sessions), OwnedBy(old(sessions), userId) - {keep})
      ensures forall k :: k in sessions <==> k in old(sessions) && (old(sessions)[k].userId != userId || k == keep)
    {
      RemoveAll(OwnedBy(sessions, userId) - {keep});
    }

    method Clear()
      modifies this
      ensures sessions == map[]
    {
      sessions := map[];
    }

    /**
     * CleanExpiredSessions: removes exactly the entries whose expiry instant is at or
     * before now, a test that differs from the lookups' at the instant itself.
     */
    method CleanExpiredSessions(now: int)
      modifies this
      ensures sessions == Without(old(sessions), DueBy(old(sessions), now))
      ensures forall k :: k in sessions <==> k in old(sessions) && old(sessions)[k].expireAt > now
    {
      RemoveAll(DueBy(sessions, now));
    }
  }

  /**
   * The boundary at the expiry instant: a session stored with a zero lifetime is
   * still live for GetUserId at that instant, yet the sweep at the same instant
   * removes it.
   */
  method LiveYetSwept(sessionId: string, userId: string, now: int) returns (seen: Option<string>, kept: bool)
    requires InDateRange(now)
    ensures seen == Some(userId) && !kept
  {
    var m := new SessionManager();
    var stored := m.Store(sessionId, userId, Some(0), now);
    seen := m.GetUserId(sessionId, now);
    m.CleanExpiredSessions(now);
    kept := sessionId in m.sessions;
  }
}
