/**
 * The URL routers that turn a request into a scheduled event: the dispatcher
 * (Server/LuciferCore/Event/EventDispatcher.cs), whose keys are lower-cased and
 * which falls back to a prefix match over the known handlers, and the API handler
 * (Server/LuciferCore/Handler/APIHandler.cs), whose keys are exact. Handlers are
 * named by their index in the list of handler types the assembly scan would find,
 * in scan order; roles are integers ordered as the enumeration orders them. A
 * scheduled event is recorded with its handler, its delay in milliseconds and the
 * request and session it carries.
 */
module Dispatchers {
  import opened Wrappers
  import opened Text
  import opened Http

  type Role = int

  /** A route: the handler type and the least role the route asks for. */
  datatype Entry = Entry(handler: nat, minRole: Role)

  /** An event handed to the scheduler. */
  datatype Scheduled = Scheduled(handler: nat, delay: int, request: Request, session: nat)

  /** Schedule(0.25f), in milliseconds. */
  const HandleDelay: int := 250

  /** string.IsNullOrWhiteSpace. */
  predicate IsNullOrWhiteSpace(s: Option<string>)
  {
    s.None? || forall i :: 0 <= i < |s.value| ==> IsWhiteSpace(s.value[i])
  }

  /** The first handler, in scan order, whose Type starts the URL ignoring case. */
  function FirstPrefixHandler(types: seq<string>, url: string): (r: Option<nat>)
    ensures r.Some? <==> exists i :: 0 <= i < |types| && StartsWithIgnoreCase(url, types[i])
    ensures r.Some? ==> r.value < |types| && StartsWithIgnoreCase(url, types[r.value])
                        && forall j :: 0 <= j < r.value ==> !StartsWithIgnoreCase(url, types[j])
  {
    if types == [] then None
    else if StartsWithIgnoreCase(url, types[0]) then Some(0)
    else match FirstPrefixHandler(types[1..], url)
      case None => None
      case Some(i) => Some(i + 1)
  }

  /** Index `i` is the first handler whose lower-cased Type is `key`. */
  predicate FirstWithKey(types: seq<string>, i: int)
    requires 0 <= i < |types|
  {
    forall j :: 0 <= j < i ==> Lower(types[j]) != Lower(types[i])
  }

  class EventDispatcher {
    /** The Type of every handler the assembly scan finds, in scan order. */
    const types: seq<string>
    /** The value of UserRole.User. */
    const userRole: Role
    var routeMap: map<string, Entry>
    var scheduled: seq<Scheduled>

    /** The static constructor: an empty map, then Initialize with the default role. */
    constructor (types: seq<string>, userRole: Role)
      ensures this.types == types && this.userRole == userRole && scheduled == []
      ensures forall k :: k in routeMap <==> exists i :: 0 <= i < |types| && Lower(types[i]) == k
      ensures forall i :: 0 <= i < |types| && FirstWithKey(types, i) ==> routeMap[Lower(types[i])] == Entry(i, userRole)
    {
      this.types := types;
      this.userRole := userRole;
      routeMap := map[];
      scheduled := [];
      new;
      Initialize(userRole);
    }

    /** AddAPI: register (or overwrite) the lower-cased URL; a blank URL stands for the handler's Type. */
    method AddAPI(handler: nat, minRole: Role, url: Option<string>)
      requires handler < |types|
      modifies this
      ensures var key := Lower(if IsNullOrWhiteSpace(url) then types[handler] else url.value);
              routeMap == old(routeMap)[key := Entry(handler, minRole)]
      ensures var u := if IsNullOrWhiteSpace(url) then types[handler] else url.value;
              forall role :: CanAccess(u, role) <==> role >= minRole
      ensures scheduled == old(scheduled)
    {
      var u := if IsNullOrWhiteSpace(url) then types[handler] else url.value;
      routeMap := routeMap[Lower(u) := Entry(handler, minRole)];
    }

    /** RemoveAPI: delete the lower-cased URL and nothing else. */
    method RemoveAPI(url: string)
      modifies this
      ensures routeMap == old(routeMap) - {Lower(url)}
      ensures forall role :: !CanAccess(url, role)
      ensures scheduled == old(scheduled)
    {
      routeMap := routeMap - {Lower(url)};
    }

    /** CanAccess: the lower-cased URL is registered and the role reaches its minimum. */
    predicate CanAccess(url: string, role: Role)
      reads this
    {
      Lower(url) in routeMap && role >= routeMap[Lower(url)].minRole
    }

    /** Initialize: each handler under its lower-cased Type with `defaultRole`, never overwriting. */
    method Initialize(defaultRole: Role)
      modifies this
      ensures forall k :: k in old(routeMap) ==> k in routeMap && routeMap[k] == old(routeMap)[k]
      ensures forall k :: k in routeMap <==> k in old(routeMap) || exists i :: 0 <= i < |types| && Lower(types[i]) == k
      ensures forall i :: 0 <= i < |types| && Lower(types[i]) !in old(routeMap) && FirstWithKey(types, i) ==>
                routeMap[Lower(types[i])] == Entry(i, defaultRole)
      ensures scheduled == old(scheduled)
    {
      for n := 0 to |types|
        invariant forall k :: k in old(routeMap) ==> k in routeMap && routeMap[k] == old(routeMap)[k]
        invariant forall k :: k in routeMap <==> k in old(routeMap) || exists i :: 0 <= i < n && Lower(types[i]) == k
        invariant forall i :: 0 <= i < n && Lower(types[i]) !in old(routeMap) && FirstWithKey(types, i) ==>
                    routeMap[Lower(types[i])] == Entry(i, defaultRole)
        invariant scheduled == old(scheduled)
      {
        var url := Lower(types[n]);
        if url !in routeMap {
          routeMap := routeMap[url := Entry(n, defaultRole)];
        }
      }
    }

    /**
     * ResolveHandler: the entry of the lower-cased URL if registered; otherwise the
     * first handler whose Type starts the URL ignoring case, cached under its
     * lower-cased Type with role User; otherwise nothing.
     */
    method ResolveHandler(url: string) returns (r: Option<Entry>)
      modifies this
      ensures Lower(url) in old(routeMap) ==> r == Some(old(routeMap)[Lower(url)]) && routeMap == old(routeMap)
      ensures Lower(url) !in old(routeMap) ==>
                match FirstPrefixHandler(types, url)
                case None => r.None? && routeMap == old(routeMap)
                case Some(i) => r == Some(Entry(i, userRole)) && routeMap == old(routeMap)[Lower(types[i]) := Entry(i, userRole)]
      ensures scheduled == old(scheduled)
    {
      if Lower(url) in routeMap {
        return Some(routeMap[Lower(url)]);
      }
      var i := 0;
      while i < |types|
        invariant 0 <= i <= |types|
        invariant forall j :: 0 <= j < i ==> !StartsWithIgnoreCase(url, types[j])
        invariant routeMap == old(routeMap)
      {
        if StartsWithIgnoreCase(url, types[i]) {
          var entry := Entry(i, userRole);
          routeMap := routeMap[Lower(types[i]) := entry];
          return Some(entry);
        }
        i := i + 1;
      }
      return None;
    }

    /**
     * Handle: nothing when the URL resolves to no handler; otherwise exactly one
     * event for the resolved handler, 250 ms ahead, carrying the request and the
     * session. A handler found by prefix is cached in the route map as ResolveHandler
     * does. Neither the role of the caller nor the route's minimum is consulted.
     */
    method Handle(request: Request, session: nat)
      modifies this
      ensures Lower(request.url) in old(routeMap) ==>
                && routeMap == old(routeMap)
                && scheduled == old(scheduled) + [Scheduled(old(routeMap)[Lower(request.url)].handler, HandleDelay, request, session)]
      ensures Lower(request.url) !in old(routeMap) ==>
                match FirstPrefixHandler(types, request.url)
                case None => routeMap == old(routeMap) && scheduled == old(scheduled)
                case Some(i) =>
                  && routeMap == old(routeMap)[Lower(types[i]) := Entry(i, userRole)]
                  && scheduled == old(scheduled) + [Scheduled(i, HandleDelay, request, session)]
    {
      var entry := ResolveHandler(request.url);
      if entry.None? {
        return;
      }
      scheduled := scheduled + [Scheduled(entry.value.handler, HandleDelay, request, session)];
    }
  }

  /**
   * A route registered with a minimum no caller reaches is still served: Handle
   * schedules its event although CanAccess refuses every role below the minimum.
   */
  method HandleIgnoresMinRole(types: seq<string>, userRole: Role, minRole: Role, request: Request)
    returns (refused: bool, served: bool)
    requires |types| > 0 && !IsNullOrWhiteSpace(Some(request.url))
    ensures refused && served
  {
    var d := new EventDispatcher(types, userRole);
    d.AddAPI(0, minRole, Some(request.url));
    refused := !d.CanAccess(request.url, minRole - 1);
    d.Handle(request, 7);
    served := |d.scheduled| == 1;
  }

  class APIHandler {
    var routeMap: map<string, Entry>
    var scheduled: seq<Scheduled>

    constructor ()
      ensures routeMap == map[] && scheduled == []
    {
      routeMap := map[];
      scheduled := [];
    }

    /** AddAPI: register (or overwrite) the exact URL. */
    method AddAPI(handler: nat, url: string, minRole: Role)
      modifies this
      ensures routeMap == old(routeMap)[url := Entry(handler, minRole)]
      ensures forall role :: CanAccess(url, role) <==> role >= minRole
      ensures scheduled == old(scheduled)
    {
      routeMap := routeMap[url := Entry(handler, minRole)];
    }

    /** CanAccess: the exact URL is registered and the role reaches its minimum. */
    predicate CanAccess(url: string, role: Role)
      reads this
    {
      url in routeMap && role >= routeMap[url].minRole
    }

    /** RemoveAPI: delete the exact URL and nothing else. */
    method RemoveAPI(url: string)
      modifies this
      ensures routeMap == old(routeMap) - {url}
      ensures forall role :: !CanAccess(url, role)
      ensures scheduled == old(scheduled)
    {
      routeMap := routeMap - {url};
    }

    /**
     * Handle: nothing unless the whole URL, query included, is a registered key;
     * then exactly one event 250 ms ahead with the request and the session.
     */
    method Handle(request: Request, session: nat)
      modifies this
      ensures routeMap == old(routeMap)
      ensures request.url !in routeMap ==> scheduled == old(scheduled)
      ensures request.url in routeMap ==>
                scheduled == old(scheduled) + [Scheduled(routeMap[request.url].handler, HandleDelay, request, session)]
    {
      if request.url !in routeMap {
        return;
      }
      scheduled := scheduled + [Scheduled(routeMap[request.url].handler, HandleDelay, request, session)];
    }
  }

  /** The API handler's keys are exact: a route for "/api/x" does not serve "/api/x?id=1" or "/API/X". */
  method ExactKeysOnly(handler: nat, minRole: Role) returns (withQuery: nat, otherCase: nat)
    ensures withQuery == 0 && otherCase == 0
  {
    var h := new APIHandler();
    h.AddAPI(handler, "/api/x", minRole);
    h.Handle(Request("/api/x?id=1", [], []), 1);
    withQuery := |h.scheduled|;
    h.Handle(Request("/API/X", [], []), 1);
    otherCase := |h.scheduled|;
  }
}
