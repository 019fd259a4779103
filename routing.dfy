/**
 * Verb and path routing inside a handler
 * (Server/LuciferCore/Attributes/RouteAttribute.cs and
 * Server/LuciferCore/Handler/HandlerBase.cs). Each action of a handler carries one
 * or more route attributes; the handler's constructor registers every attribute
 * under its verb and the lower-cased handler Type followed by the attribute's path,
 * and Handle dispatches a request by its verb and the path before its query.
 * The reflection scan is replaced by the explicit list of the handler's actions,
 * in declaration order, each with its attributes.
 */
module Routing {
  import opened Wrappers
  import opened Text
  import opened Decoding

  // ---------------------------------------------------------------- route attributes

  /** A route attribute as stored: the verb upper-cased, the path starting with '/'. */
  datatype RouteAttribute = RouteAttribute(verb: string, path: string)

  /** The path as the attribute stores it: a '/' is put in front unless one is there. */
  function NormalizePath(path: string): (r: string)
    ensures StartsWith(r, "/")
    ensures r == path <==> StartsWith(path, "/")
    ensures r == path || r == "/" + path
  {
    if StartsWith(path, "/") then path else "/" + path
  }

  /** The attribute constructor: verb and path normalised. */
  function MakeRoute(verb: string, path: string): (r: RouteAttribute)
    ensures r.verb == Upper(verb) && r.path == NormalizePath(path)
  {
    RouteAttribute(Upper(verb), NormalizePath(path))
  }

  /** Normalising an attribute twice changes nothing. */
  lemma MakeRouteIdempotent(verb: string, path: string)
    ensures MakeRoute(MakeRoute(verb, path).verb, MakeRoute(verb, path).path) == MakeRoute(verb, path)
  {
    UpperIdempotent(verb);
  }

  /** An empty path is stored as "/", so [HttpGet("")] is a route for Type + "/". */
  lemma EmptyPathIsRoot(verb: string)
    ensures MakeRoute(verb, "").path == "/"
  {
  }

  // ---------------------------------------------------------------- route tables

  /** The seven verbs that have a route table; an attribute with any other verb is ignored. */
  const Verbs: seq<string> := ["HEAD", "GET", "POST", "PUT", "DELETE", "OPTIONS", "TRACE"]

  /** One action of a handler with all its route attributes (an action may carry several). */
  datatype RouteMethod = RouteMethod(action: nat, routes: seq<RouteAttribute>)

  /** One attribute of one action. */
  datatype Binding = Binding(route: RouteAttribute, action: nat)

  /** Verb -> lower-cased full path -> action. */
  type Tables = map<string, map<string, nat>>

  const EmptyTables: Tables :=
    map["HEAD" := map[], "GET" := map[], "POST" := map[], "PUT" := map[],
        "DELETE" := map[], "OPTIONS" := map[], "TRACE" := map[]]

  /** The key an attribute is registered under: Type followed by its path, lower-cased. */
  function RouteKey(handlerType: string, route: RouteAttribute): string
  {
    Lower(handlerType + route.path)
  }

  /** The attributes of one action, in order. */
  function Bindings(action: nat, routes: seq<RouteAttribute>): (r: seq<Binding>)
    ensures |r| == |routes|
    ensures forall i :: 0 <= i < |routes| ==> r[i] == Binding(routes[i], action)
  {
    if routes == [] then [] else Bindings(action, routes[..|routes| - 1]) + [Binding(routes[|routes| - 1], action)]
  }

  /** Every attribute of every action, in the order the constructor visits them. */
  function Flatten(methods: seq<RouteMethod>): seq<Binding>
  {
    if methods == [] then []
    else Flatten(methods[..|methods| - 1]) + Bindings(methods[|methods| - 1].action, methods[|methods| - 1].routes)
  }

  /** One registration: the assignment into the verb's table, overwriting; unknown verbs change nothing. */
  function Register(tables: Tables, handlerType: string, b: Binding): Tables
  {
    if b.route.verb in tables then
      var table: map<string, nat> := tables[b.route.verb];
      tables[b.route.verb := table[RouteKey(handlerType, b.route) := b.action]]
    else tables
  }

  /** The tables after registering `bindings` in order. */
  function Registered(handlerType: string, bindings: seq<Binding>): Tables
  {
    if bindings == [] then EmptyTables
    else Register(Registered(handlerType, bindings[..|bindings| - 1]), handlerType, bindings[|bindings| - 1])
  }

  /** Binding `i` is the last one registered for its verb and key. */
  predicate LastFor(handlerType: string, bindings: seq<Binding>, i: int)
    requires 0 <= i < |bindings|
  {
    forall j :: i < j < |bindings| ==>
      bindings[j].route.verb != bindings[i].route.verb || RouteKey(handlerType, bindings[j].route) != RouteKey(handlerType, bindings[i].route)
  }

  /** Some binding registers `key` under `verb`. */
  predicate Declares(handlerType: string, bindings: seq<Binding>, verb: string, key: string)
  {
    exists i :: 0 <= i < |bindings| && bindings[i].route.verb == verb && RouteKey(handlerType, bindings[i].route) == key
  }

  /** The tables hold exactly the seven verbs. */
  lemma {:induction false} RegisteredVerbs(handlerType: string, bindings: seq<Binding>)
    ensures forall v :: v in Registered(handlerType, bindings) <==> v in Verbs
  {
    if bindings != [] {
      RegisteredVerbs(handlerType, bindings[..|bindings| - 1]);
    }
  }

  /** A verb's table holds exactly the keys some binding declares for it. */
  lemma {:induction false} RegisteredKey(handlerType: string, bindings: seq<Binding>, v: string, k: string)
    requires v in Verbs
    ensures v in Registered(handlerType, bindings)
    ensures k in Registered(handlerType, bindings)[v] <==> Declares(handlerType, bindings, v, k)
  {
    RegisteredVerbs(handlerType, bindings);
    if bindings != [] {
      var init := bindings[..|bindings| - 1];
      RegisteredVerbs(handlerType, init);
      RegisteredKey(handlerType, init, v, k);
      RegisterKey(Registered(handlerType, init), handlerType, bindings[|bindings| - 1], v, k);
      DeclaresSnoc(handlerType, bindings, v, k);
    } else {
      assert EmptyTables[v] == map[];
    }
  }

  /** One registration adds its own key to its verb's table and leaves the other keys where they were. */
  lemma RegisterKey(tables: Tables, handlerType: string, b: Binding, v: string, k: string)
    requires v in tables
    ensures v in Register(tables, handlerType, b)
    ensures k in Register(tables, handlerType, b)[v] <==>
              k in tables[v] || (b.route.verb == v && RouteKey(handlerType, b.route) == k)
  {
  }

  /** A verb and key are declared by a list when by all of it but the last binding, or by that one. */
  lemma DeclaresSnoc(handlerType: string, bindings: seq<Binding>, v: string, k: string)
    requires bindings != []
    ensures Declares(handlerType, bindings, v, k) <==>
              Declares(handlerType, bindings[..|bindings| - 1], v, k)
              || (bindings[|bindings| - 1].route.verb == v && RouteKey(handlerType, bindings[|bindings| - 1].route) == k)
  {
    var init := bindings[..|bindings| - 1];
    if Declares(handlerType, init, v, k) {
      var i :| 0 <= i < |init| && init[i].route.verb == v && RouteKey(handlerType, init[i].route) == k;
      assert bindings[i] == init[i];
    }
    if Declares(handlerType, bindings, v, k) {
      var i :| 0 <= i < |bindings| && bindings[i].route.verb == v && RouteKey(handlerType, bindings[i].route) == k;
      if i < |init| {
        assert init[i] == bindings[i];
      }
    }
  }

  /** Every registered key is lower-case. */
  lemma RegisteredLower(handlerType: string, bindings: seq<Binding>, v: string, k: string)
    requires v in Verbs
    requires v in Registered(handlerType, bindings) && k in Registered(handlerType, bindings)[v]
    ensures Lower(k) == k
  {
    RegisteredKey(handlerType, bindings, v, k);
    var i :| 0 <= i < |bindings| && bindings[i].route.verb == v && RouteKey(handlerType, bindings[i].route) == k;
    LowerIdempotent(handlerType + bindings[i].route.path);
  }

  /** A key maps to the action of the last binding that declares it. */
  lemma {:induction false} RegisteredLast(handlerType: string, bindings: seq<Binding>, i: nat)
    requires i < |bindings| && bindings[i].route.verb in Verbs && LastFor(handlerType, bindings, i)
    ensures bindings[i].route.verb in Registered(handlerType, bindings)
    ensures RouteKey(handlerType, bindings[i].route) in Registered(handlerType, bindings)[bindings[i].route.verb]
    ensures Registered(handlerType, bindings)[bindings[i].route.verb][RouteKey(handlerType, bindings[i].route)] == bindings[i].action
  {
    RegisteredVerbs(handlerType, bindings);
    var init := bindings[..|bindings| - 1];
    var b := bindings[|bindings| - 1];
    RegisteredVerbs(handlerType, init);
    if i < |init| {
      assert init[i] == bindings[i];
      assert LastFor(handlerType, init, i);
      RegisteredLast(handlerType, init, i);
      assert b.route.verb != bindings[i].route.verb || RouteKey(handlerType, b.route) != RouteKey(handlerType, bindings[i].route);
    }
  }

  lemma BindingsPush(action: nat, routes: seq<RouteAttribute>, j: nat)
    requires j < |routes|
    ensures Bindings(action, routes[..j + 1]) == Bindings(action, routes[..j]) + [Binding(routes[j], action)]
  {
    assert routes[..j + 1][..j] == routes[..j];
  }

  lemma RegisteredPush(handlerType: string, bindings: seq<Binding>, b: Binding)
    ensures Registered(handlerType, bindings + [b]) == Register(Registered(handlerType, bindings), handlerType, b)
  {
    assert (bindings + [b])[..|bindings|] == bindings;
  }

  /** The constructor's nested loops: every attribute of every action, registered in order. */
  method BuildRoutes(handlerType: string, methods: seq<RouteMethod>) returns (tables: Tables)
    ensures tables == Registered(handlerType, Flatten(methods))
  {
    tables := EmptyTables;
    for i := 0 to |methods|
      invariant tables == Registered(handlerType, Flatten(methods[..i]))
    {
      var m := methods[i];
      ghost var before := Flatten(methods[..i]);
      assert methods[..i + 1][..i] == methods[..i];
      assert m.routes[..0] == [] && before + Bindings(m.action, m.routes[..0]) == before;
      for j := 0 to |m.routes|
        invariant tables == Registered(handlerType, before + Bindings(m.action, m.routes[..j]))
      {
        BindingsPush(m.action, m.routes, j);
        assert before + Bindings(m.action, m.routes[..j + 1]) == (before + Bindings(m.action, m.routes[..j])) + [Binding(m.routes[j], m.action)];
        RegisteredPush(handlerType, before + Bindings(m.action, m.routes[..j]), Binding(m.routes[j], m.action));
        tables := Register(tables, handlerType, Binding(m.routes[j], m.action));
      }
      assert m.routes[..|m.routes|] == m.routes;
    }
    assert methods[..|methods|] == methods;
  }

  // ---------------------------------------------------------------- replies

  /** The payload of a reply: a string becomes the object {message}; any other object is sent as it is. */
  datatype Data = Text(text: string) | Object(id: nat)
  datatype Body = NoBody | MessageObject(message: string) | ObjectBody(id: nat)
  datatype JsonReply = JsonReply(status: int, body: Body)

  /** SendJsonResponse after the string wrapping of ErrorHandle and OkHandle. */
  function Reply(data: Option<Data>, status: int): (r: JsonReply)
    ensures r.status == status
    ensures data.None? <==> r.body == NoBody
    ensures data.Some? && data.value.Text? ==> r.body == MessageObject(data.value.text)
  {
    match data
    case None => JsonReply(status, NoBody)
    case Some(Text(message)) => JsonReply(status, MessageObject(message))
    case Some(Object(id)) => JsonReply(status, ObjectBody(id))
  }

  /** ErrorHandle: status 400 unless one is given. */
  function ErrorHandle(data: Option<Data>, status: Option<int>): (r: JsonReply)
    ensures r.status == status.GetOr(400)
  {
    Reply(data, status.GetOr(400))
  }

  /** OkHandle: status 200 unless one is given. */
  function OkHandle(data: Option<Data>, status: Option<int>): (r: JsonReply)
    ensures r.status == status.GetOr(200)
  {
    Reply(data, status.GetOr(200))
  }

  /** ErrorHandle and OkHandle differ only in their default status. */
  lemma ErrorIsOkWith400(data: Option<Data>)
    ensures ErrorHandle(data, None) == OkHandle(data, Some(400))
    ensures ErrorHandle(data, None).status == 400 && OkHandle(data, None).status == 200
  {
  }

  // ---------------------------------------------------------------- the handler

  /** What Handle does: invoke one action, or reply with an error. */
  datatype Outcome = Invoked(action: nat) | Rejected(reply: JsonReply)

  class HandlerBase {
    const handlerType: string
    const methods: seq<RouteMethod>
    const routes: Tables

    /** The route tables are those the registrations of `methods` build. */
    ghost predicate Valid()
    {
      routes == Registered(handlerType, Flatten(methods))
    }

    constructor (handlerType: string, methods: seq<RouteMethod>)
      ensures this.handlerType == handlerType && this.methods == methods
      ensures Valid()
    {
      this.handlerType := handlerType;
      this.methods := methods;
      var tables := BuildRoutes(handlerType, methods);
      routes := tables;
    }

    /** CanHandle: the path starts with Type, ignoring case. */
    predicate CanHandle(path: string)
    {
      StartsWithIgnoreCase(path, handlerType)
    }

    /**
     * Handle: the verb upper-cased selects a table, the path before the query is
     * looked up ignoring case. A hit invokes the action of the last attribute
     * registered for that verb and path; anything else is ErrorHandle's 400 reply.
     */
    function Handle(verb: string, url: string): (o: Outcome)
      requires Valid()
      ensures var key := Lower(GetBasePath(Some(url)));
              o.Invoked? <==> Upper(verb) in Verbs && Declares(handlerType, Flatten(methods), Upper(verb), key)
      ensures o.Invoked? ==>
                exists i :: 0 <= i < |Flatten(methods)| && Flatten(methods)[i].route.verb == Upper(verb)
                  && RouteKey(handlerType, Flatten(methods)[i].route) == Lower(GetBasePath(Some(url)))
                  && LastFor(handlerType, Flatten(methods), i) && o.action == Flatten(methods)[i].action
      ensures o.Rejected? ==> o.reply == JsonReply(400, NoBody)
    {
      var path := GetBasePath(Some(url));
      var verb' := Upper(verb);
      RegisteredVerbs(handlerType, Flatten(methods));
      if verb' in routes && Lower(path) in routes[verb'] then
        RegisteredKey(handlerType, Flatten(methods), verb', Lower(path));
        LastDeclared(handlerType, Flatten(methods), verb', Lower(path));
        var i :| 0 <= i < |Flatten(methods)| && Flatten(methods)[i].route.verb == verb'
                 && RouteKey(handlerType, Flatten(methods)[i].route) == Lower(path) && LastFor(handlerType, Flatten(methods), i);
        RegisteredLast(handlerType, Flatten(methods), i);
        Invoked(routes[verb'][Lower(path)])
      else if verb' in Verbs then
        RegisteredKey(handlerType, Flatten(methods), verb', Lower(path));
        Rejected(ErrorHandle(None, None))
      else Rejected(ErrorHandle(None, None))
    }
  }

  /** A declared key has a last declaring binding. */
  lemma LastDeclared(handlerType: string, bindings: seq<Binding>, verb: string, key: string)
    requires Declares(handlerType, bindings, verb, key)
    ensures exists i :: 0 <= i < |bindings| && bindings[i].route.verb == verb && RouteKey(handlerType, bindings[i].route) == key
                        && LastFor(handlerType, bindings, i)
  {
    var i :| 0 <= i < |bindings| && bindings[i].route.verb == verb && RouteKey(handlerType, bindings[i].route) == key;
    while !LastFor(handlerType, bindings, i)
      invariant 0 <= i < |bindings| && bindings[i].route.verb == verb && RouteKey(handlerType, bindings[i].route) == key
      decreases |bindings| - i
    {
      var j :| i < j < |bindings| && bindings[j].route.verb == verb && RouteKey(handlerType, bindings[j].route) == key;
      i := j;
    }
  }

  /** A request Handle dispatches is one CanHandle accepts. */
  lemma DispatchedIsHandled(h: HandlerBase, verb: string, url: string)
    requires h.Valid() && h.Handle(verb, url).Invoked?
    ensures h.CanHandle(url)
  {
    var path := GetBasePath(Some(url));
    var i :| 0 <= i < |Flatten(h.methods)| && RouteKey(h.handlerType, Flatten(h.methods)[i].route) == Lower(path);
    var p := Flatten(h.methods)[i].route.path;
    LowerAppend(h.handlerType, p);
    assert Lower(path)[..|h.handlerType|] == Lower(h.handlerType);
    assert url[..|path|] == path;
    assert Lower(url)[..|h.handlerType|] == Lower(path)[..|h.handlerType|];
  }

  /**
   * A request for the bare Type, with or without a query, never reaches a root
   * route: that route is registered under Type + "/".
   */
  lemma BareTypeMissesRoot(handlerType: string, query: string, verb: string)
    requires '?' !in handlerType
    requires query == [] || query[0] == '?'
    ensures Lower(GetBasePath(Some(handlerType + query))) != RouteKey(handlerType, MakeRoute(verb, ""))
  {
    var url := handlerType + query;
    var r := GetBasePath(Some(url));
    if query != [] {
      assert url[|handlerType|] == '?';
    }
    assert |r| == |handlerType|;
  }
}
