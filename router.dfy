/** The dispatch in `handle_carreras` (src/main.rs:71-78): a `match` whose
    guards test, in order, whether the whole request text starts with a
    fixed prefix; the first guard that holds picks the handler. */
module Router {
  import opened Text

  datatype Handler =
    | PostHandler       // handle_post_request
    | GetHandler        // handle_get_request
    | GetAllHandler     // handle_get_all_request
    | PutHandler        // handle_put_request
    | DeleteHandler     // handle_delete_request
    | NotFoundHandler   // the `_` arm

  /** The guards' prefixes, in the order of the match arms. */
  const Prefixes: seq<string> :=
    ["POST /carreras", "GET /carreras/", "GET /carreras", "PUT /carreras/", "DELETE /carreras/"]

  const Targets: seq<Handler> :=
    [PostHandler, GetHandler, GetAllHandler, PutHandler, DeleteHandler]

  /** The index of the first prefix the request starts with, or the number
      of prefixes when it starts with none. */
  function FirstMatch(request: string, prefixes: seq<string>): (k: nat)
    ensures k <= |prefixes|
    ensures forall j :: 0 <= j < k ==> !StartsWith(request, prefixes[j])
    ensures k < |prefixes| ==> StartsWith(request, prefixes[k])
    decreases |prefixes|
  {
    if |prefixes| == 0 then 0
    else if StartsWith(request, prefixes[0]) then 0
    else
      var k := FirstMatch(request, prefixes[1..]);
      assert forall j :: 1 <= j < k + 1 ==> prefixes[j] == prefixes[1..][j - 1];
      k + 1
  }

  /** The handler the match arms select for a request. */
  function Route(request: string): Handler
  {
    var k := FirstMatch(request, Prefixes);
    if k < |Targets| then Targets[k] else NotFoundHandler
  }

  lemma StartsWithAt(s: string, p: string, i: nat)
    requires StartsWith(s, p) && i < |p|
    ensures i < |s| && s[i] == p[i]
  {
    assert s[..|p|][i] == s[i];
  }

  /** The route, arm by arm. */
  lemma RouteArms(request: string)
    ensures Route(request) ==
      if StartsWith(request, "POST /carreras") then PostHandler
      else if StartsWith(request, "GET /carreras/") then GetHandler
      else if StartsWith(request, "GET /carreras") then GetAllHandler
      else if StartsWith(request, "PUT /carreras/") then PutHandler
      else if StartsWith(request, "DELETE /carreras/") then DeleteHandler
      else NotFoundHandler
  {
    var k := FirstMatch(request, Prefixes);
    if k < 5 {
      assert StartsWith(request, Prefixes[k]);
    }
  }

  /** Requests starting `POST /carreras`, also `POST /carrerasX`, create. */
  lemma RoutePost(request: string)
    ensures Route(request) == PostHandler <==> StartsWith(request, "POST /carreras")
  {
    RouteArms(request);
    if StartsWith(request, "GET /carreras") { StartsWithAt(request, "GET /carreras", 0); }
    if StartsWith(request, "PUT /carreras/") { StartsWithAt(request, "PUT /carreras/", 1); }
    if StartsWith(request, "DELETE /carreras/") { StartsWithAt(request, "DELETE /carreras/", 0); }
  }

  /** Every request starting `GET /carreras/` goes to get-one, never to get-all. */
  lemma RouteGetOne(request: string)
    ensures Route(request) == GetHandler <==> StartsWith(request, "GET /carreras/")
  {
    RouteArms(request);
    if StartsWith(request, "GET /carreras/") { StartsWithAt(request, "GET /carreras/", 0); }
  }

  /** Get-all takes the `GET /carreras` requests that get-one did not. */
  lemma RouteGetAll(request: string)
    ensures Route(request) == GetAllHandler
      <==> StartsWith(request, "GET /carreras") && !StartsWith(request, "GET /carreras/")
  {
    RouteArms(request);
    if StartsWith(request, "GET /carreras") { StartsWithAt(request, "GET /carreras", 0); }
  }

  /** Update needs the trailing slash: `PUT /carreras` alone is not routed. */
  lemma RoutePut(request: string)
    ensures Route(request) == PutHandler <==> StartsWith(request, "PUT /carreras/")
  {
    RouteArms(request);
    if StartsWith(request, "PUT /carreras/") {
      StartsWithAt(request, "PUT /carreras/", 0);
      StartsWithAt(request, "PUT /carreras/", 1);
    }
  }

  /** Delete needs the trailing slash: `DELETE /carreras` alone is not routed. */
  lemma RouteDelete(request: string)
    ensures Route(request) == DeleteHandler <==> StartsWith(request, "DELETE /carreras/")
  {
    RouteArms(request);
    if StartsWith(request, "DELETE /carreras/") { StartsWithAt(request, "DELETE /carreras/", 0); }
  }

  /** A request no guard accepts falls through to the `_` arm. */
  lemma RouteNotFound(request: string)
    ensures Route(request) == NotFoundHandler <==>
      forall j :: 0 <= j < |Prefixes| ==> !StartsWith(request, Prefixes[j])
  {
  }

  /** The cases the prefix tests make surprising: a create with any text
      after `/carreras`, a get-all that is not `/carreras` itself, and an
      update or delete without the trailing slash, which nothing handles. */
  lemma RouteCreateAnySuffix()
    ensures Route("POST /carrerasX") == PostHandler
  {
    assert "POST /carrerasX"[..14] == "POST /carreras";
    RoutePost("POST /carrerasX");
  }

  lemma RouteGetAllAnySuffix()
    ensures Route("GET /carrerasX") == GetAllHandler
  {
    assert "GET /carrerasX"[..13] == "GET /carreras";
    assert "GET /carrerasX"[13] != "GET /carreras/"[13];
    RouteGetAll("GET /carrerasX");
  }

  lemma RoutePutWithoutSlash()
    ensures Route("PUT /carreras") == NotFoundHandler
  {
    var r := "PUT /carreras";
    assert r[0] != "GET /carreras"[0] && r[0] != "DELETE /carreras/"[0] && r[1] != "POST /carreras"[1];
    RouteArms(r);
  }

  lemma RouteDeleteWithoutSlash()
    ensures Route("DELETE /carreras") == NotFoundHandler
  {
    var r := "DELETE /carreras";
    assert r[0] != "GET /carreras"[0] && r[0] != "POST /carreras"[0] && r[0] != "PUT /carreras/"[0];
    RouteArms(r);
  }
}
