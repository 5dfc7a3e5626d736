/** What the server promises, proved of the functions in server.dfy: how
    each controller answers, what it does to the table, and a whole session
    of create, read, update and delete. */
module ServerProperties {
  import opened Wrappers
  import opened Text
  import opened Request
  import opened Table
  import opened Router
  import opened Server

  // ---- helpers: requests that name an id ----

  lemma PrefixOfConcat(p: string, rest: string)
    ensures StartsWith(p + rest, p)
  {
    assert (p + rest)[..|p|] == p;
  }

  /** A request `<verb>/carreras/<n> ...` names the id n. */
  lemma RequestIdOf(verb: string, n: int, ws: char, tail: string)
    requires '/' !in verb && MinI32 <= n <= MaxI32 && IsWhitespace(ws)
    ensures RequestId(verb + "/carreras/" + ShowInt(n) + [ws] + tail) == Some(n)
  {
    ShowIntShape(n);
    assert '/' !in "carreras";
    assert verb + "/carreras/" + ShowInt(n) + [ws] + tail
        == verb + "/" + "carreras" + "/" + ShowInt(n) + [ws] + tail;
    GetIdOf(verb, "carreras", ShowInt(n), ws, tail);
    ParseShowInt(n);
  }

  /** A request `<verb>/carreras/<digits><ws>...` starts with `<verb>/carreras/`. */
  lemma PathPrefix(verb: string, digits: string, ws: char, tail: string)
    ensures StartsWith(verb + "/carreras/" + digits + [ws] + tail, verb + "/carreras/")
  {
    assert verb + "/carreras/" + digits + [ws] + tail == (verb + "/carreras/") + (digits + [ws] + tail);
    PrefixOfConcat(verb + "/carreras/", digits + [ws] + tail);
  }

  lemma ServeGetRoute(st: State, request: string, json: Json)
    requires StartsWith(request, "GET /carreras/")
    ensures Serve(st, request, true, json) == Step(Get(st, request, true, json), st)
  {
    RouteGetOne(request);
  }

  lemma ServePutRoute(st: State, request: string, json: Json)
    requires StartsWith(request, "PUT /carreras/")
    ensures Serve(st, request, true, json) == Put(st, request, true, json)
  {
    RoutePut(request);
  }

  lemma ServeDeleteRoute(st: State, request: string, json: Json)
    requires StartsWith(request, "DELETE /carreras/")
    ensures Serve(st, request, true, json) == Remove(st, request, true)
  {
    RouteDelete(request);
  }

  lemma ServeGetOne(st: State, digits: string, ws: char, tail: string, json: Json)
    ensures var request := "GET " + "/carreras/" + digits + [ws] + tail;
      Serve(st, request, true, json) == Step(Get(st, request, true, json), st)
  {
    PathPrefix("GET ", digits, ws, tail);
    assert "GET " + "/carreras/" == "GET /carreras/";
    ServeGetRoute(st, "GET " + "/carreras/" + digits + [ws] + tail, json);
  }

  // ---- the whole dispatch ----

  /** Every request leaves a valid table valid. */
  lemma ServeKeepsValid(st: State, request: string, connected: bool, json: Json)
    requires Valid(st)
    ensures Valid(Serve(st, request, connected, json).after)
  {
    var id := RequestId(request);
    var body := json.decode(RequestBody(request));
    match Route(request)
    case PostHandler =>
      if body.Some? { InsertFresh(st, body.value.name, body.value.key); }
    case PutHandler =>
      if id.Some? && body.Some? { UpdateKeepsValid(st, id.value, body.value.name, body.value.key); }
    case DeleteHandler =>
      if id.Some? { DeleteKeepsValid(st, id.value); }
    case _ =>
  }

  /** Every reply carries one of the three status lines, and the only panic
      is an insert once the id sequence is used up. */
  lemma ServeOutcomes(st: State, request: string, connected: bool, json: Json)
    requires Valid(st)
    ensures var out := Serve(st, request, connected, json).outcome;
      && (out.Reply? ==> out.status in {OkResponse, NotFound, InternalServerError})
      && (out.Abort? <==>
            Route(request) == PostHandler && connected
            && json.decode(RequestBody(request)).Some? && st.next == MaxSerial + 1)
  {
    var body := json.decode(RequestBody(request));
    if Route(request) == PostHandler && body.Some? {
      InsertFresh(st, body.value.name, body.value.key);
    }
  }

  /** A request no arm accepts gets `404 Not Found` and changes nothing. */
  lemma ServeUnrouted(st: State, request: string, connected: bool, json: Json)
    requires forall j :: 0 <= j < |Prefixes| ==> !StartsWith(request, Prefixes[j])
    ensures Serve(st, request, connected, json) == Step(Reply(NotFound, NoRouteBody), st)
  {
    RouteNotFound(request);
  }

  /** Only create, update and delete change the table. */
  lemma ServeReadOnly(st: State, request: string, connected: bool, json: Json)
    requires Route(request) !in {PostHandler, PutHandler, DeleteHandler}
    ensures Serve(st, request, connected, json).after == st
  {
  }

  // ---- get one ----

  /** Get-one answers 500 when the id does not parse or the database is
      unreachable, 404 when no row has the id, and otherwise the stored
      name and key under that id. */
  lemma GetCases(st: State, request: string, connected: bool, json: Json)
    ensures var id, out := RequestId(request), Get(st, request, connected, json);
      && (id.None? || !connected ==> out == Failure)
      && (id.Some? && connected && id.value !in Ids(st.rows) ==> out == Reply(NotFound, MissingBody))
      && (id.Some? && connected && id.value in AsMap(st.rows) ==>
            out == Reply(OkResponse,
                         json.encode(Carrera(id, AsMap(st.rows)[id.value].0, AsMap(st.rows)[id.value].1))))
  {
  }

  /** `GET /carreras/<id> ...` for the id of a stored row answers that row. */
  lemma GetStored(st: State, i: int, ws: char, tail: string, json: Json)
    requires Valid(st) && 0 <= i < |st.rows| && IsWhitespace(ws)
    ensures Serve(st, "GET " + "/carreras/" + ShowInt(st.rows[i].id) + [ws] + tail, true, json)
      == Step(Reply(OkResponse, json.encode(Entity(st.rows[i]))), st)
  {
    var n := st.rows[i].id;
    var request := "GET " + "/carreras/" + ShowInt(n) + [ws] + tail;
    assert request == "GET /carreras/" + (ShowInt(n) + [ws] + tail);
    PrefixOfConcat("GET /carreras/", ShowInt(n) + [ws] + tail);
    RouteGetOne(request);
    RequestIdOf("GET ", n, ws, tail);
    FindRow(st.rows, i);
  }

  /** `GET /carreras/<n> ...` for an id no row has answers 404. */
  lemma GetAbsent(st: State, n: int, ws: char, tail: string, json: Json)
    requires MinI32 <= n <= MaxI32 && n !in Ids(st.rows) && IsWhitespace(ws)
    ensures Serve(st, "GET " + "/carreras/" + ShowInt(n) + [ws] + tail, true, json)
      == Step(Reply(NotFound, MissingBody), st)
  {
    var request := "GET " + "/carreras/" + ShowInt(n) + [ws] + tail;
    ServeGetOne(st, ShowInt(n), ws, tail, json);
    RequestIdOf("GET ", n, ws, tail);
    assert Find(st.rows, n).None?;
  }


  // ---- get all ----

  lemma EntitiesAppend(rows: seq<Row>, r: Row)
    ensures Entities(rows + [r]) == Entities(rows) + [Entity(r)]
  {
    assert forall i :: 0 <= i < |rows| ==> (rows + [r])[i] == rows[i];
  }

  /** Get-all lists every row, in storage order, and only the rows. */
  lemma GetAllLists(st: State, json: Json)
    ensures var es := Entities(st.rows);
      && GetAll(st, true, json) == Reply(OkResponse, json.encodeList(es))
      && |es| == |st.rows|
      && (forall r :: r in st.rows ==> Entity(r) in es)
      && (forall e :: e in es ==> exists r :: r in st.rows && e == Entity(r))
  {
    var es := Entities(st.rows);
    forall r | r in st.rows ensures Entity(r) in es {
      var i :| 0 <= i < |st.rows| && st.rows[i] == r;
      assert es[i] == Entity(r);
    }
    forall e | e in es ensures exists r :: r in st.rows && e == Entity(r) {
      var i :| 0 <= i < |es| && es[i] == e;
      assert st.rows[i] in st.rows;
    }
  }

  // ---- create ----

  /** Create answers 500 and changes nothing when the body does not decode
      or the database is unreachable, and panics, changing nothing, when
      the id sequence is used up. */
  lemma PostCases(st: State, request: string, connected: bool, json: Json)
    requires Valid(st)
    ensures var body, step := json.decode(RequestBody(request)), Post(st, request, connected, json);
      && (step.outcome == Failure <==> body.None? || !connected)
      && (step.outcome.Abort? <==> body.Some? && connected && st.next == MaxSerial + 1)
      && (step.outcome == Reply(OkResponse, CreatedBody) <==> body.Some? && connected && st.next <= MaxSerial)
      && (step.outcome != Reply(OkResponse, CreatedBody) ==> step.after == st)
  {
    var body := json.decode(RequestBody(request));
    if body.Some? {
      InsertFresh(st, body.value.name, body.value.key);
    }
  }

  /** A create whose body decodes stores its name and key under a fresh id
      taken from the sequence, whatever id the body carried, leaves every
      other row as it was, and a following get-all lists it after the rows
      already stored, in the model's storage order. */
  lemma PostCreates(st: State, request: string, c: Carrera, json: Json)
    requires Valid(st) && st.next <= MaxSerial
    requires json.decode(RequestBody(request)) == Some(c)
    ensures var step := Post(st, request, true, json);
      && step.outcome == Reply(OkResponse, CreatedBody)
      && st.next !in Ids(st.rows)
      && Valid(step.after)
      && step.after.rows == st.rows + [Row(st.next, c.name, c.key)]
      && AsMap(step.after.rows) == AsMap(st.rows)[st.next := (c.name, c.key)]
      && GetAll(step.after, true, json)
           == Reply(OkResponse, json.encodeList(Entities(st.rows) + [Carrera(Some(st.next), c.name, c.key)]))
  {
    InsertFresh(st, c.name, c.key);
    EntitiesAppend(st.rows, Row(st.next, c.name, c.key));
  }

  // ---- update ----

  /** Update answers 200 whenever the id parses, the body decodes and the
      database is reachable, whether or not a row has the id; it then
      rewrites the name and key under that id if there is one, and nothing
      else.  Otherwise it answers 500 and changes nothing. */
  lemma PutCases(st: State, request: string, connected: bool, json: Json)
    ensures var id, body := RequestId(request), json.decode(RequestBody(request));
      var step := Put(st, request, connected, json);
      && (step.outcome == Reply(OkResponse, UpdatedBody) <==> id.Some? && body.Some? && connected)
      && (!(id.Some? && body.Some? && connected) ==> step == Step(Failure, st))
      && (id.Some? && body.Some? && connected ==>
            && step.after.next == st.next
            && Ids(step.after.rows) == Ids(st.rows)
            && AsMap(step.after.rows)
                 == if id.value in AsMap(st.rows) then AsMap(st.rows)[id.value := (body.value.name, body.value.key)]
                    else AsMap(st.rows))
  {
    var id, body := RequestId(request), json.decode(RequestBody(request));
    if id.Some? && body.Some? && connected {
      UpdateMap(st.rows, id.value, body.value.name, body.value.key);
    }
  }

  /** Sending the same update twice leaves the table as sending it once. */
  lemma PutIdempotent(st: State, request: string, connected: bool, json: Json)
    ensures var once := Put(st, request, connected, json);
      Put(once.after, request, connected, json) == once
  {
    var id, body := RequestId(request), json.decode(RequestBody(request));
    if id.Some? && body.Some? && connected {
      UpdateIdempotent(st, id.value, body.value.name, body.value.key);
    }
  }

  // ---- delete ----

  /** Delete answers 404 exactly when no row has the id and 200 exactly
      when one has, and removes that entry and nothing else; an id that
      does not parse or an unreachable database gives 500 and no change. */
  lemma RemoveCases(st: State, request: string, connected: bool)
    requires Valid(st)
    ensures var id, step := RequestId(request), Remove(st, request, connected);
      && (!(id.Some? && connected) ==> step == Step(Failure, st))
      && (id.Some? && connected ==>
            && (step.outcome == Reply(NotFound, MissingBody) <==> id.value !in Ids(st.rows))
            && (step.outcome == Reply(OkResponse, DeletedBody) <==> id.value in Ids(st.rows))
            && step.after.next == st.next
            && AsMap(step.after.rows) == AsMap(st.rows) - {id.value})
  {
    var id := RequestId(request);
    if id.Some? && connected {
      DeleteCount(st.rows, id.value);
      DeleteMap(st.rows, id.value);
    }
  }

  /** A delete sent a second time answers 404. */
  lemma RemoveTwice(st: State, request: string)
    requires RequestId(request).Some?
    ensures var once := Remove(st, request, true);
      Remove(once.after, request, true).outcome == Reply(NotFound, MissingBody)
  {
    DeleteTwice(st, RequestId(request).value);
  }

  // ---- a whole session ----

  /** `GET /carreras/1 <tail>`: read the row with id 1. */
  function ReadFirst(tail: string): string
  {
    "GET " + "/carreras/" + "1" + " " + tail
  }

  /** `GET /carreras <tail>`: list every row. */
  function ListAll(tail: string): string
  {
    "GET /carreras" + " " + tail
  }

  /** `PUT /carreras/1 <rest>`: update the row with id 1. */
  function UpdateFirst(rest: string): string
  {
    "PUT " + "/carreras/" + "1" + " " + rest
  }

  /** `DELETE /carreras/1 <tail>`: delete the row with id 1. */
  function DeleteFirst(tail: string): string
  {
    "DELETE " + "/carreras/" + "1" + " " + tail
  }

  /** The table holding one row under id 1. */
  function One(name: string, key: string): (st: State)
    ensures Valid(st)
  {
    State([Row(1, name, key)], 2)
  }

  lemma ShowOne()
    ensures ShowInt(1) == "1"
  {
  }

  lemma IdOne(verb: string, ws: char, tail: string)
    requires '/' !in verb && IsWhitespace(ws)
    ensures RequestId(verb + "/carreras/" + "1" + [ws] + tail) == Some(1)
  {
    ShowOne();
    RequestIdOf(verb, 1, ws, tail);
  }

  lemma ServePutFirst(st: State, rest: string, json: Json)
    ensures Serve(st, UpdateFirst(rest), true, json) == Put(st, UpdateFirst(rest), true, json)
    ensures RequestId(UpdateFirst(rest)) == Some(1)
  {
    UpdateFirstPrefix(rest);
    ServePutRoute(st, UpdateFirst(rest), json);
    UpdateFirstId(rest);
  }

  lemma UpdateFirstPrefix(rest: string)
    ensures StartsWith(UpdateFirst(rest), "PUT /carreras/")
  {
    assert UpdateFirst(rest) == "PUT /carreras/" + ("1 " + rest);
    PrefixOfConcat("PUT /carreras/", "1 " + rest);
  }

  lemma UpdateFirstId(rest: string)
    ensures RequestId(UpdateFirst(rest)) == Some(1)
  {
    assert UpdateFirst(rest) == "PUT " + "/carreras/" + "1" + [' '] + rest;
    IdOne("PUT ", ' ', rest);
  }

  lemma ServeDeleteFirst(st: State, tail: string, json: Json)
    ensures Serve(st, DeleteFirst(tail), true, json) == Remove(st, DeleteFirst(tail), true)
    ensures RequestId(DeleteFirst(tail)) == Some(1)
  {
    DeleteFirstPrefix(tail);
    ServeDeleteRoute(st, DeleteFirst(tail), json);
    DeleteFirstId(tail);
  }

  lemma DeleteFirstPrefix(tail: string)
    ensures StartsWith(DeleteFirst(tail), "DELETE /carreras/")
  {
    assert DeleteFirst(tail) == "DELETE /carreras/" + ("1 " + tail);
    PrefixOfConcat("DELETE /carreras/", "1 " + tail);
  }

  lemma DeleteFirstId(tail: string)
    ensures RequestId(DeleteFirst(tail)) == Some(1)
  {
    assert DeleteFirst(tail) == "DELETE " + "/carreras/" + "1" + [' '] + tail;
    IdOne("DELETE ", ' ', tail);
  }

  lemma SessionCreate(create: string, c: Carrera, json: Json)
    requires StartsWith(create, "POST /carreras") && json.decode(RequestBody(create)) == Some(c)
    ensures Serve(Empty, create, true, json) == Step(Reply(OkResponse, CreatedBody), One(c.name, c.key))
  {
    RoutePost(create);
    PostCreates(Empty, create, c, json);
  }

  lemma SessionList(name: string, key: string, tail: string, json: Json)
    ensures Serve(One(name, key), ListAll(tail), true, json)
      == Step(Reply(OkResponse, json.encodeList([Carrera(Some(1), name, key)])), One(name, key))
  {
    var request := ListAll(tail);
    PrefixOfConcat("GET /carreras", " " + tail);
    assert request[13] == ' ' != "GET /carreras/"[13];
    RouteGetAll(request);
    assert Entities(One(name, key).rows) == [Carrera(Some(1), name, key)];
  }

  lemma SessionRead(name: string, key: string, tail: string, json: Json)
    ensures Serve(One(name, key), ReadFirst(tail), true, json)
      == Step(Reply(OkResponse, json.encode(Carrera(Some(1), name, key))), One(name, key))
  {
    ShowOne();
    GetStored(One(name, key), 0, ' ', tail, json);
  }

  lemma SessionUpdate(rest: string, name: string, key: string, c: Carrera, json: Json)
    requires json.decode(RequestBody(UpdateFirst(rest))) == Some(c)
    ensures Serve(One(name, key), UpdateFirst(rest), true, json)
      == Step(Reply(OkResponse, UpdatedBody), One(c.name, c.key))
  {
    ServePutFirst(One(name, key), rest, json);
    var rows := UpdateRows(One(name, key).rows, 1, c.name, c.key);
    assert rows[0] == Row(1, c.name, c.key);
    assert rows == [Row(1, c.name, c.key)];
  }

  lemma SessionDelete(name: string, key: string, tail: string, json: Json)
    ensures Serve(One(name, key), DeleteFirst(tail), true, json) == Step(Reply(OkResponse, DeletedBody), State([], 2))
  {
    ServeDeleteFirst(One(name, key), tail, json);
    assert DeleteRows([Row(1, name, key)], 1) == [] + DeleteRows([], 1);
  }

  lemma SessionDeleteAgain(tail: string, json: Json)
    ensures Serve(State([], 2), DeleteFirst(tail), true, json) == Step(Reply(NotFound, MissingBody), State([], 2))
  {
    ServeDeleteFirst(State([], 2), tail, json);
  }

  lemma SessionReadDeleted(tail: string, json: Json)
    ensures Serve(State([], 2), ReadFirst(tail), true, json) == Step(Reply(NotFound, MissingBody), State([], 2))
  {
    ShowOne();
    GetAbsent(State([], 2), 1, ' ', tail, json);
  }

  /** From an empty table: a create, a listing that shows the new row, a
      read of it under id 1, an update of it, a read showing the update, a
      delete, and then a second delete and a read that both answer 404.
      `tail` is what follows the path in the listing, read and delete
      requests (the protocol version, the headers), `rest` the same for the
      update, which ends with its JSON body. */
  lemma Session(create: string, rest: string, tail: string, c1: Carrera, c2: Carrera, json: Json)
    requires StartsWith(create, "POST /carreras") && json.decode(RequestBody(create)) == Some(c1)
    requires json.decode(RequestBody(UpdateFirst(rest))) == Some(c2)
    ensures var s1 := Serve(Empty, create, true, json);
      var s1b := Serve(s1.after, ListAll(tail), true, json);
      var s2 := Serve(s1b.after, ReadFirst(tail), true, json);
      var s3 := Serve(s2.after, UpdateFirst(rest), true, json);
      var s4 := Serve(s3.after, ReadFirst(tail), true, json);
      var s5 := Serve(s4.after, DeleteFirst(tail), true, json);
      var s6 := Serve(s5.after, DeleteFirst(tail), true, json);
      var s7 := Serve(s6.after, ReadFirst(tail), true, json);
      && s1.outcome == Reply(OkResponse, CreatedBody)
      && s1b.outcome == Reply(OkResponse, json.encodeList([Carrera(Some(1), c1.name, c1.key)]))
      && s2.outcome == Reply(OkResponse, json.encode(Carrera(Some(1), c1.name, c1.key)))
      && s3.outcome == Reply(OkResponse, UpdatedBody)
      && s4.outcome == Reply(OkResponse, json.encode(Carrera(Some(1), c2.name, c2.key)))
      && s5.outcome == Reply(OkResponse, DeletedBody)
      && s6.outcome == Reply(NotFound, MissingBody)
      && s7.outcome == Reply(NotFound, MissingBody)
  {
    SessionCreate(create, c1, json);
    SessionList(c1.name, c1.key, tail, json);
    SessionRead(c1.name, c1.key, tail, json);
    SessionUpdate(rest, c1.name, c1.key, c2, json);
    SessionRead(c2.name, c2.key, tail, json);
    SessionDelete(c2.name, c2.key, tail, json);
    SessionDeleteAgain(tail, json);
    SessionReadDeleted(tail, json);
  }
}
