/** The request pipeline of src/main.rs: the reply constants, the `Carrera`
    record, the five controllers and `handle_carreras`, which routes one
    request and writes the status line followed by the content.

    Each controller appears twice: as a function on table values, which
    says what the controller answers and how it leaves the table, and as a
    method that runs against the `Database` object and is proved to agree
    with that function.  Properties of the functions are in
    server_properties.dfy. */
module Server {
  import opened Wrappers
  import opened Text
  import opened Request
  import opened Table
  import opened Store
  import opened Router

  // ---- the status lines, verbatim ----

  const OkResponse: string := "HTTP/1.1 200 OK\r\nContent-Type: application/json\r\n\r\n"
  const NotFound: string := "HTTP/1.1 404 NOT FOUND\r\n\r\n"
  const InternalServerError: string := "HTTP/1.1 500 INTERNAL SERVER ERROR\r\n\r\n"

  // ---- the fixed bodies, verbatim ----

  const CreatedBody: string := "Carrea a\U{00F1}adida con \U{00E9}xito"
  const MissingBody: string := "Carrera no encontrada"
  const UpdatedBody: string := "Carrera actualizada"
  const DeletedBody: string := "Carrera eliminada"
  const ErrorBody: string := "Error"
  const NoRouteBody: string := "404 Not Found"

  /** The record the server reads and writes; `id` is absent in what
      clients send and present in what the table gives back. */
  datatype Carrera = Carrera(id: Option<int>, name: string, key: string)

  /** The JSON codec (serde_json), whose workings this model does not
      describe: `decode` is `serde_json::from_str::<Carrera>` (None for a
      body that is not a Carrera), `encode` and `encodeList` are
      `serde_json::to_string` of one record and of a list of records. */
  datatype Json = Json(
    decode: string -> Option<Carrera>,
    encode: Carrera -> string,
    encodeList: seq<Carrera> -> string)

  /** What a controller produces: a status line and a content, or a panic
      from `.unwrap()` on a failed statement, after which nothing is
      written.  The controllers run on the thread of the accept loop, so a
      panic ends the server process: no later request is served. */
  datatype Outcome = Reply(status: string, content: string) | Abort

  /** A controller's outcome and the table it leaves behind. */
  datatype Step = Step(outcome: Outcome, after: State)

  const Failure: Outcome := Reply(InternalServerError, ErrorBody)

  /** The record built from a row, as the GET controllers build it. */
  function Entity(r: Row): Carrera
  {
    Carrera(Some(r.id), r.name, r.key)
  }

  /** The records of the rows, in the rows' order. */
  function Entities(rows: seq<Row>): seq<Carrera>
  {
    seq(|rows|, i requires 0 <= i < |rows| => Entity(rows[i]))
  }

  /** The id a request names, as `get_id(request).parse::<i32>()` reads it. */
  function RequestId(request: string): Option<int>
  {
    ParseI32(GetId(request))
  }

  // ---- the controllers as functions on the table ----

  /** `handle_post_request`: insert the decoded name and key. */
  function Post(st: State, request: string, connected: bool, json: Json): Step
  {
    var body := json.decode(RequestBody(request));
    if body.Some? && connected then
      match Table.Insert(st, body.value.name, body.value.key)
      case Some(st') => Step(Reply(OkResponse, CreatedBody), st')
      case None => Step(Abort, st)
    else Step(Failure, st)
  }

  /** `handle_get_request`: the row with the requested id. */
  function Get(st: State, request: string, connected: bool, json: Json): Outcome
  {
    var id := RequestId(request);
    if id.Some? && connected then
      match Find(st.rows, id.value)
      case Some(row) => Reply(OkResponse, json.encode(Entity(row)))
      case None => Reply(NotFound, MissingBody)
    else Failure
  }

  /** `handle_get_all_request`: every row, whatever the request says. */
  function GetAll(st: State, connected: bool, json: Json): Outcome
  {
    if connected then Reply(OkResponse, json.encodeList(Entities(st.rows))) else Failure
  }

  /** `handle_put_request`: overwrite name and key under the requested id,
      reporting success whether or not a row had that id. */
  function Put(st: State, request: string, connected: bool, json: Json): Step
  {
    var id := RequestId(request);
    var body := json.decode(RequestBody(request));
    if id.Some? && body.Some? && connected then
      Step(Reply(OkResponse, UpdatedBody), Table.Update(st, id.value, body.value.name, body.value.key))
    else Step(Failure, st)
  }

  /** `handle_delete_request`: delete under the requested id; 404 when no
      row was affected. */
  function Remove(st: State, request: string, connected: bool): Step
  {
    var id := RequestId(request);
    if id.Some? && connected then
      var (st', affected) := Table.Delete(st, id.value);
      Step(if affected == 0 then Reply(NotFound, MissingBody) else Reply(OkResponse, DeletedBody), st')
    else Step(Failure, st)
  }

  /** `handle_carreras` after the read: route, then run the chosen controller. */
  function Serve(st: State, request: string, connected: bool, json: Json): Step
  {
    match Route(request)
    case PostHandler => Post(st, request, connected, json)
    case GetHandler => Step(Get(st, request, connected, json), st)
    case GetAllHandler => Step(GetAll(st, connected, json), st)
    case PutHandler => Put(st, request, connected, json)
    case DeleteHandler => Remove(st, request, connected)
    case NotFoundHandler => Step(Reply(NotFound, NoRouteBody), st)
  }

  // ---- the controllers against the database object ----

  method HandlePost(db: Database, request: string, connected: bool, json: Json) returns (out: Outcome)
    requires db.Valid()
    modifies db
    ensures db.Valid()
    ensures Step(out, db.Model()) == Post(old(db.Model()), request, connected, json)
  {
    var body := json.decode(RequestBody(request));
    if body.Some? && connected {
      var ok := db.Insert(body.value.name, body.value.key);
      out := if ok then Reply(OkResponse, CreatedBody) else Abort;
    } else {
      out := Failure;
    }
  }

  method HandleGet(db: Database, request: string, connected: bool, json: Json) returns (out: Outcome)
    requires db.Valid()
    ensures out == Get(db.Model(), request, connected, json)
  {
    var id := RequestId(request);
    if id.Some? && connected {
      var row := Find(db.rows, id.value);
      out := if row.Some? then Reply(OkResponse, json.encode(Entity(row.value)))
             else Reply(NotFound, MissingBody);
    } else {
      out := Failure;
    }
  }

  /** Collects the rows into a list of records one by one, as the `for`
      loop over the query result does. */
  method HandleGetAll(db: Database, connected: bool, json: Json) returns (out: Outcome)
    requires db.Valid()
    ensures out == GetAll(db.Model(), connected, json)
  {
    if connected {
      var rows := db.rows;
      var carreras: seq<Carrera> := [];
      for i := 0 to |rows|
        invariant |carreras| == i
        invariant forall k :: 0 <= k < i ==> carreras[k] == Entity(rows[k])
      {
        carreras := carreras + [Entity(rows[i])];
      }
      assert carreras == Entities(rows);
      out := Reply(OkResponse, json.encodeList(carreras));
    } else {
      out := Failure;
    }
  }

  method HandlePut(db: Database, request: string, connected: bool, json: Json) returns (out: Outcome)
    requires db.Valid()
    modifies db
    ensures db.Valid()
    ensures Step(out, db.Model()) == Put(old(db.Model()), request, connected, json)
  {
    var id := RequestId(request);
    var body := json.decode(RequestBody(request));
    if id.Some? && body.Some? && connected {
      db.Update(id.value, body.value.name, body.value.key);
      out := Reply(OkResponse, UpdatedBody);
    } else {
      out := Failure;
    }
  }

  method HandleDelete(db: Database, request: string, connected: bool) returns (out: Outcome)
    requires db.Valid()
    modifies db
    ensures db.Valid()
    ensures Step(out, db.Model()) == Remove(old(db.Model()), request, connected)
  {
    var id := RequestId(request);
    if id.Some? && connected {
      var affected := db.Delete(id.value);
      if affected == 0 {
        return Reply(NotFound, MissingBody);
      }
      out := Reply(OkResponse, DeletedBody);
    } else {
      out := Failure;
    }
  }

  /** `handle_carreras` from the decoded request text on: route it, run the
      controller, and give back the bytes written to the stream, which are
      the status line immediately followed by the content (none after a
      panic). */
  method HandleCarreras(db: Database, request: string, connected: bool, json: Json)
    returns (written: Option<string>)
    requires db.Valid()
    modifies db
    ensures db.Valid()
    ensures var step := Serve(old(db.Model()), request, connected, json);
      && db.Model() == step.after
      && (step.outcome.Reply? ==> written == Some(step.outcome.status + step.outcome.content))
      && (step.outcome.Abort? ==> written == None)
  {
    var out: Outcome;
    match Route(request) {
      case PostHandler => out := HandlePost(db, request, connected, json);
      case GetHandler => out := HandleGet(db, request, connected, json);
      case GetAllHandler => out := HandleGetAll(db, connected, json);
      case PutHandler => out := HandlePut(db, request, connected, json);
      case DeleteHandler => out := HandleDelete(db, request, connected);
      case NotFoundHandler => out := Reply(NotFound, NoRouteBody);
    }
    written := if out.Reply? then Some(out.status + out.content) else None;
  }
}
