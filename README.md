# Carreras CRUD server — a Dafny model

The repository is a small HTTP server in Rust (`src/main.rs`). It keeps
`Carrera` records (an id, a name and a key) in a Postgres table and serves
five routes on them: create, read one, read all, update and delete. Each
connection is handled the same way. The server reads the request text and
matches it against five fixed prefixes in order. It runs the matching
controller and writes the status line followed by the content.

This project models that request pipeline and proves what it does:

- `text.dfy` (module `Text`): Rust's `str::split` with a string separator,
  `split_whitespace().next()` and the Unicode whitespace set it uses.
- `request.dfy` (module `Request`): the two extractors, `get_id` and the
  text part of `get_carrera_request_body`, and `str::parse::<i32>`.
- `table.dfy` (module `Table`): the `carreras` table as a value. It holds
  the rows in storage order and the `SERIAL` counter. Each SQL statement
  the controllers issue is a function on it, with a map view (`AsMap`,
  id ↦ (name, key)) for stating effects.
- `store.dfy` (module `Store`): the database as an object whose fields the
  statements update in place. Each method is proved equal to the table
  function.
- `router.dfy` (module `Router`): the ordered first-match dispatch of
  `handle_carreras`.
- `server.dfy` (module `Server`): the reply constants, the record, the
  controllers, and the whole request handler. Each controller and the whole
  handler exist twice: as a function on table values and as a method on
  the database object. Each method is proved to agree with its function.
- `server_properties.dfy` (module `ServerProperties`): what each controller
  answers and how it changes the table, and a whole session from an empty
  table.

The JSON codec (serde) is a parameter, `Server.Json`: a total `decode` that
may fail, plus `encode` and `encodeList`. Whether the database can be
reached (`Client::connect`) is a boolean parameter, `connected`. Every
result holds for every codec. The lemmas that take `connected` hold for
both values; the others, among them `ServerProperties.GetStored`,
`GetAbsent`, `GetAllLists`, `PostCreates`, `RemoveTwice` and `Session`,
state the connected case only.

Some behaviour of the code is easy to misread:

- The body is the last piece of `request.split("\r\n\r\n")`. The text is
  cut at each leftmost, non-overlapping `\r\n\r\n` (`Text.SplitLeftmost`,
  `Text.SplitUnique`). So a head that holds no blank line and does not end
  in `\r\n`, then the blank line, then a body without one, gives back
  exactly that body (`Request.RequestBodyAfterHead`,
  `Request.NoEarlierMatchSeparator`).
  - A request without a blank line is its own body, not the empty string
    (`Request.RequestBodyShape`).
  - A head ending in `\r\n` starts a match one character early, so a run
    of six CR LF characters leaves a stray `\r\n` at the start of the body
    (`Request.RequestBodyOverlap`).
- Routing tests prefixes of the whole request text, not a parsed method and
  path:
  - `POST /carrerasX` creates and `GET /carrerasX` lists;
  - `PUT /carreras` and `DELETE /carreras` without the slash get `404 Not Found`.
- The id is the first whitespace-separated token of the third
  `/`-separated piece of the whole request, leading whitespace skipped. In
  `GET /carreras/5 HTTP/1.1` that piece is `5 HTTP`, so the id is `5`; in
  `GET /carreras/ 7 HTTP/1.1` it is ` 7 HTTP`, so the id is `7`
  (`Request.GetIdAfterWhitespace`).
- The create confirmation is kept as written, `Carrea añadida con éxito`.

## Model

| member | source | states |
|---|---|---|
| Text.Split | src/main.rs:205 | there is at least one piece, and joining the pieces with the separator gives back the input |
| Text.SplitLeftmost | src/main.rs:210 | every cut is at the leftmost match: no piece before the last, followed by the separator, holds a match that starts earlier than the cut |
| Text.SplitUnique | src/main.rs:210 | any separator-free pieces that join back to the text and are cut at leftmost matches are exactly the pieces of the split |
| Text.PiecesAvoidSeparator | src/main.rs:205 | no piece of a split contains the separator |
| Text.SplitWithoutSeparator | src/main.rs:210 | text that does not contain the separator splits into itself alone |
| Text.SkipWhitespace | src/main.rs:205 | removes exactly a leading run of whitespace; what is left is empty or starts with non-whitespace |
| Text.TakeToken | src/main.rs:205 | the longest whitespace-free prefix: a prefix, without whitespace, ended by whitespace or the end |
| Text.FirstTokenShape | src/main.rs:205 | the first token is a whitespace-free substring preceded only by whitespace and followed by whitespace or the end |
| Text.FirstTokenEmpty | src/main.rs:205 | the first token is empty exactly when the text is all whitespace |
| Text.FirstTokenOfToken | src/main.rs:205 | a non-empty token followed by a whitespace character is the first token, whatever comes after |
| Text.FirstTokenAfterWhitespace | src/main.rs:205 | leading whitespace is skipped: whitespace, then a non-empty token, then a whitespace character has that token first |
| Request.GetIdShape | src/main.rs:204-206 | the extracted id never contains `/` or whitespace |
| Request.GetIdWithoutSlash | src/main.rs:204-206 | a request without `/` has the empty id |
| Request.GetIdAfterWhitespace | src/main.rs:204-206 | for `<a>/<b>/<lead><id><ws>...` with slash-free `a`, `b`, all-whitespace `lead` and a non-empty token `id`, the id extracted is exactly `id` |
| Request.GetIdOf | src/main.rs:204-206 | for `<a>/<b>/<id><ws>...` with slash-free `a`, `b` and a non-empty token `id`, the id extracted is exactly `id`, even when later text has more slashes |
| Request.RequestBodyShape | src/main.rs:209-211 | the body is a suffix of the request with no blank-line separator in it; the whole request when it has no separator, otherwise preceded by a separator |
| Request.RequestBodyAfterHead | src/main.rs:209-211 | a request made of a head without an earlier match of `\r\n\r\n`, the separator and a body without one has exactly that body |
| Request.NoEarlierMatchSeparator | src/main.rs:210 | no `\r\n\r\n` match starts before the cut that ends a head exactly when the head holds none and does not end in `\r\n` |
| Request.RequestBodyOverlap | src/main.rs:210 | `a\r\n\r\n\r\nb` has body `\r\nb`: the leftmost separator is cut first |
| Request.ParseI32 | src/main.rs:109 | a parsed id is a 32-bit integer, from a non-empty string whose characters after the first are digits |
| Request.ParseShowInt | src/main.rs:109 | every 32-bit integer written in decimal parses back to itself |
| Table.Find | src/main.rs:111 | the row found has the requested id and is in the table; no row is found exactly when no row has that id |
| Table.FindRow | src/main.rs:111 | with unique ids, looking up a row's id finds that row |
| Table.InsertFresh | src/main.rs:94-99 | an insert fails exactly when the `SERIAL` sequence is used up; otherwise it appends one row under an unused id, advances the sequence, keeps the table valid and adds just that entry to the map view |
| Table.UpdateMap | src/main.rs:158-163 | an update keeps the set of ids, rewrites the entry for the id if present, and changes nothing when the id is absent |
| Table.UpdateKeepsValid | src/main.rs:158-163 | an update keeps ids unique and within the sequence |
| Table.UpdateIdempotent | src/main.rs:158-163 | applying the same update twice gives the table applying it once gives |
| Table.DeleteMap | src/main.rs:175 | a delete removes exactly the id from the set of ids and from the map view |
| Table.DeleteCount | src/main.rs:175 | with unique ids, a delete affects one row if the id is present and none otherwise |
| Table.DeleteKeepsValid | src/main.rs:175 | a delete keeps the table valid |
| Table.DeleteTwice | src/main.rs:175 | a second delete of the same id affects no row |
| Store.Database.constructor | src/main.rs:193-198 | a freshly created table is empty and valid, with the sequence at 1 |
| Store.Database.Insert | src/main.rs:94-99 | updates the object as the insert function says, reports failure exactly when the sequence is used up, and keeps the table valid |
| Store.Database.Update | src/main.rs:158-163 | updates the object as the update function says and keeps it valid |
| Store.Database.Delete | src/main.rs:175 | updates the object as the delete function says, returns its affected-row count, and keeps it valid |
| Router.FirstMatch | src/main.rs:71-78 | the index chosen is the first prefix the request starts with; no earlier prefix matches |
| Router.RouteArms | src/main.rs:71-78 | the route is the first arm, in source order, whose prefix the request starts with, else not-found |
| Router.RoutePost | src/main.rs:72 | create is chosen exactly for requests starting `POST /carreras` |
| Router.RouteGetOne | src/main.rs:73 | get-one is chosen exactly for requests starting `GET /carreras/` |
| Router.RouteGetAll | src/main.rs:74 | get-all is chosen exactly for requests starting `GET /carreras` but not `GET /carreras/` |
| Router.RoutePut | src/main.rs:75 | update is chosen exactly for requests starting `PUT /carreras/` |
| Router.RouteDelete | src/main.rs:76 | delete is chosen exactly for requests starting `DELETE /carreras/` |
| Router.RouteNotFound | src/main.rs:77 | the fallback is chosen exactly when no prefix matches |
| Router.RouteCreateAnySuffix | src/main.rs:72 | `POST /carrerasX` is routed to create |
| Router.RouteGetAllAnySuffix | src/main.rs:74 | `GET /carrerasX` is routed to get-all |
| Router.RoutePutWithoutSlash | src/main.rs:75 | `PUT /carreras` without the slash is not routed |
| Router.RouteDeleteWithoutSlash | src/main.rs:76 | `DELETE /carreras` without the slash is not routed |
| Server.HandlePost | src/main.rs:91-105 | running create against the database gives the reply and new table the create function gives, keeping the table valid |
| Server.HandleGet | src/main.rs:108-126 | reading against the database gives the get-one reply without changing it |
| Server.HandleGetAll | src/main.rs:129-146 | the list the loop builds is the records of all rows in storage order, so the reply is the get-all reply |
| Server.HandlePut | src/main.rs:149-169 | running update against the database gives the update reply and new table, keeping it valid |
| Server.HandleDelete | src/main.rs:172-185 | running delete against the database gives the delete reply and new table, keeping it valid |
| Server.HandleCarreras | src/main.rs:71-80 | the database ends as the routed controller leaves it; the bytes written are the status line followed directly by the content, and nothing after a panic |
| ServerProperties.ServeKeepsValid | src/main.rs:71-78 | every request leaves a valid table valid |
| ServerProperties.ServeOutcomes | src/main.rs:23-25 | every reply carries one of the three status lines; a request panics exactly when it is a create with a decodable body, a reachable database and a used-up sequence |
| ServerProperties.ServeUnrouted | src/main.rs:77 | a request matching no prefix gets `404 NOT FOUND` with `404 Not Found` and changes nothing |
| ServerProperties.ServeReadOnly | src/main.rs:73-74 | the read routes and the fallback never change the table |
| ServerProperties.GetCases | src/main.rs:108-126 | get-one answers 500 "Error" for an unparsable id or unreachable database, 404 "Carrera no encontrada" for an absent id, and otherwise the encoded record with the stored name and key |
| ServerProperties.GetStored | src/main.rs:108-122 | `GET /carreras/<id> ...` with a stored row's id answers 200 with that row encoded and leaves the table unchanged |
| ServerProperties.GetAbsent | src/main.rs:121 | `GET /carreras/<n> ...` for any 32-bit `n` no row has answers 404 "Carrera no encontrada" |
| ServerProperties.GetAllLists | src/main.rs:129-146 | get-all answers 200 with a list holding one record per row, every row's record, and nothing else |
| ServerProperties.PostCases | src/main.rs:91-105 | create answers 500 "Error" exactly when the body does not decode or the database is unreachable; it panics exactly when the sequence is used up; anything but success leaves the table unchanged |
| ServerProperties.PostCreates | src/main.rs:91-101 | a create with a decodable body answers 200 "Carrea añadida con éxito". It stores name and key under a fresh id from the sequence, whatever id the body carried, and changes no other entry. A following get-all lists the new record after the records already stored, in the model's storage order |
| ServerProperties.PutCases | src/main.rs:149-169 | update answers 200 "Carrera actualizada" exactly when the id parses, the body decodes and the database is reachable, whether or not the id exists; it then rewrites only that id's entry when present; otherwise 500 and no change |
| ServerProperties.PutIdempotent | src/main.rs:149-169 | sending the same update twice gives the reply and table that sending it once gives |
| ServerProperties.RemoveCases | src/main.rs:172-185 | delete answers 404 "Carrera no encontrada" exactly when no row has the id and 200 "Carrera eliminada" exactly when one has, removing just that entry; 500 and no change for an unparsable id or unreachable database |
| ServerProperties.RemoveTwice | src/main.rs:175-178 | the same delete sent a second time answers 404 |
| ServerProperties.Session | src/main.rs:71-185 | from an empty table: create, list, read id 1, update id 1, read it, delete id 1, delete it again, read it again. The answers are 200 each until the second delete; the second delete and the last read answer 404 |

## Left out

- The socket: accepting connections, the single 1024-byte read and lossy
  UTF-8 decoding (src/main.rs:46-69, 82-85). The model starts from the
  decoded request text and ends with the text written.
- `main` and the `DATABASE_URL` lookup (src/main.rs:28-60): process start-up
  and configuration, outside the per-request core.
- `set_database` (src/main.rs:188-201) as a connection and statement. Its
  effect, an empty table with the sequence at 1, is modelled for a
  database without the table (`Store.Database.constructor`). On a restart,
  `IF NOT EXISTS` keeps the stored rows and the sequence. The lemmas over
  any `Valid` state cover that case, provided only this server has written
  to the table.
- The JSON codec. serde's parsing and printing are not modelled, so the
  decode/encode round trip is not stated. `Json` is a parameter, and
  results hold for every codec.
- Postgres failures other than an exhausted `SERIAL` sequence. An
  `execute` or `query` that errors after a successful connect panics on
  `.unwrap()`. The model has that panic (`Server.Abort`) only for the
  insert past id 2^31-1, which is the one failure the table's own state
  decides.
- `Client::connect` is one boolean per request, not a real connection
  attempt. A failed `query_one` is modelled as a missing row, which it is
  unless the database breaks mid-request.
- The row order of `SELECT *`, which has no `ORDER BY`. Postgres may list
  rows in any order, and an updated or inserted row may appear anywhere.
  The model keeps rows in place on update and appends on insert.
- ServerProperties.GetAllLists: states the list in the model's storage
  order, not any order Postgres may return.
- ServerProperties.PostCreates: says the new record comes after the old
  ones only in the model's storage order; Postgres may list it elsewhere.
- Concurrency: the server handles one connection at a time, so requests
  are a sequence of `Serve` steps.
- The end of the process after a panic. The controllers run on the thread
  of the accept loop (src/main.rs:50-53), so an `Abort` ends the server and a
  sequence of `Serve` steps stops at the first `Abort`. The accept loop
  itself is not modelled, so no lemma states that.
