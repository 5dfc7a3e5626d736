/** The `carreras` table as a value: its rows in storage order and the next
    value of the `SERIAL` sequence behind the `id` column
    (`id SERIAL PRIMARY KEY, name VARCHAR NOT NULL, key VARCHAR NOT NULL`).
    Each SQL statement the handlers issue is a function on this value. */
module Table {
  import opened Wrappers

  datatype Row = Row(id: int, name: string, key: string)

  datatype State = State(rows: seq<Row>, next: int)

  /** The largest value of a `SERIAL` (32-bit `integer`) sequence. */
  const MaxSerial: int := 0x7fff_ffff

  /** The table right after `CREATE TABLE`: no rows, the sequence at 1. */
  const Empty: State := State([], 1)

  function Ids(rows: seq<Row>): set<int>
  {
    set i | 0 <= i < |rows| :: rows[i].id
  }

  predicate DistinctIds(rows: seq<Row>)
  {
    forall i, j :: 0 <= i < j < |rows| ==> rows[i].id != rows[j].id
  }

  /** The primary key is unique and every id came from the sequence. */
  predicate Valid(st: State)
  {
    && 1 <= st.next <= MaxSerial + 1
    && DistinctIds(st.rows)
    && forall i :: 0 <= i < |st.rows| ==> 1 <= st.rows[i].id < st.next
  }

  /** `SELECT * FROM carreras WHERE id = $1`: the first row with that id. */
  function Find(rows: seq<Row>, id: int): (r: Option<Row>)
    ensures r.Some? ==> r.value in rows && r.value.id == id
    ensures r.None? <==> id !in Ids(rows)
  {
    if rows == [] then None
    else if rows[0].id == id then Some(rows[0])
    else
      IdsOfTail(rows);
      Find(rows[1..], id)
  }

  /** The table as the map from id to (name, key) that a client observes
      through `SELECT ... WHERE id = $1`. */
  function AsMap(rows: seq<Row>): (m: map<int, (string, string)>)
    ensures m.Keys == Ids(rows)
  {
    map x | x in Ids(rows) :: (Find(rows, x).value.name, Find(rows, x).value.key)
  }

  /** `INSERT INTO carreras (name, key) VALUES ($1, $2)`: the row takes the
      next sequence value as its id and goes after the existing rows; once
      the sequence is exhausted the statement fails. */
  function Insert(st: State, name: string, key: string): Option<State>
  {
    if st.next <= MaxSerial then Some(State(st.rows + [Row(st.next, name, key)], st.next + 1))
    else None
  }

  /** The rows after `UPDATE carreras SET name = $1, key = $2 WHERE id = $3`. */
  function UpdateRows(rows: seq<Row>, id: int, name: string, key: string): (r: seq<Row>)
    ensures |r| == |rows|
    ensures forall i :: 0 <= i < |rows| ==> r[i].id == rows[i].id
    ensures forall i :: 0 <= i < |rows| && rows[i].id == id ==> r[i].name == name && r[i].key == key
    ensures forall i :: 0 <= i < |rows| && rows[i].id != id ==> r[i] == rows[i]
  {
    if rows == [] then []
    else
      var head := if rows[0].id == id then Row(id, name, key) else rows[0];
      var rest := UpdateRows(rows[1..], id, name, key);
      assert forall i :: 1 <= i < |rows| ==> ([head] + rest)[i] == rest[i - 1];
      [head] + rest
  }

  function Update(st: State, id: int, name: string, key: string): State
  {
    State(UpdateRows(st.rows, id, name, key), st.next)
  }

  /** The rows after `DELETE FROM carreras WHERE id = $1`, in their order. */
  function DeleteRows(rows: seq<Row>, id: int): (r: seq<Row>)
    ensures |r| <= |rows|
  {
    if rows == [] then []
    else (if rows[0].id == id then [] else [rows[0]]) + DeleteRows(rows[1..], id)
  }

  /** The table after the delete and the number of rows affected. */
  function Delete(st: State, id: int): (State, nat)
  {
    var rows := DeleteRows(st.rows, id);
    (State(rows, st.next), |st.rows| - |rows|)
  }

  // ---- the map view ----

  lemma IdsOfTail(rows: seq<Row>)
    requires rows != []
    ensures Ids(rows) == Ids(rows[1..]) + {rows[0].id}
  {
    forall x | x in Ids(rows) ensures x in Ids(rows[1..]) + {rows[0].id} {
      var i :| 0 <= i < |rows| && rows[i].id == x;
      if i > 0 { assert rows[1..][i - 1].id == x; }
    }
  }

  lemma DistinctTail(rows: seq<Row>)
    requires rows != [] && DistinctIds(rows)
    ensures DistinctIds(rows[1..]) && rows[0].id !in Ids(rows[1..])
  {
    assert forall i, j :: 0 <= i < j < |rows| - 1 ==> rows[1..][i] == rows[i + 1] && rows[1..][j] == rows[j + 1];
  }

  lemma DistinctCons(h: Row, rows: seq<Row>)
    requires DistinctIds(rows) && h.id !in Ids(rows)
    ensures DistinctIds([h] + rows)
  {
    var r := [h] + rows;
    forall i, j | 0 <= i < j < |r| ensures r[i].id != r[j].id {
      if i == 0 {
        assert r[j] == rows[j - 1];
      } else {
        assert r[i] == rows[i - 1] && r[j] == rows[j - 1];
      }
    }
  }

  /** With unique ids, looking up the id of a row finds that row. */
  lemma {:induction false} FindRow(rows: seq<Row>, i: int)
    requires DistinctIds(rows) && 0 <= i < |rows|
    ensures Find(rows, rows[i].id) == Some(rows[i])
    decreases |rows|
  {
    if i > 0 {
      assert rows[0].id != rows[i].id;
      assert rows[1..][i - 1] == rows[i];
      DistinctTail(rows);
      FindRow(rows[1..], i - 1);
    }
  }

  /** A lookup in a table with one more row at the end. */
  lemma {:induction false} FindAppend(rows: seq<Row>, r: Row, x: int)
    ensures Find(rows + [r], x) == if x in Ids(rows) then Find(rows, x) else if x == r.id then Some(r) else None
    decreases |rows|
  {
    if rows != [] {
      assert (rows + [r])[1..] == rows[1..] + [r];
      IdsOfTail(rows);
      FindAppend(rows[1..], r, x);
    } else {
      assert [] + [r] == [r];
      assert [r][1..] == [];
    }
  }

  /** A lookup after an update: the updated row for its id, as before otherwise. */
  lemma {:induction false} FindUpdate(rows: seq<Row>, id: int, name: string, key: string, x: int)
    ensures Find(UpdateRows(rows, id, name, key), x)
      == if x == id && Find(rows, x).Some? then Some(Row(id, name, key)) else Find(rows, x)
    decreases |rows|
  {
    if rows != [] {
      var r := UpdateRows(rows, id, name, key);
      assert r[1..] == UpdateRows(rows[1..], id, name, key);
      FindUpdate(rows[1..], id, name, key, x);
    }
  }

  /** The rows a delete keeps are exactly those with another id. */
  lemma {:induction false} DeleteRowsMembers(rows: seq<Row>, id: int)
    ensures forall x :: x in DeleteRows(rows, id) <==> x in rows && x.id != id
    decreases |rows|
  {
    if rows != [] {
      DeleteRowsMembers(rows[1..], id);
      assert forall x :: x in rows <==> x == rows[0] || x in rows[1..];
    }
  }

  /** A lookup after a delete: nothing for the deleted id, as before otherwise. */
  lemma {:induction false} FindDelete(rows: seq<Row>, id: int, x: int)
    ensures Find(DeleteRows(rows, id), x) == if x == id then None else Find(rows, x)
    decreases |rows|
  {
    if rows != [] {
      var h, t := rows[0], rows[1..];
      var rest := DeleteRows(t, id);
      FindDelete(t, id, x);
      if h.id == id {
        assert DeleteRows(rows, id) == rest;
      } else {
        var r := [h] + rest;
        assert DeleteRows(rows, id) == r;
        assert r[0] == h && r[1..] == rest;
        assert Find(r, x) == if h.id == x then Some(h) else Find(rest, x);
      }
    }
  }

  lemma IdsAppend(rows: seq<Row>, r: Row)
    ensures Ids(rows + [r]) == Ids(rows) + {r.id}
  {
    var all := rows + [r];
    forall x | x in Ids(all) ensures x in Ids(rows) + {r.id} {
      var i :| 0 <= i < |all| && all[i].id == x;
      if i < |rows| { assert all[i] == rows[i]; }
    }
    assert all[|rows|] == r;
    forall x | x in Ids(rows) ensures x in Ids(all) {
      var i :| 0 <= i < |rows| && rows[i].id == x;
      assert all[i] == rows[i];
    }
  }

  /** Appending a row under a fresh id adds exactly that entry to the map. */
  lemma AsMapAppend(rows: seq<Row>, r: Row)
    requires r.id !in Ids(rows)
    ensures AsMap(rows + [r]) == AsMap(rows)[r.id := (r.name, r.key)]
  {
    IdsAppend(rows, r);
    var before, after := AsMap(rows), AsMap(rows + [r]);
    var expected := before[r.id := (r.name, r.key)];
    forall x | x in after.Keys ensures after[x] == expected[x] {
      FindAppend(rows, r, x);
    }
    MapsEqual(after, expected);
  }

  lemma MapsEqual(a: map<int, (string, string)>, b: map<int, (string, string)>)
    requires forall x :: x in a <==> x in b
    requires forall x :: x in a ==> a[x] == b[x]
    ensures a == b
  {
    assert forall x :: x in a ==> x in b && a[x] == b[x];
    assert forall x :: x in b ==> x in a;
  }

  /** An insert adds one row under a previously unused id, changes no other
      row, advances the sequence and keeps the table valid; it fails only
      when the sequence is exhausted. */
  lemma InsertFresh(st: State, name: string, key: string)
    requires Valid(st)
    ensures Insert(st, name, key).None? <==> st.next == MaxSerial + 1
    ensures Insert(st, name, key).Some? ==>
      var st' := Insert(st, name, key).value;
      && st.next !in Ids(st.rows)
      && Valid(st')
      && st'.rows == st.rows + [Row(st.next, name, key)]
      && st'.next == st.next + 1
      && AsMap(st'.rows) == AsMap(st.rows)[st.next := (name, key)]
  {
    if st.next <= MaxSerial {
      var r := Row(st.next, name, key);
      assert st.next !in Ids(st.rows);
      AsMapAppend(st.rows, r);
      InsertKeepsValid(st, r);
    }
  }

  lemma InsertKeepsValid(st: State, r: Row)
    requires Valid(st) && r.id == st.next <= MaxSerial
    ensures Valid(State(st.rows + [r], st.next + 1))
  {
    var rows := st.rows + [r];
    assert forall i :: 0 <= i < |st.rows| ==> rows[i] == st.rows[i];
  }

  /** An update changes no id. */
  lemma UpdateIds(rows: seq<Row>, id: int, name: string, key: string)
    ensures Ids(UpdateRows(rows, id, name, key)) == Ids(rows)
  {
    var r := UpdateRows(rows, id, name, key);
    forall x | x in Ids(rows) ensures x in Ids(r) {
      var i :| 0 <= i < |rows| && rows[i].id == x;
      assert r[i].id == x;
    }
  }

  /** An update rewrites the name and key stored under that id, if there is
      one, and nothing else: no row appears, goes or changes its id. */
  lemma UpdateMap(rows: seq<Row>, id: int, name: string, key: string)
    ensures Ids(UpdateRows(rows, id, name, key)) == Ids(rows)
    ensures AsMap(UpdateRows(rows, id, name, key))
      == if id in AsMap(rows) then AsMap(rows)[id := (name, key)] else AsMap(rows)
  {
    UpdateIds(rows, id, name, key);
    if id in AsMap(rows) {
      UpdatePresent(rows, id, name, key);
    } else {
      UpdateAbsent(rows, id, name, key);
    }
  }

  lemma UpdatePresent(rows: seq<Row>, id: int, name: string, key: string)
    requires id in Ids(rows)
    ensures AsMap(UpdateRows(rows, id, name, key)) == AsMap(rows)[id := (name, key)]
  {
    var after, expected := AsMap(UpdateRows(rows, id, name, key)), AsMap(rows)[id := (name, key)];
    forall x ensures (x in after <==> x in expected) && (x in after ==> after[x] == expected[x]) {
      FindUpdate(rows, id, name, key, x);
    }
    MapsEqual(after, expected);
  }

  lemma UpdateAbsent(rows: seq<Row>, id: int, name: string, key: string)
    requires id !in Ids(rows)
    ensures AsMap(UpdateRows(rows, id, name, key)) == AsMap(rows)
  {
    var after, before := AsMap(UpdateRows(rows, id, name, key)), AsMap(rows);
    forall x ensures (x in after <==> x in before) && (x in after ==> after[x] == before[x]) {
      FindUpdate(rows, id, name, key, x);
    }
    MapsEqual(after, before);
  }

  lemma UpdateKeepsValid(st: State, id: int, name: string, key: string)
    requires Valid(st)
    ensures Valid(Update(st, id, name, key))
  {
  }

  /** Repeating an update changes nothing more. */
  lemma UpdateIdempotent(st: State, id: int, name: string, key: string)
    ensures Update(Update(st, id, name, key), id, name, key) == Update(st, id, name, key)
  {
    var once := UpdateRows(st.rows, id, name, key);
    var twice := UpdateRows(once, id, name, key);
    assert forall i :: 0 <= i < |once| ==> twice[i] == once[i] by {
      forall i | 0 <= i < |once| ensures twice[i] == once[i] {
        if once[i].id == id {
          assert once[i] == Row(id, name, key);
        }
      }
    }
  }

  /** A delete removes the entry for that id, if any, and nothing else. */
  lemma DeleteMap(rows: seq<Row>, id: int)
    ensures Ids(DeleteRows(rows, id)) == Ids(rows) - {id}
    ensures AsMap(DeleteRows(rows, id)) == AsMap(rows) - {id}
  {
    var r := DeleteRows(rows, id);
    DeleteRowsMembers(rows, id);
    assert Ids(r) == Ids(rows) - {id} by {
      forall x | x in Ids(r) ensures x in Ids(rows) - {id} {
        var i :| 0 <= i < |r| && r[i].id == x;
        assert r[i] in rows;
        var j :| 0 <= j < |rows| && rows[j] == r[i];
      }
      forall x | x in Ids(rows) - {id} ensures x in Ids(r) {
        var i :| 0 <= i < |rows| && rows[i].id == x;
        assert rows[i] in r;
        var j :| 0 <= j < |r| && r[j] == rows[i];
      }
    }
    forall x | x in Ids(r) ensures Find(r, x) == Find(rows, x) {
      FindDelete(rows, id, x);
    }
  }

  /** With unique ids a delete affects one row when the id is present and
      none when it is not, and the ids stay unique. */
  lemma {:induction false} DeleteCount(rows: seq<Row>, id: int)
    requires DistinctIds(rows)
    ensures DistinctIds(DeleteRows(rows, id))
    ensures |rows| - |DeleteRows(rows, id)| == if id in Ids(rows) then 1 else 0
    decreases |rows|
  {
    if rows != [] {
      var h, t := rows[0], rows[1..];
      var rest := DeleteRows(t, id);
      DistinctTail(rows);
      DeleteCount(t, id);
      DeleteRowsMembers(t, id);
      IdsOfTail(rows);
      if h.id != id {
        assert DeleteRows(rows, id) == [h] + rest;
        assert h.id !in Ids(rest) by {
          forall i | 0 <= i < |rest| ensures rest[i].id != h.id {
            assert rest[i] in t;
          }
        }
        DistinctCons(h, rest);
      } else {
        assert DeleteRows(rows, id) == rest;
      }
    }
  }

  /** A delete keeps the table valid. */
  lemma DeleteKeepsValid(st: State, id: int)
    requires Valid(st)
    ensures Valid(Delete(st, id).0)
  {
    DeleteCount(st.rows, id);
    DeleteRowsMembers(st.rows, id);
    var rows := DeleteRows(st.rows, id);
    forall i | 0 <= i < |rows| ensures 1 <= rows[i].id < st.next {
      assert rows[i] in st.rows;
    }
  }

  /** Deleting the same id twice: the second delete affects no row. */
  lemma DeleteTwice(st: State, id: int)
    ensures Delete(Delete(st, id).0, id).1 == 0
  {
    var once := DeleteRows(st.rows, id);
    DeleteRowsMembers(st.rows, id);
    assert forall i :: 0 <= i < |once| ==> once[i] in once;
    DeleteKeepsAll(once, id);
  }

  /** Deleting an id that no row has leaves the rows as they are. */
  lemma {:induction false} DeleteKeepsAll(rows: seq<Row>, id: int)
    requires forall i :: 0 <= i < |rows| ==> rows[i].id != id
    ensures DeleteRows(rows, id) == rows
    decreases |rows|
  {
    if rows != [] {
      DeleteKeepsAll(rows[1..], id);
      assert [rows[0]] + rows[1..] == rows;
    }
  }
}
