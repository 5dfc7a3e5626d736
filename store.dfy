/** The Postgres table the server reaches through `DATABASE_URL`, as an
    object whose fields the handlers' statements update in place. */
module Store {
  import opened Wrappers
  import opened Table

  class Database {
    var rows: seq<Row>
    var next: int

    /** The table's current contents as a value. */
    function Model(): State
      reads this
    {
      State(rows, next)
    }

    ghost predicate Valid()
      reads this
    {
      Table.Valid(Model())
    }

    /** The table as `CREATE TABLE IF NOT EXISTS` leaves it on a fresh database. */
    constructor ()
      ensures Valid() && Model() == Table.Empty
    {
      rows := [];
      next := 1;
    }

    /** `INSERT INTO carreras (name, key) VALUES ($1, $2)`; `ok` is false when
        the `SERIAL` sequence is exhausted and the statement fails. */
    method Insert(name: string, key: string) returns (ok: bool)
      requires Valid()
      modifies this
      ensures Valid()
      ensures ok == (old(next) <= MaxSerial)
      ensures Table.Insert(old(Model()), name, key) == if ok then Some(Model()) else None
      ensures !ok ==> Model() == old(Model())
    {
      InsertFresh(Model(), name, key);
      ok := next <= MaxSerial;
      if ok {
        rows := rows + [Row(next, name, key)];
        next := next + 1;
      }
    }

    /** `UPDATE carreras SET name = $1, key = $2 WHERE id = $3`. */
    method Update(id: int, name: string, key: string)
      requires Valid()
      modifies this
      ensures Valid()
      ensures Model() == Table.Update(old(Model()), id, name, key)
    {
      UpdateKeepsValid(Model(), id, name, key);
      rows := UpdateRows(rows, id, name, key);
    }

    /** `DELETE FROM carreras WHERE id = $1`, answering the rows affected. */
    method Delete(id: int) returns (affected: nat)
      requires Valid()
      modifies this
      ensures Valid()
      ensures (Model(), affected) == Table.Delete(old(Model()), id)
    {
      DeleteKeepsValid(Model(), id);
      var kept := DeleteRows(rows, id);
      affected := |rows| - |kept|;
      rows := kept;
    }
  }
}
