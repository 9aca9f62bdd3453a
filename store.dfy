/**
 * The `boards` table both the app and the save endpoint talk to, reduced to
 * what the code reads back from it. The network client itself is not
 * modelled: every answer the code inspects (`data`, `error`) is either
 * computed from the rows here or passed in as a parameter.
 */
module Store {
  import opened Options
  import opened Kanban

  /** A parsed JSON value, as far as the code looks at it: `Array.isArray` decides. */
  datatype Json = Array(items: Board) | NotArray

  /** A row of the `boards` table: the id and the board stored under it. */
  datatype Row = Row(id: string, data: Board)

  /** What a `select(..).eq("id", id).single()` call resolves to. */
  datatype Fetch = Fetch(data: Option<Row>, error: Option<string>)

  type Rows = map<string, Board>

  /** A lookup of `id` came back with `data`: the row exists and the lookup did not fail. */
  predicate Taken(rows: Rows, id: string, failed: bool)
  {
    !failed && id in rows
  }

  /**
   * The answer a reachable store gives to `select("*").eq("id", id).single()`:
   * the row when there is one, an error when there is none.
   */
  function Select(rows: Rows, id: string): (f: Fetch)
    ensures f.data.Some? <==> f.error.None?
    ensures f.data.Some? <==> id in rows
    ensures f.data.Some? ==> f.data.value == Row(id, rows[id])
  {
    if id in rows then Fetch(Some(Row(id, rows[id])), None) else Fetch(None, Some("no rows"))
  }

  /**
   * After an upsert, selecting its id returns exactly the board written
   * (no merge with what was there), and every other id reads as before.
   */
  lemma UpsertThenSelect(rows: Rows, id: string, data: Board, other: string)
    ensures Select(rows[id := data], id) == Fetch(Some(Row(id, data)), None)
    ensures other != id ==> Select(rows[id := data], other) == Select(rows, other)
  {
  }

  class BoardTable {
    var rows: Rows
    /** The ids of the upserts sent to the table, in order. */
    ghost var upserts: seq<string>
    /** The ids of the existence lookups sent to the table, in order. */
    ghost var lookups: seq<string>

    constructor (initial: Rows)
      ensures rows == initial && upserts == [] && lookups == []
    {
      rows := initial;
      upserts := [];
      lookups := [];
    }

    /**
     * `select("id").eq("id", id).single()`, of which the caller reads only
     * `data`: it is there when the row exists and the call did not fail.
     * The lookup is recorded and writes nothing.
     */
    method Exists(id: string, failed: bool) returns (found: bool)
      modifies this
      ensures found == Taken(rows, id, failed)
      ensures lookups == old(lookups) + [id]
      ensures rows == old(rows) && upserts == old(upserts)
    {
      lookups := lookups + [id];
      found := !failed && id in rows;
    }

    /**
     * `upsert([{ id, data }])`: on success the entry under `id` is replaced
     * by `data` whole; on `failure` nothing is written and its message comes back.
     */
    method Upsert(id: string, data: Board, failure: Option<string>) returns (error: Option<string>)
      modifies this
      ensures error == failure
      ensures upserts == old(upserts) + [id] && lookups == old(lookups)
      ensures rows == if failure.None? then old(rows)[id := data] else old(rows)
    {
      error := failure;
      upserts := upserts + [id];
      if failure.None? {
        rows := rows[id := data];
      }
    }
  }
}
