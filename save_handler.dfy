/**
 * The save endpoint of api/save.js: validate the request, pick an id (the
 * one supplied, or a four-digit one whose lookup returned no data, found in
 * at most five tries), and upsert the whole board under it.
 *
 * `Math.random()` is replaced by `draws` (draw `k` feeds try `k`), and the
 * network outcome of each existence lookup and of the upsert by `lookupFails`
 * and `upsertFailure`.
 */
module SaveHandler {
  import opened Options
  import opened Kanban
  import opened BoardId
  import opened Store

  /** The bound on id generation attempts. */
  const MaxTries: nat := 5

  datatype Body = Body(id: Option<string>, data: Json)
  datatype Request = Request(httpMethod: string, body: Body)

  /** What the handler sends: `send(text)` or `json({ error })` / `json({ id })`. */
  datatype Reply = Text(text: string) | ErrorJson(error: string) | IdJson(id: string)
  datatype Response = Response(status: int, reply: Reply)

  /** JavaScript truthiness of the supplied id: absent and "" are falsy. */
  predicate Truthy(id: Option<string>)
  {
    id.Some? && id.value != ""
  }

  /** Enough draws and lookup outcomes for five tries, every draw in [0, 9000). */
  predicate Supplies(draws: seq<int>, lookupFails: seq<bool>)
  {
    && |draws| >= MaxTries && |lookupFails| >= MaxTries
    && forall k :: 0 <= k < |draws| ==> 0 <= draws[k] < 9000
  }

  /**
   * The generation loop: try `k` draws candidate `IdOf(draws[k])` and looks it
   * up; the loop stops at the first candidate that is not `Taken` or after
   * five taken ones. `checked` lists the candidates looked up, in order, and
   * is exactly what the table records as looked up; nothing is written.
   */
  method GenerateId(table: BoardTable, draws: seq<int>, lookupFails: seq<bool>)
    returns (id: string, tries: nat, checked: seq<string>)
    requires Supplies(draws, lookupFails)
    modifies table
    ensures table.lookups == old(table.lookups) + checked
    ensures table.rows == old(table.rows) && table.upserts == old(table.upserts)
    ensures tries <= MaxTries
    ensures |checked| == if tries == MaxTries then MaxTries else tries + 1
    ensures forall k :: 0 <= k < |checked| ==> checked[k] == IdOf(draws[k]) && IsBoardId(checked[k])
    ensures forall k :: 0 <= k < tries ==> Taken(table.rows, checked[k], lookupFails[k])
    ensures tries == MaxTries <==> forall k :: 0 <= k < MaxTries ==> Taken(table.rows, IdOf(draws[k]), lookupFails[k])
    ensures id == checked[|checked| - 1]
    ensures tries < MaxTries ==> !Taken(table.rows, id, lookupFails[tries])
  {
    id := "";
    tries := 0;
    checked := [];
    while tries < MaxTries
      invariant tries <= MaxTries && |checked| == tries
      invariant table.lookups == old(table.lookups) + checked
      invariant table.rows == old(table.rows) && table.upserts == old(table.upserts)
      invariant forall k :: 0 <= k < tries ==> checked[k] == IdOf(draws[k])
      invariant forall k :: 0 <= k < tries ==> Taken(table.rows, checked[k], lookupFails[k])
      invariant tries > 0 ==> id == checked[tries - 1]
    {
      id := IdOf(draws[tries]);
      var found := table.Exists(id, lookupFails[tries]);
      checked := checked + [id];
      if !found {
        break;
      }
      tries := tries + 1;
    }
  }

  /** The upsert and the response it leads to (api/save.js:36-45). */
  ghost predicate Upserted(before: Rows, after: Rows, id: string, data: Board,
                           failure: Option<string>, resp: Response)
  {
    match failure
    case None => after == before[id := data] && resp == Response(200, IdJson(id))
    case Some(msg) => after == before && resp == Response(500, ErrorJson(msg))
  }

  /**
   * `handler(req, res)`. `checked` lists the existence lookups it made, which
   * are exactly the lookups the table records.
   */
  method Handle(table: BoardTable, req: Request, draws: seq<int>, lookupFails: seq<bool>,
                upsertFailure: Option<string>)
    returns (resp: Response, checked: seq<string>)
    requires Supplies(draws, lookupFails)
    modifies table
    ensures |checked| <= MaxTries
    ensures table.lookups == old(table.lookups) + checked
    ensures req.httpMethod != "POST" ==>
      && resp == Response(405, Text("Method Not Allowed"))
      && checked == [] && table.lookups == old(table.lookups)
      && table.rows == old(table.rows) && table.upserts == old(table.upserts)
    ensures req.httpMethod == "POST" && !req.body.data.Array? ==>
      && resp == Response(400, ErrorJson("Invalid board data"))
      && checked == [] && table.lookups == old(table.lookups)
      && table.rows == old(table.rows) && table.upserts == old(table.upserts)
    ensures req.httpMethod == "POST" && req.body.data.Array? && Truthy(req.body.id) ==>
      && checked == [] && table.lookups == old(table.lookups)
      && table.upserts == old(table.upserts) + [req.body.id.value]
      && Upserted(old(table.rows), table.rows, req.body.id.value, req.body.data.items, upsertFailure, resp)
    ensures req.httpMethod == "POST" && req.body.data.Array? && !Truthy(req.body.id) ==>
      && 1 <= |checked| <= MaxTries
      && (forall k :: 0 <= k < |checked| ==> checked[k] == IdOf(draws[k]))
      && (forall k :: 0 <= k < |checked| - 1 ==> Taken(old(table.rows), checked[k], lookupFails[k]))
      && if Taken(old(table.rows), checked[|checked| - 1], lookupFails[|checked| - 1]) then
           && |checked| == MaxTries
           && resp == Response(500, ErrorJson("Failed to generate unique ID"))
           && table.rows == old(table.rows) && table.upserts == old(table.upserts)
         else
           var id := checked[|checked| - 1];
           && table.upserts == old(table.upserts) + [id]
           && Upserted(old(table.rows), table.rows, id, req.body.data.items, upsertFailure, resp)
  {
    checked := [];
    if req.httpMethod != "POST" {
      return Response(405, Text("Method Not Allowed")), checked;
    }
    if !req.body.data.Array? {
      return Response(400, ErrorJson("Invalid board data")), checked;
    }
    var id := if req.body.id.Some? then req.body.id.value else "";
    if !Truthy(req.body.id) {
      var tries;
      id, tries, checked := GenerateId(table, draws, lookupFails);
      if tries == MaxTries {
        return Response(500, ErrorJson("Failed to generate unique ID")), checked;
      }
    }
    var upsertError := table.Upsert(id, req.body.data.items, upsertFailure);
    if upsertError.Some? {
      return Response(500, ErrorJson(upsertError.value)), checked;
    }
    resp := Response(200, IdJson(id));
  }
}
