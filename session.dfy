/**
 * The state the `App` component of src/App.jsx keeps: the board `columns`
 * and the `boardId` it was saved under or loaded from. Each handler is a
 * method; what the handler awaits from the store (or parses from a file) is
 * a parameter, and the uuid or random draw it uses is a parameter too.
 */
module Session {
  import opened Options
  import opened Kanban
  import opened BoardId
  import opened Store

  class BoardSession {
    var columns: Board
    var boardId: Option<string>

    /** `useState([])` and `useState(null)`. */
    constructor ()
      ensures columns == [] && boardId == None
    {
      columns := [];
      boardId := None;
    }

    method AddColumn(freshId: string)
      modifies this
      ensures columns == Kanban.AddColumn(old(columns), freshId) && boardId == old(boardId)
    {
      columns := Kanban.AddColumn(columns, freshId);
    }

    method UpdateColumnName(id: string, newName: string)
      modifies this
      ensures columns == Kanban.UpdateColumnName(old(columns), id, newName) && boardId == old(boardId)
    {
      columns := Kanban.UpdateColumnName(columns, id, newName);
    }

    method DeleteColumn(id: string)
      modifies this
      ensures columns == Kanban.DeleteColumn(old(columns), id) && boardId == old(boardId)
    {
      columns := Kanban.DeleteColumn(columns, id);
    }

    method AddTask(columnId: string, freshId: string)
      modifies this
      ensures columns == Kanban.AddTask(old(columns), columnId, freshId) && boardId == old(boardId)
    {
      columns := Kanban.AddTask(columns, columnId, freshId);
    }

    method DeleteTask(columnId: string, taskId: string)
      modifies this
      ensures columns == Kanban.DeleteTask(old(columns), columnId, taskId) && boardId == old(boardId)
    {
      columns := Kanban.DeleteTask(columns, columnId, taskId);
    }

    method RenameTask(columnId: string, taskId: string, newName: string)
      modifies this
      ensures columns == Kanban.RenameTask(old(columns), columnId, taskId, newName) && boardId == old(boardId)
    {
      columns := Kanban.RenameTask(columns, columnId, taskId, newName);
    }

    method OnDropTask(taskId: string, targetColumnId: string)
      modifies this
      ensures columns == Dropped(old(columns), taskId, targetColumnId) && boardId == old(boardId)
    {
      columns := Kanban.OnDropTask(columns, taskId, targetColumnId);
    }

    /**
     * `saveBoard`: always draws a new id and inserts the board under it; the
     * id is kept only when the insert did not fail. The board is not touched.
     */
    method SaveBoard(draw: int, insertFailed: bool) returns (id: string)
      requires 0 <= draw < 9000
      modifies this
      ensures id == IdOf(draw) && IsBoardId(id)
      ensures columns == old(columns)
      ensures boardId == if insertFailed then old(boardId) else Some(id)
    {
      id := IdOf(draw);
      if !insertFailed {
        boardId := Some(id);
      }
    }

    /**
     * `loadBoard`: an error or a missing row leaves the session as it was;
     * otherwise the stored board and the typed id replace both fields.
     */
    method LoadBoard(id: string, answer: Fetch)
      modifies this
      ensures answer.error.Some? || answer.data.None? ==>
        columns == old(columns) && boardId == old(boardId)
      ensures answer.error.None? && answer.data.Some? ==>
        columns == answer.data.value.data && boardId == Some(id)
    {
      if answer.error.Some? || answer.data.None? {
        return;
      }
      columns := answer.data.value.data;
      boardId := Some(id);
    }

    /**
     * The mount-time effect: only a non-empty `?id=` is looked up, and only
     * `data` is inspected, so an answer with data replaces both fields even
     * when it also carries an error.
     */
    method LoadFromUrl(urlId: Option<string>, answer: Fetch)
      modifies this
      ensures urlId.Some? && urlId.value != "" && answer.data.Some? ==>
        columns == answer.data.value.data && boardId == urlId
      ensures !(urlId.Some? && urlId.value != "" && answer.data.Some?) ==>
        columns == old(columns) && boardId == old(boardId)
    {
      if urlId.Some? && urlId.value != "" && answer.data.Some? {
        columns := answer.data.value.data;
        boardId := urlId;
      }
    }

    /**
     * `importBoard` once the file is read: `parsed` is `None` when
     * `JSON.parse` threw. Only an array replaces the board; the id is kept.
     */
    method ImportBoard(parsed: Option<Json>)
      modifies this
      ensures boardId == old(boardId)
      ensures parsed.Some? && parsed.value.Array? ==> columns == parsed.value.items
      ensures !(parsed.Some? && parsed.value.Array?) ==> columns == old(columns)
    {
      if parsed.Some? && parsed.value.Array? {
        columns := parsed.value.items;
      }
    }
  }
}
