# Dragboard kanban: a Dafny model

The dragboard app is a kanban board. A board is an ordered list of columns, and each column is an ordered list of tasks. A user saves a board under a four-digit id and loads it back by that id. This project models two parts of the app in Dafny and proves properties of the model:

- **The board state machine of `src/App.jsx`.** The edits (`addColumn`, `updateColumnName`, `deleteColumn`, `addTask`, `deleteTask`, `renameTask` and the drag-move `onDropTask`) are whole-value transforms of the column array. The React state (`columns`, `boardId`) is changed by those edits and by `saveBoard`, `loadBoard`, the URL-load effect and `importBoard`.
- **The save endpoint `api/save.js`.** It validates the request and picks an id. The id is either the one supplied or a four-digit id whose lookup returned no data, found in at most five lookups. It then upserts the whole board under that id.

Files:

- `options.dfy`: the `Option` datatype.
- `kanban.dfy`, module `Kanban`:
  - the `Task`/`Column`/`Board` datatypes;
  - the edit functions;
  - task counting (`CountIn`, `Occurrences`, `TaskCount`);
  - the board invariant `WellFormed` (column ids unique, no task id twice);
  - one group of lemmas per edit;
  - `OnDropTask`, the two-pass loop of the source, proved equal to the function `Dropped`.
- `board_id.dfy`, module `BoardId`: the id `1000 + draw` as a decimal string. Lemmas show it is four digits and reads back as the number it came from.
- `store.dfy`, module `Store`:
  - the `boards` table as a map from id to board;
  - what a `select` returns (`Select`, and the datatype `Fetch` for the `{ data, error }` answer);
  - the class `BoardTable` with the existence lookup and the upsert;
  - the parsed JSON value, reduced to what `Array.isArray` decides.
- `save_handler.dfy`, module `SaveHandler`: `GenerateId`, the five-try `while` loop, and `Handle`, the whole request handler.
- `session.dfy`, module `Session`: the class `BoardSession`, which holds `columns` and `boardId`.

Randomness, uuids and network answers are parameters:

- Each `Math.random()` becomes a draw, an integer in [0, 9000) equal to `Math.floor(Math.random() * 9000)`, so the id is `1000 + draw`.
- Each `uuidv4()` becomes a supplied `freshId`. The lemmas that need it fresh say so in their `requires`.
- Each awaited store call becomes an argument giving its outcome: a lookup that failed, an upsert error message, an insert that failed, or the `{ data, error }` of a `select`.

The model follows the code, including these behaviours a reader might not expect:

- `saveBoard` draws a new id on every save, even when the session already has one. It uses `insert`, not an upsert, and it makes no existence check.
- `importBoard` keeps the current `boardId`.
- An existence lookup in `api/save.js` that fails counts as "id is free". With a failing lookup, the handler can upsert over an existing board.
- `loadBoard` treats a store error and a missing row the same way.
- `onDropTask` onto a column id that does not exist removes the task and does not put it back (it is not a no-op).
- If a task id occurs more than once, `onDropTask` removes every copy and re-adds only the last one.

## Model

The functions that compute the edits (`AddColumn`, `UpdateColumnName`, `DeleteColumn`, `AddTask`, `DeleteTask`, `RenameTask`, `Strip`, `LastMatch`, `Place` and `Dropped`) carry no row of their own: each is stated by the lemmas about it below (`AddColumnSpec` for `AddColumn`, `StripSpec` for `Strip`, and so on), and the session methods and the `OnDropTask` loop are proved equal to them.

| member | source | states |
|---|---|---|
| Kanban.AddColumnSpec | src/App.jsx:17-19 | the board gains exactly one column at the end, with the given id, name "New Category" and no tasks; the earlier columns are the old board unchanged and in order; task counts are unchanged; with a fresh id a well-formed board stays well-formed |
| Kanban.UpdateColumnNameSpec | src/App.jsx:21-23 | length, order, ids and task lists are unchanged; exactly the columns with the given id take the new name; an unknown id leaves the board equal; well-formedness is kept |
| Kanban.DeleteColumnSpec | src/App.jsx:25-27 | afterwards no column has the id; a column remains exactly when it was there and has another id; an unknown id leaves the board equal; well-formedness is kept |
| Kanban.DeleteColumnShrinks | src/App.jsx:26 | deleting never adds a task, never raises any task id's count and keeps column ids unique |
| Kanban.DeleteColumnAt | src/App.jsx:26 | with unique column ids, deleting column k leaves exactly the columns before and after it, in their order |
| Kanban.DeleteColumnCascade | src/App.jsx:25-27 | cascade: the board loses exactly column k's tasks, and on a well-formed board no id of those tasks occurs any more |
| Kanban.AppendTo | src/App.jsx:32-34 | appending to a column keeps the column count, every id and name, and changes nothing when no column has the target id |
| Kanban.AppendToSpec | src/App.jsx:32-34 | with unique column ids: only the target column's tasks change, by exactly the appended task; the task count grows by one exactly when the target exists; only the appended id's count grows |
| Kanban.AppendToCounts | src/App.jsx:32-34 | when column k is the target, the board gains exactly one task, and only the appended task's id gains an occurrence |
| Kanban.AddTaskSpec | src/App.jsx:30-35 | on any board and with a fresh id, "New Task" with that id is appended to the end of every column with the given id and no other; an unknown column id leaves the board equal; with unique column ids the board gains one task exactly when the column exists, and the new id then occurs exactly once, otherwise not at all; a well-formed board stays well-formed |
| Kanban.WithoutTaskCounts | src/App.jsx:41 | filtering out an id removes every task with that id and no other task |
| Kanban.WithoutAbsentTask | src/App.jsx:41 | filtering out an id that no task has returns the same list |
| Kanban.WithoutTaskAt | src/App.jsx:41 | filtering out a task whose id is unique leaves the tasks before and after it, in order |
| Kanban.DeleteTaskColumns | src/App.jsx:38-43 | in every column with the given id, no task keeps the deleted id and exactly the tasks with other ids remain; a column that holds no task with the id is unchanged |
| Kanban.DeleteTaskSpec | src/App.jsx:37-44 | the matching columns lose every task with the id and keep every other task; a column holding no such task is unchanged; column count, order, ids and names are kept; columns with another id are unchanged; an unknown column id leaves the board equal; other task ids keep their counts; well-formedness is kept |
| Kanban.DeleteTaskAt | src/App.jsx:37-44 | when task j is the only task with its id in column k, deleting it leaves that column's other tasks in order; when besides the column ids are unique or the id occurs nowhere else, every other column is unchanged, the id loses exactly one occurrence and the board has one task fewer; an id that occurred once then occurs nowhere |
| Kanban.RenameInKeepsIds | src/App.jsx:50-52 | renaming tasks keeps every task id's count |
| Kanban.RenameTaskSpec | src/App.jsx:46-55 | the board keeps its shape and every id; exactly the tasks with the given id in the matching column take the new name; task counts and well-formedness are kept |
| Kanban.LastInFacts | src/App.jsx:60-66 | the task the filter callback remembers is the previous one when no task matches; otherwise it is a task with that id, and it is the unique one when the id occurs once |
| Kanban.LastMatchFacts | src/App.jsx:58-67 | `movedTask` is unset exactly when the id occurs nowhere; when set, it has that id; when the id occurs once, it is that very task |
| Kanban.StripSpec | src/App.jsx:59-67 | the first pass keeps every column's id and name; it removes exactly the tasks with the moved id, lowering the task count by their number; it changes nothing when the id is absent |
| Kanban.StripRemovesAll | src/App.jsx:59-67 | after the first pass the moved id occurs nowhere |
| Kanban.StripTaskCount | src/App.jsx:59-67 | the first pass removes as many tasks as the moved id has occurrences |
| Kanban.StripKeepsColumns | src/App.jsx:59-67 | the first pass keeps the set of column ids and their uniqueness |
| Kanban.DropUnknownTask | src/App.jsx:57-75 | dropping an id that occurs in no column leaves the board equal |
| Kanban.DropOnMissingColumn | src/App.jsx:68-73 | when no column has the target id, the task is removed and not re-added: its id occurs nowhere, and the board loses exactly its copies |
| Kanban.DropCounts | src/App.jsx:57-75 | with unique column ids, the moved id afterwards occurs once when it occurred and the target exists, and never otherwise; every other id keeps its count; the task count falls by the moved id's occurrences and rises by one when the task is re-added, so it is conserved when the id occurred once; well-formedness is kept |
| Kanban.StripOneTask | src/App.jsx:58-67 | when the moved task's id occurs once on the board (other ids may repeat), the first pass finds the very task being moved; it takes it out of its column, the other tasks keeping their order, and leaves every other column as it was |
| Kanban.DropMovesTask | src/App.jsx:57-75 | with unique column ids and the moved task's id occurring once (other ids may repeat), task j of column k leaves column k, where the other tasks keep their order, and the very same task is appended to the end of target column m; every column keeps its id and name; every other column is unchanged; the task count is conserved, the id occurs exactly once, and a well-formed board stays well-formed |
| Kanban.FilterMoved | src/App.jsx:60-66 | the filter callback's loop keeps exactly the tasks with other ids and leaves `movedTask` at the last match, or at its earlier value when nothing matches |
| Kanban.PlaceMoved | src/App.jsx:68-73 | the second map appends the remembered task, if there is one, to the target column and changes nothing else |
| Kanban.OnDropTask | src/App.jsx:57-75 | the two-pass loop, with `movedTask` assigned inside the filter, computes exactly `Dropped` |
| BoardId.DecimalString | src/App.jsx:79 | `toString` of a non-negative integer is a non-empty string of decimal digits |
| BoardId.ParseDecimalString | src/App.jsx:79 | reading the decimal string back gives the number |
| BoardId.FourDigits | src/App.jsx:79 | every number from 1000 to 9999 prints as exactly four digits |
| BoardId.IdOf | api/save.js:26 | the id from any draw in [0, 9000) is four decimal digits and reads back as 1000 + draw |
| BoardId.IdOfInjective | api/save.js:26 | two draws give the same id exactly when they are equal |
| Store.UpsertThenSelect | api/save.js:36-38 | after an upsert, selecting its id returns exactly the board written, with no merge; every other id reads as before |
| Store.BoardTable.Exists | api/save.js:27-28 | a lookup yields data exactly when it did not fail and the row exists, so a failed lookup reads as a free id; the lookup is appended to the table's lookup log and nothing is written |
| Store.BoardTable.Upsert | api/save.js:36-43 | on success the entry under the id becomes the board, replaced whole, and every other entry is unchanged; on failure nothing is written and the error is returned; the call is recorded |
| SaveHandler.GenerateId | api/save.js:22-34 | the table's lookup log grows by exactly the candidates looked up, and nothing is written; at most 5 lookups; `tries` stays in 0..5; candidate k is `IdOf(draws[k])`, four digits; every candidate before the last was taken; `tries == 5` exactly when all five were taken; otherwise the id is the last candidate, and its lookup returned no data |
| SaveHandler.Handle | api/save.js:8-45 | see the list below this table |
| Session.BoardSession.constructor | src/App.jsx:13-14 | a new session has no columns and no id |
| Session.BoardSession.AddColumn | src/App.jsx:17-19 | `columns` becomes `AddColumn` of the old board; the id is kept |
| Session.BoardSession.UpdateColumnName | src/App.jsx:21-23 | `columns` becomes `UpdateColumnName` of the old board; the id is kept |
| Session.BoardSession.DeleteColumn | src/App.jsx:25-27 | `columns` becomes `DeleteColumn` of the old board; the id is kept |
| Session.BoardSession.AddTask | src/App.jsx:30-35 | `columns` becomes `AddTask` of the old board; the id is kept |
| Session.BoardSession.DeleteTask | src/App.jsx:37-44 | `columns` becomes `DeleteTask` of the old board; the id is kept |
| Session.BoardSession.RenameTask | src/App.jsx:46-55 | `columns` becomes `RenameTask` of the old board; the id is kept |
| Session.BoardSession.OnDropTask | src/App.jsx:57-75 | `columns` becomes `Dropped` of the old board; the id is kept |
| Session.BoardSession.SaveBoard | src/App.jsx:78-90 | the id is `1000 + draw` as four digits; the board is untouched; `boardId` becomes that id only when the insert succeeded |
| Session.BoardSession.LoadBoard | src/App.jsx:92-107 | on an error or missing data both fields stay as they were; otherwise `columns` becomes the stored board and `boardId` the typed id |
| Session.BoardSession.LoadFromUrl | src/App.jsx:109-125 | only a non-empty `?id=` whose answer carries data replaces `columns` and `boardId`; anything else leaves both as they were |
| Session.BoardSession.ImportBoard | src/App.jsx:138-155 | `columns` is replaced only when the parsed value is an array; a parse failure or a non-array keeps it; `boardId` is never touched |

`SaveHandler.Handle` states the following:

- The table's lookup log grows by exactly the lookups listed in `checked`, so every bound on `checked` below is a bound on the lookups the table saw.
- A method other than POST gets 405 "Method Not Allowed". The table records no lookup and no upsert.
- A body whose data is not an array gets 400 "Invalid board data". The table records no lookup and no upsert.
- A truthy supplied id means the table records no lookup. The upsert targets exactly that id, and the reply carries that id.
- With no truthy id, the handler makes one to five lookups of `IdOf(draws[k])`:
  - If all five candidates were taken, the reply is 500 "Failed to generate unique ID" and there is no upsert.
  - Otherwise the id is the last candidate, which was not taken, and the board is upserted under it.
- A successful upsert maps the id to exactly the board, changes no other entry, and replies 200 `{ id }`.
- An upsert error replies 500 with its message, writes nothing, and reports no id.

## Left out

- React rendering, the `Column` and `Task` components, the editing toggles and the drag payload carried by `dataTransfer` (src/App.jsx:157-270). This is presentation. `onDropTask` is modelled as a transition on `(taskId, targetColumnId)`.
- The Supabase clients and every network call (src/App.jsx:7-10, 80-82, 94-98; api/save.js:4-6, 27, 36-38). What the code reads from each answer is a parameter, and the table is a map.
- `Math.random` floats. Each draw is the integer `Math.floor(Math.random() * 9000)`, assumed to lie in [0, 9000). Floating-point rounding is not modelled.
- `uuidv4`. Fresh ids are parameters, and freshness is a precondition of the lemmas that need it.
- `exportBoard` and the file side of `importBoard` (src/App.jsx:128-144, 150-154). This covers JSON text, Blob, FileReader, object URLs and the missing-file early return. `ImportBoard` takes the parse result.
- The elements of a parsed JSON array are taken to be columns. The source checks only `Array.isArray` and never validates the elements, so the model does not either.
- `alert`, `prompt`, `window.history.replaceState`, `URLSearchParams` and console logging. These are browser I/O with no effect on the modelled state. The id typed at the prompt is a parameter of `LoadBoard`, and the `?id=` value is a parameter of `LoadFromUrl`.
- server/index.js and api/load.js are not part of this model. They are thin wrappers around one upsert and one select. The load outcome is covered by `LoadBoard`.
- The race between an existence lookup and the later upsert, and last-writer-wins between concurrent savers. These are concurrency, not sequential behaviour.
- SaveHandler.Handle: does not model the `catch` at api/save.js:46-49. Thrown exceptions, such as a body that cannot be destructured, are not modelled. Awaited calls always resolve to the modelled answers.
- SaveHandler.Handle: the supplied id is modelled as a string, or absent. A non-string JSON id (a number, say) is not modelled.
- Session.BoardSession.SaveBoard: what makes the `insert` fail (for example an id already taken) is the store's schema, which is not in the source. The outcome is a parameter.
