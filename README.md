# To-do task store, modelled in Dafny

This project models the task store of a small to-do application. The
application has two front ends over one SQLite table `tasks` (id,
description, completed, priority, due_date):

- `todo.py`, a terminal program. Its menu commands add, view, mark complete,
  edit and delete tasks.
- `app.py`, a Flask app. Its JSON handlers list, create, edit, toggle and
  delete tasks.

The table is a sequence of rows kept in ascending id order, which is how
SQLite stores a rowid table, plus the AUTOINCREMENT counter, which gives
the id of the next insert. `Find(rows, id)` is what `WHERE id = ?` selects.
`FindDeterminesRows` proves that a table in id order is fully determined by
`Find`, so contracts stated through `Find` ("this id now selects this row,
every other id selects what it did") describe the whole new table.

Modules, one per source concern:

- `Text` (text.dfy): Python's `str.strip()` and `str.lower()`.
- `Tasks` (tasks.dfy): the row type, `VALID_PRIORITIES`, the table, its
  invariants, and the effect of INSERT, UPDATE and DELETE on `Find`.
  - `ValidTable`: ids are unique, positive and below the counter.
  - `CleanTable`: every description is non-empty and stripped, and every
    priority is valid.
- `Cli` (cli.dfy): each `todo.py` command as a function from the old table
  to the new table and the command's outcome. The `view_tasks` ordering is
  here too.
- `Web` (web.dfy): each `app.py` handler as a function from the old table
  and the request to the new table and the HTTP response (status and JSON
  payload).
- `Store` (store.dfy): the class `TaskStore`, whose fields are the rows and
  the counter. It has one method per command (`Cli*`) and one per handler
  (`Api*`). Each method changes the fields step by step, as the SQL does,
  and is proved to give exactly the new table and outcome that the matching
  `Cli` or `Web` function describes.
- `History` (history.dfy): any mix of commands from both front ends, since
  both open the same `tasks.db`. Every such history keeps the invariants and
  never issues an id twice.

The two front ends differ, and the model keeps each difference
(`History.EditPolicies`, `History.CompletePolicies`):

- Edit with an invalid or blank priority: the terminal keeps the stored
  priority. The web app stores "medium".
- Completing a task: the terminal command only acts on a pending task and
  is one-way. The web handler is a toggle.
- Web edit overwrites `due_date` with whatever is sent. An absent value
  becomes null, and an empty string is stored as the empty string. Web
  create stores an empty string as null.
- The web app lower-cases the priority but does not strip it, so `" high"`
  becomes "medium". The terminal strips it first.
- Web edit answers 404 for a missing id before it validates any field of the body.

## Model

| member | source | states |
|---|---|---|
| `Text.Strip` | todo.py:26 | The result is a slice of the input with only whitespace before and after it and none at either end. It is empty exactly when the input is all whitespace. |
| `Text.StripIdempotent` | todo.py:89 | Stripping an already stripped value changes nothing. |
| `Text.Lower` | todo.py:30 | Same length; each ASCII capital becomes its small letter and every other character is unchanged. |
| `Tasks.Find` | todo.py:82-84 | `WHERE id = ?` gives a row of the table with that id, and gives nothing exactly when no row has that id. |
| `Tasks.FindExactlyRows` | app.py:55-58 | With unique ids, a task is in the table exactly when its id selects it. |
| `Tasks.FindAfterAppend` | todo.py:34 | Inserting a row above every present id keeps ids unique, makes the new id select the new row, and changes what no other id selects. |
| `Tasks.FindAfterReplace` | todo.py:94-97 | Updating a row in place under its id keeps ids unique and changes what no other id selects. |
| `Tasks.FindAfterRemove` | todo.py:109 | Deleting a row keeps ids unique, makes its id select nothing, and changes what no other id selects. |
| `Tasks.FindAfterRemoveOther` | todo.py:109 | After a delete, every id other than the deleted one selects the same row as before. |
| `Tasks.Insert` | todo.py:8-34 | An insert under the AUTOINCREMENT counter keeps ids unique, positive and below the counter, and advances the counter by one. It keeps every row clean when the new row is clean, makes the new id select the new row, and changes what no other id selects. |
| `Tasks.UpdateAt` | app.py:100 | An update of one row under its own id keeps the table valid and the counter unchanged. It keeps every row clean when the new row is clean, makes the id select the new row, and changes what no other id selects. Every index keeps its id. |
| `Tasks.DeleteAt` | app.py:132 | A delete keeps the table valid and clean and leaves the counter alone. The deleted id then selects nothing, and what every other id selects is unchanged. |
| `Tasks.FindDeterminesRows` | todo.py:8 | Two id-ordered tables on which every id selects the same row are equal. |
| `Cli.Rank` | todo.py:39 | `PRIORITY_ORDER.get(p, 1)`: rank 0 exactly for high, rank 2 exactly for low, and rank 1 for medium and every unknown value. |
| `Cli.AddPriority` | todo.py:30-33 | Always a valid priority. It is the stripped, lower-cased input when that is valid, and otherwise "medium", including for a blank input. |
| `Cli.EditPriority` | todo.py:90-93 | The stripped, lower-cased input when that is valid. Otherwise the stored priority, including for a blank input. |
| `Cli.InsertByRank` | todo.py:49 | One insertion-sort step: the result holds the old rows plus the new one, as a multiset. |
| `Cli.SortByRank` | todo.py:49 | The sorted listing is a permutation of the rows. |
| `Cli.SortByRankSorted` | todo.py:49 | The sorted listing has high before medium and unknown values, and those before low. |
| `Cli.SortByRankStable` | todo.py:49 | The sort is stable: the rows of each rank keep the order they came in. |
| `Cli.SortByRankById` | todo.py:43-49 | Given rows in id order, rows of one rank come out in ascending id order. |
| `Cli.View` | todo.py:42-49 | `view_tasks` lists every row exactly once, ordered by rank and then by ascending id, and keeps the rows of each rank in id order. |
| `Cli.Add` | todo.py:25-34 | A blank description is refused and changes nothing. Otherwise a pending row is inserted with the stripped description, `AddPriority` and no due date. Its id is the counter, above every present id; the counter moves past it; rows are kept clean, and no other row changes. |
| `Cli.Complete` | todo.py:65-72 | Reports success exactly when a pending row has that id. Only that row changes: it becomes completed. On failure nothing changes. |
| `Cli.Edit` | todo.py:82-97 | A missing id reports not found and changes nothing. Otherwise the row keeps its id, completion and due date. A blank description keeps the old one, the priority follows `EditPriority`, and no other row changes. |
| `Cli.Delete` | todo.py:109-114 | Reports success exactly when a row had that id. Afterwards no row has it, every other row is unchanged, and the counter stays. |
| `Cli.CompleteTwice` | todo.py:65-66 | A second completion of the same id reports failure and changes nothing. |
| `Cli.DeleteTwice` | todo.py:109-114 | A second delete of the same id reports failure and changes nothing. |
| `Cli.DeletedIdNotReused` | todo.py:8 | A task added after a delete gets an id above the deleted one. |
| `Cli.EditKeepsIds` | todo.py:94-96 | Editing keeps the number of rows and every row's id in place. |
| `Web.RequestDescription` | app.py:65 | Empty exactly when the field is missing or blank. Otherwise the stripped value, which is always stripped. |
| `Web.RequestPriority` | app.py:68-70 | Always valid. It is the lower-cased value when that is valid, and "medium" when the field is missing or the value is invalid. |
| `Web.CreateDueDate` | app.py:71 | Null exactly when the field is missing or empty. Otherwise the given value. |
| `Web.List` | app.py:53-59 | Status 200. The listing is in ascending id order, and a task is listed exactly when it is the row its id selects. |
| `Web.Create` | app.py:62-82 | A missing or blank description gives 400 and changes nothing. Otherwise 201 with a new pending row: a fresh id above every present one, the normalised fields, rows kept clean, no other row changed. |
| `Web.Edit` | app.py:85-108 | A missing id gives 404 before any validation. A blank description gives 400. Both change nothing. Otherwise 200: description, priority and due date are replaced, `completed` and the other rows are kept. |
| `Web.Toggle` | app.py:111-126 | A missing id gives 404 and changes nothing. Otherwise 200 with `completed` flipped, and nothing else changes. |
| `Web.Delete` | app.py:129-136 | 404 exactly when no row had the id, otherwise 200 with `{"ok": true}`. Afterwards the id selects nothing and the other rows are unchanged. |
| `Web.ToggleTwice` | app.py:119-120 | Toggling twice restores the table, and the second answer shows the original row. |
| `Web.DeleteTwice` | app.py:132-135 | Deleting the same id a second time answers 404 and changes nothing. |
| `Web.CreateThenList` | app.py:55-57 | A created task is listed last, after every earlier row in order. |
| `Web.DeletedIdNotReused` | app.py:27 | A task created after a delete gets an id above the deleted one. |
| `Store.TaskStore.constructor` | todo.py:6-13 | A new database has an empty, valid, clean table with counter 1. |
| `Store.TaskStore.CliAdd` | todo.py:25-36 | The new fields and outcome are exactly `Cli.Add` of the old table; the invariants are kept. |
| `Store.TaskStore.CliView` | todo.py:42-55 | Returns `Cli.View` of the table: a permutation of the rows, ordered by rank and then id. |
| `Store.TaskStore.CliComplete` | todo.py:58-72 | The new fields and success flag are exactly `Cli.Complete` of the old table. |
| `Store.TaskStore.CliEdit` | todo.py:75-99 | The new fields and outcome are exactly `Cli.Edit` of the old table. |
| `Store.TaskStore.CliDelete` | todo.py:102-114 | The new fields and success flag are exactly `Cli.Delete` of the old table. |
| `Store.TaskStore.ApiList` | app.py:53-59 | Answers `Web.List` of the table. |
| `Store.TaskStore.ApiCreate` | app.py:62-82 | The new fields and response are exactly `Web.Create` of the old table. |
| `Store.TaskStore.ApiEdit` | app.py:85-108 | The new fields and response are exactly `Web.Edit` of the old table. |
| `Store.TaskStore.ApiToggle` | app.py:111-126 | The new fields and response are exactly `Web.Toggle` of the old table. |
| `Store.TaskStore.ApiDelete` | app.py:129-136 | The new fields and response are exactly `Web.Delete` of the old table. |
| `History.Step` | todo.py:131-148 | Any single command of either front end keeps the table valid and clean. The counter moves up by one exactly when the command inserted a row. That row got the old counter as its id: the id selects a row afterwards and selected none before. A command that reports no insert adds no new id: every id that selects a row afterwards selected one before. |
| `History.Run` | todo.py:139-150 | Any sequence of commands keeps the table valid and clean and never lowers the counter. |
| `History.IssuedInRange` | todo.py:8 | Every id a history issues is at least the starting counter and below the final counter. |
| `History.IssuedIncreasing` | app.py:27 | The ids a history issues strictly increase, so no two inserts of one history share an id. |
| `History.IssuedIdsFresh` | todo.py:8 | The ids a history issues strictly increase, and each lies between the starting and the final counter, so no id is ever reused. |
| `History.ReachableTablesClean` | app.py:6 | After any history on a new database, ids are unique, every priority is in `VALID_PRIORITIES`, and every description is non-empty and stripped. |
| `History.EditPolicies` | todo.py:91-93 | For a priority neither front end can use, terminal edit keeps the stored one and web edit stores "medium". |
| `History.CompletePolicies` | todo.py:66 | On a completed task, terminal completion fails and changes nothing, while web toggle makes it pending. |

## Left out

- Console I/O in `todo.py` is not modelled: prompts, printed messages, the menu loop's
  reading and dispatching of choices, and the `KeyboardInterrupt`/`EOFError` exit. Each
  command takes the typed strings as parameters. `History` stands for the sequence of
  commands the menu loop (or the web server) runs, not for the loop's I/O.
- The `int()` parse of a typed id is not modelled. The "Invalid ID." path changes no table,
  and commands take an already parsed id.
- The `view_tasks` display is not modelled: column layout and the "[done]"/"[pending]" text.
  Its SELECT leaves out `due_date`; the model's listing contains whole rows.
- Flask plumbing is not modelled: routing, `jsonify`, `render_template`, and the `g`
  connection cache with its teardown hook.
- `request.get_json()` returning None, and fields holding non-string JSON values, are outside
  the model. Request fields are optional strings. What the handlers do with the other values:
  - Description and priority, in create and edit: a falsy value (0, false, [], {}) reads like
    a missing field, so the description answers 400 and the priority becomes "medium". A
    truthy non-string value crashes the handler only when the handler gets as far as that
    field. Edit answers 404 for a missing id first (app.py:90-91), and both handlers answer
    400 for a blank description before they read the priority (app.py:66-67, 93-94).
  - `due_date` in create: a falsy value is stored as null. A number or `true` is stored. A
    non-empty list or object cannot be bound, and the handler crashes.
  - `due_date` in edit: there is no `or None` (app.py:98), so 0 and false are stored as 0,
    other numbers and `true` are stored, and any list or object, empty or not, cannot be bound
    and crashes the handler.
- Parsing the request body is not modelled: requests are already-parsed `Request` records.
  Both writing handlers call `request.get_json()` first (app.py:64, 87). So a body that is not
  JSON, or is not sent as JSON, gets Flask's own error (400 or 415), even for an edit of a
  missing id.
- SQLite itself is not modelled: connections, commits, and `init_db`'s `CREATE TABLE` and
  `ALTER TABLE ... ADD COLUMN` migrations with their swallowed `OperationalError`.
  `TaskStore`'s constructor is an empty, newly created table.
- Text.Lower: only ASCII A-Z are lower-cased. Python's `str.lower` covers all of Unicode.
  `Text.Strip` does use Python's full whitespace set.
- Ids are unbounded integers. SQLite fails an AUTOINCREMENT insert once the id reaches
  2^63 - 1; that case is not modelled.
- Cli.Complete, Cli.Edit, Cli.Delete, Web.Edit, Web.Toggle, Web.Delete: an id outside the
  signed 64-bit range [-2^63, 2^63 - 1] cannot be bound by `sqlite3`, which raises
  `OverflowError`. In `todo.py` (todo.py:66, 83, 109) nothing catches it and the program
  exits; the model answers not found or `false`. On the web side Flask's `<int:task_id>`
  converter (app.py:85, 111, 129) accepts only unsigned digits. So a negative id never reaches
  a handler, and Flask answers with its own 404 page. The model's JSON 404 for a negative id
  stands in for that router 404. An id of 2^63 or more does reach the handler, which then
  answers 500 (app.py:89, 114, 132). The model treats it as absent and answers 404.
- `completed` is a boolean. Both front ends only ever write 0 or 1, so a database holding
  other values is outside the model.
- Concurrent access by the two programs is modelled only as one sequence of commands
  (`History`): each command and handler is treated as atomic. In the real programs another
  process can act between a handler's statements. For example, a delete between the SELECT
  and the UPDATE of web edit or toggle (app.py:89-107, 114-125) makes `dict(task)` fail on
  None. Such interleavings are not modelled.
- `static/sw.js`, `valentine-app/static/sw.js` and `valentine-app/app.py` are not part of this
  model. They are browser caching and static file serving.
