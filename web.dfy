/** The JSON handlers of the Flask app `app.py`: what each one does to the
    `tasks` table and the status and body it answers with. Routing, JSON
    encoding and the connection handling are not modelled. */
module Web {
  import opened Text
  import opened Tasks

  /** The fields a handler reads from the request body with `data.get`.
      An absent field and a JSON null both read as `None`. */
  datatype Request = Request(
    description: Option<string>,
    priority: Option<string>,
    dueDate: Option<string>)

  /** What `jsonify` is given: one row, a list of rows, `{"error": ...}` or
      `{"ok": true}`. */
  datatype Payload =
    | TaskJson(task: Task)
    | TaskListJson(tasks: seq<Task>)
    | ErrorJson(message: string)
    | OkJson

  datatype Response = Response(status: int, payload: Payload)

  const DescriptionRequired: string := "Description is required"
  const TaskNotFound: string := "Task not found"

  /** `(data.get("description") or "").strip()`: empty exactly when the
      field is missing or blank, and otherwise the stripped value. */
  function RequestDescription(field: Option<string>): (d: string)
    ensures d == [] <==> field.None? || AllSpace(field.value)
    ensures field.Some? ==> d == Strip(field.value)
    ensures IsStripped(d)
  {
    match field
    case None => ""
    case Some(s) => Strip(s)
  }

  /** `(data.get("priority") or "medium").lower()`, then any value outside
      `VALID_PRIORITIES` replaced by "medium". The value is lower-cased but,
      unlike in the terminal program, not stripped. */
  function RequestPriority(field: Option<string>): (p: string)
    ensures IsValidPriority(p)
    ensures field.Some? && IsValidPriority(Lower(field.value)) ==> p == Lower(field.value)
    ensures field.None? || !IsValidPriority(Lower(field.value)) ==> p == Medium
  {
    var given := match field
      case None => Medium
      case Some(s) => if s == [] then Medium else s;
    var p := Lower(given);
    if IsValidPriority(p) then p else Medium
  }

  /** `data.get("due_date") or None`: an empty string is stored as null. */
  function CreateDueDate(field: Option<string>): (d: Option<string>)
    ensures d.Some? <==> field.Some? && field.value != []
    ensures d.Some? ==> d == field
  {
    match field
    case Some(s) => if s == [] then None else field
    case None => None
  }

  /** GET /api/tasks: status 200 and every row, unfiltered, in ascending id
      order. */
  function List(t: Table): (r: Response)
    requires ValidTable(t)
    ensures r.status == 200 && r.payload.TaskListJson?
    ensures IdsAscending(r.payload.tasks)
    ensures forall x :: x in r.payload.tasks <==> Find(t.rows, x.id) == Some(x)
  {
    FindExactlyRows(t.rows);
    Response(200, TaskListJson(t.rows))
  }

  /** POST /api/tasks: a missing or blank description answers 400 and
      writes nothing. Otherwise a pending row is inserted under a fresh id
      with the stripped description, the normalised priority and the due
      date (null when absent or empty), and the answer is 201 with that
      row. */
  function Create(t: Table, req: Request): (res: (Table, Response))
    requires ValidTable(t)
    ensures ValidTable(res.0) && (CleanTable(t) ==> CleanTable(res.0))
    ensures RequestDescription(req.description) == [] ==>
      res == (t, Response(400, ErrorJson(DescriptionRequired)))
    ensures RequestDescription(req.description) != [] ==>
      && res.1.status == 201 && res.1.payload.TaskJson?
      && var x := res.1.payload.task;
      && x.id == t.nextId && res.0.nextId == t.nextId + 1
      && (forall i :: 0 <= i < |t.rows| ==> t.rows[i].id < x.id)
      && x.description == RequestDescription(req.description) && CleanTask(x)
      && !x.completed
      && x.priority == RequestPriority(req.priority)
      && x.dueDate == CreateDueDate(req.dueDate)
      && Find(res.0.rows, x.id) == Some(x)
      && SameElsewhere(res.0.rows, t.rows, x.id)
  {
    var desc := RequestDescription(req.description);
    if desc == [] then (t, Response(400, ErrorJson(DescriptionRequired)))
    else
      var x := Task(t.nextId, desc, false, RequestPriority(req.priority), CreateDueDate(req.dueDate));
      (Insert(t, x), Response(201, TaskJson(x)))
  }

  /** PUT /api/tasks/<id>: a missing id answers 404 before any field of the
      body is validated; a missing or blank description answers 400; both change
      nothing. Otherwise the three editable fields are replaced (a missing
      or invalid priority becomes "medium", not the stored one; the due date
      is taken as given, null when absent), `completed` is kept, and the
      answer is 200 with the updated row. */
  function Edit(t: Table, id: int, req: Request): (res: (Table, Response))
    requires ValidTable(t)
    ensures ValidTable(res.0) && (CleanTable(t) ==> CleanTable(res.0))
    ensures Find(t.rows, id).None? ==> res == (t, Response(404, ErrorJson(TaskNotFound)))
    ensures Find(t.rows, id).Some? && RequestDescription(req.description) == [] ==>
      res == (t, Response(400, ErrorJson(DescriptionRequired)))
    ensures Find(t.rows, id).Some? && RequestDescription(req.description) != [] ==>
      && res.1.status == 200 && res.1.payload.TaskJson?
      && var before, x := Find(t.rows, id).value, res.1.payload.task;
      && x.id == id && x.completed == before.completed
      && x.description == RequestDescription(req.description)
      && x.priority == RequestPriority(req.priority)
      && x.dueDate == req.dueDate
      && Find(res.0.rows, id) == Some(x)
      && SameElsewhere(res.0.rows, t.rows, id)
      && res.0.nextId == t.nextId
  {
    var k := Position(t.rows, id);
    if k == |t.rows| then (t, Response(404, ErrorJson(TaskNotFound)))
    else
      var desc := RequestDescription(req.description);
      if desc == [] then (t, Response(400, ErrorJson(DescriptionRequired)))
      else
        var x := t.rows[k].(description := desc, priority := RequestPriority(req.priority), dueDate := req.dueDate);
        (UpdateAt(t, k, x), Response(200, TaskJson(x)))
  }

  /** PUT /api/tasks/<id>/complete: a missing id answers 404 and changes
      nothing; otherwise `completed` is flipped, nothing else changes, and
      the answer is 200 with the updated row. */
  function Toggle(t: Table, id: int): (res: (Table, Response))
    requires ValidTable(t)
    ensures ValidTable(res.0) && (CleanTable(t) ==> CleanTable(res.0))
    ensures Find(t.rows, id).None? ==> res == (t, Response(404, ErrorJson(TaskNotFound)))
    ensures Find(t.rows, id).Some? ==>
      var before := Find(t.rows, id).value;
      var x := before.(completed := !before.completed);
      && res.1 == Response(200, TaskJson(x))
      && Find(res.0.rows, id) == Some(x)
      && SameElsewhere(res.0.rows, t.rows, id)
      && res.0.nextId == t.nextId
  {
    var k := Position(t.rows, id);
    if k == |t.rows| then (t, Response(404, ErrorJson(TaskNotFound)))
    else
      var x := t.rows[k].(completed := !t.rows[k].completed);
      (UpdateAt(t, k, x), Response(200, TaskJson(x)))
  }

  /** DELETE /api/tasks/<id>: 404 exactly when no row had that id, 200
      with `{"ok": true}` otherwise. Afterwards no row has that id and every
      other row is as it was. */
  function Delete(t: Table, id: int): (res: (Table, Response))
    requires ValidTable(t)
    ensures ValidTable(res.0) && (CleanTable(t) ==> CleanTable(res.0))
    ensures Find(t.rows, id).None? ==> res == (t, Response(404, ErrorJson(TaskNotFound)))
    ensures Find(t.rows, id).Some? ==> res.1 == Response(200, OkJson)
    ensures Find(res.0.rows, id) == None
    ensures SameElsewhere(res.0.rows, t.rows, id)
    ensures res.0.nextId == t.nextId
  {
    var k := Position(t.rows, id);
    if k == |t.rows| then (t, Response(404, ErrorJson(TaskNotFound)))
    else
      (DeleteAt(t, k), Response(200, OkJson))
  }

  // ---------------------------------------------------------------------
  // Properties across handlers

  /** Toggling twice restores the table, and the second answer shows the
      original `completed` value. */
  lemma ToggleTwice(t: Table, id: int)
    requires ValidTable(t)
    ensures Toggle(Toggle(t, id).0, id).0 == t
    ensures Find(t.rows, id).Some? ==>
      Toggle(Toggle(t, id).0, id).1 == Response(200, TaskJson(Find(t.rows, id).value))
  {
    var k := Position(t.rows, id);
    if k < |t.rows| {
      var t1 := Toggle(t, id).0;
      FindAt(t.rows, k);
      FindAt(t1.rows, k);
      assert t1.rows[k := t.rows[k]] == t.rows;
    }
  }

  /** Deleting the same id twice: the second answer is 404. */
  lemma DeleteTwice(t: Table, id: int)
    requires ValidTable(t)
    ensures var t1 := Delete(t, id).0;
      Delete(t1, id) == (t1, Response(404, ErrorJson(TaskNotFound)))
  {
  }

  /** A created task is the last row GET /api/tasks lists, after every row
      that was there before. */
  lemma CreateThenList(t: Table, req: Request)
    requires ValidTable(t)
    requires RequestDescription(req.description) != []
    ensures var (t1, r) := Create(t, req);
      List(t1).payload.tasks == t.rows + [r.payload.task]
  {
  }

  /** An id removed by DELETE is never handed out again: the next
      created task gets a larger one. */
  lemma DeletedIdNotReused(t: Table, id: int, req: Request)
    requires ValidTable(t)
    requires Find(t.rows, id).Some?
    ensures var (t2, r) := Create(Delete(t, id).0, req);
      r.status == 201 ==> r.payload.task.id > id
  {
    var k := Position(t.rows, id);
    assert t.rows[k].id < t.nextId;
  }
}
