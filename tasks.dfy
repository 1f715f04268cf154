/** The `tasks` table that the terminal program and the web app share:
    rows, the priority vocabulary, the AUTOINCREMENT counter, and the
    invariants every command and handler keeps. */
module Tasks {
  import opened Text

  datatype Option<T> = None | Some(value: T)

  /** One row of `tasks`. `completed` is the 0/1 INTEGER column; `dueDate`
      is the nullable TEXT column the web app's migration adds. */
  datatype Task = Task(
    id: int,
    description: string,
    completed: bool,
    priority: string,
    dueDate: Option<string>)

  const High: string := "high"
  const Medium: string := "medium"
  const Low: string := "low"

  /** `VALID_PRIORITIES`, identical in both front ends. */
  const ValidPriorities: seq<string> := [High, Medium, Low]

  predicate IsValidPriority(p: string) {
    p in ValidPriorities
  }

  /** The table as SQLite keeps a rowid table: rows in ascending id order,
      and the AUTOINCREMENT counter `nextId`, the id the next INSERT gets.
      SQLite never hands out an id at or below one it has issued before, so
      the counter only moves up, whatever is deleted. */
  datatype Table = Table(rows: seq<Task>, nextId: int)

  /** A freshly created `tasks` table: no rows, first id 1. */
  const EmptyTable: Table := Table([], 1)

  predicate IdsAscending(rows: seq<Task>) {
    forall i, j :: 0 <= i < j < |rows| ==> rows[i].id < rows[j].id
  }

  /** The PRIMARY KEY AUTOINCREMENT guarantees: ids are unique (kept in
      ascending order), positive, and all below the counter. */
  predicate ValidTable(t: Table) {
    && IdsAscending(t.rows)
    && 0 < t.nextId
    && forall i :: 0 <= i < |t.rows| ==> 0 < t.rows[i].id < t.nextId
  }

  /** What every insert and update of both front ends guarantees of a row:
      a non-empty, already stripped description and a priority from
      `VALID_PRIORITIES`. */
  predicate CleanTask(x: Task) {
    && x.description != []
    && IsStripped(x.description)
    && IsValidPriority(x.priority)
  }

  predicate CleanTable(t: Table) {
    forall i :: 0 <= i < |t.rows| ==> CleanTask(t.rows[i])
  }

  /** The index of the first row with id `id`, or `|rows|` when there is
      none: what `WHERE id = ?` selects. */
  function Position(rows: seq<Task>, id: int): (k: nat)
    ensures k <= |rows|
    ensures k < |rows| ==> rows[k].id == id
    ensures forall i :: 0 <= i < k ==> rows[i].id != id
  {
    if rows == [] then 0
    else if rows[0].id == id then 0
    else 1 + Position(rows[1..], id)
  }

  /** `SELECT ... WHERE id = ?`: the row with that id, if there is one. */
  function Find(rows: seq<Task>, id: int): (r: Option<Task>)
    ensures r.Some? ==> r.value in rows && r.value.id == id
    ensures r.None? <==> forall i :: 0 <= i < |rows| ==> rows[i].id != id
  {
    var k := Position(rows, id);
    if k < |rows| then Some(rows[k]) else None
  }

  /** Every id other than `id` selects the same row (or none) in both. */
  ghost predicate SameElsewhere(a: seq<Task>, b: seq<Task>, id: int) {
    forall j :: j != id ==> Find(a, j) == Find(b, j)
  }

  /** With unique ids, the row at index `i` is the one its id selects. */
  lemma FindAt(rows: seq<Task>, i: int)
    requires IdsAscending(rows)
    requires 0 <= i < |rows|
    ensures Position(rows, rows[i].id) == i
    ensures Find(rows, rows[i].id) == Some(rows[i])
  {
    var k := Position(rows, rows[i].id);
    assert k <= i;
    assert !(k < i);
  }

  /** With unique ids, a task is in the table exactly when its id selects
      it. */
  lemma FindExactlyRows(rows: seq<Task>)
    requires IdsAscending(rows)
    ensures forall x :: x in rows <==> Find(rows, x.id) == Some(x)
  {
    forall x: Task | x in rows ensures Find(rows, x.id) == Some(x) {
      var i :| 0 <= i < |rows| && rows[i] == x;
      FindAt(rows, i);
    }
  }

  /** INSERT of a row whose id is above every id present: the new row is
      found under its id, and nothing else changes. */
  lemma FindAfterAppend(rows: seq<Task>, x: Task)
    requires IdsAscending(rows)
    requires forall i :: 0 <= i < |rows| ==> rows[i].id < x.id
    ensures IdsAscending(rows + [x])
    ensures Find(rows + [x], x.id) == Some(x)
    ensures SameElsewhere(rows + [x], rows, x.id)
  {
    var rows' := rows + [x];
    FindAt(rows', |rows|);
    forall j | j != x.id ensures Find(rows', j) == Find(rows, j) {
      if Find(rows, j).Some? {
        var i := Position(rows, j);
        FindAt(rows, i);
        FindAt(rows', i);
      }
    }
  }

  /** UPDATE of the row at index `k`, keeping its id: the new row is found
      under that id, and nothing else changes. */
  lemma FindAfterReplace(rows: seq<Task>, k: int, x: Task)
    requires IdsAscending(rows)
    requires 0 <= k < |rows| && x.id == rows[k].id
    ensures IdsAscending(rows[k := x])
    ensures Find(rows[k := x], x.id) == Some(x)
    ensures SameElsewhere(rows[k := x], rows, x.id)
  {
    var rows' := rows[k := x];
    FindAt(rows', k);
    forall j | j != x.id ensures Find(rows', j) == Find(rows, j) {
      if Find(rows, j).Some? {
        var i := Position(rows, j);
        FindAt(rows, i);
        FindAt(rows', i);
      }
    }
  }

  /** The rows without the one at index `k`. */
  function RemoveAt(rows: seq<Task>, k: int): (r: seq<Task>)
    requires 0 <= k < |rows|
    ensures |r| == |rows| - 1
    ensures forall i :: 0 <= i < k ==> r[i] == rows[i]
    ensures forall i :: k <= i < |r| ==> r[i] == rows[i + 1]
  {
    rows[..k] + rows[k + 1..]
  }

  /** DELETE of the row at index `k`: its id then selects nothing, and
      every other id selects what it did before. */
  lemma FindAfterRemove(rows: seq<Task>, k: int)
    requires IdsAscending(rows)
    requires 0 <= k < |rows|
    ensures IdsAscending(RemoveAt(rows, k))
    ensures Find(RemoveAt(rows, k), rows[k].id) == None
    ensures SameElsewhere(RemoveAt(rows, k), rows, rows[k].id)
  {
    forall j | j != rows[k].id ensures Find(RemoveAt(rows, k), j) == Find(rows, j) {
      FindAfterRemoveOther(rows, k, j);
    }
  }

  /** One id other than the deleted one selects the same row before and
      after the DELETE. */
  lemma FindAfterRemoveOther(rows: seq<Task>, k: int, j: int)
    requires IdsAscending(rows)
    requires 0 <= k < |rows| && j != rows[k].id
    ensures Find(RemoveAt(rows, k), j) == Find(rows, j)
  {
    var rows' := RemoveAt(rows, k);
    if Find(rows, j).Some? {
      var i := Position(rows, j);
      FindAt(rows, i);
      var i' := if i < k then i else i - 1;
      assert rows'[i'] == rows[i];
      FindAt(rows', i');
    } else {
      forall i | 0 <= i < |rows'| ensures rows'[i].id != j {
        assert rows'[i] == rows[if i < k then i else i + 1];
      }
    }
  }

  /** `INSERT INTO tasks`: the new row takes the counter as its id, goes
      after every present row, and the counter moves past it. */
  function Insert(t: Table, x: Task): (r: Table)
    requires ValidTable(t) && x.id == t.nextId
    ensures ValidTable(r) && r.nextId == t.nextId + 1
    ensures CleanTable(t) && CleanTask(x) ==> CleanTable(r)
    ensures Find(r.rows, x.id) == Some(x) && SameElsewhere(r.rows, t.rows, x.id)
  {
    FindAfterAppend(t.rows, x);
    var r := Table(t.rows + [x], t.nextId + 1);
    assert forall i :: 0 <= i < |t.rows| ==> r.rows[i] == t.rows[i];
    r
  }

  /** `UPDATE tasks SET ... WHERE id = ?` on the row at index `k`, which keeps
      its id. */
  function UpdateAt(t: Table, k: int, x: Task): (r: Table)
    requires ValidTable(t) && 0 <= k < |t.rows| && x.id == t.rows[k].id
    ensures ValidTable(r) && r.nextId == t.nextId
    ensures CleanTable(t) && CleanTask(x) ==> CleanTable(r)
    ensures Find(r.rows, x.id) == Some(x) && SameElsewhere(r.rows, t.rows, x.id)
    ensures |r.rows| == |t.rows| && forall i :: 0 <= i < |t.rows| ==> r.rows[i].id == t.rows[i].id
  {
    FindAfterReplace(t.rows, k, x);
    t.(rows := t.rows[k := x])
  }

  /** `DELETE FROM tasks WHERE id = ?` of the row at index `k`. The counter
      is not touched, so the id is never handed out again. */
  function DeleteAt(t: Table, k: int): (r: Table)
    requires ValidTable(t) && 0 <= k < |t.rows|
    ensures ValidTable(r) && r.nextId == t.nextId
    ensures CleanTable(t) ==> CleanTable(r)
    ensures Find(r.rows, t.rows[k].id) == None && SameElsewhere(r.rows, t.rows, t.rows[k].id)
  {
    FindAfterRemove(t.rows, k);
    t.(rows := RemoveAt(t.rows, k))
  }

  /** A table in id order is determined by what each id selects: two tables
      that agree on every `Find` hold the same rows in the same order. This
      is why the contracts below, which speak of `Find`, say everything
      about the rows. */
  lemma {:induction false} FindDeterminesRows(a: seq<Task>, b: seq<Task>)
    requires IdsAscending(a) && IdsAscending(b)
    requires forall j :: Find(a, j) == Find(b, j)
    ensures a == b
    decreases |a| + |b|
  {
    if a == [] || b == [] {
      assert a != [] ==> Find(b, a[0].id).Some?;
      assert b != [] ==> Find(a, b[0].id).Some?;
    } else {
      FindAt(a, 0);
      FindAt(b, 0);
      var i := Position(b, a[0].id);
      var i' := Position(a, b[0].id);
      FindAt(b, i);
      FindAt(a, i');
      assert a[0] == b[0];
      forall j ensures Find(a[1..], j) == Find(b[1..], j) {
        FindTail(a, j);
        FindTail(b, j);
      }
      FindDeterminesRows(a[1..], b[1..]);
    }
  }

  /** Dropping the first row of a table in id order loses exactly that
      row's id. */
  lemma FindTail(rows: seq<Task>, j: int)
    requires IdsAscending(rows) && rows != []
    ensures Find(rows[1..], j) == if j == rows[0].id then None else Find(rows, j)
  {
    if j != rows[0].id && Find(rows, j).Some? {
      var i := Position(rows, j);
      FindAt(rows, i);
      FindAt(rows[1..], i - 1);
    }
  }
}
