/** The `tasks.db` database as one object that both front ends change in
    place. The `Cli*` methods are the commands of `todo.py`, the `Api*`
    methods the JSON handlers of `app.py`; each is proved to leave the table
    exactly as the matching function of `Cli` or `Web` describes, and to
    keep the table's invariants. */
module Store {
  import opened Text
  import opened Tasks
  import Cli
  import Web

  class TaskStore {
    /** The rows of `tasks`, in id order. */
    var rows: seq<Task>
    /** The AUTOINCREMENT counter: the id the next INSERT receives. */
    var nextId: int

    function Snapshot(): Table
      reads this
    {
      Table(rows, nextId)
    }

    /** Unique positive ids below the counter. */
    ghost predicate Valid()
      reads this
    {
      ValidTable(Snapshot())
    }

    /** Every description non-empty and stripped, every priority valid. */
    ghost predicate Clean()
      reads this
    {
      CleanTable(Snapshot())
    }

    /** A database file with an empty, newly created `tasks` table. */
    constructor ()
      ensures Valid() && Clean()
      ensures Snapshot() == EmptyTable
    {
      rows := [];
      nextId := 1;
    }

    // -------------------------------------------------------------------
    // todo.py

    /** `add_task` */
    method CliAdd(descInput: string, priorityInput: string) returns (outcome: Cli.AddOutcome)
      requires Valid()
      modifies this
      ensures (Snapshot(), outcome) == Cli.Add(old(Snapshot()), descInput, priorityInput)
      ensures Valid() && (old(Clean()) ==> Clean())
    {
      var desc := Strip(descInput);
      if desc == [] {
        outcome := Cli.EmptyDescription;
        return;
      }
      var priority := Cli.AddPriority(priorityInput);
      var task := Task(nextId, desc, false, priority, None);
      ghost var t := Snapshot();
      rows := rows + [task];
      nextId := nextId + 1;
      assert Snapshot() == Insert(t, task);
      outcome := Cli.Added(task);
    }

    /** `view_tasks`: the rows read in id order, then sorted by rank. */
    method CliView() returns (listing: seq<Task>)
      requires Valid()
      ensures listing == Cli.View(Snapshot())
      ensures multiset(listing) == multiset(rows)
      ensures Cli.ViewOrdered(listing)
    {
      var fetched := rows;
      listing := Cli.SortByRank(fetched);
    }

    /** `complete_task` */
    method CliComplete(id: int) returns (updated: bool)
      requires Valid()
      modifies this
      ensures (Snapshot(), updated) == Cli.Complete(old(Snapshot()), id)
      ensures Valid() && (old(Clean()) ==> Clean())
    {
      var k := Position(rows, id);
      updated := k < |rows| && !rows[k].completed;
      if updated {
        ghost var t := Snapshot();
        rows := rows[k := rows[k].(completed := true)];
        assert Snapshot() == UpdateAt(t, k, t.rows[k].(completed := true));
      }
    }

    /** `edit_task` */
    method CliEdit(id: int, descInput: string, priorityInput: string) returns (outcome: Cli.EditOutcome)
      requires Valid()
      modifies this
      ensures (Snapshot(), outcome) == Cli.Edit(old(Snapshot()), id, descInput, priorityInput)
      ensures Valid() && (old(Clean()) ==> Clean())
    {
      var k := Position(rows, id);
      if k == |rows| {
        outcome := Cli.NotFound;
        return;
      }
      var before := rows[k];
      var desc := Strip(descInput);
      if desc == [] {
        desc := before.description;
      }
      var priority := Cli.EditPriority(priorityInput, before.priority);
      var task := before.(description := desc, priority := priority);
      ghost var t := Snapshot();
      rows := rows[k := task];
      assert Snapshot() == UpdateAt(t, k, task);
      outcome := Cli.Updated(task);
    }

    /** `delete_task` */
    method CliDelete(id: int) returns (deleted: bool)
      requires Valid()
      modifies this
      ensures (Snapshot(), deleted) == Cli.Delete(old(Snapshot()), id)
      ensures Valid() && (old(Clean()) ==> Clean())
    {
      var k := Position(rows, id);
      deleted := k < |rows|;
      if deleted {
        ghost var t := Snapshot();
        rows := RemoveAt(rows, k);
        assert Snapshot() == DeleteAt(t, k);
      }
    }

    // -------------------------------------------------------------------
    // app.py

    /** `get_tasks` */
    method ApiList() returns (response: Web.Response)
      requires Valid()
      ensures response == Web.List(Snapshot())
    {
      response := Web.Response(200, Web.TaskListJson(rows));
    }

    /** `add_task` */
    method ApiCreate(req: Web.Request) returns (response: Web.Response)
      requires Valid()
      modifies this
      ensures (Snapshot(), response) == Web.Create(old(Snapshot()), req)
      ensures Valid() && (old(Clean()) ==> Clean())
    {
      var desc := Web.RequestDescription(req.description);
      if desc == [] {
        response := Web.Response(400, Web.ErrorJson(Web.DescriptionRequired));
        return;
      }
      var priority := Web.RequestPriority(req.priority);
      var dueDate := Web.CreateDueDate(req.dueDate);
      var task := Task(nextId, desc, false, priority, dueDate);
      ghost var t := Snapshot();
      rows := rows + [task];
      nextId := nextId + 1;
      assert Snapshot() == Insert(t, task);
      response := Web.Response(201, Web.TaskJson(task));
    }

    /** `edit_task` */
    method ApiEdit(id: int, req: Web.Request) returns (response: Web.Response)
      requires Valid()
      modifies this
      ensures (Snapshot(), response) == Web.Edit(old(Snapshot()), id, req)
      ensures Valid() && (old(Clean()) ==> Clean())
    {
      var k := Position(rows, id);
      if k == |rows| {
        response := Web.Response(404, Web.ErrorJson(Web.TaskNotFound));
        return;
      }
      var desc := Web.RequestDescription(req.description);
      if desc == [] {
        response := Web.Response(400, Web.ErrorJson(Web.DescriptionRequired));
        return;
      }
      var priority := Web.RequestPriority(req.priority);
      var task := rows[k].(description := desc, priority := priority, dueDate := req.dueDate);
      ghost var before := Snapshot();
      rows := rows[k := task];
      assert Snapshot() == UpdateAt(before, k, task);
      response := Web.Response(200, Web.TaskJson(task));
    }

    /** `toggle_complete` */
    method ApiToggle(id: int) returns (response: Web.Response)
      requires Valid()
      modifies this
      ensures (Snapshot(), response) == Web.Toggle(old(Snapshot()), id)
      ensures Valid() && (old(Clean()) ==> Clean())
    {
      var k := Position(rows, id);
      if k == |rows| {
        response := Web.Response(404, Web.ErrorJson(Web.TaskNotFound));
        return;
      }
      var task := rows[k].(completed := !rows[k].completed);
      ghost var t := Snapshot();
      rows := rows[k := task];
      assert Snapshot() == UpdateAt(t, k, task);
      response := Web.Response(200, Web.TaskJson(task));
    }

    /** `delete_task` */
    method ApiDelete(id: int) returns (response: Web.Response)
      requires Valid()
      modifies this
      ensures (Snapshot(), response) == Web.Delete(old(Snapshot()), id)
      ensures Valid() && (old(Clean()) ==> Clean())
    {
      var k := Position(rows, id);
      if k == |rows| {
        response := Web.Response(404, Web.ErrorJson(Web.TaskNotFound));
        return;
      }
      ghost var t := Snapshot();
      rows := RemoveAt(rows, k);
      assert Snapshot() == DeleteAt(t, k);
      response := Web.Response(200, Web.OkJson);
    }
  }
}
