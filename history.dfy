/** Histories of the shared `tasks` table: any interleaving of the terminal
    commands and the web handlers, since both programs open the same
    `tasks.db`. Every such history keeps the table's invariants and never
    hands out an id twice. */
module History {
  import opened Text
  import opened Tasks
  import Cli
  import Web

  /** One command of `todo.py` or one request to `app.py` that writes. */
  datatype Command =
    | CliAdd(descInput: string, priorityInput: string)
    | CliComplete(id: int)
    | CliEdit(id: int, descInput: string, priorityInput: string)
    | CliDelete(id: int)
    | ApiCreate(req: Web.Request)
    | ApiEdit(id: int, req: Web.Request)
    | ApiToggle(id: int)
    | ApiDelete(id: int)

  /** The table after one command, and the id it inserted, if any. */
  function Step(t: Table, c: Command): (res: (Table, Option<int>))
    requires ValidTable(t)
    ensures ValidTable(res.0) && (CleanTable(t) ==> CleanTable(res.0))
    ensures res.1.None? ==> res.0.nextId == t.nextId
    ensures res.1.Some? ==> res.1.value == t.nextId && res.0.nextId == t.nextId + 1
    ensures res.1.Some? ==> Find(res.0.rows, res.1.value).Some? && Find(t.rows, res.1.value).None?
    ensures res.1.None? ==> forall j :: Find(res.0.rows, j).Some? ==> Find(t.rows, j).Some?
  {
    match c
    case CliAdd(d, p) =>
      var (t1, out) := Cli.Add(t, d, p);
      (t1, if out.Added? then Some(out.task.id) else None)
    case CliComplete(id) => (Cli.Complete(t, id).0, None)
    case CliEdit(id, d, p) => (Cli.Edit(t, id, d, p).0, None)
    case CliDelete(id) => (Cli.Delete(t, id).0, None)
    case ApiCreate(req) =>
      var (t1, r) := Web.Create(t, req);
      (t1, if r.status == 201 then Some(r.payload.task.id) else None)
    case ApiEdit(id, req) => (Web.Edit(t, id, req).0, None)
    case ApiToggle(id) => (Web.Toggle(t, id).0, None)
    case ApiDelete(id) => (Web.Delete(t, id).0, None)
  }

  /** The table after running `cs` in order from `t`. */
  function Run(t: Table, cs: seq<Command>): (r: Table)
    requires ValidTable(t)
    ensures ValidTable(r) && (CleanTable(t) ==> CleanTable(r))
    ensures r.nextId >= t.nextId
    decreases |cs|
  {
    if cs == [] then t else Run(Step(t, cs[0]).0, cs[1..])
  }

  /** The ids the inserts of `cs` receive, in the order they are issued. */
  function Issued(t: Table, cs: seq<Command>): seq<int>
    requires ValidTable(t)
    decreases |cs|
  {
    if cs == [] then []
    else
      var (t1, id) := Step(t, cs[0]);
      (if id.Some? then [id.value] else []) + Issued(t1, cs[1..])
  }

  /** Ids are never reused: the ids a history issues strictly increase, every
      one lies at or above the counter it started from and below the counter
      it ends with, so none equals an id that existed or was deleted before
      or during the history. */
  lemma IssuedIdsFresh(t: Table, cs: seq<Command>)
    requires ValidTable(t)
    ensures forall i, j :: 0 <= i < j < |Issued(t, cs)| ==> Issued(t, cs)[i] < Issued(t, cs)[j]
    ensures forall i :: 0 <= i < |Issued(t, cs)| ==> t.nextId <= Issued(t, cs)[i] < Run(t, cs).nextId
  {
    IssuedIncreasing(t, cs);
    IssuedInRange(t, cs);
  }

  /** Every id a history issues lies between the counter it starts from and
      the counter it ends with. */
  lemma {:induction false} IssuedInRange(t: Table, cs: seq<Command>)
    requires ValidTable(t)
    ensures forall i :: 0 <= i < |Issued(t, cs)| ==> t.nextId <= Issued(t, cs)[i] < Run(t, cs).nextId
    decreases |cs|
  {
    if cs != [] {
      var (t1, id) := Step(t, cs[0]);
      IssuedInRange(t1, cs[1..]);
      IssuedUnfold(t, cs);
    }
  }

  /** The ids a history issues strictly increase. */
  lemma {:induction false} IssuedIncreasing(t: Table, cs: seq<Command>)
    requires ValidTable(t)
    ensures forall i, j :: 0 <= i < j < |Issued(t, cs)| ==> Issued(t, cs)[i] < Issued(t, cs)[j]
    decreases |cs|
  {
    if cs != [] {
      var (t1, id) := Step(t, cs[0]);
      IssuedIncreasing(t1, cs[1..]);
      IssuedInRange(t1, cs[1..]);
      IssuedUnfold(t, cs);
    }
  }

  /** One step of `Issued` and `Run`: the first command's id, if any, comes
      before the ids of the rest, and the rest runs from the table it left. */
  lemma IssuedUnfold(t: Table, cs: seq<Command>)
    requires ValidTable(t) && cs != []
    ensures var (t1, id) := Step(t, cs[0]);
      && Issued(t, cs) == (if id.Some? then [id.value] else []) + Issued(t1, cs[1..])
      && Run(t, cs) == Run(t1, cs[1..])
  {
  }

  /** Whatever mix of terminal commands and web requests has run on a new
      database, every stored row has a valid priority and a non-empty,
      stripped description, and the ids are unique. */
  lemma ReachableTablesClean(cs: seq<Command>)
    ensures ValidTable(Run(EmptyTable, cs))
    ensures CleanTable(Run(EmptyTable, cs))
  {
  }

  /** The two edit commands treat a priority they cannot use differently:
      the terminal keeps the stored one, the web app stores "medium". */
  lemma EditPolicies(t: Table, id: int, descInput: string, input: string)
    requires ValidTable(t)
    requires Find(t.rows, id).Some?
    requires !IsValidPriority(Lower(input)) && !IsValidPriority(Lower(Strip(input)))
    requires Web.RequestDescription(Some(descInput)) != []
    ensures var stored := Find(t.rows, id).value.priority;
      && Cli.Edit(t, id, descInput, input).1.task.priority == stored
      && Web.Edit(t, id, Web.Request(Some(descInput), Some(input), None)).1.payload.task.priority == Medium
  {
  }

  /** The two completion commands differ on a finished task: the terminal
      refuses and leaves it finished, the web app reopens it. */
  lemma CompletePolicies(t: Table, id: int)
    requires ValidTable(t)
    requires Find(t.rows, id).Some? && Find(t.rows, id).value.completed
    ensures Cli.Complete(t, id) == (t, false)
    ensures !Find(Web.Toggle(t, id).0.rows, id).value.completed
  {
  }
}
