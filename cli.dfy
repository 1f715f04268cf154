/** The terminal program `todo.py`: the effect of each menu command on the
    `tasks` table and the listing `view_tasks` prints. The prompts, the menu
    loop and the parse of the typed id are not modelled; each command takes
    the already-read strings and id as arguments. */
module Cli {
  import opened Text
  import opened Tasks

  /** `PRIORITY_ORDER` */
  const PriorityOrder: map<string, nat> := map[High := 0, Medium := 1, Low := 2]

  /** `PRIORITY_ORDER.get(p, 1)`: high ranks first and low last; every
      other value, valid or not, ranks with medium. */
  function Rank(p: string): (r: nat)
    ensures r <= 2
    ensures r == 0 <==> p == High
    ensures r == 2 <==> p == Low
  {
    if p in PriorityOrder then PriorityOrder[p] else 1
  }

  /** `add_task`'s priority: `input().strip().lower() or "medium"`, then any
      value outside `VALID_PRIORITIES` replaced by "medium". */
  function AddPriority(input: string): (p: string)
    ensures IsValidPriority(p)
    ensures IsValidPriority(Lower(Strip(input))) ==> p == Lower(Strip(input))
    ensures !IsValidPriority(Lower(Strip(input))) ==> p == Medium
  {
    var entered := Lower(Strip(input));
    var p := if entered == [] then Medium else entered;
    if IsValidPriority(p) then p else Medium
  }

  /** `edit_task`'s priority: `input().strip().lower() or old`, then any
      value outside `VALID_PRIORITIES` replaced by the stored one. Unlike
      `AddPriority`, a blank or invalid answer keeps what was stored. */
  function EditPriority(input: string, stored: string): (p: string)
    ensures IsValidPriority(Lower(Strip(input))) ==> p == Lower(Strip(input))
    ensures !IsValidPriority(Lower(Strip(input))) ==> p == stored
    ensures IsValidPriority(stored) ==> IsValidPriority(p)
  {
    var entered := Lower(Strip(input));
    var p := if entered == [] then stored else entered;
    if IsValidPriority(p) then p else stored
  }

  // ---------------------------------------------------------------------
  // view_tasks: the id-ordered rows, re-sorted stably by rank

  /** No row of a higher rank number comes before one of a lower. */
  predicate RankSorted(s: seq<Task>) {
    forall i, j :: 0 <= i < j < |s| ==> Rank(s[i].priority) <= Rank(s[j].priority)
  }

  /** Ordered by rank, and by ascending id within one rank. */
  predicate ViewOrdered(s: seq<Task>) {
    forall i, j :: 0 <= i < j < |s| ==>
      || Rank(s[i].priority) < Rank(s[j].priority)
      || (Rank(s[i].priority) == Rank(s[j].priority) && s[i].id < s[j].id)
  }

  /** The rows of rank `k`, in the order they appear in `s`. A sort is
      stable exactly when it leaves every `OfRank` as it was. */
  function OfRank(s: seq<Task>, k: nat): seq<Task> {
    if s == [] then []
    else OfRank(s[..|s| - 1], k) + (if Rank(s[|s| - 1].priority) == k then [s[|s| - 1]] else [])
  }

  /** Inserts `x` into `sorted` after every row whose rank is at most its
      own: one step of a stable insertion sort. */
  function InsertByRank(sorted: seq<Task>, x: Task): (r: seq<Task>)
    ensures multiset(r) == multiset(sorted) + multiset{x}
  {
    if sorted == [] then [x]
    else
      var last := sorted[|sorted| - 1];
      var init := sorted[..|sorted| - 1];
      assert sorted == init + [last];
      if Rank(last.priority) <= Rank(x.priority) then sorted + [x]
      else InsertByRank(init, x) + [last]
  }

  /** Every row of `InsertByRank(sorted, x)` is `x` or a row of `sorted`. */
  lemma InsertMembers(sorted: seq<Task>, x: Task, i: int)
    requires 0 <= i < |InsertByRank(sorted, x)|
    ensures var y := InsertByRank(sorted, x)[i];
      y == x || exists j :: 0 <= j < |sorted| && sorted[j] == y
  {
    var y := InsertByRank(sorted, x)[i];
    assert y in multiset(sorted) + multiset{x};
  }

  /** Insertion keeps a rank-sorted sequence rank-sorted. */
  lemma {:induction false} InsertRankSorted(sorted: seq<Task>, x: Task)
    requires RankSorted(sorted)
    ensures RankSorted(InsertByRank(sorted, x))
  {
    if sorted != [] {
      var last := sorted[|sorted| - 1];
      var init := sorted[..|sorted| - 1];
      if Rank(last.priority) > Rank(x.priority) {
        InsertRankSorted(init, x);
        var front := InsertByRank(init, x);
        assert InsertByRank(sorted, x) == front + [last];
        forall i | 0 <= i < |front| ensures Rank(front[i].priority) <= Rank(last.priority) {
          InsertMembers(init, x, i);
        }
      }
    }
  }

  /** Insertion adds `x` at the end of the rows of its own rank and changes
      the rows of no other rank: the step is stable. */
  lemma {:induction false} InsertOfRank(sorted: seq<Task>, x: Task)
    ensures forall k ::
      OfRank(InsertByRank(sorted, x), k) == OfRank(sorted, k) + (if Rank(x.priority) == k then [x] else [])
  {
    if sorted == [] {
      assert [x][..0] == [];
    } else {
      var last := sorted[|sorted| - 1];
      var init := sorted[..|sorted| - 1];
      if Rank(last.priority) <= Rank(x.priority) {
        assert (sorted + [x])[..|sorted|] == sorted;
      } else {
        InsertOfRank(init, x);
        var front := InsertByRank(init, x);
        assert InsertByRank(sorted, x) == front + [last];
        assert (front + [last])[..|front|] == front;
      }
    }
  }

  /** Inserting a row whose id is above every id present keeps a sequence
      ordered by rank and then by id. */
  lemma {:induction false} InsertViewOrdered(sorted: seq<Task>, x: Task)
    requires ViewOrdered(sorted)
    requires forall i :: 0 <= i < |sorted| ==> sorted[i].id < x.id
    ensures ViewOrdered(InsertByRank(sorted, x))
  {
    if sorted != [] {
      var last := sorted[|sorted| - 1];
      var init := sorted[..|sorted| - 1];
      if Rank(last.priority) > Rank(x.priority) {
        InsertViewOrdered(init, x);
        var front := InsertByRank(init, x);
        assert InsertByRank(sorted, x) == front + [last];
        forall i | 0 <= i < |front|
          ensures || Rank(front[i].priority) < Rank(last.priority)
                  || (Rank(front[i].priority) == Rank(last.priority) && front[i].id < last.id)
        {
          InsertMembers(init, x, i);
        }
      }
    }
  }

  /** `rows.sort(key=lambda r: PRIORITY_ORDER.get(r[3], 1))`: Python's
      stable sort, as an insertion sort. Its result is a permutation of its
      input; `SortByRankSorted`, `SortByRankStable` and `SortByRankById`
      state the order. */
  function SortByRank(s: seq<Task>): (r: seq<Task>)
    ensures multiset(r) == multiset(s)
  {
    if s == [] then []
    else
      assert s == s[..|s| - 1] + [s[|s| - 1]];
      InsertByRank(SortByRank(s[..|s| - 1]), s[|s| - 1])
  }

  /** The sorted rows are in rank order: high, then medium and every
      unknown priority, then low. */
  lemma {:induction false} SortByRankSorted(s: seq<Task>)
    ensures RankSorted(SortByRank(s))
  {
    if s != [] {
      SortByRankSorted(s[..|s| - 1]);
      InsertRankSorted(SortByRank(s[..|s| - 1]), s[|s| - 1]);
    }
  }

  /** The sort is stable: the rows of each rank come out in the order they
      went in. */
  lemma {:induction false} SortByRankStable(s: seq<Task>)
    ensures forall k :: OfRank(SortByRank(s), k) == OfRank(s, k)
  {
    if s != [] {
      var init, x := s[..|s| - 1], s[|s| - 1];
      SortByRankStable(init);
      InsertOfRank(SortByRank(init), x);
    }
  }

  /** Sorting rows that are in id order puts the rows of one rank in
      ascending id order. */
  lemma {:induction false} SortByRankById(s: seq<Task>)
    requires IdsAscending(s)
    ensures ViewOrdered(SortByRank(s))
  {
    if s != [] {
      var init, x := s[..|s| - 1], s[|s| - 1];
      var sorted := SortByRank(init);
      SortByRankById(init);
      forall i | 0 <= i < |sorted| ensures sorted[i].id < x.id {
        assert sorted[i] in multiset(init);
      }
      InsertViewOrdered(sorted, x);
    }
  }

  /** `view_tasks`: every row of the table exactly once, high before medium
      before low (any other priority with medium), and within one rank in
      ascending id order. An empty listing is the "No tasks found." case. */
  function View(t: Table): (listing: seq<Task>)
    requires ValidTable(t)
    ensures multiset(listing) == multiset(t.rows)
    ensures ViewOrdered(listing)
    ensures forall k :: OfRank(listing, k) == OfRank(t.rows, k)
  {
    SortByRankById(t.rows);
    SortByRankStable(t.rows);
    SortByRank(t.rows)
  }

  // ---------------------------------------------------------------------
  // The commands that change the table

  datatype AddOutcome = EmptyDescription | Added(task: Task)

  /** `add_task`: a blank description is refused and nothing is written;
      otherwise a pending row with the stripped description and a valid
      priority is inserted under a fresh id, above every id present. */
  function Add(t: Table, descInput: string, priorityInput: string): (res: (Table, AddOutcome))
    requires ValidTable(t)
    ensures ValidTable(res.0) && (CleanTable(t) ==> CleanTable(res.0))
    ensures res.1 == EmptyDescription <==> AllSpace(descInput)
    ensures res.1 == EmptyDescription ==> res.0 == t
    ensures res.1.Added? ==>
      var x := res.1.task;
      && x.id == t.nextId && res.0.nextId == t.nextId + 1
      && (forall i :: 0 <= i < |t.rows| ==> t.rows[i].id < x.id)
      && x.description == Strip(descInput) && CleanTask(x)
      && !x.completed && x.priority == AddPriority(priorityInput) && x.dueDate == None
      && Find(res.0.rows, x.id) == Some(x)
      && SameElsewhere(res.0.rows, t.rows, x.id)
  {
    var desc := Strip(descInput);
    if desc == [] then (t, EmptyDescription)
    else
      var x := Task(t.nextId, desc, false, AddPriority(priorityInput), None);
      (Insert(t, x), Added(x))
  }

  /** `complete_task`: `UPDATE ... SET completed = 1 WHERE id = ? AND
      completed = 0`. The flag is the row count: true exactly when a pending
      row has that id, which is then the only change. */
  function Complete(t: Table, id: int): (res: (Table, bool))
    requires ValidTable(t)
    ensures ValidTable(res.0) && (CleanTable(t) ==> CleanTable(res.0))
    ensures res.1 <==> Find(t.rows, id).Some? && !Find(t.rows, id).value.completed
    ensures !res.1 ==> res.0 == t
    ensures res.1 ==>
      && Find(res.0.rows, id) == Some(Find(t.rows, id).value.(completed := true))
      && SameElsewhere(res.0.rows, t.rows, id)
      && res.0.nextId == t.nextId
  {
    var k := Position(t.rows, id);
    if k < |t.rows| && !t.rows[k].completed then
      var x := t.rows[k].(completed := true);
      (UpdateAt(t, k, x), true)
    else
      (t, false)
  }

  datatype EditOutcome = NotFound | Updated(task: Task)

  /** `edit_task`: a missing id changes nothing. Otherwise the row keeps its
      id, completion and due date; a blank description keeps the old one,
      and a blank or invalid priority keeps the old one. */
  function Edit(t: Table, id: int, descInput: string, priorityInput: string): (res: (Table, EditOutcome))
    requires ValidTable(t)
    ensures ValidTable(res.0) && (CleanTable(t) ==> CleanTable(res.0))
    ensures res.1 == NotFound <==> Find(t.rows, id).None?
    ensures res.1 == NotFound ==> res.0 == t
    ensures res.1.Updated? ==>
      var before, x := Find(t.rows, id).value, res.1.task;
      && x.id == id && x.completed == before.completed && x.dueDate == before.dueDate
      && x.description == (if AllSpace(descInput) then before.description else Strip(descInput))
      && x.priority == EditPriority(priorityInput, before.priority)
      && Find(res.0.rows, id) == Some(x)
      && SameElsewhere(res.0.rows, t.rows, id)
      && res.0.nextId == t.nextId
  {
    var k := Position(t.rows, id);
    if k == |t.rows| then (t, NotFound)
    else
      var before := t.rows[k];
      var entered := Strip(descInput);
      var desc := if entered == [] then before.description else entered;
      var x := before.(description := desc, priority := EditPriority(priorityInput, before.priority));
      (UpdateAt(t, k, x), Updated(x))
  }

  /** `delete_task`: `DELETE ... WHERE id = ?`. The flag is the row count:
      true exactly when a row had that id. Afterwards no row has it and
      every other row is as it was. */
  function Delete(t: Table, id: int): (res: (Table, bool))
    requires ValidTable(t)
    ensures ValidTable(res.0) && (CleanTable(t) ==> CleanTable(res.0))
    ensures res.1 <==> Find(t.rows, id).Some?
    ensures Find(res.0.rows, id) == None
    ensures SameElsewhere(res.0.rows, t.rows, id)
    ensures res.0.nextId == t.nextId
    ensures !res.1 ==> res.0 == t
  {
    var k := Position(t.rows, id);
    if k == |t.rows| then (t, false)
    else
      (DeleteAt(t, k), true)
  }

  // ---------------------------------------------------------------------
  // Properties across commands

  /** Marking a task complete is one-way: a second `complete_task` on the
      same id reports failure and leaves the table alone. */
  lemma CompleteTwice(t: Table, id: int)
    requires ValidTable(t)
    ensures var t1 := Complete(t, id).0; Complete(t1, id) == (t1, false)
  {
    var t1 := Complete(t, id).0;
    if Complete(t, id).1 {
      assert Find(t1.rows, id).value.completed;
    }
  }

  /** A second `delete_task` on the same id reports failure. */
  lemma DeleteTwice(t: Table, id: int)
    requires ValidTable(t)
    ensures var t1 := Delete(t, id).0; Delete(t1, id) == (t1, false)
  {
  }

  /** AUTOINCREMENT never reuses an id: a task added after a row is
      deleted gets an id above the deleted one. */
  lemma DeletedIdNotReused(t: Table, id: int, descInput: string, priorityInput: string)
    requires ValidTable(t)
    requires Find(t.rows, id).Some?
    ensures var t2 := Add(Delete(t, id).0, descInput, priorityInput);
      t2.1.Added? ==> t2.1.task.id > id
  {
    var k := Position(t.rows, id);
    assert t.rows[k].id < t.nextId;
  }

  /** Editing leaves a row's place in the id order, and so in `View`, to
      its rank alone: ids never change, hence the rows of one rank keep
      their relative order. */
  lemma EditKeepsIds(t: Table, id: int, descInput: string, priorityInput: string)
    requires ValidTable(t)
    ensures var t1 := Edit(t, id, descInput, priorityInput).0;
      |t1.rows| == |t.rows| && forall i :: 0 <= i < |t.rows| ==> t1.rows[i].id == t.rows[i].id
  {
  }
}
