/** The new task lists the page's handlers compute before they replace the `tasks`
    state: the edited list (`tasks.map`), the toggled list (`tasks.map`) and the list
    without a deleted task (`tasks.filter`). */
module TaskLists {
  import opened Calendar
  import opened Tasks
  import opened TaskOrder
  import Seqs

  /** No two tasks share an id. */
  ghost predicate UniqueIds(tasks: seq<Task>)
  {
    forall i, j :: 0 <= i < j < |tasks| ==> tasks[i].id != tasks[j].id
  }

  ghost predicate HasId(tasks: seq<Task>, id: string)
  {
    exists i :: 0 <= i < |tasks| && tasks[i].id == id
  }

  /** The spread `{ ...task, title, description, dueDate, category, recurrence }`. */
  function Edited(t: Task, form: Form): (r: Task)
    ensures r.id == t.id && r.completed == t.completed && r.lastCompletedDate == t.lastCompletedDate
    ensures r.title == form.title && r.description == Some(form.description)
    ensures r.dueDate == form.dueDate && r.category == form.category && r.recurrence == form.recurrence
  {
    t.(title := form.title, description := Some(form.description), dueDate := form.dueDate,
       category := form.category, recurrence := form.recurrence)
  }

  /** Edit branch of `handleFormSubmit`, before its sort: the task with the edited id takes the
      form's title, description, due date, category and recurrence; it keeps its id, its
      completion flag and its completion date; every other task stays as it was. */
  function EditList(tasks: seq<Task>, id: string, form: Form): (r: seq<Task>)
    ensures |r| == |tasks|
    ensures forall i :: 0 <= i < |r| ==>
      && r[i].id == tasks[i].id
      && r[i].completed == tasks[i].completed
      && r[i].lastCompletedDate == tasks[i].lastCompletedDate
    ensures forall i :: 0 <= i < |r| && tasks[i].id == id ==>
      && r[i].title == form.title && r[i].description == Some(form.description)
      && r[i].dueDate == form.dueDate && r[i].category == form.category
      && r[i].recurrence == form.recurrence
    ensures forall i :: 0 <= i < |r| && tasks[i].id != id ==> r[i] == tasks[i]
  {
    seq(|tasks|, i requires 0 <= i < |tasks| => if tasks[i].id == id then Edited(tasks[i], form) else tasks[i])
  }

  /** Editing an id that is not in the list changes nothing. */
  lemma EditAbsentIsNoop(tasks: seq<Task>, id: string, form: Form)
    requires !HasId(tasks, id)
    ensures EditList(tasks, id, form) == tasks
  {
  }

  /** The toggled task: `completed` flips; a recurring task that becomes completed is
      stamped with the current instant. */
  function Toggled(t: Task, now: Instant): (r: Task)
    ensures r.completed == !t.completed
    ensures r.lastCompletedDate ==
      if r.completed && t.recurrence != NoRecurrence then Some(now) else t.lastCompletedDate
    ensures r.(completed := t.completed, lastCompletedDate := t.lastCompletedDate) == t
  {
    var u := t.(completed := !t.completed);
    if u.completed && t.recurrence != NoRecurrence then u.(lastCompletedDate := Some(now)) else u
  }

  /** `toggleTaskCompletion`: every task with the id is toggled, the rest are kept, and
      the list is not re-sorted. */
  function ToggleList(tasks: seq<Task>, id: string, now: Instant): (r: seq<Task>)
    ensures |r| == |tasks|
    ensures forall i :: 0 <= i < |r| ==> r[i] == if tasks[i].id == id then Toggled(tasks[i], now) else tasks[i]
  {
    seq(|tasks|, i requires 0 <= i < |tasks| => if tasks[i].id == id then Toggled(tasks[i], now) else tasks[i])
  }

  /** Toggling an absent id is a no-op. */
  lemma ToggleAbsentIsNoop(tasks: seq<Task>, id: string, now: Instant)
    requires !HasId(tasks, id)
    ensures ToggleList(tasks, id, now) == tasks
  {
  }

  /** Toggling twice restores every completion flag; a non-recurring task comes back
      unchanged, a recurring one keeps the stamp of the toggle that completed it, if any. */
  lemma ToggleTwice(tasks: seq<Task>, id: string, now1: Instant, now2: Instant)
    ensures forall i :: 0 <= i < |tasks| ==>
      ToggleList(ToggleList(tasks, id, now1), id, now2)[i].completed == tasks[i].completed
    ensures forall i :: 0 <= i < |tasks| && tasks[i].recurrence == NoRecurrence ==>
      ToggleList(ToggleList(tasks, id, now1), id, now2)[i] == tasks[i]
  {
  }

  /** A completion date is only ever present on a recurring task. */
  ghost predicate StampsOnlyRecurring(tasks: seq<Task>)
  {
    forall i :: 0 <= i < |tasks| && tasks[i].lastCompletedDate.Some? ==> tasks[i].recurrence != NoRecurrence
  }

  /** Toggling never stamps a non-recurring task. */
  lemma ToggleKeepsStampsOnRecurring(tasks: seq<Task>, id: string, now: Instant)
    requires StampsOnlyRecurring(tasks)
    ensures StampsOnlyRecurring(ToggleList(tasks, id, now))
  {
  }

  /** Editing does not keep that invariant: a stamped weekly task edited to recurrence 'none'
      keeps its completion date. */
  lemma EditCanLeaveStampOnNonRecurring(now: Instant)
    ensures var t := Task("1", "Run", None, None, "Fitness", true, Weekly, Some(now));
            var f := Form("Run", "", None, "Fitness", NoRecurrence);
            StampsOnlyRecurring([t]) && !StampsOnlyRecurring(EditList([t], "1", f))
  {
    var t := Task("1", "Run", None, None, "Fitness", true, Weekly, Some(now));
    var f := Form("Run", "", None, "Fitness", NoRecurrence);
    assert EditList([t], "1", f)[0].lastCompletedDate == Some(now);
  }

  /** The filter predicate `(task) => task.id !== taskId`. */
  function KeepsAllBut(id: string): Task -> bool
  {
    (t: Task) => t.id != id
  }

  /** `tasks.filter((task) => task.id !== taskId)` */
  function DeleteList(tasks: seq<Task>, id: string): (r: seq<Task>)
    ensures forall t :: t in r <==> t in tasks && t.id != id
    ensures forall t: Task :: t.id != id ==> multiset(r)[t] == multiset(tasks)[t]
  {
    var keep := KeepsAllBut(id);
    forall t: Task | t.id != id
      ensures multiset(Seqs.Filter(tasks, keep))[t] == multiset(tasks)[t]
    {
      Seqs.FilterCount(tasks, keep, t);
    }
    Seqs.Filter(tasks, keep)
  }

  /** Deletion keeps the survivors in order: deleting from a concatenation deletes from
      each part. */
  lemma DeleteConcat(a: seq<Task>, b: seq<Task>, id: string)
    ensures DeleteList(a + b, id) == DeleteList(a, id) + DeleteList(b, id)
  {
    Seqs.FilterConcat(a, b, KeepsAllBut(id));
  }

  /** Deleting an absent id is a no-op, and deleting twice is deleting once. */
  lemma DeleteAbsentAndIdempotent(tasks: seq<Task>, id: string)
    ensures !HasId(tasks, id) ==> DeleteList(tasks, id) == tasks
    ensures DeleteList(DeleteList(tasks, id), id) == DeleteList(tasks, id)
  {
    var keep := KeepsAllBut(id);
    if !HasId(tasks, id) {
      Seqs.FilterKeepsAll(tasks, keep);
    }
    Seqs.FilterKeepsAll(DeleteList(tasks, id), keep);
  }

  /** The relation `UniqueIds` asks of every pair. */
  predicate DifferentIds(a: Task, b: Task)
  {
    a.id != b.id
  }

  lemma UniqueIdsPairwise(tasks: seq<Task>)
    ensures UniqueIds(tasks) <==> Seqs.Pairwise(tasks, DifferentIds)
  {
  }

  /** Deleting preserves unique ids. */
  lemma DeleteKeepsUniqueIds(tasks: seq<Task>, id: string)
    requires UniqueIds(tasks)
    ensures UniqueIds(DeleteList(tasks, id))
  {
    UniqueIdsPairwise(tasks);
    Seqs.FilterPairwise(tasks, KeepsAllBut(id), DifferentIds);
    UniqueIdsPairwise(DeleteList(tasks, id));
  }

  /** Sorting by due date keeps the ids unique. */
  lemma SortKeepsUniqueIds(tasks: seq<Task>)
    requires UniqueIds(tasks)
    ensures UniqueIds(SortByDue(tasks))
  {
    UniqueIdsPairwise(tasks);
    Seqs.SortByPairwise(tasks, DueLe, DifferentIds);
    UniqueIdsPairwise(SortByDue(tasks));
  }
}
