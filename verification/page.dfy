/** The task state of the `Home` page: the load effect that builds the list from storage,
    and the handlers that replace it after each user action (`handleFormSubmit`,
    `toggleTaskCompletion`, `deleteTask`). */
module Page {
  import opened Calendar
  import opened Tasks
  import opened Reset
  import opened TaskOrder
  import opened TaskLists
  import Seqs

  /** The records read from storage after the field defaults: `None` stands for nothing
      stored or a value `JSON.parse` rejects, both of which give an empty list. */
  function LoadedTasks(stored: Option<seq<StoredRecord>>): (r: seq<Task>)
    ensures stored.None? ==> r == []
    ensures stored.Some? ==> |r| == |stored.value|
    ensures stored.Some? ==> forall i :: 0 <= i < |r| ==> r[i] == Normalize(stored.value[i])
  {
    if stored.None? then []
    else seq(|stored.value|, i requires 0 <= i < |stored.value| => Normalize(stored.value[i]))
  }

  /** The list the load effect puts in state: defaults, then the reset pass, then the sort. */
  function LoadList(stored: Option<seq<StoredRecord>>, now: Instant): (r: seq<Task>)
    ensures multiset(r) == multiset(ResetPass(LoadedTasks(stored), now))
    ensures DueSorted(r)
    ensures forall t :: t in r ==> !ShouldReset(t, now) && t.category != ""
  {
    var loaded := LoadedTasks(stored);
    var processed := ResetPass(loaded, now);
    SortByDueSpec(processed);
    ResetPassSettles(loaded, now);
    forall t | t in SortByDue(processed) ensures !ShouldReset(t, now) && t.category != "" {
      assert t in multiset(processed);
      var i :| 0 <= i < |processed| && processed[i] == t;
      assert loaded[i].category != "";
    }
    SortByDue(processed)
  }

  /** What the save effect writes after every change of the list: one record per task, in
      order, each loading back as its task when the category is not empty. */
  function Saved(tasks: seq<Task>): (r: seq<StoredRecord>)
    ensures |r| == |tasks|
    ensures forall i :: 0 <= i < |r| ==> r[i] == ToStored(tasks[i])
    ensures forall i :: 0 <= i < |r| && tasks[i].category != "" ==> Normalize(r[i]) == tasks[i]
  {
    seq(|tasks|, i requires 0 <= i < |tasks| => ToStored(tasks[i]))
  }

  /** Saving a sorted list and loading it back at an instant where nothing is due for a reset
      gives the same list, provided no category is empty. */
  lemma ReloadRoundTrip(tasks: seq<Task>, now: Instant)
    requires DueSorted(tasks)
    requires forall t :: t in tasks ==> t.category != "" && !ShouldReset(t, now)
    ensures LoadList(Some(Saved(tasks)), now) == tasks
  {
    var loaded := LoadedTasks(Some(Saved(tasks)));
    forall i | 0 <= i < |tasks| ensures loaded[i] == tasks[i] {
      StoredRoundTrip(tasks[i]);
    }
    assert loaded == tasks;
    assert ResetPass(tasks, now) == tasks;
    SortByDueOfSorted(tasks);
  }

  class TaskStore {
    /** The `tasks` state. */
    var tasks: seq<Task>

    /** The list is in due order, as every mutation leaves it. */
    ghost predicate Valid()
      reads this
    {
      DueSorted(tasks)
    }

    /** `useState<Task[]>([])` */
    constructor ()
      ensures tasks == [] && Valid()
    {
      tasks := [];
    }

    /** The load effect: read, apply defaults, reset what a new period reopens, sort. */
    method Load(stored: Option<seq<StoredRecord>>, now: Instant)
      modifies this
      ensures tasks == LoadList(stored, now)
      ensures Valid()
      ensures multiset(tasks) == multiset(ResetPass(LoadedTasks(stored), now))
      ensures forall t :: t in tasks ==> !ShouldReset(t, now) && t.category != ""
    {
      tasks := LoadList(stored, now);
    }

    /** `handleFormSubmit`: a blank title is refused and nothing changes; otherwise the task
        being edited is updated, or a new task with the given fresh id is appended, and the
        list is re-sorted. */
    method Submit(form: Form, editing: Option<string>, freshId: string) returns (accepted: bool)
      modifies this
      ensures accepted <==> exists i :: 0 <= i < |form.title| && !IsWhitespace(form.title[i])
      ensures !accepted ==> tasks == old(tasks)
      ensures accepted && editing.Some? ==> tasks == SortByDue(EditList(old(tasks), editing.value, form))
      ensures accepted && editing.None? ==> tasks == SortByDue(old(tasks) + [NewTask(form, freshId)])
      ensures accepted && editing.Some? ==> multiset(tasks) == multiset(EditList(old(tasks), editing.value, form))
      ensures accepted && editing.None? ==> multiset(tasks) == multiset(old(tasks)) + multiset{NewTask(form, freshId)}
      ensures accepted ==> Valid()
      ensures old(Valid()) ==> Valid()
      ensures UniqueIds(old(tasks)) && (editing.None? ==> !HasId(old(tasks), freshId)) ==> UniqueIds(tasks)
    {
      if IsBlank(form.title) {
        accepted := false;
        return;
      }
      accepted := true;
      var next;
      if editing.Some? {
        next := EditList(tasks, editing.value, form);
        assert UniqueIds(tasks) ==> UniqueIds(next);
      } else {
        next := tasks + [NewTask(form, freshId)];
        if UniqueIds(tasks) && !HasId(tasks, freshId) {
          assert UniqueIds(next) by {
            forall i, j | 0 <= i < j < |next| ensures next[i].id != next[j].id {
              assert next[i] == tasks[i];
            }
          }
        }
      }
      SortByDueSpec(next);
      if UniqueIds(next) {
        SortKeepsUniqueIds(next);
      }
      tasks := SortByDue(next);
    }

    /** `toggleTaskCompletion`: flips the tasks with the id, stamps a recurring task that
        becomes completed with `now`, and keeps the order. */
    method ToggleCompletion(id: string, now: Instant)
      modifies this
      ensures tasks == ToggleList(old(tasks), id, now)
      ensures old(Valid()) ==> Valid()
      ensures UniqueIds(old(tasks)) ==> UniqueIds(tasks)
      ensures StampsOnlyRecurring(old(tasks)) ==> StampsOnlyRecurring(tasks)
    {
      if StampsOnlyRecurring(tasks) {
        ToggleKeepsStampsOnRecurring(tasks, id, now);
      }
      tasks := ToggleList(tasks, id, now);
    }

    /** `deleteTask`: removes every task with the id, keeping the others in order. */
    method DeleteTask(id: string)
      modifies this
      ensures tasks == DeleteList(old(tasks), id)
      ensures forall t :: t in tasks <==> t in old(tasks) && t.id != id
      ensures old(Valid()) ==> Valid()
      ensures UniqueIds(old(tasks)) ==> UniqueIds(tasks)
    {
      if Valid() {
        SortedByDueLe(tasks);
        Seqs.FilterPairwise(tasks, KeepsAllBut(id), DueLe);
        SortedByDueLe(DeleteList(tasks, id));
      }
      if UniqueIds(tasks) {
        DeleteKeepsUniqueIds(tasks, id);
      }
      tasks := DeleteList(tasks, id);
    }
  }
}
