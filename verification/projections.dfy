/** The read-only views the page derives from the task list: the tasks of the date
    selected in the calendar, the three recurring sections and the non-recurring tasks,
    the non-recurring tasks grouped by category, and the due dates the calendar marks. */
module Projections {
  import opened Calendar
  import opened Tasks
  import opened TaskOrder
  import Seqs

  // ---------------------------------------------------------------- selected date

  /** The filter of `tasksForSelectedDate`: a date is selected, the task has a due date,
      and the two agree on year, month and day. */
  function OnDate(selected: Option<Instant>): Task -> bool
  {
    (t: Task) => selected.Some? && t.dueDate.Some? && SameDate(t.dueDate.value, selected.value)
  }

  function TasksForDate(tasks: seq<Task>, selected: Option<Instant>): (r: seq<Task>)
    ensures forall t :: t in r <==>
      t in tasks && selected.Some? && t.dueDate.Some? && SameDate(t.dueDate.value, selected.value)
  {
    Seqs.Filter(tasks, OnDate(selected))
  }

  /** Each task due on the selected date appears as often as in the list, in list order
      (filtering a concatenation filters each part); without a selected date the view is empty. */
  lemma TasksForDateSpec(tasks: seq<Task>, more: seq<Task>, selected: Option<Instant>, t: Task)
    ensures multiset(TasksForDate(tasks, selected))[t] ==
      if OnDate(selected)(t) then multiset(tasks)[t] else 0
    ensures TasksForDate(tasks + more, selected) == TasksForDate(tasks, selected) + TasksForDate(more, selected)
    ensures selected.None? ==> TasksForDate(tasks, selected) == []
  {
    Seqs.FilterCount(tasks, OnDate(selected), t);
    Seqs.FilterConcat(tasks, more, OnDate(selected));
    if selected.None? {
      Seqs.FilterDropsAll(tasks, OnDate(selected));
    }
  }

  /** For well-formed instants, agreeing on year, month and day is lying in the same local day. */
  lemma SameDateIsSameDay(a: Instant, b: Instant)
    requires ValidInstant(a) && ValidInstant(b)
    ensures SameDate(a, b) <==> StartOfDay(a) == StartOfDay(b)
  {
    DayNumberOrder(a, b);
  }

  /** A task due 2024-03-10 23:59 is on 2024-03-10; one due 2024-03-11 00:01 is not. */
  lemma DateFilterExample(t1: Task, t2: Task, selectedTime: int)
    requires t1.dueDate == Some(Instant(2024, 3, 10, 23 * 3_600_000 + 59 * 60_000))
    requires t2.dueDate == Some(Instant(2024, 3, 11, 60_000))
    ensures TasksForDate([t1, t2], Some(Instant(2024, 3, 10, selectedTime))) == [t1]
  {
    var p := OnDate(Some(Instant(2024, 3, 10, selectedTime)));
    assert p(t1) && !p(t2);
    Seqs.FilterSingleton(t1, p);
    Seqs.FilterSingleton(t2, p);
    Seqs.FilterConcat([t1], [t2], p);
    assert [t1] + [t2] == [t1, t2];
  }

  // ---------------------------------------------------------------- recurrence sections

  function WithRecurrence(rec: Recurrence): Task -> bool
  {
    (t: Task) => t.recurrence == rec
  }

  /** `tasks.filter(task => task.recurrence === rec)` */
  function Bucket(tasks: seq<Task>, rec: Recurrence): (r: seq<Task>)
    ensures forall t :: t in r <==> t in tasks && t.recurrence == rec
  {
    Seqs.Filter(tasks, WithRecurrence(rec))
  }

  /** `otherTasks`: the non-recurring tasks, in list order. */
  function OtherTasks(tasks: seq<Task>): (r: seq<Task>)
    ensures forall t :: t in r <==> t in tasks && t.recurrence == NoRecurrence
  {
    Bucket(tasks, NoRecurrence)
  }

  /** Title order: `a.title.localeCompare(b.title) <= 0`, given as a parameter. */
  function ByTitle(titleLe: (string, string) -> bool): (Task, Task) -> bool
  {
    (a: Task, b: Task) => titleLe(a.title, b.title)
  }

  /** `dailyTasks`, `weeklyTasks`, `monthlyTasks`: a recurrence bucket sorted by title. */
  function RecurringSection(tasks: seq<Task>, rec: Recurrence, titleLe: (string, string) -> bool): (r: seq<Task>)
    ensures multiset(r) == multiset(Bucket(tasks, rec))
  {
    Seqs.SortBy(Bucket(tasks, rec), ByTitle(titleLe))
  }

  /** A section holds the tasks of its recurrence, ordered by title when the collation is a
      total preorder. */
  lemma RecurringSectionSpec(tasks: seq<Task>, rec: Recurrence, titleLe: (string, string) -> bool)
    requires Seqs.TotalPreorder(titleLe)
    ensures forall t :: t in RecurringSection(tasks, rec, titleLe) <==> t in tasks && t.recurrence == rec
    ensures forall i, j :: 0 <= i < j < |RecurringSection(tasks, rec, titleLe)| ==>
      titleLe(RecurringSection(tasks, rec, titleLe)[i].title, RecurringSection(tasks, rec, titleLe)[j].title)
  {
    var r := RecurringSection(tasks, rec, titleLe);
    forall t ensures t in r <==> t in Bucket(tasks, rec) {
      assert t in r <==> t in multiset(r);
    }
    assert Seqs.TotalPreorder(ByTitle(titleLe)) by {
      forall a: Task, b: Task ensures ByTitle(titleLe)(a, b) == titleLe(a.title, b.title) { }
    }
    Seqs.SortBySorted(Bucket(tasks, rec), ByTitle(titleLe));
  }

  /** The four recurrence buckets hold every task exactly as often as the list does. */
  lemma BucketsPartition(tasks: seq<Task>)
    ensures multiset(Bucket(tasks, Daily)) + multiset(Bucket(tasks, Weekly))
          + multiset(Bucket(tasks, Monthly)) + multiset(Bucket(tasks, NoRecurrence))
          == multiset(tasks)
  {
    forall t: Task
      ensures multiset(Bucket(tasks, Daily))[t] + multiset(Bucket(tasks, Weekly))[t]
            + multiset(Bucket(tasks, Monthly))[t] + multiset(Bucket(tasks, NoRecurrence))[t]
            == multiset(tasks)[t]
    {
      Seqs.FilterCount(tasks, WithRecurrence(Daily), t);
      Seqs.FilterCount(tasks, WithRecurrence(Weekly), t);
      Seqs.FilterCount(tasks, WithRecurrence(Monthly), t);
      Seqs.FilterCount(tasks, WithRecurrence(NoRecurrence), t);
    }
  }

  /** The daily, weekly and monthly sections and the non-recurring tasks split the list:
      together they hold every task exactly as often as the list does, and each holds only
      tasks of its own recurrence, so no task is in two of them. */
  lemma SectionsPartition(tasks: seq<Task>, titleLe: (string, string) -> bool)
    ensures multiset(RecurringSection(tasks, Daily, titleLe)) + multiset(RecurringSection(tasks, Weekly, titleLe))
          + multiset(RecurringSection(tasks, Monthly, titleLe)) + multiset(OtherTasks(tasks))
          == multiset(tasks)
    ensures forall rec, t :: t in RecurringSection(tasks, rec, titleLe) ==> t.recurrence == rec
  {
    BucketsPartition(tasks);
    forall rec, t | t in RecurringSection(tasks, rec, titleLe) ensures t.recurrence == rec {
      assert t in multiset(Bucket(tasks, rec));
    }
  }

  // ---------------------------------------------------------------- categories

  /** `task.category || 'Other'` */
  function CategoryKey(t: Task): (k: string)
    ensures k != ""
    ensures t.category != "" ==> k == t.category
  {
    if t.category == "" then "Other" else t.category
  }

  function InCategory(key: string): Task -> bool
  {
    (t: Task) => CategoryKey(t) == key
  }

  /** One entry of `categorizedTasks`: a key and the array pushed under it. */
  datatype CategoryGroup = CategoryGroup(category: string, tasks: seq<Task>)

  ghost predicate HasGroup(groups: seq<CategoryGroup>, key: string)
  {
    exists i :: 0 <= i < |groups| && groups[i].category == key
  }

  ghost predicate DistinctKeys(groups: seq<CategoryGroup>)
  {
    forall i, j :: 0 <= i < j < |groups| ==> groups[i].category != groups[j].category
  }

  /** One step of the `reduce`: push the task onto its key's array, creating the array at the
      end of the record when the key is new. */
  function AddToGroups(groups: seq<CategoryGroup>, t: Task): (r: seq<CategoryGroup>)
    ensures |groups| <= |r| && forall i :: 0 <= i < |groups| ==> r[i].category == groups[i].category
    ensures !HasGroup(groups, CategoryKey(t)) ==> r == groups + [CategoryGroup(CategoryKey(t), [t])]
  {
    if groups == [] then [CategoryGroup(CategoryKey(t), [t])]
    else if groups[0].category == CategoryKey(t) then
      [groups[0].(tasks := groups[0].tasks + [t])] + groups[1..]
    else
      GroupsTail(groups, CategoryKey(t));
      [groups[0]] + AddToGroups(groups[1..], t)
  }

  /** When the key already has its group, the step pushes onto that group and leaves every
      other group as it was. */
  lemma {:induction false} AddToExistingKey(groups: seq<CategoryGroup>, t: Task)
    requires DistinctKeys(groups) && HasGroup(groups, CategoryKey(t))
    ensures var r := AddToGroups(groups, t);
      |r| == |groups| && forall i :: 0 <= i < |r| ==>
        r[i] == if groups[i].category == CategoryKey(t) then groups[i].(tasks := groups[i].tasks + [t]) else groups[i]
  {
    var key, r := CategoryKey(t), AddToGroups(groups, t);
    if groups[0].category == key {
      forall i | 0 < i < |groups| ensures groups[i].category != key {
        assert groups[0].category != groups[i].category;
      }
    } else {
      GroupsTail(groups, key);
      AddToExistingKey(groups[1..], t);
      assert r == [groups[0]] + AddToGroups(groups[1..], t);
    }
  }

  /** Past a first group of another key, the key's group is in the rest of the record. */
  lemma GroupsTail(groups: seq<CategoryGroup>, key: string)
    requires groups != [] && groups[0].category != key
    ensures HasGroup(groups, key) <==> HasGroup(groups[1..], key)
    ensures DistinctKeys(groups) ==> DistinctKeys(groups[1..])
  {
    if HasGroup(groups, key) {
      var i :| 0 <= i < |groups| && groups[i].category == key;
      assert groups[1..][i - 1] == groups[i];
    }
  }

  /** The `reduce` over the remaining tasks, from the record built so far: keys already in
      the record keep their place, new keys follow in order of first appearance. */
  function GroupFrom(groups: seq<CategoryGroup>, tasks: seq<Task>): (r: seq<CategoryGroup>)
    ensures |groups| <= |r| && forall i :: 0 <= i < |groups| ==> r[i].category == groups[i].category
    decreases |tasks|
  {
    if tasks == [] then groups else GroupFrom(AddToGroups(groups, tasks[0]), tasks[1..])
  }

  /** `groups` is the record built from `seen`: distinct keys, no empty group, each group
      holding exactly the seen tasks of its key in their order, and a group for every seen task. */
  ghost predicate GroupsOf(groups: seq<CategoryGroup>, seen: seq<Task>)
  {
    && DistinctKeys(groups)
    && (forall i :: 0 <= i < |groups| ==> groups[i].tasks != [])
    && (forall i :: 0 <= i < |groups| ==> groups[i].tasks == Seqs.Filter(seen, InCategory(groups[i].category)))
    && (forall t :: t in seen ==> HasGroup(groups, CategoryKey(t)))
  }

  lemma FilterAppendKey(seen: seq<Task>, t: Task, key: string)
    ensures Seqs.Filter(seen + [t], InCategory(key)) ==
      Seqs.Filter(seen, InCategory(key)) + (if CategoryKey(t) == key then [t] else [])
  {
    Seqs.FilterConcat(seen, [t], InCategory(key));
    Seqs.FilterSingleton(t, InCategory(key));
  }

  /** Pushing onto an existing key. */
  lemma AddToExistingGroup(groups: seq<CategoryGroup>, seen: seq<Task>, t: Task)
    requires GroupsOf(groups, seen) && HasGroup(groups, CategoryKey(t))
    ensures GroupsOf(AddToGroups(groups, t), seen + [t])
  {
    AddToExistingKey(groups, t);
    var r := AddToGroups(groups, t);
    forall i | 0 <= i < |r|
      ensures r[i].category == groups[i].category && r[i].tasks != []
      ensures r[i].tasks == Seqs.Filter(seen + [t], InCategory(r[i].category))
    {
      FilterAppendKey(seen, t, groups[i].category);
    }
    assert DistinctKeys(r);
    forall u | u in seen + [t] ensures HasGroup(r, CategoryKey(u)) {
      var i :| 0 <= i < |groups| && groups[i].category == CategoryKey(u);
      assert r[i].category == CategoryKey(u);
    }
  }

  /** No seen task has a key that has no group yet. */
  lemma NoTaskOfNewKey(groups: seq<CategoryGroup>, seen: seq<Task>, key: string)
    requires forall u :: u in seen ==> HasGroup(groups, CategoryKey(u))
    requires !HasGroup(groups, key)
    ensures Seqs.Filter(seen, InCategory(key)) == []
  {
    forall u | u in seen ensures !InCategory(key)(u) {
      assert HasGroup(groups, CategoryKey(u));
    }
    Seqs.FilterDropsAll(seen, InCategory(key));
  }

  /** After a task of a new key, the existing groups keep their contents and the new group
      holds just that task. */
  lemma NewGroupContents(groups: seq<CategoryGroup>, seen: seq<Task>, t: Task)
    requires forall i :: 0 <= i < |groups| ==> groups[i].tasks == Seqs.Filter(seen, InCategory(groups[i].category))
    requires forall u :: u in seen ==> HasGroup(groups, CategoryKey(u))
    requires !HasGroup(groups, CategoryKey(t))
    ensures var r := groups + [CategoryGroup(CategoryKey(t), [t])];
      forall i :: 0 <= i < |r| ==> r[i].tasks == Seqs.Filter(seen + [t], InCategory(r[i].category))
  {
    var key := CategoryKey(t);
    var r := groups + [CategoryGroup(key, [t])];
    forall i | 0 <= i < |r|
      ensures r[i].tasks == Seqs.Filter(seen + [t], InCategory(r[i].category))
    {
      FilterAppendKey(seen, t, r[i].category);
      if i == |groups| {
        NoTaskOfNewKey(groups, seen, key);
      } else {
        assert r[i] == groups[i];
      }
    }
  }

  /** After a task of a new key, keys stay distinct and every seen task has a group. */
  lemma NewGroupKeys(groups: seq<CategoryGroup>, seen: seq<Task>, t: Task)
    requires DistinctKeys(groups)
    requires forall u :: u in seen ==> HasGroup(groups, CategoryKey(u))
    requires !HasGroup(groups, CategoryKey(t))
    ensures DistinctKeys(groups + [CategoryGroup(CategoryKey(t), [t])])
    ensures forall u :: u in seen + [t] ==> HasGroup(groups + [CategoryGroup(CategoryKey(t), [t])], CategoryKey(u))
  {
    var r := groups + [CategoryGroup(CategoryKey(t), [t])];
    forall u | u in seen + [t] ensures HasGroup(r, CategoryKey(u)) {
      if u in seen {
        var i :| 0 <= i < |groups| && groups[i].category == CategoryKey(u);
        assert r[i].category == CategoryKey(u);
      } else {
        assert r[|groups|].category == CategoryKey(t);
      }
    }
  }

  lemma NewGroupNonEmpty(groups: seq<CategoryGroup>, t: Task)
    requires forall i :: 0 <= i < |groups| ==> groups[i].tasks != []
    ensures var r := groups + [CategoryGroup(CategoryKey(t), [t])];
      forall i :: 0 <= i < |r| ==> r[i].tasks != []
  {
  }

  /** Creating the array of a new key at the end of the record. */
  lemma AddNewGroup(groups: seq<CategoryGroup>, seen: seq<Task>, t: Task)
    requires GroupsOf(groups, seen) && !HasGroup(groups, CategoryKey(t))
    ensures GroupsOf(AddToGroups(groups, t), seen + [t])
  {
    var r := groups + [CategoryGroup(CategoryKey(t), [t])];
    NewGroupContents(groups, seen, t);
    NewGroupKeys(groups, seen, t);
    NewGroupNonEmpty(groups, t);
    assert AddToGroups(groups, t) == r;
  }

  lemma AddToGroupsSpec(groups: seq<CategoryGroup>, seen: seq<Task>, t: Task)
    requires GroupsOf(groups, seen)
    ensures GroupsOf(AddToGroups(groups, t), seen + [t])
  {
    if HasGroup(groups, CategoryKey(t)) {
      AddToExistingGroup(groups, seen, t);
    } else {
      AddNewGroup(groups, seen, t);
    }
  }

  lemma AppendFirst(seen: seq<Task>, rest: seq<Task>)
    requires rest != []
    ensures seen + [rest[0]] + rest[1..] == seen + rest
  {
    assert [rest[0]] + rest[1..] == rest;
  }

  lemma {:induction false} GroupFromSpec(groups: seq<CategoryGroup>, seen: seq<Task>, rest: seq<Task>)
    requires GroupsOf(groups, seen)
    ensures GroupsOf(GroupFrom(groups, rest), seen + rest)
    decreases |rest|
  {
    if rest == [] {
      assert seen + rest == seen;
    } else {
      var seen' := seen + [rest[0]];
      AddToGroupsSpec(groups, seen, rest[0]);
      GroupFromSpec(AddToGroups(groups, rest[0]), seen', rest[1..]);
      AppendFirst(seen, rest);
    }
  }

  /** `categorizedTasks` groups the non-recurring tasks by category (key 'Other' for an empty
      category): keys are distinct, no group is empty, each group lists exactly the
      non-recurring tasks of its key in list order, and every such task has its group. */
  function CategorizedTasks(tasks: seq<Task>): (r: seq<CategoryGroup>)
    ensures GroupsOf(r, OtherTasks(tasks))
  {
    GroupFromSpec([], [], OtherTasks(tasks));
    assert [] + OtherTasks(tasks) == OtherTasks(tasks);
    GroupFrom([], OtherTasks(tasks))
  }

  /** Only non-recurring tasks are grouped. */
  lemma CategorizedTasksSpec(tasks: seq<Task>)
    ensures forall g, t :: g in CategorizedTasks(tasks) && t in g.tasks ==> t.recurrence == NoRecurrence
  {
    var r := CategorizedTasks(tasks);
    forall g, t | g in r && t in g.tasks ensures t.recurrence == NoRecurrence {
      var i :| 0 <= i < |r| && r[i] == g;
      assert t in Seqs.Filter(OtherTasks(tasks), InCategory(g.category));
    }
  }

  // ---------------------------------------------------------------- calendar markers

  /** The filter predicate `task => task.dueDate`. */
  predicate IsDated(t: Task)
  {
    t.dueDate.Some?
  }

  /** `dueDatesForCalendar`: the due date of every dated task, in list order, duplicates kept. */
  function DueDates(tasks: seq<Task>): (r: seq<Instant>)
    ensures |r| == |Seqs.Filter(tasks, IsDated)|
    ensures forall i :: 0 <= i < |r| ==> Seqs.Filter(tasks, IsDated)[i].dueDate == Some(r[i])
  {
    var dated := Seqs.Filter(tasks, IsDated);
    forall i | 0 <= i < |dated| ensures dated[i].dueDate.Some? {
      assert dated[i] in dated;
      assert IsDated(dated[i]);
    }
    seq(|dated|, i requires 0 <= i < |dated| => dated[i].dueDate.value)
  }

  /** An instant is marked exactly when some task is due at it. */
  lemma DueDatesMembership(tasks: seq<Task>, d: Instant)
    ensures d in DueDates(tasks) <==> exists t :: t in tasks && t.dueDate == Some(d)
  {
    var dated := Seqs.Filter(tasks, IsDated);
    var r := DueDates(tasks);
    if t :| t in tasks && t.dueDate == Some(d) {
      assert t in dated;
      var i :| 0 <= i < |dated| && dated[i] == t;
      assert r[i] == d;
    }
    if d in r {
      var i :| 0 <= i < |r| && r[i] == d;
      assert dated[i] in tasks;
    }
  }

  /** Two dated tasks are in non-decreasing due order. */
  predicate DueNotAfter(a: Task, b: Task)
  {
    a.dueDate.Some? && b.dueDate.Some? ==> Time(a.dueDate.value) <= Time(b.dueDate.value)
  }

  /** On a list in due order the markers come in non-decreasing time order. */
  lemma DueDatesOfSortedList(tasks: seq<Task>)
    requires DueSorted(tasks)
    ensures forall i, j :: 0 <= i < j < |DueDates(tasks)| ==> Time(DueDates(tasks)[i]) <= Time(DueDates(tasks)[j])
  {
    Seqs.FilterPairwise(tasks, IsDated, DueNotAfter);
    var dated := Seqs.Filter(tasks, IsDated);
    forall i, j | 0 <= i < j < |DueDates(tasks)|
      ensures Time(DueDates(tasks)[i]) <= Time(DueDates(tasks)[j])
    {
      assert DueNotAfter(dated[i], dated[j]);
    }
  }

  /** The markers are a list, not a set: two tasks due at the same instant give two markers. */
  lemma DueDatesKeepDuplicates(t1: Task, t2: Task, d: Instant)
    requires t1.dueDate == Some(d) && t2.dueDate == Some(d)
    ensures DueDates([t1, t2]) == [d, d]
  {
    assert [t1, t2][1..] == [t2];
    assert [t2][1..] == [];
    assert Seqs.Filter([t1, t2], IsDated) == [t1, t2];
  }
}
