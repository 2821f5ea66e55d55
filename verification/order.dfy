/** The canonical order of the task list: the comparator that the page passes to
    `Array.prototype.sort` on load, create and edit, and the stable sort it drives. */
module TaskOrder {
  import opened Calendar
  import opened Tasks
  import Seqs

  /** `a.dueDate && b.dueDate ? a.dueDate.getTime() - b.dueDate.getTime()
       : (a.dueDate ? -1 : (b.dueDate ? 1 : 0))` */
  function CompareDue(a: Task, b: Task): (r: int)
    ensures r == 0 <==> DueKey(a) == DueKey(b)
    ensures a.dueDate.Some? && b.dueDate.None? ==> r < 0
    ensures a.dueDate.None? && b.dueDate.Some? ==> r > 0
    ensures a.dueDate.Some? && b.dueDate.Some? ==> (r < 0 <==> Time(a.dueDate.value) < Time(b.dueDate.value))
  {
    if a.dueDate.Some? && b.dueDate.Some? then Time(a.dueDate.value) - Time(b.dueDate.value)
    else if a.dueDate.Some? then -1
    else if b.dueDate.Some? then 1
    else 0
  }

  /** `a` may stay before `b`: the comparator does not return a positive number. */
  predicate DueLe(a: Task, b: Task)
  {
    CompareDue(a, b) <= 0
  }

  /** What the comparator compares: the due instant, or nothing for an undated task. */
  function DueKey(t: Task): Option<int>
  {
    if t.dueDate.Some? then Some(Time(t.dueDate.value)) else None
  }

  /** The comparator is consistent, as `Array.prototype.sort` needs: swapping the arguments
      negates it, it sees two tasks as equal exactly when their due keys agree, and its
      "not after" relation is a total preorder. */
  lemma CompareDueConsistent()
    ensures forall a, b :: CompareDue(a, b) == -CompareDue(b, a)
    ensures forall a, b :: CompareDue(a, b) == 0 <==> DueKey(a) == DueKey(b)
    ensures Seqs.TotalPreorder(DueLe)
  {
  }

  /** `tasks.sort(compareDue)` on a fresh array (the engine's sort is stable). */
  function SortByDue(tasks: seq<Task>): (r: seq<Task>)
    ensures multiset(r) == multiset(tasks)
  {
    Seqs.SortBy(tasks, DueLe)
  }

  /** Tasks with a due date come first, in non-decreasing order of their due instants;
      undated tasks follow. */
  ghost predicate DueSorted(tasks: seq<Task>)
  {
    && (forall i, j :: 0 <= i < j < |tasks| && tasks[j].dueDate.Some? ==> tasks[i].dueDate.Some?)
    && (forall i, j :: 0 <= i < j < |tasks| && tasks[i].dueDate.Some? && tasks[j].dueDate.Some? ==>
          Time(tasks[i].dueDate.value) <= Time(tasks[j].dueDate.value))
  }

  lemma SortedByDueLe(tasks: seq<Task>)
    ensures Seqs.Pairwise(tasks, DueLe) <==> DueSorted(tasks)
  {
  }

  /** The sort returns a permutation of its input, dated tasks first in due order, and keeps
      tasks with the same due key (the same instant, or both undated) in their input order. */
  lemma SortByDueSpec(tasks: seq<Task>)
    ensures multiset(SortByDue(tasks)) == multiset(tasks)
    ensures DueSorted(SortByDue(tasks))
    ensures forall k :: Seqs.Filter(SortByDue(tasks), Seqs.Equiv(DueLe, k)) ==
                        Seqs.Filter(tasks, Seqs.Equiv(DueLe, k))
  {
    CompareDueConsistent();
    Seqs.SortBySorted(tasks, DueLe);
    SortedByDueLe(SortByDue(tasks));
    forall k {
      Seqs.SortByStable(tasks, DueLe, k);
    }
  }

  /** The tasks the stability clause keeps together are exactly those with the same due key. */
  lemma SameDueKeyClass(k: Task, t: Task)
    ensures Seqs.Equiv(DueLe, k)(t) <==> DueKey(t) == DueKey(k)
  {
    assert Seqs.Equiv(DueLe, k)(t) == (DueLe(k, t) && DueLe(t, k));
  }

  /** A list already in due order is left as it is. */
  lemma SortByDueOfSorted(tasks: seq<Task>)
    requires DueSorted(tasks)
    ensures SortByDue(tasks) == tasks
  {
    SortedByDueLe(tasks);
    Seqs.SortBySortedIsIdentity(tasks, DueLe);
  }
}
