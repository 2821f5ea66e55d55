/** The reset pass the page runs once when it loads: a completed recurring task goes
    back to pending when it was last completed in a strictly earlier period (day,
    Monday-first week or month) than the current instant. */
module Reset {
  import opened Calendar
  import opened Tasks

  /** `needsReset`: the task is completed, has a completion date, and the anchor of that
      date for the task's period is before the anchor of `now`. */
  predicate ShouldReset(t: Task, now: Instant)
    ensures ShouldReset(t, now) ==>
      t.completed && t.lastCompletedDate.Some? && t.recurrence != NoRecurrence
  {
    && t.completed
    && t.lastCompletedDate.Some?
    && match t.recurrence
       case Daily => StartOfDay(t.lastCompletedDate.value) < StartOfDay(now)
       case Weekly => StartOfWeek(t.lastCompletedDate.value) < StartOfWeek(now)
       case Monthly => StartOfMonth(t.lastCompletedDate.value) < StartOfMonth(now)
       case NoRecurrence => false
  }

  /** `needsReset ? { ...task, completed: false } : task` */
  function ResetTask(t: Task, now: Instant): (r: Task)
    ensures r.completed <==> t.completed && !ShouldReset(t, now)
    ensures r.(completed := t.completed) == t
  {
    if ShouldReset(t, now) then t.(completed := false) else t
  }

  /** The `loadedTasks.map(...)` pass: one decision per task, in place. */
  function ResetPass(tasks: seq<Task>, now: Instant): (r: seq<Task>)
    ensures |r| == |tasks|
    ensures forall i :: 0 <= i < |r| ==> r[i] == ResetTask(tasks[i], now)
  {
    seq(|tasks|, i requires 0 <= i < |tasks| => ResetTask(tasks[i], now))
  }

  /** The pass changes only completion flags, turns them only from true to false, and
      leaves non-recurring and pending tasks exactly as they were. */
  lemma ResetPassScope(tasks: seq<Task>, now: Instant)
    ensures forall i :: 0 <= i < |tasks| ==>
      ResetPass(tasks, now)[i].(completed := tasks[i].completed) == tasks[i]
    ensures forall i :: 0 <= i < |tasks| && ResetPass(tasks, now)[i].completed ==> tasks[i].completed
    ensures forall i :: 0 <= i < |tasks| && (tasks[i].recurrence == NoRecurrence || !tasks[i].completed) ==>
      ResetPass(tasks, now)[i] == tasks[i]
  {
  }

  /** After the pass no task is due for a reset any more. */
  lemma ResetPassSettles(tasks: seq<Task>, now: Instant)
    ensures forall t :: t in ResetPass(tasks, now) ==> !ShouldReset(t, now)
  {
  }

  /** Running the pass twice at the same instant is the same as running it once. */
  lemma ResetPassIdempotent(tasks: seq<Task>, now: Instant)
    ensures ResetPass(ResetPass(tasks, now), now) == ResetPass(tasks, now)
  {
  }

  /** A daily task resets exactly when it was completed on an earlier calendar date. */
  lemma DailyResetMeaning(t: Task, now: Instant)
    requires t.recurrence == Daily && t.completed && t.lastCompletedDate.Some?
    requires ValidInstant(t.lastCompletedDate.value) && ValidInstant(now)
    ensures ShouldReset(t, now) <==> DateBefore(t.lastCompletedDate.value, now)
  {
    DayNumberOrder(t.lastCompletedDate.value, now);
  }

  /** A weekly task resets exactly when `now` is on or after the Monday that follows the
      week of its completion. */
  lemma WeeklyResetMeaning(t: Task, now: Instant)
    requires t.recurrence == Weekly && t.completed && t.lastCompletedDate.Some?
    ensures ShouldReset(t, now) <==> DayOf(now) >= WeekStartDay(DayOf(t.lastCompletedDate.value)) + 7
  {
    var a, b := WeekStartDay(DayOf(t.lastCompletedDate.value)), WeekStartDay(DayOf(now));
    assert ShouldReset(t, now) <==> a < b;
    if a < b {
      var qa, qb := (a + 3) / 7, (b + 3) / 7;
      assert a + 3 == 7 * qa && b + 3 == 7 * qb;
      assert qa < qb;
    }
  }

  /** A monthly task resets exactly when it was completed in an earlier calendar month. */
  lemma MonthlyResetMeaning(t: Task, now: Instant)
    requires t.recurrence == Monthly && t.completed && t.lastCompletedDate.Some?
    requires ValidInstant(t.lastCompletedDate.value) && ValidInstant(now)
    ensures ShouldReset(t, now) <==> MonthBefore(t.lastCompletedDate.value, now)
  {
    var c := t.lastCompletedDate.value;
    DayNumberOrder(Instant(c.year, c.month, 1, 0), Instant(now.year, now.month, 1, 0));
  }

  /** A reset only ever follows the completion in time: the pass never reopens a task
      whose completion date is not strictly before `now`. */
  lemma ResetFollowsCompletion(t: Task, now: Instant)
    requires t.lastCompletedDate.Some?
    requires ValidInstant(t.lastCompletedDate.value) && ValidInstant(now)
    ensures ShouldReset(t, now) ==> Time(t.lastCompletedDate.value) < Time(now)
  {
    var c := t.lastCompletedDate.value;
    if ShouldReset(t, now) {
      match t.recurrence {
        case Daily =>
          assert DayOf(c) * MsPerDay < DayOf(now) * MsPerDay;
        case Weekly =>
          WeeklyResetMeaning(t, now);
        case Monthly =>
          MonthlyResetMeaning(t, now);
          DayNumberOrder(c, now);
      }
      assert DayOf(c) < DayOf(now);
      EarlierDayEarlierTime(c, now);
    }
  }

  /** A task completed earlier on the current date is never reset, whatever its period. */
  lemma NoResetOnSameDate(t: Task, now: Instant)
    requires t.lastCompletedDate.Some? && SameDate(t.lastCompletedDate.value, now)
    ensures !ShouldReset(t, now)
  {
  }

  /** Daily: completed yesterday at 23:00 and checked at 00:30 resets; checked the same day
      at 23:30 it does not. */
  lemma DailyExamples(t: Task)
    requires t.recurrence == Daily && t.completed
    requires t.lastCompletedDate == Some(Instant(2024, 3, 9, 23 * 3_600_000))
    ensures ShouldReset(t, Instant(2024, 3, 10, 30 * 60_000))
    ensures !ShouldReset(t, Instant(2024, 3, 9, 23 * 3_600_000 + 30 * 60_000))
  {
  }

  /** Weekly: completed on Tuesday 2024-03-05, checked on Monday 2024-03-11 resets;
      checked on Friday 2024-03-08 of the same week it does not. */
  lemma WeeklyExamples(t: Task)
    requires t.recurrence == Weekly && t.completed
    requires t.lastCompletedDate == Some(Instant(2024, 3, 5, 9 * 3_600_000))
    ensures ShouldReset(t, Instant(2024, 3, 11, 8 * 3_600_000))
    ensures !ShouldReset(t, Instant(2024, 3, 8, 20 * 3_600_000))
  {
    assert DayNumber(2024, 3, 5) == 19787 && Weekday(19787) == 1;
    assert DayNumber(2024, 3, 8) == 19790 && Weekday(19790) == 4;
    assert DayNumber(2024, 3, 11) == 19793 && Weekday(19793) == 0;
  }

  /** Weeks start on Monday, not Sunday: completed on Sunday 2024-03-10 and checked the next
      day, Monday 2024-03-11, resets; checked later that Sunday it does not. */
  lemma WeeklySundayToMonday(t: Task)
    requires t.recurrence == Weekly && t.completed
    requires t.lastCompletedDate == Some(Instant(2024, 3, 10, 10 * 3_600_000))
    ensures ShouldReset(t, Instant(2024, 3, 11, 8 * 3_600_000))
    ensures !ShouldReset(t, Instant(2024, 3, 10, 22 * 3_600_000))
  {
    assert DayNumber(2024, 3, 10) == 19792 && Weekday(19792) == 6;
    assert DayNumber(2024, 3, 11) == 19793 && Weekday(19793) == 0;
  }
}
