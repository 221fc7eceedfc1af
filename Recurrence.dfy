/**
 * The successor of a repeating task: when a task whose repeat setting is
 * not None is created, a copy is projected with a fresh id, status To Do,
 * creation time `now`, and a due date one day, week or month after the
 * original due date (or after `now` when there is none).
 */
module Recurrence {
  import opened Wrappers
  import opened Calendar
  import opened Tasks

  /**
   * The due date advanced by the repeat period: strictly later for every
   * repeating setting, at the same time of day; a task that does not repeat
   * keeps it.
   */
  function AdvanceDue(r: Recurrence, t: Time): (next: Time)
    ensures r == NoRepeat <==> next == t
    ensures r != NoRepeat ==> next > t
    ensures TimeOfDay(next) == TimeOfDay(t)
  {
    match r
    case Daily => AddDays(t, 1)
    case Weekly => AddWeeks(t, 1)
    case Monthly => AddMonthLater(t); AddMonths(t, 1)
    case NoRepeat => t
  }

  /**
   * The successor record: fresh id, To Do, created at `now`, due one period
   * after the original due date or `now`; every other field is the original's.
   */
  function Projected(orig: Task, freshId: string, now: Time): (r: Task)
    ensures r.id == freshId && r.form.status == ToDo && r.createdAt == now
    ensures r.form.dueDate ==
            Some(AdvanceDue(orig.form.recurring, if orig.form.dueDate.Some? then orig.form.dueDate.value else now))
    ensures r.(id := orig.id, createdAt := orig.createdAt,
               form := r.form.(status := orig.form.status, dueDate := orig.form.dueDate)) == orig
  {
    var base := if orig.form.dueDate.Some? then orig.form.dueDate.value else now;
    orig.(id := freshId,
          form := orig.form.(dueDate := Some(AdvanceDue(orig.form.recurring, base)), status := ToDo),
          createdAt := now)
  }

  /**
   * Daily and weekly move the due date by 1 and 7 days at the same time of
   * day; monthly moves it to the same day of the next month, clamped to
   * that month's length, at the same time of day.
   */
  lemma AdvanceDates(r: Recurrence, t: Time)
    ensures r == Daily ==> DayNumber(DateOf(AdvanceDue(r, t))) == DayNumber(DateOf(t)) + 1
    ensures r == Weekly ==> DayNumber(DateOf(AdvanceDue(r, t))) == DayNumber(DateOf(t)) + 7
    ensures r == Monthly ==> DateOf(AdvanceDue(r, t)) == MonthsLater(DateOf(t), 1)
    ensures TimeOfDay(AdvanceDue(r, t)) == TimeOfDay(t)
  {
    var next := AdvanceDue(r, t);
    if r == Daily {
      assert next == AddDays(t, 1);
      AddDaysDate(t, 1);
    } else if r == Weekly {
      assert next == AddDays(t, 7);
      AddDaysDate(t, 7);
    } else if r == Monthly {
      assert next == AddMonths(t, 1);
    }
  }

  /**
   * 2025-01-15 (day 20103 after 1970-01-01) repeats monthly on 2025-02-15
   * (day 20134), at the same time of day.
   */
  lemma MonthlyMidMonth(ms: int)
    requires 0 <= ms < DayMs
    ensures AdvanceDue(Monthly, 20103 * DayMs + ms) == 20134 * DayMs + ms
  {
    var jan15, feb15 := Date(2025, 1, 15), Date(2025, 2, 15);
    assert DayNumber(jan15) == 20103;
    assert DayNumber(feb15) == 20134;
    DateOfDayNumber(jan15);
    assert MonthsLater(jan15, 1) == feb15;
    var t := 20103 * DayMs + ms;
    assert t / DayMs == 20103 && t % DayMs == ms;
    assert DateOf(t) == jan15;
  }

  /**
   * The successor keeps the original's `updatedAt` and takes `now` as its
   * creation time, so it is created no later than it was last updated
   * exactly when `now` is not after the original's `updatedAt`.
   */
  lemma SuccessorTimes(orig: Task, freshId: string, now: Time)
    ensures var s := Projected(orig, freshId, now);
      s.updatedAt == orig.updatedAt && s.createdAt == now &&
      (s.createdAt <= s.updatedAt <==> now <= orig.updatedAt)
  {
  }

  /** A successor projected a millisecond after its original was created was updated before it was created. */
  lemma SuccessorUpdatedBeforeCreated(form: TaskForm, id: string, freshId: string, now: Time)
    ensures var s := Projected(NewTask(form, id, now), freshId, now + 1);
      s.updatedAt < s.createdAt
  {
  }

  /** A month after January 31 is the last day of February, in common and in leap years. */
  lemma MonthEndClamps()
    ensures MonthsLater(Date(2025, 1, 31), 1) == Date(2025, 2, 28)
    ensures MonthsLater(Date(2024, 1, 31), 1) == Date(2024, 2, 29)
    ensures MonthsLater(Date(2024, 12, 31), 1) == Date(2025, 1, 31)
  {
  }
}
