/**
 * The reminder rule of the task manager: after every save, all scheduled
 * reminders are cancelled and one is scheduled, an hour before the due
 * time, for each task that wants one. A reminder is modelled by its intent:
 * the task id and the time it fires.
 */
module Reminders {
  import opened Wrappers
  import opened Tasks
  import opened Calendar

  datatype Intent = Intent(taskId: string, fireAt: Time)

  /**
   * Has a due date, reminders on, not Done, and due strictly after `now`;
   * so its reminder fires less than an hour before `now`, or later.
   */
  predicate WantsReminder(t: Task, now: Time)
    ensures WantsReminder(t, now) ==>
      t.form.dueDate.Some? && t.form.reminders && t.form.status != Done &&
      ReminderFor(t).fireAt > now - HourMs
  {
    t.form.dueDate.Some? && t.form.reminders && t.form.status != Done && t.form.dueDate.value > now
  }

  /** One hour before the due time, whether or not that is already past. */
  function ReminderFor(t: Task): (r: Intent)
    requires t.form.dueDate.Some?
    ensures r.taskId == t.id && r.fireAt + HourMs == t.form.dueDate.value
  {
    Intent(t.id, t.form.dueDate.value - HourMs)
  }

  /** The reminders scheduled for `tasks`, in list order. */
  function ReminderIntents(tasks: seq<Task>, now: Time): (r: seq<Intent>)
    ensures |r| <= |tasks|
  {
    if tasks == [] then []
    else (if WantsReminder(tasks[0], now) then [ReminderFor(tasks[0])] else []) + ReminderIntents(tasks[1..], now)
  }

  /** Scheduling for one more task at the end adds at most its reminder at the end. */
  lemma {:induction false} ReminderIntentsAppend(tasks: seq<Task>, t: Task, now: Time)
    ensures ReminderIntents(tasks + [t], now) ==
            ReminderIntents(tasks, now) + (if WantsReminder(t, now) then [ReminderFor(t)] else [])
  {
    var whole := tasks + [t];
    var tail := if WantsReminder(t, now) then [ReminderFor(t)] else [];
    if tasks == [] {
      assert whole == [t];
    } else {
      var head := if WantsReminder(tasks[0], now) then [ReminderFor(tasks[0])] else [];
      assert whole[0] == tasks[0] && whole[1..] == tasks[1..] + [t];
      ReminderIntentsAppend(tasks[1..], t, now);
      calc {
        ReminderIntents(whole, now);
        head + ReminderIntents(tasks[1..] + [t], now);
        head + (ReminderIntents(tasks[1..], now) + tail);
        (head + ReminderIntents(tasks[1..], now)) + tail;
        ReminderIntents(tasks, now) + tail;
      }
    }
  }

  /** An intent is scheduled exactly when some task wants a reminder and it is that task's reminder. */
  lemma {:induction false} ReminderIntentsIff(tasks: seq<Task>, now: Time, it: Intent)
    ensures it in ReminderIntents(tasks, now) <==>
            exists t :: t in tasks && WantsReminder(t, now) && it == ReminderFor(t)
  {
    if tasks != [] {
      ReminderIntentsIff(tasks[1..], now, it);
      assert forall t :: t in tasks <==> t == tasks[0] || t in tasks[1..];
    }
  }

  /** Every reminder fires exactly an hour before the due time of its task, which is after `now`. */
  lemma ReminderTiming(tasks: seq<Task>, now: Time, it: Intent)
    requires it in ReminderIntents(tasks, now)
    ensures exists t :: t in tasks && t.id == it.taskId && t.form.dueDate == Some(it.fireAt + HourMs)
    ensures it.fireAt > now - HourMs
  {
    ReminderIntentsIff(tasks, now, it);
  }

  /** The fire time is not clamped: a task due in half an hour gets a reminder half an hour ago. */
  lemma ReminderMayBeInThePast(t: Task, now: Time)
    requires t.form.reminders && t.form.status != Done
    requires t.form.dueDate == Some(now + 1_800_000)
    ensures ReminderIntents([t], now) == [Intent(t.id, now - 1_800_000)]
  {
  }
}
