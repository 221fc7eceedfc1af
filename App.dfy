/**
 * The task manager's state and commands: the task list, the create/edit
 * form, the task being edited, the list view's query settings and the
 * scheduled reminders. Every command that changes the list saves it, which
 * stores the new list and reschedules all reminders for it.
 */
module App {
  import opened Wrappers
  import opened Text
  import opened Tasks
  import opened Ranking
  import opened TaskQuery
  import opened Reminders
  import opened Recurrence
  import opened CalendarMarks
  import opened Calendar

  class TaskManager {
    var tasks: seq<Task>
    var form: TaskForm
    var editing: Option<Task>
    var modalVisible: bool
    /** The list view's search text, three filters and sort key. */
    var query: QueryParams
    /** The reminders currently scheduled with the notification service. */
    var scheduled: seq<Intent>

    /** Everything but the task list and the scheduled reminders is as in `old`. */
    twostate predicate SameSettings()
      reads this
    {
      form == old(form) && editing == old(editing) && modalVisible == old(modalVisible) &&
      query == old(query)
    }

    /** An empty list, a reset form, no edit in progress, no filters, newest first. */
    constructor()
      ensures tasks == [] && scheduled == [] && form == DefaultForm && editing == None && !modalVisible
      ensures query == QueryParams("", All, All, All, ByCreated)
    {
      tasks := [];
      form := DefaultForm;
      editing := None;
      modalVisible := false;
      query := QueryParams("", All, All, All, ByCreated);
      scheduled := [];
    }

    /** Cancels every scheduled reminder, then schedules one per task that wants one. */
    method ScheduleNotificationsForTasks(list: seq<Task>, now: Time)
      modifies this`scheduled
      ensures scheduled == ReminderIntents(list, now)
    {
      scheduled := [];
      var i := 0;
      while i < |list|
        invariant 0 <= i <= |list|
        invariant scheduled == ReminderIntents(list[..i], now)
      {
        var t := list[i];
        ReminderIntentsAppend(list[..i], t, now);
        assert list[..i + 1] == list[..i] + [t];
        if WantsReminder(t, now) {
          scheduled := scheduled + [ReminderFor(t)];
        }
        i := i + 1;
      }
      assert list[..|list|] == list;
    }

    /** Stores `updated` as the task list and reschedules the reminders for it. */
    method SaveTasks(updated: seq<Task>, now: Time)
      modifies this`tasks, this`scheduled
      ensures tasks == updated && scheduled == ReminderIntents(updated, now)
    {
      tasks := updated;
      ScheduleNotificationsForTasks(updated, now);
    }

    /** Replaces the list with the stored one, if there is one. */
    method LoadTasks(stored: Option<seq<Task>>, now: Time)
      modifies this`tasks, this`scheduled
      ensures stored.Some? ==> tasks == stored.value && scheduled == ReminderIntents(stored.value, now)
      ensures stored.None? ==> tasks == old(tasks) && scheduled == old(scheduled)
    {
      if stored.Some? {
        tasks := stored.value;
        ScheduleNotificationsForTasks(stored.value, now);
      }
    }

    /**
     * Rejects a blank title and changes nothing. Otherwise appends one task
     * built from the form, saves, resets the form and closes the modal;
     * for a repeating task it also returns the projected successor.
     */
    method CreateTask(freshId: string, successorId: string, now: Time) returns (successor: Option<Task>)
      modifies this
      ensures IsBlank(old(form.title)) ==>
        tasks == old(tasks) && scheduled == old(scheduled) && SameSettings() && successor == None
      ensures !IsBlank(old(form.title)) ==>
        tasks == old(tasks) + [NewTask(old(form), freshId, now)] && scheduled == ReminderIntents(tasks, now) &&
        form == DefaultForm && !modalVisible && editing == old(editing) && query == old(query)
      ensures !IsBlank(old(form.title)) && old(form.recurring) != NoRepeat ==>
        successor == Some(Projected(NewTask(old(form), freshId, now), successorId, now))
      ensures old(form.recurring) == NoRepeat ==> successor == None
    {
      if IsBlank(form.title) {
        return None;
      }
      var created := NewTask(form, freshId, now);
      SaveTasks(tasks + [created], now);
      form := DefaultForm;
      modalVisible := false;
      if created.form.recurring != NoRepeat {
        successor := Some(Projected(created, successorId, now));
      } else {
        successor := None;
      }
    }

    /**
     * Rejects a blank title and changes nothing. Otherwise writes the form
     * onto the tasks with the edited task's id, saves, resets the form,
     * ends the edit and closes the modal.
     */
    method UpdateTask(now: Time)
      requires editing.Some?
      modifies this
      ensures IsBlank(old(form.title)) ==> tasks == old(tasks) && scheduled == old(scheduled) && SameSettings()
      ensures !IsBlank(old(form.title)) ==>
        tasks == FormApplied(old(tasks), old(editing).value.id, old(form), now) &&
        scheduled == ReminderIntents(tasks, now) &&
        form == DefaultForm && editing == None && !modalVisible && query == old(query)
    {
      var id, edited := editing.value.id, form;
      if IsBlank(edited.title) {
        return;
      }
      var updated := FormApplied(tasks, id, edited, now);
      SaveTasks(updated, now);
      form := DefaultForm;
      editing := None;
      modalVisible := false;
    }

    /** The confirmed deletion: drops every task with id `id` and saves. */
    method DeleteTask(id: string, now: Time)
      modifies this
      ensures tasks == Removed(old(tasks), id) && scheduled == ReminderIntents(tasks, now) && SameSettings()
    {
      SaveTasks(Removed(tasks, id), now);
    }

    /** Moves the tasks with id `id` one step along the status cycle and saves. */
    method ToggleTaskStatus(id: string, now: Time)
      modifies this
      ensures tasks == StatusToggled(old(tasks), id, now) && scheduled == ReminderIntents(tasks, now) && SameSettings()
      ensures Ids(tasks) == Ids(old(tasks))
    {
      SaveTasks(StatusToggled(tasks, id, now), now);
    }

    /** Starts editing `t`: the form takes its fields and the modal opens. */
    method OpenEditModal(t: Task)
      modifies this
      ensures editing == Some(t) && form == t.form && modalVisible
      ensures tasks == old(tasks) && scheduled == old(scheduled) && query == old(query)
    {
      editing := Some(t);
      form := t.form;
      modalVisible := true;
    }

    /**
     * The tasks the list view shows at `now`: exactly the tasks that pass
     * the query's four tests, each with its overdue flag recomputed, in the
     * order of the query's sort key.
     */
    function GetFilteredAndSortedTasks(now: Time): (r: seq<Task>)
      reads this
      ensures forall x :: x in r <==> exists t :: t in tasks && Matches(t, query) && x == Annotate(t, now)
      ensures Sorted(r, TaskRank(query.sortBy))
    {
      var r := FilteredAndSorted(tasks, query, now);
      forall x ensures x in r <==> exists t :: t in tasks && Matches(t, query) && x == Annotate(t, now) {
        FilteredAndSortedMembers(tasks, query, now, x);
      }
      SortSorted(Annotated(Filtered(tasks, query), now), TaskRank(query.sortBy));
      r
    }

    /** Builds the calendar markers by visiting the tasks in order. */
    method GetCalendarMarkedDates() returns (marked: map<Date, Marker>)
      ensures marked == Marks(tasks)
    {
      marked := map[];
      var i := 0;
      while i < |tasks|
        invariant 0 <= i <= |tasks|
        invariant marked == Marks(tasks[..i])
      {
        var t := tasks[i];
        assert tasks[..i + 1][..i] == tasks[..i];
        if t.form.dueDate.Some? {
          marked := marked[DateOf(t.form.dueDate.value) := MarkerFor(t)];
        }
        i := i + 1;
      }
      assert tasks[..|tasks|] == tasks;
    }
  }
}
