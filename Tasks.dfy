/**
 * The task record of the task manager and the list transforms its commands
 * apply to the task list: advancing a task's status, overwriting a task
 * with the edit form, and deleting by id. Each transform builds a new list,
 * as the `map` and `filter` calls they model do.
 */
module Tasks {
  import opened Wrappers
  import opened Lists
  import opened Calendar

  datatype Status = ToDo | InProgress | Done

  datatype Priority = Low | Medium | High

  datatype Category = Work | Personal | Health | Finance | Education

  datatype Recurrence = NoRepeat | Daily | Weekly | Monthly

  /** The `value` of each priority, used by the priority sort. */
  function Weight(p: Priority): int {
    match p
    case Low => 1
    case Medium => 2
    case High => 3
  }

  /** The fields of the create/edit form, which a task carries verbatim. */
  datatype TaskForm = TaskForm(
    title: string,
    description: string,
    status: Status,
    priority: Priority,
    category: Category,
    dueDate: Option<Time>,
    recurring: Recurrence,
    estimatedTime: string,
    reminders: bool)

  /** The form after a reset: empty texts, To Do, low priority, work, no due date, no repeat, reminders on. */
  const DefaultForm := TaskForm("", "", ToDo, Low, Work, None, NoRepeat, "", true)

  datatype Task = Task(
    id: string,
    form: TaskForm,
    createdAt: Time,
    updatedAt: Time,
    timeSpent: int,
    isOverdue: bool)

  /**
   * A task built from the form by the create command: it carries the form
   * verbatim under the fresh id, was created and last updated at `now`, has
   * no time spent and is not flagged overdue.
   */
  function NewTask(form: TaskForm, id: string, now: Time): (r: Task)
    ensures r.id == id && r.form == form && r.timeSpent == 0 && !r.isOverdue
    ensures r.createdAt == now && r.updatedAt == r.createdAt
  {
    Task(id, form, now, now, 0, false)
  }

  /** No task was last updated before it was created. */
  ghost predicate TimesOrdered(tasks: seq<Task>) {
    forall i :: 0 <= i < |tasks| ==> tasks[i].createdAt <= tasks[i].updatedAt
  }

  /** The status cycle To Do -> In Progress -> Done -> To Do. */
  function NextStatus(s: Status): (r: Status)
    ensures r != s
  {
    match s
    case ToDo => InProgress
    case InProgress => Done
    case Done => ToDo
  }

  /** Three steps of the cycle visit every status and come back. */
  lemma NextStatusCycle(s: Status)
    ensures NextStatus(NextStatus(NextStatus(s))) == s
    ensures {s, NextStatus(s), NextStatus(NextStatus(s))} == {ToDo, InProgress, Done}
  {
  }

  function Advanced(t: Task, now: Time): Task {
    t.(form := t.form.(status := NextStatus(t.form.status)), updatedAt := now)
  }

  /**
   * The list after toggling the status of the tasks with id `id`: those move
   * one step along the cycle and get `updatedAt == now`, and nothing else in
   * the list changes.
   */
  function StatusToggled(tasks: seq<Task>, id: string, now: Time): (r: seq<Task>)
    ensures |r| == |tasks|
    ensures forall i :: 0 <= i < |tasks| && tasks[i].id != id ==> r[i] == tasks[i]
    ensures forall i :: 0 <= i < |tasks| && tasks[i].id == id ==>
      r[i].form.status == NextStatus(tasks[i].form.status) && r[i].updatedAt == now &&
      r[i].(form := r[i].form.(status := tasks[i].form.status), updatedAt := tasks[i].updatedAt) == tasks[i]
  {
    Map(tasks, (t: Task) => if t.id == id then Advanced(t, now) else t)
  }

  /**
   * The list after saving the edit form onto the tasks with id `id`: those
   * take every form field and `updatedAt == now` and keep their id,
   * creation time, time spent and overdue flag; the other tasks are unchanged.
   */
  function FormApplied(tasks: seq<Task>, id: string, form: TaskForm, now: Time): (r: seq<Task>)
    ensures |r| == |tasks|
    ensures forall i :: 0 <= i < |tasks| && tasks[i].id != id ==> r[i] == tasks[i]
    ensures forall i :: 0 <= i < |tasks| && tasks[i].id == id ==>
      r[i] == Task(tasks[i].id, form, tasks[i].createdAt, now, tasks[i].timeSpent, tasks[i].isOverdue)
  {
    Map(tasks, (t: Task) => if t.id == id then t.(form := form, updatedAt := now) else t)
  }

  /** The list without the tasks whose id is `id`. */
  function Removed(tasks: seq<Task>, id: string): (r: seq<Task>)
    ensures |r| <= |tasks|
    ensures forall t :: t in r <==> t in tasks && t.id != id
  {
    var r := Filter(tasks, (t: Task) => t.id != id);
    forall t ensures t in r <==> t in tasks && t.id != id {
      FilterMember(tasks, (u: Task) => u.id != id, t);
    }
    r
  }

  /** Deletion drops every task with the id and keeps each other task as often as it occurred. */
  lemma RemovedCount(tasks: seq<Task>, id: string, t: Task)
    ensures multiset(Removed(tasks, id))[t] == if t.id == id then 0 else multiset(tasks)[t]
  {
    FilterCount(tasks, (u: Task) => u.id != id, t);
  }

  /** Deletion keeps the order of the remaining tasks: it distributes over concatenation. */
  lemma RemovedAppend(a: seq<Task>, b: seq<Task>, id: string)
    ensures Removed(a + b, id) == Removed(a, id) + Removed(b, id)
  {
    FilterAppend(a, b, (u: Task) => u.id != id);
  }

  /** Deleting an id that no task has leaves the list as it is. */
  lemma RemovedAbsent(tasks: seq<Task>, id: string)
    requires forall i :: 0 <= i < |tasks| ==> tasks[i].id != id
    ensures Removed(tasks, id) == tasks
  {
    FilterKeepsAll(tasks, (t: Task) => t.id != id);
  }

  function Ids(tasks: seq<Task>): seq<string> {
    Map(tasks, (t: Task) => t.id)
  }

  ghost predicate UniqueIds(tasks: seq<Task>) {
    forall i, j :: 0 <= i < j < |tasks| ==> tasks[i].id != tasks[j].id
  }

  /** Toggling and editing keep every task's id in its place. */
  lemma TransformsKeepIds(tasks: seq<Task>, id: string, form: TaskForm, now: Time)
    ensures Ids(StatusToggled(tasks, id, now)) == Ids(tasks)
    ensures Ids(FormApplied(tasks, id, form, now)) == Ids(tasks)
  {
    var a, b := StatusToggled(tasks, id, now), FormApplied(tasks, id, form, now);
    assert forall i :: 0 <= i < |tasks| ==> a[i].id == tasks[i].id && b[i].id == tasks[i].id;
  }

  /** Deleting keeps the ids distinct. */
  lemma {:induction false} RemovedKeepsUnique(tasks: seq<Task>, id: string)
    requires UniqueIds(tasks)
    ensures UniqueIds(Removed(tasks, id))
  {
    if tasks != [] {
      var rest := Removed(tasks[1..], id);
      RemovedKeepsUnique(tasks[1..], id);
      assert Removed(tasks, id) == (if tasks[0].id != id then [tasks[0]] else []) + rest;
      forall u | u in rest ensures u.id != tasks[0].id {
        RemovedCount(tasks[1..], id, u);
        assert u in multiset(tasks[1..]);
      }
    }
  }

  /**
   * Toggling, editing and deleting keep every task updated no earlier than
   * it was created, as long as the clock has not gone back before any
   * task's creation.
   */
  lemma TransformsKeepTimesOrdered(tasks: seq<Task>, id: string, form: TaskForm, now: Time)
    requires TimesOrdered(tasks)
    requires forall i :: 0 <= i < |tasks| ==> tasks[i].createdAt <= now
    ensures TimesOrdered(StatusToggled(tasks, id, now))
    ensures TimesOrdered(FormApplied(tasks, id, form, now))
    ensures TimesOrdered(Removed(tasks, id))
  {
    var r := Removed(tasks, id);
    forall i | 0 <= i < |r| ensures r[i].createdAt <= r[i].updatedAt {
      assert r[i] in tasks;
    }
  }

  /** Appending a task created and updated at the same time keeps the times ordered. */
  lemma AppendNewKeepsTimesOrdered(tasks: seq<Task>, form: TaskForm, id: string, now: Time)
    requires TimesOrdered(tasks)
    ensures TimesOrdered(tasks + [NewTask(form, id, now)])
  {
  }

  /** Appending a task whose id is not yet used keeps the ids distinct. */
  lemma AppendKeepsUnique(tasks: seq<Task>, t: Task)
    requires UniqueIds(tasks)
    requires forall i :: 0 <= i < |tasks| ==> tasks[i].id != t.id
    ensures UniqueIds(tasks + [t])
  {
  }
}
