/**
 * The calendar view's day markers: every task with a due date marks the
 * day it is due with its category's colour, and the overdue colour when
 * its stored overdue flag is set. Tasks are visited in list order and each
 * overwrites the marker of its day, so the last task due on a day decides
 * that day's marker.
 */
module CalendarMarks {
  import opened Calendar
  import opened Tasks

  datatype Marker = Marker(marked: bool, dotColor: string, selectedColor: string)

  const OverdueColor: string := "#F44336"

  function CategoryColor(c: Category): string {
    match c
    case Work => "#2196F3"
    case Personal => "#9C27B0"
    case Health => "#4CAF50"
    case Finance => "#FF5722"
    case Education => "#FF9800"
  }

  /**
   * Always marked, with the category's dot colour; the selected colour is
   * the overdue colour exactly when the stored overdue flag is set, and the
   * category's colour otherwise.
   */
  function MarkerFor(t: Task): (r: Marker)
    ensures r.marked && r.dotColor == CategoryColor(t.form.category)
    ensures r.selectedColor == OverdueColor <==> t.isOverdue
    ensures !t.isOverdue ==> r.selectedColor == r.dotColor
  {
    Marker(true, CategoryColor(t.form.category), if t.isOverdue then OverdueColor else CategoryColor(t.form.category))
  }

  predicate DueOn(t: Task, k: Date) {
    t.form.dueDate.Some? && DateOf(t.form.dueDate.value) == k
  }

  /** The markers after visiting `tasks` in order, each due task overwriting the entry of its day. */
  function Marks(tasks: seq<Task>): (r: map<Date, Marker>)
    ensures forall k :: k in r ==> r[k].marked
    decreases |tasks|
  {
    if tasks == [] then map[]
    else
      var m, last := Marks(tasks[..|tasks| - 1]), tasks[|tasks| - 1];
      if last.form.dueDate.Some? then m[DateOf(last.form.dueDate.value) := MarkerFor(last)] else m
  }

  /** A day is marked exactly when some task is due on it. */
  lemma {:induction false} MarksKeys(tasks: seq<Task>, k: Date)
    ensures k in Marks(tasks) <==> exists i :: 0 <= i < |tasks| && DueOn(tasks[i], k)
    decreases |tasks|
  {
    if tasks != [] {
      var init, last := tasks[..|tasks| - 1], tasks[|tasks| - 1];
      MarksKeys(init, k);
      assert forall i :: 0 <= i < |init| ==> init[i] == tasks[i];
      if DueOn(last, k) {
        assert k in Marks(tasks);
      } else {
        assert k in Marks(tasks) <==> k in Marks(init);
      }
    }
  }

  /** The marker of a day is that of the last task due on it. */
  lemma {:induction false} MarksLastWins(tasks: seq<Task>, i: int)
    requires 0 <= i < |tasks| && tasks[i].form.dueDate.Some?
    requires forall j :: i < j < |tasks| ==> !DueOn(tasks[j], DateOf(tasks[i].form.dueDate.value))
    ensures DateOf(tasks[i].form.dueDate.value) in Marks(tasks)
    ensures Marks(tasks)[DateOf(tasks[i].form.dueDate.value)] == MarkerFor(tasks[i])
    decreases |tasks|
  {
    var init, last := tasks[..|tasks| - 1], tasks[|tasks| - 1];
    var k := DateOf(tasks[i].form.dueDate.value);
    if i < |tasks| - 1 {
      assert init[i] == tasks[i];
      forall j | i < j < |init| ensures !DueOn(init[j], k) {
        assert init[j] == tasks[j];
      }
      MarksLastWins(init, i);
      assert !DueOn(last, k);
    }
  }
}
