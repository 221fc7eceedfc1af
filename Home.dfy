/**
 * The simple task screen: a list of tasks with a completed flag, the text
 * being typed, the due date picked for the next task, and a history log
 * that records a snapshot of a task each time it is completed, undone or
 * deleted. The log only ever grows at its end.
 */
module Home {
  import opened Wrappers
  import opened Text
  import opened Lists
  import opened Calendar

  datatype Item = Item(id: string, text: string, completed: bool, createdAt: Time, dueDate: Option<Time>)

  datatype Action = Completed | Undone | Deleted

  /** A copy of a task's fields as they were, with what happened to it and when. */
  datatype HistoryEntry = HistoryEntry(item: Item, action: Action, actionAt: Time)

  function Flipped(t: Item): Item {
    t.(completed := !t.completed)
  }

  /** The log entry of a toggle: the task before the flip, and whether the flip completed it. */
  function ToggleEntry(t: Item, now: Time): HistoryEntry {
    HistoryEntry(t, if Flipped(t).completed then Completed else Undone, now)
  }

  /** The entries a toggle of `id` logs: one per task with that id, in list order. */
  function ToggleLog(tasks: seq<Item>, id: string, now: Time): (r: seq<HistoryEntry>)
    ensures |r| <= |tasks|
  {
    if tasks == [] then []
    else (if tasks[0].id == id then [ToggleEntry(tasks[0], now)] else []) + ToggleLog(tasks[1..], id, now)
  }

  function ToggledItems(tasks: seq<Item>, id: string): (r: seq<Item>)
    ensures |r| == |tasks|
    ensures forall i :: 0 <= i < |tasks| ==>
      r[i] == if tasks[i].id == id then tasks[i].(completed := !tasks[i].completed) else tasks[i]
  {
    Map(tasks, (t: Item) => if t.id == id then Flipped(t) else t)
  }

  /** The list without the tasks whose id is `id`: exactly the other tasks remain. */
  function WithoutId(tasks: seq<Item>, id: string): (r: seq<Item>)
    ensures |r| <= |tasks|
    ensures forall t :: t in r <==> t in tasks && t.id != id
  {
    var r := Filter(tasks, (t: Item) => t.id != id);
    forall t ensures t in r <==> t in tasks && t.id != id {
      FilterMember(tasks, (u: Item) => u.id != id, t);
    }
    r
  }

  ghost predicate UniqueIds(tasks: seq<Item>) {
    forall i, j :: 0 <= i < j < |tasks| ==> tasks[i].id != tasks[j].id
  }

  lemma {:induction false} ToggleLogAppend(tasks: seq<Item>, t: Item, id: string, now: Time)
    ensures ToggleLog(tasks + [t], id, now) ==
            ToggleLog(tasks, id, now) + (if t.id == id then [ToggleEntry(t, now)] else [])
  {
    var whole := tasks + [t];
    var tail := if t.id == id then [ToggleEntry(t, now)] else [];
    if tasks == [] {
      assert whole == [t];
    } else {
      var head := if tasks[0].id == id then [ToggleEntry(tasks[0], now)] else [];
      assert whole[0] == tasks[0] && whole[1..] == tasks[1..] + [t];
      ToggleLogAppend(tasks[1..], t, id, now);
      calc {
        ToggleLog(whole, id, now);
        head + ToggleLog(tasks[1..] + [t], id, now);
        head + (ToggleLog(tasks[1..], id, now) + tail);
        (head + ToggleLog(tasks[1..], id, now)) + tail;
        ToggleLog(tasks, id, now) + tail;
      }
    }
  }

  /** A toggle of an id no task has logs nothing. */
  lemma {:induction false} ToggleLogAbsent(tasks: seq<Item>, id: string, now: Time)
    requires forall i :: 0 <= i < |tasks| ==> tasks[i].id != id
    ensures ToggleLog(tasks, id, now) == []
  {
    if tasks != [] {
      ToggleLogAbsent(tasks[1..], id, now);
    }
  }

  /**
   * With distinct ids, a toggle of a present id logs exactly one entry: the
   * task as it was before the flip, marked Completed exactly when the flip
   * completed it.
   */
  lemma {:induction false} ToggleLogPresent(tasks: seq<Item>, id: string, now: Time, i: int)
    requires UniqueIds(tasks) && 0 <= i < |tasks| && tasks[i].id == id
    ensures ToggleLog(tasks, id, now) == [HistoryEntry(tasks[i], if ToggledItems(tasks, id)[i].completed then Completed else Undone, now)]
  {
    if i == 0 {
      ToggleLogAbsent(tasks[1..], id, now);
    } else {
      ToggleLogPresent(tasks[1..], id, now, i - 1);
    }
  }

  /** Deleting a present id logs a snapshot of the first task with that id. */
  lemma DeletePresent(tasks: seq<Item>, id: string, i: int)
    requires 0 <= i < |tasks| && tasks[i].id == id
    requires forall j :: 0 <= j < i ==> tasks[j].id != id
    ensures Find(tasks, (t: Item) => t.id == id) == Some(tasks[i])
  {
    FindFirst(tasks, (t: Item) => t.id == id, i);
  }

  class HomeScreen {
    /** The text being typed for the next task. */
    var input: string
    var tasks: seq<Item>
    var history: seq<HistoryEntry>
    /** The due date picked for the next task. */
    var dueDate: Option<Time>

    constructor()
      ensures input == "" && tasks == [] && history == [] && dueDate == None
    {
      input := "";
      tasks := [];
      history := [];
      dueDate := None;
    }

    /**
     * A blank or whitespace-only input changes nothing. Otherwise appends
     * one uncompleted task with the input text and the picked due date, and
     * clears both.
     */
    method HandleAddTask(freshId: string, now: Time)
      modifies this
      ensures IsBlank(old(input)) ==>
        input == old(input) && tasks == old(tasks) && history == old(history) && dueDate == old(dueDate)
      ensures !IsBlank(old(input)) ==>
        tasks == old(tasks) + [Item(freshId, old(input), false, now, old(dueDate))] &&
        input == "" && dueDate == None && history == old(history)
    {
      if IsBlank(input) {
        return;
      }
      tasks := tasks + [Item(freshId, input, false, now, dueDate)];
      input := "";
      dueDate := None;
    }

    /**
     * Flips `completed` on every task with id `id`, logging each one's
     * snapshot before the flip; the rest of the list is unchanged.
     */
    method ToggleTaskComplete(id: string, now: Time)
      modifies this
      ensures tasks == ToggledItems(old(tasks), id)
      ensures history == old(history) + ToggleLog(old(tasks), id, now)
      ensures input == old(input) && dueDate == old(dueDate)
    {
      var ts, updated: seq<Item> := tasks, [];
      var i := 0;
      while i < |ts|
        invariant 0 <= i <= |ts|
        invariant |updated| == i
        invariant forall j :: 0 <= j < i ==> updated[j] == if ts[j].id == id then Flipped(ts[j]) else ts[j]
        invariant history == old(history) + ToggleLog(ts[..i], id, now)
        invariant input == old(input) && dueDate == old(dueDate)
      {
        var t := ts[i];
        ToggleLogAppend(ts[..i], t, id, now);
        assert ts[..i + 1] == ts[..i] + [t];
        if t.id == id {
          history := history + [ToggleEntry(t, now)];
          updated := updated + [Flipped(t)];
        } else {
          updated := updated + [t];
        }
        i := i + 1;
      }
      assert ts[..|ts|] == ts;
      tasks := updated;
    }

    /**
     * Logs a Deleted snapshot of the first task with id `id`, if any, and
     * removes every task with that id.
     */
    method DeleteTask(id: string, now: Time)
      modifies this
      ensures tasks == WithoutId(old(tasks), id)
      ensures var found := Find(old(tasks), (t: Item) => t.id == id);
        history == old(history) + (if found.Some? then [HistoryEntry(found.value, Deleted, now)] else [])
      ensures input == old(input) && dueDate == old(dueDate)
    {
      var found := Find(tasks, (t: Item) => t.id == id);
      if found.Some? {
        history := history + [HistoryEntry(found.value, Deleted, now)];
      }
      tasks := WithoutId(tasks, id);
    }
  }

  /** Deleting an id no task has changes neither the list nor the log. */
  lemma DeleteAbsent(tasks: seq<Item>, id: string)
    requires forall i :: 0 <= i < |tasks| ==> tasks[i].id != id
    ensures WithoutId(tasks, id) == tasks
    ensures Find(tasks, (t: Item) => t.id == id) == None
  {
    FilterKeepsAll(tasks, (t: Item) => t.id != id);
  }
}
