/**
 * The list view's query over the task list: a conjunctive filter on the
 * search text, status, category and priority, then the derived overdue
 * flag on each task that passed, then a comparator sort on creation time,
 * priority or due date.
 */
module TaskQuery {
  import opened Text
  import opened Lists
  import opened Ranking
  import opened Calendar
  import opened Tasks

  /** A filter setting: 'all', or one value the field must equal. */
  datatype Choice<T> = All | Only(value: T)

  predicate Allows<T(==)>(c: Choice<T>, v: T) {
    c.All? || c.value == v
  }

  /** The sort setting; ByCreated is also what any unknown key falls back to. */
  datatype SortKey = ByCreated | ByPriority | ByDueDate

  datatype QueryParams = QueryParams(
    search: string,
    status: Choice<Status>,
    category: Choice<Category>,
    priority: Choice<Priority>,
    sortBy: SortKey)

  /** The lower-cased title, or a non-empty lower-cased description, contains the lower-cased search text. */
  predicate MatchesSearch(t: Task, q: string) {
    Includes(Lower(t.form.title), Lower(q)) ||
    (t.form.description != [] && Includes(Lower(t.form.description), Lower(q)))
  }

  predicate Matches(t: Task, p: QueryParams) {
    MatchesSearch(t, p.search) && Allows(p.status, t.form.status) &&
    Allows(p.category, t.form.category) && Allows(p.priority, t.form.priority)
  }

  /** The tasks that pass all four tests, in list order. */
  function Filtered(tasks: seq<Task>, p: QueryParams): (r: seq<Task>)
    ensures |r| <= |tasks|
    ensures forall t :: t in r <==> t in tasks && Matches(t, p)
  {
    var r := Filter(tasks, (t: Task) => Matches(t, p));
    forall t ensures t in r <==> t in tasks && Matches(t, p) {
      FilterMember(tasks, (u: Task) => Matches(u, p), t);
    }
    r
  }

  /** Due strictly before `now` and not Done. */
  predicate IsOverdue(t: Task, now: Time) {
    t.form.dueDate.Some? && t.form.dueDate.value < now && t.form.status != Done
  }

  function Annotate(t: Task, now: Time): Task {
    t.(isOverdue := IsOverdue(t, now))
  }

  /** Each task with its overdue flag recomputed at `now` and every other field kept. */
  function Annotated(tasks: seq<Task>, now: Time): (r: seq<Task>)
    ensures |r| == |tasks|
    ensures forall i :: 0 <= i < |tasks| ==>
      r[i].isOverdue == IsOverdue(tasks[i], now) && r[i].(isOverdue := tasks[i].isOverdue) == tasks[i]
  {
    Map(tasks, (t: Task) => Annotate(t, now))
  }

  /**
   * The comparator of the list view: negative when `a` goes first. It is
   * zero exactly on tasks of equal rank, and non-positive exactly when the
   * rank of `a` is not above that of `b`.
   */
  function Compare(key: SortKey, a: Task, b: Task): (r: int)
    ensures r == 0 <==> TaskRank(key)(a) == TaskRank(key)(b)
    ensures r <= 0 <==> RankLe(TaskRank(key)(a), TaskRank(key)(b))
  {
    match key
    case ByPriority => Weight(b.form.priority) - Weight(a.form.priority)
    case ByDueDate =>
      if a.form.dueDate.None? && b.form.dueDate.None? then 0
      else if a.form.dueDate.None? then 1
      else if b.form.dueDate.None? then -1
      else a.form.dueDate.value - b.form.dueDate.value
    case ByCreated => b.createdAt - a.createdAt
  }

  /** The key each comparator orders by: higher weight first, dated before undated, newer first. */
  function TaskRank(key: SortKey): Task -> Rank {
    match key
    case ByPriority => (t: Task) => Rank(-Weight(t.form.priority), 0)
    case ByDueDate =>
      (t: Task) => if t.form.dueDate.Some? then Rank(0, t.form.dueDate.value) else Rank(1, 0)
    case ByCreated => (t: Task) => Rank(-t.createdAt, 0)
  }

  /**
   * The visible list: filter, flag overdue tasks, then sort stably. It is a
   * permutation of the filtered list with the flags recomputed.
   */
  function FilteredAndSorted(tasks: seq<Task>, p: QueryParams, now: Time): (r: seq<Task>)
    ensures multiset(r) == multiset(Annotated(Filtered(tasks, p), now))
    ensures |r| == |Filtered(tasks, p)|
  {
    var a := Annotated(Filtered(tasks, p), now);
    var r := SortByRank(a, TaskRank(p.sortBy));
    SortPermutation(a, TaskRank(p.sortBy));
    assert |multiset(r)| == |multiset(a)|;
    r
  }

  /** Swapping the two tasks negates the comparator. */
  lemma CompareAntisymmetric(key: SortKey, a: Task, b: Task)
    ensures Compare(key, a, b) == -Compare(key, b, a)
  {
  }

  /** The search test is substring containment, spelled out. */
  lemma MatchesSearchIff(t: Task, q: string)
    ensures MatchesSearch(t, q) <==>
      (exists i :: OccursAt(Lower(t.form.title), Lower(q), i)) ||
      (t.form.description != [] && exists i :: OccursAt(Lower(t.form.description), Lower(q), i))
  {
    IncludesIff(Lower(t.form.title), Lower(q));
    IncludesIff(Lower(t.form.description), Lower(q));
    if Includes(Lower(t.form.title), Lower(q)) {
      assert exists i :: OccursAt(Lower(t.form.title), Lower(q), i);
    } else if t.form.description != [] && Includes(Lower(t.form.description), Lower(q)) {
      assert exists i :: OccursAt(Lower(t.form.description), Lower(q), i);
    }
  }

  /** An empty search text matches every task. */
  lemma EmptySearchMatches(t: Task)
    ensures MatchesSearch(t, "")
  {
    EmptyIncluded(Lower(t.form.title));
  }

  /**
   * Soundness and completeness: the visible list holds exactly the tasks
   * that pass all four tests, each with its overdue flag recomputed and
   * every other field as it was.
   */
  lemma FilteredAndSortedMembers(tasks: seq<Task>, p: QueryParams, now: Time, x: Task)
    ensures x in FilteredAndSorted(tasks, p, now) <==>
            exists t :: t in tasks && Matches(t, p) && x == Annotate(t, now)
  {
    var f := Filtered(tasks, p);
    var a := Annotated(f, now);
    assert x in FilteredAndSorted(tasks, p, now) <==> x in a by {
      assert x in FilteredAndSorted(tasks, p, now) <==> x in multiset(FilteredAndSorted(tasks, p, now));
    }
    if x in a {
      var i :| 0 <= i < |a| && a[i] == x;
      assert x == Annotate(f[i], now) && f[i] in f;
    }
    forall t | t in tasks && Matches(t, p) && x == Annotate(t, now) ensures x in a {
      var i :| 0 <= i < |f| && f[i] == t;
      assert a[i] == x;
    }
  }

  /** Every visible task's overdue flag says whether it is overdue at `now`. */
  lemma OverdueFlag(tasks: seq<Task>, p: QueryParams, now: Time, x: Task)
    requires x in FilteredAndSorted(tasks, p, now)
    ensures x.isOverdue <==> x.form.dueDate.Some? && x.form.dueDate.value < now && x.form.status != Done
  {
    FilteredAndSortedMembers(tasks, p, now, x);
  }

  /** Sorted by priority: non-increasing priority weight. */
  lemma PriorityOrder(tasks: seq<Task>, p: QueryParams, now: Time)
    requires p.sortBy == ByPriority
    ensures var r := FilteredAndSorted(tasks, p, now);
      forall i, j :: 0 <= i < j < |r| ==> Weight(r[i].form.priority) >= Weight(r[j].form.priority)
  {
    SortSorted(Annotated(Filtered(tasks, p), now), TaskRank(p.sortBy));
  }

  /** Sorted by due date: dated tasks first, in non-decreasing due date, then the undated ones. */
  lemma DueDateOrder(tasks: seq<Task>, p: QueryParams, now: Time)
    requires p.sortBy == ByDueDate
    ensures var r := FilteredAndSorted(tasks, p, now);
      forall i, j :: 0 <= i < j < |r| && r[j].form.dueDate.Some? ==>
        r[i].form.dueDate.Some? && r[i].form.dueDate.value <= r[j].form.dueDate.value
  {
    SortSorted(Annotated(Filtered(tasks, p), now), TaskRank(p.sortBy));
  }

  /** Sorted by creation: non-increasing creation time, newest first. */
  lemma CreatedOrder(tasks: seq<Task>, p: QueryParams, now: Time)
    requires p.sortBy == ByCreated
    ensures var r := FilteredAndSorted(tasks, p, now);
      forall i, j :: 0 <= i < j < |r| ==> r[i].createdAt >= r[j].createdAt
  {
    SortSorted(Annotated(Filtered(tasks, p), now), TaskRank(p.sortBy));
  }

  /**
   * Tasks the comparator ties keep their filtered order, and any sorted
   * list with that property is the visible list: every stable sort with
   * this comparator gives the same result.
   */
  lemma SortIsTheStableSort(tasks: seq<Task>, p: QueryParams, now: Time, out: seq<Task>)
    ensures StableWrt(Annotated(Filtered(tasks, p), now), FilteredAndSorted(tasks, p, now), TaskRank(p.sortBy))
    ensures Sorted(out, TaskRank(p.sortBy)) && StableWrt(Annotated(Filtered(tasks, p), now), out, TaskRank(p.sortBy))
            ==> out == FilteredAndSorted(tasks, p, now)
  {
    var a := Annotated(Filtered(tasks, p), now);
    SortStable(a, TaskRank(p.sortBy));
    if Sorted(out, TaskRank(p.sortBy)) && StableWrt(a, out, TaskRank(p.sortBy)) {
      SortUnique(a, out, TaskRank(p.sortBy));
    }
  }
}
