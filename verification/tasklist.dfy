/** The decisions under the task-list view of `src/task-list.c`: the title
    statistics, which task rows are shown, how dates compare and which sort
    passes run. Widgets become the task rows they display, in order, each
    with its sub-task rows. */
module TaskListView {
  import opened Wrappers
  import opened Strings
  import opened Decimal
  import opened Records

  // --- TITLE --- //

  /** A task the statistics count: live and, when a list is selected, in that list. */
  predicate Counted(t: Task, selected: Option<TaskList>) {
    !t.deleted && !t.trash && (selected.None? || t.listUid == selected.value.uid)
  }

  function CountedTasks(tasks: seq<Task>, selected: Option<TaskList>): (r: seq<Task>)
    ensures |r| <= |tasks|
  {
    if tasks == [] then []
    else if Counted(tasks[|tasks| - 1], selected) then CountedTasks(tasks[..|tasks| - 1], selected) + [tasks[|tasks| - 1]]
    else CountedTasks(tasks[..|tasks| - 1], selected)
  }

  function CompletedTasks(tasks: seq<Task>): (r: seq<Task>)
    ensures |r| <= |tasks|
  {
    if tasks == [] then []
    else if tasks[|tasks| - 1].completed then CompletedTasks(tasks[..|tasks| - 1]) + [tasks[|tasks| - 1]]
    else CompletedTasks(tasks[..|tasks| - 1])
  }

  /** The counting loops of `errands_task_list_update_title`. */
  method TitleStats(tasks: seq<Task>, selected: Option<TaskList>) returns (completed: nat, total: nat)
    ensures total == |CountedTasks(tasks, selected)|
    ensures completed == |CompletedTasks(CountedTasks(tasks, selected))|
    ensures completed <= total
  {
    completed, total := 0, 0;
    var i := 0;
    while i < |tasks|
      invariant 0 <= i <= |tasks|
      invariant total == |CountedTasks(tasks[..i], selected)|
      invariant completed == |CompletedTasks(CountedTasks(tasks[..i], selected))|
    {
      var td := tasks[i];
      CountedSnoc(tasks, i, selected);
      if Counted(td, selected) {
        total := total + 1;
        if td.completed {
          completed := completed + 1;
        }
      }
      i := i + 1;
    }
    assert tasks[..i] == tasks;
  }

  /** One more task is counted, and counted as completed, on its own merits. */
  lemma CountedSnoc(tasks: seq<Task>, i: nat, selected: Option<TaskList>)
    requires i < |tasks|
    ensures |CountedTasks(tasks[..i + 1], selected)|
         == |CountedTasks(tasks[..i], selected)| + (if Counted(tasks[i], selected) then 1 else 0)
    ensures |CompletedTasks(CountedTasks(tasks[..i + 1], selected))|
         == |CompletedTasks(CountedTasks(tasks[..i], selected))|
            + (if Counted(tasks[i], selected) && tasks[i].completed then 1 else 0)
  {
    assert tasks[..i + 1][..i] == tasks[..i];
    var c := CountedTasks(tasks[..i], selected);
    if Counted(tasks[i], selected) {
      assert CountedTasks(tasks[..i + 1], selected) == c + [tasks[i]];
      assert (c + [tasks[i]])[..|c|] == c;
    }
  }

  datatype Title = Title(title: string, subtitle: string)

  /** The subtitle: the counts when anything is counted, else nothing. */
  function Subtitle(completed: nat, total: nat): string {
    if total > 0 then "Completed: " + IntToString(completed) + " / " + IntToString(total) else ""
  }

  /** `errands_task_list_update_title`: "All Tasks" or the selected list's name. */
  method UpdateTitle(tasks: seq<Task>, selected: Option<TaskList>) returns (r: Title)
    ensures selected.None? ==> r.title == "All Tasks"
    ensures selected.Some? ==> r.title == selected.value.name
    ensures r.subtitle == "" <==> |CountedTasks(tasks, selected)| == 0
    ensures r.subtitle == Subtitle(|CompletedTasks(CountedTasks(tasks, selected))|, |CountedTasks(tasks, selected)|)
    ensures r.subtitle != "" ==> StartsWith(r.subtitle, "Completed: ")
  {
    var completed, total := TitleStats(tasks, selected);
    var title := if selected.None? then "All Tasks" else selected.value.name;
    r := Title(title, Subtitle(completed, total));
    if total > 0 {
      assert r.subtitle[..|"Completed: "|] == "Completed: ";
    }
  }

  /** Counting a list after another adds up: the counts are per task. */
  lemma {:induction false} CountedAppend(a: seq<Task>, b: seq<Task>, selected: Option<TaskList>)
    ensures CountedTasks(a + b, selected) == CountedTasks(a, selected) + CountedTasks(b, selected)
    decreases |b|
  {
    if b == [] {
      assert a + b == a;
    } else {
      var n := |b| - 1;
      assert (a + b)[..|a + b| - 1] == a + b[..n];
      assert (a + b)[|a + b| - 1] == b[n];
      CountedAppend(a, b[..n], selected);
    }
  }

  /** Without a selected list every live task counts; selecting a list keeps
      exactly the live tasks of that list. */
  lemma {:induction false} CountedMembers(tasks: seq<Task>, selected: Option<TaskList>, t: Task)
    ensures t in CountedTasks(tasks, selected) <==> t in tasks && Counted(t, selected)
  {
    if tasks != [] {
      var n := |tasks| - 1;
      CountedMembers(tasks[..n], selected, t);
      assert tasks == tasks[..n] + [tasks[n]];
    }
  }

  // --- SHOWING ROWS --- //

  /** A task row and its sub-task rows. */
  datatype TaskView = TaskView(data: Task, subTasks: seq<TaskView>)

  /** What `gtk_revealer_set_reveal_child` was told for a row and its sub-rows. */
  datatype Reveal = Reveal(revealed: bool, sub: seq<Reveal>)

  /** The rule of `errands_task_list_filter_by_completion` for one row. */
  predicate Reveals(t: Task, showCompleted: bool) {
    !t.deleted && !t.trash && (!t.completed || showCompleted)
  }

  /** `errands_task_list_filter_by_completion`: every row, then its sub-rows. */
  function FilterByCompletion(views: seq<TaskView>, showCompleted: bool): (r: seq<Reveal>)
    ensures |r| == |views|
    ensures forall i :: 0 <= i < |r| ==>
      r[i].revealed == Reveals(views[i].data, showCompleted) && |r[i].sub| == |views[i].subTasks|
    decreases views
  {
    if views == [] then []
    else
      [Reveal(Reveals(views[0].data, showCompleted), FilterByCompletion(views[0].subTasks, showCompleted))]
        + FilterByCompletion(views[1..], showCompleted)
  }

  /** The tasks of all rows at every depth, each before its sub-rows. */
  function FlatTasks(views: seq<TaskView>): seq<Task>
    decreases views
  {
    if views == [] then []
    else [views[0].data] + FlatTasks(views[0].subTasks) + FlatTasks(views[1..])
  }

  function FlatReveals(rs: seq<Reveal>): seq<bool>
    decreases rs
  {
    if rs == [] then []
    else [rs[0].revealed] + FlatReveals(rs[0].sub) + FlatReveals(rs[1..])
  }

  /** Each flag is the completion rule applied to the task at the same place. */
  predicate RevealsAll(flags: seq<bool>, tasks: seq<Task>, showCompleted: bool) {
    |flags| == |tasks| && forall i :: 0 <= i < |tasks| ==> flags[i] == Reveals(tasks[i], showCompleted)
  }

  lemma RevealsAllAppend(f1: seq<bool>, t1: seq<Task>, f2: seq<bool>, t2: seq<Task>, showCompleted: bool)
    requires RevealsAll(f1, t1, showCompleted) && RevealsAll(f2, t2, showCompleted)
    ensures RevealsAll(f1 + f2, t1 + t2, showCompleted)
  {
    forall i | 0 <= i < |t1 + t2| ensures (f1 + f2)[i] == Reveals((t1 + t2)[i], showCompleted) {
      if i >= |t1| {
        assert (f1 + f2)[i] == f2[i - |t1|] && (t1 + t2)[i] == t2[i - |t1|];
      }
    }
  }

  /** Every row at every depth is revealed exactly when it is live and either
      open or completed tasks are shown. */
  lemma {:induction false} FilterByCompletionDeep(views: seq<TaskView>, showCompleted: bool)
    ensures RevealsAll(FlatReveals(FilterByCompletion(views, showCompleted)), FlatTasks(views), showCompleted)
    decreases views
  {
    if views != [] {
      var r := FilterByCompletion(views, showCompleted);
      FilterByCompletionDeep(views[0].subTasks, showCompleted);
      FilterByCompletionDeep(views[1..], showCompleted);
      assert r[0].sub == FilterByCompletion(views[0].subTasks, showCompleted);
      assert r[1..] == FilterByCompletion(views[1..], showCompleted);
      var kids := FlatReveals(r[0].sub);
      var rest := FlatReveals(r[1..]);
      assert RevealsAll([r[0].revealed], [views[0].data], showCompleted);
      RevealsAllAppend([r[0].revealed], [views[0].data], kids, FlatTasks(views[0].subTasks), showCompleted);
      RevealsAllAppend([r[0].revealed] + kids, [views[0].data] + FlatTasks(views[0].subTasks),
                       rest, FlatTasks(views[1..]), showCompleted);
    }
  }

  /** `errands_task_list_filter_by_uid` for one top-level row, in the
      code's branch order. */
  function VisibleByUid(uid: string, t: Task): bool {
    if uid == "" && !t.deleted && !t.trash then true
    else if uid == t.listUid && !t.deleted && !t.trash then true
    else t.listUid == uid && !t.deleted
  }

  /** `errands_task_list_filter_by_uid`: top-level rows only. */
  function FilterByUid(views: seq<TaskView>, uid: string): (r: seq<bool>)
    ensures |r| == |views| && forall i :: 0 <= i < |views| ==> r[i] == VisibleByUid(uid, views[i].data)
  {
    seq(|views|, i requires 0 <= i < |views| => VisibleByUid(uid, views[i].data))
  }

  /** For a list uid, a row shows iff it belongs to that list and is not
      deleted; being in the trash does not hide it. For the empty uid, a row
      shows iff it is live, or not deleted and filed under no list. */
  lemma VisibleByUidSpec(uid: string, t: Task)
    ensures uid != "" ==> (VisibleByUid(uid, t) <==> t.listUid == uid && !t.deleted)
    ensures uid == "" ==> (VisibleByUid(uid, t) <==> (!t.deleted && !t.trash) || (t.listUid == "" && !t.deleted))
  {
  }

  /** `string_contains` on the text or the notes, or an exact tag. */
  predicate Matches(t: Task, query: string) {
    Contains(t.text, query) || Contains(t.notes, query) || query in t.tags
  }

  /** `errands_task_list_filter_by_text` for one top-level row: every
      list is searched when none or the empty-uid list is selected. */
  function VisibleByText(selected: Option<TaskList>, query: string, t: Task): bool {
    var searchAll := selected.None? || selected.value.uid == "";
    if searchAll then !t.deleted && Matches(t, query)
    else !t.deleted && t.listUid == selected.value.uid && Matches(t, query)
  }

  function FilterByText(views: seq<TaskView>, selected: Option<TaskList>, query: string): (r: seq<bool>)
    ensures |r| == |views| && forall i :: 0 <= i < |views| ==> r[i] == VisibleByText(selected, query, views[i].data)
  {
    seq(|views|, i requires 0 <= i < |views| => VisibleByText(selected, query, views[i].data))
  }

  /** A row shows iff it is not deleted, the query occurs in its text or
      notes or is one of its tags, and, when a list with a uid is selected,
      it belongs to that list. Trashed rows can match. */
  lemma VisibleByTextSpec(selected: Option<TaskList>, query: string, t: Task)
    ensures VisibleByText(selected, query, t) <==>
      && !t.deleted
      && ((exists i :: OccursAt(t.text, query, i)) || (exists i :: OccursAt(t.notes, query, i)) || query in t.tags)
      && (selected.Some? && selected.value.uid != "" ==> t.listUid == selected.value.uid)
  {
  }

  /** The empty query occurs everywhere, so it shows every row that is not
      deleted (in the selected list, when there is one). */
  lemma EmptyQueryShowsAll(selected: Option<TaskList>, t: Task)
    requires !t.deleted && (selected.None? || selected.value.uid == "" || t.listUid == selected.value.uid)
    ensures VisibleByText(selected, "", t)
  {
    assert OccursAt(t.text, "", 0);
  }

  // --- ORDER --- //

  /** `__due_date_sort_func` and `__creation_date_sort_func` on the parsed
      dates (`parse_date` is not part of this model; a date is its instant,
      and an unparsable or empty one is `None`): a missing date first, two
      missing dates equal, otherwise `g_date_time_compare`. */
  function CompareDates(a: Option<int>, b: Option<int>): (r: int)
    ensures -1 <= r <= 1
    ensures a.None? && b.Some? ==> r == -1
    ensures a.Some? && b.None? ==> r == 1
    ensures a.None? && b.None? ==> r == 0
  {
    if a.None? && b.Some? then -1
    else if a.Some? && b.None? then 1
    else if a.None? && b.None? then 0
    else if a.value < b.value then -1
    else if a.value > b.value then 1
    else 0
  }

  /** The comparator as an order: `a` may come before `b`. */
  predicate NotAfter(a: Option<int>, b: Option<int>) {
    a.None? || (b.Some? && a.value <= b.value)
  }

  /** The comparator is antisymmetric, agrees with the nulls-first order,
      and is zero exactly on equal dates. */
  lemma CompareDatesOrder(a: Option<int>, b: Option<int>)
    ensures CompareDates(a, b) == -CompareDates(b, a)
    ensures CompareDates(a, b) <= 0 <==> NotAfter(a, b)
    ensures CompareDates(a, b) == 0 <==> a == b
  {
  }

  /** The nulls-first order is transitive and total, so sorting by it is well defined. */
  lemma NotAfterPreorder(a: Option<int>, b: Option<int>, c: Option<int>)
    ensures NotAfter(a, b) || NotAfter(b, a)
    ensures NotAfter(a, b) && NotAfter(b, c) ==> NotAfter(a, c)
  {
  }

  function DueDateCompare(parse: string -> Option<int>, a: Task, b: Task): int {
    CompareDates(parse(a.dueDate), parse(b.dueDate))
  }

  function CreationDateCompare(parse: string -> Option<int>, a: Task, b: Task): int {
    CompareDates(parse(a.createdAt), parse(b.createdAt))
  }

  /** A task without a due date sorts before one with a due date, and swapping
      the arguments flips the answer. */
  lemma DueDateCompareSpec(parse: string -> Option<int>, a: Task, b: Task)
    ensures DueDateCompare(parse, a, b) == -DueDateCompare(parse, b, a)
    ensures parse(a.dueDate).None? && parse(b.dueDate).Some? ==> DueDateCompare(parse, a, b) < 0
    ensures DueDateCompare(parse, a, b) <= 0 <==> NotAfter(parse(a.dueDate), parse(b.dueDate))
  {
    CompareDatesOrder(parse(a.dueDate), parse(b.dueDate));
  }

  lemma CreationDateCompareSpec(parse: string -> Option<int>, a: Task, b: Task)
    ensures CreationDateCompare(parse, a, b) == -CreationDateCompare(parse, b, a)
    ensures parse(a.createdAt).None? && parse(b.createdAt).Some? ==> CreationDateCompare(parse, a, b) < 0
    ensures CreationDateCompare(parse, a, b) <= 0 <==> NotAfter(parse(a.createdAt), parse(b.createdAt))
  {
    CompareDatesOrder(parse(a.createdAt), parse(b.createdAt));
  }

  // --- SORTED BY COMPLETION --- //

  function Bit(b: bool): int {
    if b then 1 else 0
  }

  /** The adjacent pair ending at `i` passes the test as written: the later
      task completed and the earlier one not. */
  predicate PairRising(tasks: seq<Task>, i: int)
    requires 0 < i < |tasks|
  {
    !tasks[i - 1].completed && tasks[i].completed
  }

  /** `errands_task_list_sorted_by_completion` as written: walking back from
      the last row, any pair whose completion does not strictly rise fails. */
  method SortedByCompletionAsWritten(tasks: seq<Task>) returns (sorted: bool)
    ensures sorted <==> forall i :: 0 < i < |tasks| ==> PairRising(tasks, i)
  {
    var i := |tasks| - 1;
    while i >= 0
      invariant -1 <= i < |tasks|
      invariant forall j :: i < j < |tasks| && j > 0 ==> PairRising(tasks, j)
    {
      var prev := i - 1;
      if prev >= 0 {
        if Bit(tasks[i].completed) - Bit(tasks[prev].completed) <= 0 {
          assert !PairRising(tasks, i);
          return false;
        }
      }
      i := prev;
    }
    return true;
  }

  /** With three rows or more the middle one would have to be both open and
      completed, so the test as written never passes; two open rows fail it too. */
  lemma AsWrittenRejectsLongLists(tasks: seq<Task>)
    ensures |tasks| >= 3 ==> !(forall i :: 0 < i < |tasks| ==> PairRising(tasks, i))
    ensures |tasks| == 2 && !tasks[0].completed && !tasks[1].completed ==>
      !(forall i :: 0 < i < |tasks| ==> PairRising(tasks, i))
  {
    if |tasks| >= 3 {
      assert !(PairRising(tasks, 1) && PairRising(tasks, 2));
    } else if |tasks| == 2 && !tasks[0].completed && !tasks[1].completed {
      assert !PairRising(tasks, 1);
    }
  }

  /** Sorted by completion: no completed row comes before an open one. */
  predicate CompletionOrdered(tasks: seq<Task>) {
    forall i, j :: 0 <= i < j < |tasks| ==> !(tasks[i].completed && !tasks[j].completed)
  }

  /** The test as evidently meant: a pair fails only when completion drops. */
  method SortedByCompletion(tasks: seq<Task>) returns (sorted: bool)
    ensures sorted <==> CompletionOrdered(tasks)
  {
    var i := |tasks| - 1;
    while i >= 0
      invariant -1 <= i < |tasks|
      invariant forall j :: i < j < |tasks| && j > 0 ==> !(tasks[j - 1].completed && !tasks[j].completed)
    {
      var prev := i - 1;
      if prev >= 0 {
        if Bit(tasks[i].completed) - Bit(tasks[prev].completed) < 0 {
          assert !CompletionOrdered(tasks) by {
            assert tasks[prev].completed && !tasks[i].completed;
          }
          return false;
        }
      }
      i := prev;
    }
    AdjacentOrdered(tasks);
    return true;
  }

  /** Ordered neighbours make an ordered list. */
  lemma {:induction false} AdjacentOrdered(tasks: seq<Task>)
    requires forall j :: 0 < j < |tasks| ==> !(tasks[j - 1].completed && !tasks[j].completed)
    ensures CompletionOrdered(tasks)
    decreases |tasks|
  {
    if |tasks| > 1 {
      var init := tasks[..|tasks| - 1];
      AdjacentOrdered(init);
      forall i, j | 0 <= i < j < |tasks| ensures !(tasks[i].completed && !tasks[j].completed) {
        if j < |tasks| - 1 {
          assert tasks[i] == init[i] && tasks[j] == init[j];
        } else if tasks[i].completed {
          if i < j - 1 {
            assert init[i].completed && init[j - 1] == tasks[j - 1];
          }
        }
      }
    }
  }

  // --- SORT PASSES --- //

  datatype SortPass = ByDueDate | ByCreationDate | ByPriority | ByCompletion

  /** `errands_task_list_sort`: the passes run for the `sort_by` setting. */
  function SortPasses(sortBy: string): (r: seq<SortPass>)
    ensures sortBy == "manual" <==> r == []
    ensures sortBy != "manual" ==> r[|r| - 1] == ByCompletion
    ensures sortBy !in {"manual", "due", "created", "priority"} ==> r == [ByCompletion]
    ensures ByDueDate in r <==> sortBy == "due"
    ensures ByCreationDate in r <==> sortBy == "created"
    ensures ByPriority in r <==> sortBy == "priority"
  {
    if sortBy == "manual" then []
    else if sortBy == "due" then [ByDueDate, ByCompletion]
    else if sortBy == "created" then [ByCreationDate, ByCompletion]
    else if sortBy == "priority" then [ByPriority, ByCompletion]
    else [ByCompletion]
  }
}
