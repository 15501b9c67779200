/** The iCal converter of `src/data.c`: a task rendered as a VTODO, a task
    list rendered as a VCALENDAR, and both read back. Generated uids, random
    colours and the clock are parameters. */
module ICal {
  import opened Wrappers
  import opened Strings
  import opened Decimal
  import opened Records
  import opened ICalText
  import DataStore

  // --- TASK AS VTODO --- //

  /** An optional property: written only when the field is not empty. */
  function NonEmpty(s: string): (r: Option<string>)
    ensures r.Some? <==> s != ""
    ensures r.Some? ==> r.value == s
  {
    if s == "" then None else Some(s)
  }

  /** The CATEGORIES value: the non-empty tags written one after the other,
      with no separator between them. */
  function JoinTags(tags: seq<string>): (r: string)
    ensures r == "" <==> forall i :: 0 <= i < |tags| ==> tags[i] == ""
    ensures AllNoNewline(tags) ==> NoNewline(r)
  {
    if tags == [] then ""
    else
      var rest := JoinTags(tags[1..]);
      assert forall i :: 0 < i < |tags| ==> tags[i] == tags[1..][i - 1];
      assert AllNoNewline(tags) ==> AllNoNewline(tags[1..]);
      (if tags[0] == "" then "" else tags[0]) + rest
  }

  /** The value `errands_data_task_as_ical` writes for each property, or
      `None` when it leaves the property out. */
  function TodoValue(t: Task, n: PropertyName): Option<string> {
    match n
    case Uid => Some(t.uid)
    case Summary => Some(t.text)
    case ErrandsColor => NonEmpty(t.color)
    case DtStart => NonEmpty(t.startDate)
    case Due => NonEmpty(t.dueDate)
    case RRule => NonEmpty(t.rrule)
    case Description => NonEmpty(t.notes)
    case Priority => Some(IntToString(t.priority))
    case PercentComplete => Some(IntToString(t.percentComplete))
    case Status => Some(if t.completed then "COMPLETED" else "IN-PROCESS")
    case LastModified => NonEmpty(t.changedAt)
    case Created => NonEmpty(t.createdAt)
    case RelatedTo => NonEmpty(t.parent)
    case Categories => if |t.tags| > 0 then Some(JoinTags(t.tags)) else None
  }

  /** The property lines of a task's VTODO. */
  function TodoMid(t: Task): seq<string> {
    RenderPresent(VTodoOrder, n => TodoValue(t, n))
  }

  function TodoLines(t: Task): seq<string> {
    Block(TodoMid(t))
  }

  /** `errands_data_task_as_ical`: one VTODO, every line ended by a bare
      line feed rather than CRLF; it opens and closes with its delimiter
      lines. */
  function TaskAsICal(t: Task): (r: string)
    ensures StartsWith(r, BeginVTodo + "\n")
    ensures EndsWith(r, EndVTodo + "\n")
  {
    JoinLinesStartsWith(TodoLines(t), "");
    assert JoinLines(TodoLines(t)) + "" == JoinLines(TodoLines(t));
    JoinLinesEndsWith([BeginVTodo] + TodoMid(t), EndVTodo);
    JoinLines(TodoLines(t))
  }

  /** The text fields that end up on a line of their own hold no line break,
      and neither do the tags. */
  predicate SingleLine(t: Task) {
    && NoNewline(t.uid) && NoNewline(t.text) && NoNewline(t.notes) && NoNewline(t.color)
    && NoNewline(t.dueDate) && NoNewline(t.startDate) && NoNewline(t.rrule)
    && NoNewline(t.changedAt) && NoNewline(t.createdAt) && NoNewline(t.parent)
    && AllNoNewline(t.tags)
  }

  lemma IntToStringSingleLine(n: int)
    ensures NoNewline(IntToString(n))
  {
    var s := IntToString(n);
    assert forall i :: 0 <= i < |s| ==> s[i] != '\n';
  }

  lemma TodoValueSingleLine(t: Task, n: PropertyName)
    requires SingleLine(t)
    ensures TodoValue(t, n).Some? ==> NoNewline(TodoValue(t, n).value)
  {
    IntToStringSingleLine(t.priority);
    IntToStringSingleLine(t.percentComplete);
  }

  /** The lines of one VTODO: delimiters at both ends only, no line break inside a line. */
  lemma TodoLinesShape(t: Task)
    requires SingleLine(t)
    ensures IsBlock(TodoLines(t), BeginVTodo, EndVTodo)
    ensures AllNoNewline(TodoLines(t))
  {
    var values := n => TodoValue(t, n);
    forall n | n in VTodoOrder && values(n).Some? ensures NoNewline(values(n).value) {
      TodoValueSingleLine(t, n);
    }
    BlockShape(VTodoOrder, values);
  }

  /** Reading a property back from the VTODO text gives what was written for it. */
  lemma TaskAsICalValue(t: Task, n: PropertyName)
    requires SingleLine(t)
    ensures GetIcalValue(TaskAsICal(t), NameText(n)) == TodoValue(t, n)
  {
    TodoLinesShape(t);
    SplitJoinLines(TodoLines(t));
    FindValueBlock(TodoMid(t), n);
    FindValueRenderPresent(VTodoOrder, n => TodoValue(t, n), n);
    assert n in VTodoOrder;
  }

  /** Lines are not folded: however long the text, the SUMMARY line is written whole. */
  lemma SummaryLineUnfolded(t: Task)
    requires SingleLine(t)
    ensures Render(Summary, t.text) in SplitLines(TaskAsICal(t))
  {
    TaskAsICalValue(t, Summary);
    FindValueLine(SplitLines(TaskAsICal(t)), NameText(Summary));
  }

  /** Tags are written without a separator, so different tag lists can give
      the same VTODO. */
  lemma CategoriesWithoutSeparator(t: Task)
    ensures TaskAsICal(t.(tags := ["a", "b"])) == TaskAsICal(t.(tags := ["ab"]))
  {
    var t1 := t.(tags := ["a", "b"]);
    var t2 := t.(tags := ["ab"]);
    assert JoinTags(["a", "b"]) == "ab" by {
      assert ["a", "b"][1..] == ["b"];
      assert ["b"][1..] == [];
    }
    assert JoinTags(["ab"]) == "ab" by {
      assert ["ab"][1..] == [];
    }
    RenderPresentExt(VTodoOrder, n => TodoValue(t1, n), n => TodoValue(t2, n));
  }

  // --- VTODO AS TASK --- //

  /** `get_ical_value(todo, NAME)` for one of the VTODO properties. */
  function Prop(todo: string, n: PropertyName): Option<string> {
    GetIcalValue(todo, NameText(n))
  }

  /** `errands_data_tasks_from_ical` for one VTODO, with the absent-STATUS
      case as written: `completed` is then whatever the freshly allocated
      record held, given here as `leftover`. */
  function TaskFromVTodoAsWritten(todo: string, listUid: string, uid: string, now: string,
                                  leftover: bool): (r: Task)
    ensures Prop(todo, Status).Some? ==> (r.completed <==> Prop(todo, Status) == Some("COMPLETED"))
    ensures Prop(todo, Status) == None ==> r.completed == leftover
  {
    var status := Prop(todo, Status);
    var r := TaskFromVTodo(todo, listUid, uid, now);
    r.(completed := if status.Some? then status.value == "COMPLETED" else leftover)
  }

  /** The same reading with an absent STATUS taken as not completed, the
      value every other path of the program gives a new task. */
  function TaskFromVTodo(todo: string, listUid: string, uid: string, now: string): (r: Task)
    ensures r.uid == uid && r.listUid == listUid
    ensures r.completed <==> Prop(todo, Status) == Some("COMPLETED")
    ensures r.text == Prop(todo, Summary).GetOr("Task Text")
    ensures r.changedAt == Prop(todo, LastModified).GetOr(now)
    ensures r.createdAt == Prop(todo, Created).GetOr(now)
    ensures r.parent == Prop(todo, RelatedTo).GetOr("")
    ensures r.notes == Prop(todo, Description).GetOr("")
    ensures r.color == Prop(todo, ErrandsColor).GetOr("")
    ensures r.dueDate == Prop(todo, Due).GetOr("") && r.startDate == Prop(todo, DtStart).GetOr("")
    ensures r.rrule == Prop(todo, RRule).GetOr("")
    ensures r.priority == (if Prop(todo, Priority).Some? then Atoi(Prop(todo, Priority).value) else 0)
    ensures r.percentComplete
         == (if Prop(todo, PercentComplete).Some? then Atoi(Prop(todo, PercentComplete).value) else 0)
    ensures r.tags == [] && r.attachments == []
    ensures !r.deleted && !r.trash && !r.notified && !r.expanded && !r.toolbarShown && !r.synced
  {
    var percent := Prop(todo, PercentComplete);
    var priority := Prop(todo, Priority);
    Task(
      uid := uid,
      listUid := listUid,
      parent := Prop(todo, RelatedTo).GetOr(""),
      text := Prop(todo, Summary).GetOr("Task Text"),
      notes := Prop(todo, Description).GetOr(""),
      color := Prop(todo, ErrandsColor).GetOr(""),
      dueDate := Prop(todo, Due).GetOr(""),
      startDate := Prop(todo, DtStart).GetOr(""),
      rrule := Prop(todo, RRule).GetOr(""),
      priority := if priority.Some? then Atoi(priority.value) else 0,
      percentComplete := if percent.Some? then Atoi(percent.value) else 0,
      completed := Prop(todo, Status) == Some("COMPLETED"),
      deleted := false,
      trash := false,
      notified := false,
      expanded := false,
      toolbarShown := false,
      synced := false,
      createdAt := Prop(todo, Created).GetOr(now),
      changedAt := Prop(todo, LastModified).GetOr(now),
      tags := [],
      attachments := []
    )
  }

  /** An empty VTODO: no properties between the delimiters. */
  const EmptyVTodo: string := JoinLines(Block([]))

  /** With STATUS absent, the as-written reading depends on uninitialised memory. */
  lemma StatusAbsentLeavesCompletedUnset()
    ensures TaskFromVTodoAsWritten(EmptyVTodo, "l", "u", "now", true).completed
            != TaskFromVTodoAsWritten(EmptyVTodo, "l", "u", "now", false).completed
  {
    var values: PropertyName -> Option<string> := n => None;
    assert RenderPresent([], values) == [];
    BlockShape([], values);
    SplitJoinLines(Block([]));
    FindValueBlock([], Status);
  }

  /** Whenever STATUS is present the two readings agree. */
  lemma AsWrittenAgreesWhenStatusPresent(todo: string, listUid: string, uid: string, now: string, leftover: bool)
    requires Prop(todo, Status).Some?
    ensures TaskFromVTodoAsWritten(todo, listUid, uid, now, leftover) == TaskFromVTodo(todo, listUid, uid, now)
  {
  }

  /** `errands_data_tasks_from_ical`: one task per VTODO block, in order, the
      i-th taking the i-th generated uid. */
  function TasksFromICal(ical: string, listUid: string, gen: nat -> string, now: string): (r: seq<Task>)
    ensures |r| == |GetVTodos(ical)|
    ensures forall i :: 0 <= i < |r| ==> r[i].uid == gen(i) && r[i].listUid == listUid
    ensures forall i :: 0 <= i < |r| ==> r[i] == TaskFromVTodo(GetVTodos(ical)[i], listUid, gen(i), now)
  {
    var todos := GetVTodos(ical);
    seq(|todos|, i requires 0 <= i < |todos| => TaskFromVTodo(todos[i], listUid, gen(i), now))
  }

  /** What a task becomes after a trip through its own VTODO: the content
      survives, identity and local state are fresh, tags are not read back,
      and an empty timestamp is replaced by the clock. */
  function Imported(t: Task, listUid: string, uid: string, now: string): Task {
    t.(uid := uid, listUid := listUid, tags := [], attachments := [],
       deleted := false, trash := false, notified := false, expanded := false,
       toolbarShown := false, synced := false,
       createdAt := if t.createdAt == "" then now else t.createdAt,
       changedAt := if t.changedAt == "" then now else t.changedAt)
  }

  /** `todo` carries exactly the properties written for `t`. */
  predicate Describes(todo: string, t: Task) {
    forall n :: Prop(todo, n) == TodoValue(t, n)
  }

  /** Reading any VTODO that carries the properties of `t` gives `t` back,
      up to what `Imported` resets. */
  lemma ImportDescribed(todo: string, t: Task, listUid: string, uid: string, now: string)
    requires Describes(todo, t)
    ensures TaskFromVTodo(todo, listUid, uid, now) == Imported(t, listUid, uid, now)
  {
    var r := TaskFromVTodo(todo, listUid, uid, now);
    var e := Imported(t, listUid, uid, now);
    assert Prop(todo, Summary) == Some(t.text);
    assert r.text == e.text;
    assert Prop(todo, ErrandsColor) == NonEmpty(t.color);
    assert r.color == e.color;
    assert Prop(todo, DtStart) == NonEmpty(t.startDate);
    assert r.startDate == e.startDate;
    assert Prop(todo, Due) == NonEmpty(t.dueDate);
    assert r.dueDate == e.dueDate;
    assert Prop(todo, RRule) == NonEmpty(t.rrule);
    assert r.rrule == e.rrule;
    assert Prop(todo, Description) == NonEmpty(t.notes);
    assert r.notes == e.notes;
    assert Prop(todo, RelatedTo) == NonEmpty(t.parent);
    assert r.parent == e.parent;
    assert Prop(todo, LastModified) == NonEmpty(t.changedAt);
    assert r.changedAt == e.changedAt;
    assert Prop(todo, Created) == NonEmpty(t.createdAt);
    assert r.createdAt == e.createdAt;
    assert Prop(todo, Priority) == Some(IntToString(t.priority));
    AtoiOfIntToString(t.priority);
    assert r.priority == e.priority;
    assert Prop(todo, PercentComplete) == Some(IntToString(t.percentComplete));
    AtoiOfIntToString(t.percentComplete);
    assert r.percentComplete == e.percentComplete;
    assert Prop(todo, Status) == Some(if t.completed then "COMPLETED" else "IN-PROCESS");
    assert r.completed == e.completed;
  }

  lemma ImportOwnVTodo(t: Task, listUid: string, uid: string, now: string)
    requires SingleLine(t)
    ensures TaskFromVTodo(TaskAsICal(t), listUid, uid, now) == Imported(t, listUid, uid, now)
  {
    forall n ensures Prop(TaskAsICal(t), n) == TodoValue(t, n) {
      TaskAsICalValue(t, n);
    }
    ImportDescribed(TaskAsICal(t), t, listUid, uid, now);
  }

  /** The VTODOs found in a run of blocks are the blocks themselves. */
  lemma GetVTodosOfLines(lines: seq<string>, blocks: seq<seq<string>>)
    requires AllNoNewline(lines) && Blocks(lines, BeginVTodo, EndVTodo) == blocks
    ensures GetVTodos(JoinLines(lines)) == seq(|blocks|, i requires 0 <= i < |blocks| => JoinLines(blocks[i]))
  {
    SplitJoinLines(lines);
  }

  lemma TaskRoundTrip(t: Task, listUid: string, gen: nat -> string, now: string)
    requires SingleLine(t)
    ensures TasksFromICal(TaskAsICal(t), listUid, gen, now) == [Imported(t, listUid, gen(0), now)]
  {
    TodoLinesShape(t);
    SingleBlockTodos(TodoLines(t));
    SingleTodoTasks(TaskAsICal(t), listUid, gen, now);
    ImportOwnVTodo(t, listUid, gen(0), now);
  }

  lemma SingleTodoTasks(ical: string, listUid: string, gen: nat -> string, now: string)
    requires GetVTodos(ical) == [ical]
    ensures TasksFromICal(ical, listUid, gen, now) == [TaskFromVTodo(ical, listUid, gen(0), now)]
  {
  }

  /** The text of one well-formed block holds exactly that VTODO. */
  lemma SingleBlockTodos(lines: seq<string>)
    requires IsBlock(lines, BeginVTodo, EndVTodo) && AllNoNewline(lines)
    ensures GetVTodos(JoinLines(lines)) == [JoinLines(lines)]
  {
    BlocksBlock(lines, [], BeginVTodo, EndVTodo);
    assert lines + [] == lines;
    assert Blocks([], BeginVTodo, EndVTodo) == [];
    GetVTodosOfLines(lines, [lines]);
  }

  // --- TASK LIST AS VCALENDAR --- //

  const BeginVCalendar: string := "BEGIN:VCALENDAR"
  const EndVCalendar: string := "END:VCALENDAR"

  function CalendarHeader(l: TaskList): seq<string> {
    [Line("BEGIN", "VCALENDAR"), Line("VERSION", "2.0"), Line("PRODID", "-//Errands"),
     Line("X-WR-CALNAME", l.name), Line("X-APPLE-CALENDAR-COLOR", l.color)]
  }

  /** The VTODOs of all tasks, one after the other. */
  function TasksAsICal(tasks: seq<Task>): string {
    if tasks == [] then "" else TaskAsICal(tasks[0]) + TasksAsICal(tasks[1..])
  }

  /** `errands_data_task_list_as_ical`: the calendar header, then every task
      of the store (whatever list it belongs to), then the footer. */
  function TaskListAsICal(l: TaskList, tasks: seq<Task>): (r: string)
    ensures StartsWith(r, BeginVCalendar + "\n")
    ensures EndsWith(r, EndVCalendar + "\n")
  {
    var head, mid, foot := JoinLines(CalendarHeader(l)), TasksAsICal(tasks), EndVCalendar + "\n";
    HeaderOpens(l, mid + foot);
    Framed(head, mid, foot, BeginVCalendar + "\n");
    head + mid + foot
  }

  lemma HeaderOpens(l: TaskList, body: string)
    ensures StartsWith(JoinLines(CalendarHeader(l)) + body, BeginVCalendar + "\n")
  {
    JoinLinesStartsWith(CalendarHeader(l), body);
    assert CalendarHeader(l)[0] == BeginVCalendar;
  }

  /** A text framed by a head and a foot keeps the head's prefix and ends
      with the foot. */
  lemma Framed(head: string, mid: string, foot: string, prefix: string)
    requires StartsWith(head + (mid + foot), prefix)
    ensures StartsWith(head + mid + foot, prefix)
    ensures EndsWith(head + mid + foot, foot)
  {
    assert head + mid + foot == head + (mid + foot);
    assert (head + mid + foot)[|head + mid + foot| - |foot|..] == foot;
  }

  /** `errands_task_list_from_ical`: the name is cut to 255 characters and
      defaults to "New List"; a missing colour is the generated `color`. */
  function TaskListFromICal(ical: string, uid: string, color: string): (r: TaskList)
    ensures r.uid == uid && r.showCompleted && !r.deleted && !r.synced
    ensures |r.name| <= DataStore.NameCapacity
    ensures GetIcalValue(ical, "X-WR-CALNAME") == None ==> r.name == "New List"
    ensures GetIcalValue(ical, "X-APPLE-CALENDAR-COLOR") == None ==> r.color == color
    ensures GetIcalValue(ical, "X-WR-CALNAME").Some? ==>
      r.name == DataStore.Truncate(GetIcalValue(ical, "X-WR-CALNAME").value, DataStore.NameCapacity)
    ensures GetIcalValue(ical, "X-APPLE-CALENDAR-COLOR").Some? ==>
      r.color == GetIcalValue(ical, "X-APPLE-CALENDAR-COLOR").value
  {
    var name := GetIcalValue(ical, "X-WR-CALNAME");
    TaskList(
      uid := uid,
      name := if name.Some? then DataStore.Truncate(name.value, DataStore.NameCapacity) else "New List",
      color := GetIcalValue(ical, "X-APPLE-CALENDAR-COLOR").GetOr(color),
      showCompleted := true,
      deleted := false,
      synced := false
    )
  }

  // --- CALENDAR ROUND TRIP --- //

  /** The VTODO line blocks of the tasks, in order. */
  function TodoBlocks(tasks: seq<Task>): (r: seq<seq<string>>)
    ensures |r| == |tasks| && forall i :: 0 <= i < |tasks| ==> r[i] == TodoLines(tasks[i])
  {
    Map(TodoLines, tasks)
  }

  predicate AllSingleLine(tasks: seq<Task>) {
    forall i :: 0 <= i < |tasks| ==> SingleLine(tasks[i])
  }

  lemma {:induction false} TasksAsICalLines(tasks: seq<Task>)
    ensures TasksAsICal(tasks) == JoinLines(Concat(TodoBlocks(tasks)))
  {
    if tasks != [] {
      var blocks := TodoBlocks(tasks);
      var head := TodoLines(tasks[0]);
      var rest := Concat(TodoBlocks(tasks[1..]));
      calc {
        JoinLines(Concat(blocks));
        { assert Concat([head] + TodoBlocks(tasks[1..])) == head + rest; }
        JoinLines(head + rest);
        { JoinLinesAppend(head, rest); }
        JoinLines(head) + JoinLines(rest);
        { TasksAsICalLines(tasks[1..]); }
        TaskAsICal(tasks[0]) + TasksAsICal(tasks[1..]);
      }
    }
  }

  lemma TodoBlocksWellFormed(tasks: seq<Task>)
    requires AllSingleLine(tasks)
    ensures forall i :: 0 <= i < |tasks| ==> IsBlock(TodoBlocks(tasks)[i], BeginVTodo, EndVTodo)
    ensures forall i :: 0 <= i < |tasks| ==> AllNoNewline(TodoBlocks(tasks)[i])
  {
    forall i | 0 <= i < |tasks|
      ensures IsBlock(TodoBlocks(tasks)[i], BeginVTodo, EndVTodo) && AllNoNewline(TodoBlocks(tasks)[i])
    {
      TodoLinesShape(tasks[i]);
    }
  }

  lemma HeaderNoNewline(l: TaskList)
    requires NoNewline(l.name) && NoNewline(l.color)
    ensures AllNoNewline(CalendarHeader(l))
  {
    LineNoNewline("BEGIN", "VCALENDAR");
    LineNoNewline("VERSION", "2.0");
    LineNoNewline("PRODID", "-//Errands");
    LineNoNewline("X-WR-CALNAME", l.name);
    LineNoNewline("X-APPLE-CALENDAR-COLOR", l.color);
  }

  lemma HeaderHasNoVTodo(l: TaskList)
    ensures BeginVTodo !in CalendarHeader(l)
  {
    DelimiterLines();
    LineInjective("BEGIN", "VCALENDAR", "BEGIN", "VTODO");
    LineInjective("VERSION", "2.0", "BEGIN", "VTODO");
    LineInjective("PRODID", "-//Errands", "BEGIN", "VTODO");
    LineInjective("X-WR-CALNAME", l.name, "BEGIN", "VTODO");
    LineInjective("X-APPLE-CALENDAR-COLOR", l.color, "BEGIN", "VTODO");
  }

  lemma FooterShape()
    ensures NoNewline(EndVCalendar) && EndVCalendar != BeginVTodo
  {
    assert |EndVCalendar| != |BeginVTodo|;
  }

  /** The calendar text as lines, and the VTODO blocks found in it. */
  lemma CalendarShape(l: TaskList, tasks: seq<Task>)
    requires NoNewline(l.name) && NoNewline(l.color) && AllSingleLine(tasks)
    ensures SplitLines(TaskListAsICal(l, tasks)) == CalendarHeader(l) + (Concat(TodoBlocks(tasks)) + [EndVCalendar])
    ensures |GetVTodos(TaskListAsICal(l, tasks))| == |tasks|
    ensures forall i :: 0 <= i < |tasks| ==> GetVTodos(TaskListAsICal(l, tasks))[i] == TaskAsICal(tasks[i])
  {
    var blocks := TodoBlocks(tasks);
    assert TaskListAsICal(l, tasks) == JoinLines(CalendarHeader(l)) + TasksAsICal(tasks) + EndVCalendar + "\n";
    TasksAsICalLines(tasks);
    HeaderNoNewline(l);
    HeaderHasNoVTodo(l);
    TodoBlocksWellFormed(tasks);
    FooterShape();
    CalendarText(CalendarHeader(l), blocks, EndVCalendar);
  }

  /** Exporting a list and importing the result gives back every task of the
      store, in order, each as `Imported` describes. */
  lemma ExportImport(l: TaskList, tasks: seq<Task>, listUid: string, gen: nat -> string, now: string)
    requires NoNewline(l.name) && NoNewline(l.color) && AllSingleLine(tasks)
    ensures |TasksFromICal(TaskListAsICal(l, tasks), listUid, gen, now)| == |tasks|
    ensures forall i :: 0 <= i < |tasks| ==>
      TasksFromICal(TaskListAsICal(l, tasks), listUid, gen, now)[i] == Imported(tasks[i], listUid, gen(i), now)
  {
    CalendarShape(l, tasks);
    forall i | 0 <= i < |tasks|
      ensures TaskFromVTodo(TaskAsICal(tasks[i]), listUid, gen(i), now) == Imported(tasks[i], listUid, gen(i), now)
    {
      ImportOwnVTodo(tasks[i], listUid, gen(i), now);
    }
  }

  /** Looking `name` up past lines that do not carry it. */
  lemma FindValuePeel(h: seq<string>, k: nat, name: string)
    requires k <= |h|
    requires forall i :: 0 <= i < k ==> !StartsWith(h[i], name + ":")
    ensures FindValue(h, name) == FindValue(h[k..], name)
  {
    if k > 0 {
      FindValuePeel(h[1..], k - 1, name);
      assert h[1..][k - 1..] == h[k..];
    }
  }

  /** The header names the list and its colour. */
  lemma HeaderValues(l: TaskList)
    ensures FindValue(CalendarHeader(l), "X-WR-CALNAME") == Some(l.name)
    ensures FindValue(CalendarHeader(l), "X-APPLE-CALENDAR-COLOR") == Some(l.color)
  {
    HeaderValue(l, "X-WR-CALNAME", 3);
    HeaderValue(l, "X-APPLE-CALENDAR-COLOR", 4);
  }

  /** The header line `k` is the first one keyed `key`. */
  lemma HeaderValue(l: TaskList, key: string, k: nat)
    requires (key == "X-WR-CALNAME" && k == 3) || (key == "X-APPLE-CALENDAR-COLOR" && k == 4)
    ensures FindValue(CalendarHeader(l), key) == Some(if k == 3 then l.name else l.color)
  {
    var h := CalendarHeader(l);
    KeyPrefix("BEGIN", "VCALENDAR", key);
    KeyPrefix("VERSION", "2.0", key);
    KeyPrefix("PRODID", "-//Errands", key);
    KeyPrefix("X-WR-CALNAME", l.name, key);
    KeyPrefix("X-APPLE-CALENDAR-COLOR", l.color, key);
    FindValuePeel(h, k, key);
  }

  /** Reading a list back keeps its name (cut to 255 characters) and colour. */
  lemma ListRoundTrip(l: TaskList, tasks: seq<Task>, uid: string, color: string)
    requires NoNewline(l.name) && NoNewline(l.color) && AllSingleLine(tasks)
    ensures TaskListFromICal(TaskListAsICal(l, tasks), uid, color)
            == TaskList(uid, DataStore.Truncate(l.name, DataStore.NameCapacity), l.color, true, false, false)
  {
    CalendarShape(l, tasks);
    var rest := Concat(TodoBlocks(tasks)) + [EndVCalendar];
    HeaderValues(l);
    FindValueAppend(CalendarHeader(l), rest, "X-WR-CALNAME");
    FindValueAppend(CalendarHeader(l), rest, "X-APPLE-CALENDAR-COLOR");
  }
}
