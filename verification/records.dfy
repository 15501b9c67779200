/** The records the task store holds (the `TaskData` and `TaskListData`
    structs) and the store itself. Fixed-size C buffers become strings of
    any length; heap pointer arrays become sequences. */
module Records {

  /** One task, the local counterpart of a VTODO. */
  datatype Task = Task(
    uid: string,
    listUid: string,
    parent: string,          // "" for a root task
    text: string,
    notes: string,
    color: string,
    dueDate: string,         // "" when unset
    startDate: string,       // "" when unset
    rrule: string,
    priority: int,
    percentComplete: int,
    completed: bool,
    deleted: bool,
    trash: bool,
    notified: bool,
    expanded: bool,
    toolbarShown: bool,
    synced: bool,
    createdAt: string,
    changedAt: string,
    tags: seq<string>,
    attachments: seq<string>
  )

  /** One task list, the local counterpart of a calendar. */
  datatype TaskList = TaskList(
    uid: string,
    name: string,
    color: string,
    showCompleted: bool,
    deleted: bool,
    synced: bool
  )

  /** The process-wide state: task lists, tasks (newest first) and the global tag set. */
  datatype Store = Store(lists: seq<TaskList>, tasks: seq<Task>, tags: seq<string>)

  /** No two tasks share a uid. */
  predicate UniqueTaskUids(tasks: seq<Task>) {
    forall i, j :: 0 <= i < j < |tasks| ==> tasks[i].uid != tasks[j].uid
  }

  /** No two lists share a uid. */
  predicate UniqueListUids(lists: seq<TaskList>) {
    forall i, j :: 0 <= i < j < |lists| ==> lists[i].uid != lists[j].uid
  }

  predicate NoDuplicates(xs: seq<string>) {
    forall i, j :: 0 <= i < j < |xs| ==> xs[i] != xs[j]
  }

  /** The tag registry invariant: unique, non-empty strings. */
  predicate ValidTagSet(tags: seq<string>) {
    NoDuplicates(tags) && "" !in tags
  }
}
