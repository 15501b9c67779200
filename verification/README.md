# Errands core in Dafny

A model of the sequential logic under Errands, a GTK to-do application written
in C, with proofs about it. Three parts are modelled.

- **Task store and iCal converter** (`src/data.c`), modules `DataStore` and `ICal`.
  - The store is three sequences: task lists, tasks and tags.
  - Covered operations: adding a list or a task, deleting a list, looking a task up
    by uid, and adding or removing a tag.
  - The converter writes a task as a VTODO block and a list as a VCALENDAR, and
    reads both back.
  - The plain-text printer (module `Printer`) draws the boxed list title, then the
    task tree: 73-column wrapping, four spaces per nesting level.
- **CalDAV response interpretation** (`src/lib/caldav.c`), module `CalDAV`.
  - The calendar uuid is taken from the last path segment.
  - Response bodies are accumulated chunk by chunk.
  - `CalDAVList` is a growable array.
  - Two loops read the parsed multistatus replies: the calendar listing of a
    PROPFIND and the events of a calendar-query REPORT.
- **Task-list view decisions** (`src/task-list.c`), module `TaskListView`.
  - The completion statistics in the title.
  - The three visibility filters: completion, list uid and text search.
  - The nulls-first date comparators.
  - The "already sorted by completion" test and the sort-mode dispatcher.

Supporting modules:

- `Wrappers`: `Option` and `Checked`. `Checked.Undefined` marks a path on which
  the C code has undefined behaviour, such as a NULL dereference, a `size_t`
  wrapping below zero or a read outside a string.
- `Strings`: substring search, line splitting and joining.
- `Decimal`: `%d` output and `atoi`.
- `Records`: the `Task`, `TaskList` and `Store` records.
- `ICalText`: the two line helpers the converter relies on.
- `Xml`: the parsed XML tree.

The helpers `get_ical_value`, `get_vtodos`, `string_contains`,
`string_array_contains` and the XML parser `xml.h` are not part of this model.
Each is modelled by the behaviour its callers rely on:

- `get_ical_value(s, NAME)` is the rest of the first line that starts with `NAME:`.
- `get_vtodos` returns the `BEGIN:VTODO` … `END:VTODO` line blocks, in order.
- `string_contains` is substring search.
- `string_array_contains` is an exact element match.
- `xml_node_find_tag` returns the first descendant in document order carrying the
  tag. `xml_node_child_at` and `xml_node_attr` are first-match lookups, and
  `xml_node_attr` of a NULL node is NULL.

These parts of the environment become parameters:

- Generated uuids (`gen: nat -> string`, or a `uid` argument).
- Random colours (`color`).
- The clock (`now`).
- `parse_date` (`parse: string -> Option<int>`).

## Model

| member | source | states |
|---|---|---|
| DataStore.Truncate | src/data.c:394 | a name longer than 255 characters is stored as its first 255 characters; a name of at most 255 characters is kept whole |
| DataStore.AddList | src/data.c:390-401 | a new list is appended with the given uid and colour, shown-completed, not deleted or synced; tasks and tags are untouched; a fresh uid keeps list uids unique |
| DataStore.DeleteList | src/data.c:403-420 | the list is tombstoned in place, every other list is unchanged, and the tasks are exactly those of other lists, each with its old number of copies and in the old relative order |
| DataStore.DeleteListCascade | src/data.c:403-420 | after deleting a list no lookup returns one of its tasks; with unique uids a uid of a removed task is no longer found at all |
| DataStore.AddTask | src/data.c:454-481 | the new task is inserted at index 0 ahead of the unchanged old tasks, carries the given text, list and parent, has empty strings, zero numbers and false flags, and takes its modification and creation times from two successive clock readings; a fresh uid keeps task uids unique |
| DataStore.GetTask | src/data.c:491-499 | the lookup as written: the first task with the uid on a hit, the last task of the store on a miss, and NULL only for an empty store |
| DataStore.FindTask | src/data.c:491-499 | the corrected lookup: some task carries the uid exactly when a task is returned, and it is the first such task |
| DataStore.GetTaskAgreesOnHit | src/data.c:491-499 | whenever some task has the uid, the lookup as written and the corrected lookup return the same task |
| DataStore.GetTaskMissReturnsLast | src/data.c:491-499 | for tasks `a`, `b` and the absent uid `c`, the lookup as written returns `b` while the corrected lookup returns nothing |
| DataStore.TagAdd | src/data.c:724-733 | the empty tag and a tag already present change nothing; otherwise the tag is prepended; a duplicate-free tag set of non-empty tags stays so |
| DataStore.TagAddIdempotent | src/data.c:724-733 | adding a tag twice is the same as adding it once |
| DataStore.RemoveAll | src/data.c:743-751 | the per-task loop with its `j--` removes every copy of the tag and keeps every other tag, with its number of copies, in order |
| DataStore.RemoveSkippingNext | src/data.c:737-741 | the global-tag loop without `i--` keeps every other tag with its number of copies and in its order (a subsequence), changes nothing when the tag is absent, and never grows the set |
| DataStore.RemoveSkippingNextOnUniqueTags | src/data.c:735-741 | on a duplicate-free tag set the skipping loop removes the tag exactly as removing every copy would |
| DataStore.RemoveSkippingNextKeepsAdjacentCopy | src/data.c:737-741 | with two adjacent copies in the global set, one copy survives |
| DataStore.TagRemove | src/data.c:735-752 | lists are unchanged; every task keeps its place and its tags become its old tags with every copy of the tag removed; the global set is what the skipping loop leaves, so other global tags stay, and a duplicate-free set loses exactly the tag |
| DataStore.LoadRecords | src/data.c:230-303 | loading keeps exactly the lists and tasks not marked deleted, each with its number of copies, in file order, and all tags |
| Decimal.AtoiOfIntToString | src/data.c:597-605 | reading a number back with `atoi` gives exactly the integer that `%d` wrote |
| ICal.JoinTags | src/data.c:538-546 | the CATEGORIES value is empty exactly when every tag is empty, and holds no line break when no tag does |
| ICal.TaskAsICal | src/data.c:501-550 | the VTODO text starts with the `BEGIN:VTODO` line and ends with the `END:VTODO` line, each followed by a bare line feed rather than CRLF |
| ICal.TaskAsICalValue | src/data.c:501-550 | each property read back from the VTODO is the value written for it: UID, SUMMARY, PRIORITY, PERCENT-COMPLETE and STATUS always, the optional fields only when non-empty, CATEGORIES only with tags |
| ICal.SummaryLineUnfolded | src/data.c:504 | the SUMMARY line is written whole, never folded, however long the text |
| ICal.CategoriesWithoutSeparator | src/data.c:538-546 | tags `a`, `b` and the single tag `ab` give the same VTODO, because no separator is written |
| ICal.TaskFromVTodoAsWritten | src/data.c:566-570 | as written, a present STATUS sets `completed` iff it is COMPLETED, and an absent one leaves whatever the allocation held |
| ICal.StatusAbsentLeavesCompletedUnset | src/data.c:566-570 | for a VTODO without STATUS the as-written reading depends on the uninitialised value |
| ICal.TaskFromVTodo | src/data.c:556-625 | a task read from a VTODO has the given list and a fresh uid; it is completed iff STATUS is COMPLETED, so an absent STATUS reads as open (the corrected reading); text, notes, colour, due and start dates, rrule and parent are the property values or their defaults ("Task Text" for SUMMARY, "" otherwise); priority and percentage are `atoi` of the value or 0; both timestamps default to the clock; it has no tags and every local flag false |
| ICal.TasksFromICal | src/data.c:552-629 | one task per VTODO block, in order, the i-th being that block read as one task with the i-th generated uid and the given list |
| ICal.ImportDescribed | src/data.c:556-625 | any VTODO carrying exactly the properties written for a task reads back as that task, up to the reset of identity, tags, local flags and empty timestamps |
| ICal.ImportOwnVTodo | src/data.c:501-625 | a task whose fields hold no line break survives its own VTODO in text, notes, colour, dates, rrule, parent, priority, percentage and completion |
| ICal.TaskRoundTrip | src/data.c:501-629 | exporting one single-line task and importing the text gives exactly one task, the imported form of the original |
| ICal.TaskListFromICal | src/data.c:437-450 | the list name is the X-WR-CALNAME value cut to 255 characters, or "New List" without one; the colour is the X-APPLE-CALENDAR-COLOR value, or the generated one without it; the list is shown-completed, not deleted or synced |
| ICal.TaskListAsICal | src/data.c:422-435 | the VCALENDAR text starts with the `BEGIN:VCALENDAR` line and ends with the `END:VCALENDAR` line, each followed by a bare line feed |
| ICal.CalendarShape | src/data.c:422-435 | for a list name, colour and task fields that hold no line break, the VCALENDAR text is the header lines, every task's VTODO lines and the footer; the VTODOs found in it are the tasks' VTODOs, in store order |
| ICal.ExportImport | src/data.c:422-435 | for a list name, colour and task fields that hold no line break, importing an exported list gives one task per task of the store, in order, each the imported form of the original |
| ICal.HeaderValues | src/data.c:423-425 | the header names the list with X-WR-CALNAME and its colour with X-APPLE-CALENDAR-COLOR |
| ICal.ListRoundTrip | src/data.c:422-450 | for a list name, colour and task fields that hold no line break, reading an exported list back keeps its name, cut to 255 characters, and its colour, with the given uid and the default flags |
| Printer.Indent | src/data.c:635-638 | the indent of a level is four spaces per level |
| Printer.PrintTask | src/data.c:640-660 | the character loop with its column counter prints the indent, the checkbox and the text, breaking before every character that falls past column 73 |
| Printer.ChunksCover | src/data.c:646-658 | cutting the text into line pieces loses and reorders nothing, and every piece but the last is full |
| Printer.WrapIsChunks | src/data.c:645-658 | the per-character break rule equals cutting the text into fixed-width pieces joined by the continuation break |
| Printer.TaskLineLayout | src/data.c:640-660 | below 19 levels of nesting, a printed task is its first line followed by continuation lines, and every line fits in 77 columns |
| Printer.TaskLineDeep | src/data.c:640-660 | from 19 levels of nesting on, the indent alone reaches the limit, so every character of the text goes on a continuation line of its own, and each such line is wider than 77 columns |
| Printer.PadTitle | src/data.c:698-711 | the centring loop gives the cell that has the name whole between its computed leading and trailing spaces |
| Printer.TitleCellShape | src/data.c:691-711 | the title cell is exactly 73 columns; a short name appears whole, one or two columns right of centre; a long name keeps 70 characters followed by "..." |
| Printer.BoxAligned | src/data.c:686-716 | the title box is three lines, each 77 columns wide |
| Printer.PrintEntries | src/data.c:662-671 | every printed entry is a task of the printed list, at least as deep as the call's level |
| Printer.PrintChildren | src/data.c:662-671 | the entries at the call's level are exactly the list's tasks under the parent, in store order |
| Printer.PrintNested | src/data.c:662-671 | each deeper entry's nearest shallower entry above it is its parent task, so the indentation shows the tree |
| Printer.PrintComplete | src/data.c:662-671 | below every printed task, the entries one level deeper in its block (up to the next entry no deeper than it) are exactly that task's sub-tasks in store order, so no sub-task is left out |
| Printer.PrintFinishes | src/data.c:662-671 | with unique, non-empty task uids the recursion ends within the store size |
| Printer.SharedUidNeverFinishes | src/data.c:662-671 | a root task and a task sharing its uid, filed under it, make the recursion run forever |
| Printer.ListName | src/data.c:678-685 | the title is the name of the first list with the uid, and there is none exactly when no list has it |
| Printer.PrintListShape | src/data.c:673-720 | for a known list with unique, non-empty task uids, the printout is the box around the name followed by a correctly nested tree whose top level is the list's root tasks in store order and in which every printed task's block holds, one level deeper, exactly its sub-tasks |
| Printer.PrintList | src/data.c:673-691 | the printout is the undefined unknown-list outcome exactly when no list has the uid, whose name is then read unset |
| CalDAV.ExtractUuidAsWritten | src/lib/caldav.c:25-43 | as written: the empty path gives ""; a path ending in `/seg` or `/seg/` with `seg` non-empty gives `seg` minus its final character; a non-empty path with no such segment (ending in `//`, just `/`, or without a slash) is undefined |
| CalDAV.ExtractUuid | src/lib/caldav.c:25-43 | the corrected extraction: the empty path gives "", and a defined result never contains '/' |
| CalDAV.ExtractUuidOffByOne | src/lib/caldav.c:38-40 | whenever the corrected result is non-empty, the code as written returns it without its last character |
| CalDAV.ExtractUuidSegment | src/lib/caldav.c:30-42 | the corrected extraction of `pre/seg` and of `pre/seg/` is `seg` |
| CalDAV.ExtractUuidTrailingSlash | src/lib/caldav.c:31-33 | one trailing '/' changes neither the as-written result nor the corrected one |
| CalDAV.ExtractUuidExample | src/lib/caldav.c:38-40 | for `/calendars/user/abcd-1234/` the code as written gives `abcd-123` and the corrected one `abcd-1234` |
| CalDAV.ExtractUuidUndefined | src/lib/caldav.c:31-37 | a lone "/" wraps `end` below zero and a path without '/' runs `start` off the front: both are undefined |
| CalDAV.WriteCallback | src/lib/caldav.c:53-65 | a failed allocation returns 0 and changes nothing; otherwise the body becomes old body followed by the chunk, `size` grows by the chunk length, the buffer stays NUL-terminated and the chunk length is returned |
| CalDAV.ReceiveConcatenates | src/lib/caldav.c:53-65 | after any number of chunks the body is everything received, in order, and is NUL-terminated |
| CalDAV.ListNew | src/lib/caldav.c:316-331 | a new list is empty with room for one item |
| CalDAV.ListAdd | src/lib/caldav.c:333-344 | adding keeps the length within the capacity; on success the item is put after the unchanged old ones, and a full list doubles its capacity first; a failed growth leaves the list as it was |
| CalDAV.ListAddAsWritten | src/lib/caldav.c:333-344 | as written, a full list whose growth fails keeps its items but records a doubled size; in every other case it acts as the corrected `ListAdd` |
| CalDAV.FailedGrowthOverflows | src/lib/caldav.c:333-344 | as written, a failed growth records a doubled size over the old allocation, and the next add writes past it |
| CalDAV.Collect | src/lib/caldav.c:237-259 | the response loop reads the reply without a NULL dereference iff every response does; then the list is valid, the items collected earlier are kept, and one item is added per announcing response |
| CalDAV.CollectItems | src/lib/caldav.c:207-215 | the items the loop adds are exactly those the responses announce, in response order |
| CalDAV.CalendarNew | src/lib/caldav.c:180-187 | a calendar keeps the given set, name and url; with `__extract_uuid` as written it is defined iff the url is empty or ends in a non-empty segment preceded by '/' (one trailing '/' ignored), and its uuid is that segment without its last character |
| CalDAV.CalendarNewCorrected | src/lib/caldav.c:180-187 | with the corrected extraction a calendar is defined iff the uuid is, keeps the given set, name and url, and its uuid holds no '/' |
| CalDAV.CalendarNewUuid | src/lib/caldav.c:180-187 | a calendar at `base pre/seg/` is known by `seg` less its last character as written, and by `seg` once corrected |
| CalDAV.ResponseCalendar | src/lib/caldav.c:238-257 | a response yields a calendar only if it qualifies: it has a supported-calendar-component-set whose first child is named VTODO, VTODO was asked for, and no deleted-calendar tag is present; any other requested set yields nothing |
| CalDAV.GetCalendarsSpec | src/lib/caldav.c:236-259 | the calendar listing is defined iff every response reads without a NULL dereference; then it holds one calendar per qualifying response, in response order, each the one that response announces |
| CalDAV.GetCalendarsOtherSet | src/lib/caldav.c:242 | asking for any component set other than VTODO yields an empty list |
| CalDAV.QualifyingCalendar | src/lib/caldav.c:245-251 | a listed calendar has set VTODO, the displayname text as its name, `base ++ href` as its url, and the uuid that `__extract_uuid` as written takes from that url |
| CalDAV.GetCalendars | src/lib/caldav.c:233-259 | a reply whose root has no multistatus child is read through NULL; a listing read without a NULL dereference is a valid list with at most one calendar per response |
| CalDAV.GetEvents | src/lib/caldav.c:204-215 | a reply whose root has no multistatus child is read through NULL; a listing read without a NULL dereference is a valid list with at most one event per response |
| CalDAV.EventOf | src/lib/caldav.c:208-213 | an event is read iff the response has both href and calendar-data; its url is `base ++ href` and its iCal is the calendar-data text |
| CalDAV.GetEventsSpec | src/lib/caldav.c:206-215 | the event listing holds exactly one event per response, in order, each with url `base ++ href` and the calendar-data text; it is defined iff every response has both tags |
| TaskListView.TitleStats | src/task-list.c:162-199 | the loops count the live tasks, in the selected list when there is one, and the completed ones among them; completed never exceeds total |
| TaskListView.UpdateTitle | src/task-list.c:162-199 | the title is "All Tasks" or the selected list's name; the subtitle is "Completed: c / t", where t counts the counted tasks and c the completed ones among them, and is empty iff no task is counted |
| TaskListView.CountedAppend | src/task-list.c:186-195 | counting is per task: the counted tasks of two runs of tasks are the counted tasks of each, one after the other |
| TaskListView.CountedMembers | src/task-list.c:169-175 | a task is counted iff it is in the store, neither deleted nor trashed, and in the selected list when one is selected |
| TaskListView.FilterByCompletion | src/task-list.c:201-210 | one reveal per row, in row order: each row is revealed exactly when its task is live and either open or completed tasks are shown, with one reveal per sub-row beneath it (the rule at every depth is `FilterByCompletionDeep`) |
| TaskListView.FilterByCompletionDeep | src/task-list.c:201-210 | every row at every depth is revealed exactly when its task is live and either open or completed tasks are shown |
| TaskListView.FilterByUid | src/task-list.c:212-226 | one visibility flag per top-level row, decided by that row's task alone |
| TaskListView.VisibleByUidSpec | src/task-list.c:212-226 | for a list uid a row shows iff it belongs to that list and is not deleted, trashed or not; for "" it shows iff it is live, or not deleted and without a list |
| TaskListView.FilterByText | src/task-list.c:228-255 | one visibility flag per top-level row, decided by that row's task, the selected list and the query |
| TaskListView.VisibleByTextSpec | src/task-list.c:228-255 | a row shows iff it is not deleted, the query occurs in its text or notes or equals a tag, and, when a list with a non-empty uid is selected, it belongs to that list |
| TaskListView.EmptyQueryShowsAll | src/task-list.c:237-253 | the empty query shows every row that is not deleted and is in scope |
| TaskListView.CompareDates | src/task-list.c:298-310 | the comparator answers -1, 0 or 1; a missing date sorts before a present one and two missing dates are equal |
| TaskListView.CompareDatesOrder | src/task-list.c:298-310 | the comparator is antisymmetric, answers at most 0 iff the nulls-first order puts the first date no later, and 0 iff the dates are equal |
| TaskListView.NotAfterPreorder | src/task-list.c:298-310 | the nulls-first order is total and transitive |
| TaskListView.DueDateCompareSpec | src/task-list.c:298-310 | the due-date comparator is antisymmetric, puts a task without a due date first, and follows the nulls-first order of the parsed dates |
| TaskListView.CreationDateCompareSpec | src/task-list.c:345-357 | the creation-date comparator is antisymmetric, puts a task without a creation date first, and follows the nulls-first order of the parsed dates |
| TaskListView.SortedByCompletionAsWritten | src/task-list.c:257-268 | as written, a list passes iff every adjacent pair is an open task followed by a completed one |
| TaskListView.AsWrittenRejectsLongLists | src/task-list.c:257-268 | as written, every list of three or more rows, and two open rows, fail the test |
| TaskListView.SortedByCompletion | src/task-list.c:257-268 | the corrected test passes iff no completed row comes before an open one |
| TaskListView.SortPasses | src/task-list.c:374-385 | "manual" runs no pass; every other mode, including unknown ones, ends with the completion pass; due, created and priority each add their own pass first, and only then |

## Left out

- JSON persistence (`errands_data_read`, `errands_data_write` and the parsing in `errands_data_load`) is file and cJSON I/O. Only the skipping of deleted records is modelled, as `DataStore.LoadRecords`.
- The libical wrappers and the calendar and event directory scan in `src/data.c` are calls into a foreign library.
- The HTTP transport (`caldav_request`, URL discovery, `caldav_init`, `caldav_cleanup`) is libcurl network I/O. The loops take an already parsed reply and the base URL as arguments.
- The XML parser `xml.h` is not part of this model. The lookups are the first-match reading described above, with namespace prefixes already removed from tags.
- Widget work in `src/task-list.c` is left out: construction, signal handlers, the in-place reordering in `errands_task_list_sort_by_completion` and the `insert_before` loops after sorting. The dispatcher is modelled as the list of passes it runs.
- The priority comparator is left out. It returns a boolean rather than an ordering and casts its arguments wrongly, so it states no order.
- Memory management is not modelled: the free functions, allocation failure outside `write_callback` and `caldav_list_add`, and the fixed-size `strcpy` buffers, which are taken to be large enough.
- `generate_uuid`, `generate_hex`, `get_date_time` and `parse_date` are parameters. Dates are compared as integers.
- `DataStore.Truncate`: `strncpy(name, 255)` writes no terminating NUL for a name of 255 or more characters, and the record comes from `malloc`, so the stored name then runs on to whatever zero byte follows (src/data.c:244, 394, 440). The model takes exactly the first 255 characters.
- `ICal.TaskFromVTodo`: one clock value `now` stands for both `get_date_time` reads (src/data.c:573, 577), which may differ in the source.
- `ICal.TasksFromICal`: one clock value `now` stands for every `get_date_time` read across all VTODOs, which may differ in the source.
- Translation is not modelled: the strings wrapped in `_()`, such as "All Tasks" and "Completed:", are the English literals.
- Integer widths are not modelled. `priority` and `percent_complete` are unbounded integers, `atoi` does not overflow, and `size * nmemb` does not wrap.
- Text is a sequence of characters. The UTF-8 byte encoding of the box glyphs and of task text is not modelled; each glyph is one character.
- A NULL path given to `__extract_uuid` is not modelled, because a Dafny string is never NULL. The empty path is.
- `Printer.PrintEntries`: the recursion of `errands_print_tasks` is bounded by a fuel argument, and running out of fuel is reported as `None`. `Printer.PrintFinishes` shows the bound `|tasks| + 1` suffices under unique, non-empty uids. `Printer.SharedUidNeverFinishes` shows a store on which the real recursion never ends.
- `CalDAV.Collect` adds items with `realloc` always succeeding. A failed growth is covered separately by `CalDAV.ListAdd` and `CalDAV.FailedGrowthOverflows`.
- `ICal.TaskAsICalValue`: the read-back of VTODO properties holds for tasks whose text fields contain no line break. A line break in a field would end the property line early, and that case is not stated.
- `TaskListView.FilterByUid` and `TaskListView.FilterByText` give one flag per top-level row. Those filters do not descend into sub-task rows, and neither does the model.
- The centring of the title is one or two columns right of centre, as `Printer.TitleCellShape` states. That is cosmetic and is not logged as a finding.

## Findings

| source | as written | input that shows it | evidently intended | confidence | as-written member | corrected member |
|---|---|---|---|---|---|---|
| src/data.c:491-499 | `td` is assigned on every iteration and never reset, so a miss returns the last task | store `[a, b]`, uid `c` that neither has: returns `b` | NULL when no task has the uid | high, not executed | DataStore.GetTask, DataStore.GetTaskMissReturnsLast | DataStore.FindTask |
| src/data.c:566-570 | with STATUS absent, `completed` keeps whatever the fresh `malloc` block held | a VTODO with no STATUS line | `completed` false, as for every other new task | high, not executed | ICal.TaskFromVTodoAsWritten, ICal.StatusAbsentLeavesCompletedUnset | ICal.TaskFromVTodo |
| src/lib/caldav.c:38-40 | copies `end - start` characters, where `end` indexes the segment's last character | `/calendars/user/abcd-1234/` gives `abcd-123` | the whole last segment, `end - start + 1` characters | high, not executed | CalDAV.ExtractUuidAsWritten, CalDAV.ExtractUuidExample | CalDAV.ExtractUuid, CalDAV.ExtractUuidSegment, CalDAV.CalendarNewCorrected |
| src/lib/caldav.c:334-340 | `size` is doubled before `realloc` is checked, so a failure leaves `size` above the allocation | a full list whose `realloc` fails, then one more add | double `size` only once `realloc` succeeded | medium, not executed | CalDAV.ListAddAsWritten, CalDAV.FailedGrowthOverflows | CalDAV.ListAdd |
| src/task-list.c:263 | a pair fails when `completed - prev_completed <= 0`, so two equal neighbours fail | two open tasks, or any three tasks | fail only when completion drops, `< 0` | medium, not executed | TaskListView.SortedByCompletionAsWritten, TaskListView.AsWrittenRejectsLongLists | TaskListView.SortedByCompletion |

The last finding does no harm to the final order. The early return in
`errands_task_list_sort_by_completion` simply almost never fires, and the
reordering pass that follows runs anyway.
