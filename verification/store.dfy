/** The in-memory task store of `src/data.c`: list, task and tag operations.
    Generated uids, random colours and the clock are parameters; JSON
    persistence is not modelled (see README). */
module DataStore {
  import opened Wrappers
  import opened Records

  /** `strncpy(tl->name, name, 255)`: at most 255 characters are kept. */
  const NameCapacity: nat := 255

  function Truncate(s: string, n: nat): (r: string)
    ensures |r| <= n && r <= s
    ensures |s| <= n ==> r == s
    ensures |s| > n ==> |r| == n
  {
    if |s| <= n then s else s[..n]
  }

  /** `a` is `b` with some elements left out, the rest in the same order. */
  predicate Subsequence<T(==)>(a: seq<T>, b: seq<T>)
    decreases |b|
  {
    if a == [] then true
    else if b == [] then false
    else (a[0] == b[0] && Subsequence(a[1..], b[1..])) || Subsequence(a, b[1..])
  }

  // --- LISTS --- //

  /** `errands_data_add_list`: appends a fresh list with the given uid and colour. */
  function AddList(s: Store, name: string, uid: string, color: string): (r: (Store, TaskList))
    ensures r.0.lists == s.lists + [r.1]
    ensures r.0.tasks == s.tasks && r.0.tags == s.tags
    ensures r.1.uid == uid && r.1.color == color
    ensures |r.1.name| <= NameCapacity && r.1.name <= name
    ensures |name| <= NameCapacity ==> r.1.name == name
    ensures r.1.showCompleted && !r.1.deleted && !r.1.synced
    ensures UniqueListUids(s.lists) && (forall l :: l in s.lists ==> l.uid != uid) ==> UniqueListUids(r.0.lists)
  {
    var l := TaskList(uid, Truncate(name, NameCapacity), color, true, false, false);
    (Store(s.lists + [l], s.tasks, s.tags), l)
  }

  /** The tasks of `tasks` that do not belong to list `uid`, in order. */
  function WithoutList(tasks: seq<Task>, uid: string): (r: seq<Task>)
    ensures forall t :: t in r <==> t in tasks && t.listUid != uid
    ensures forall t :: multiset(r)[t] == if t.listUid != uid then multiset(tasks)[t] else 0
    ensures Subsequence(r, tasks)
  {
    if tasks == [] then []
    else
      assert tasks == [tasks[0]] + tasks[1..];
      if tasks[0].listUid == uid then WithoutList(tasks[1..], uid)
      else
        var rest := WithoutList(tasks[1..], uid);
        assert ([tasks[0]] + rest)[1..] == rest;
        [tasks[0]] + rest
  }

  /** `errands_data_delete_list` on the list at index `i`: tombstones the list
      and drops (not tombstones) every task of it. */
  function DeleteList(s: Store, i: nat): (r: Store)
    requires i < |s.lists|
    ensures |r.lists| == |s.lists|
    ensures r.lists[i] == s.lists[i].(deleted := true)
    ensures forall j :: 0 <= j < |s.lists| && j != i ==> r.lists[j] == s.lists[j]
    ensures forall t :: t in r.tasks <==> t in s.tasks && t.listUid != s.lists[i].uid
    ensures forall t :: multiset(r.tasks)[t] == if t.listUid != s.lists[i].uid then multiset(s.tasks)[t] else 0
    ensures Subsequence(r.tasks, s.tasks)
    ensures r.tags == s.tags
  {
    var l := s.lists[i];
    Store(s.lists[i := l.(deleted := true)], WithoutList(s.tasks, l.uid), s.tags)
  }

  lemma {:induction false} WithoutListAppend(a: seq<Task>, b: seq<Task>, uid: string)
    ensures WithoutList(a + b, uid) == WithoutList(a, uid) + WithoutList(b, uid)
  {
    if a == [] {
      assert a + b == b;
    } else {
      assert (a + b)[0] == a[0];
      assert (a + b)[1..] == a[1..] + b;
      WithoutListAppend(a[1..], b, uid);
    }
  }

  // --- TASKS --- //

  /** `errands_data_add_task`: a fresh task is put in front of all others.
      `changedNow` and `createdNow` are the two clock readings, in that order. */
  function AddTask(s: Store, text: string, listUid: string, parentUid: string,
                   uid: string, changedNow: string, createdNow: string): (r: (Store, Task))
    ensures r.0.tasks == [r.1] + s.tasks
    ensures r.0.lists == s.lists && r.0.tags == s.tags
    ensures var t := r.1;
      && t.uid == uid && t.text == text && t.listUid == listUid && t.parent == parentUid
      && t.notes == "" && t.rrule == "" && t.color == "" && t.dueDate == "" && t.startDate == ""
      && t.priority == 0 && t.percentComplete == 0
      && !t.completed && !t.deleted && !t.trash && !t.notified && !t.expanded
      && !t.toolbarShown && !t.synced
      && t.changedAt == changedNow && t.createdAt == createdNow
      && t.tags == [] && t.attachments == []
    ensures UniqueTaskUids(s.tasks) && (forall t :: t in s.tasks ==> t.uid != uid) ==> UniqueTaskUids(r.0.tasks)
  {
    var t := Task(uid, listUid, parentUid, text, "", "", "", "", "", 0, 0,
                  false, false, false, false, false, false, false, createdNow, changedNow, [], []);
    var tasks := [t] + s.tasks;
    assert forall k :: 0 < k < |tasks| ==> tasks[k] == s.tasks[k - 1] && tasks[k] in s.tasks;
    (Store(s.lists, tasks, s.tags), t)
  }

  /** The loop of `errands_data_get_task` from index `i` on, with `td` the
      pointer it has carried so far (never reset on a mismatch). */
  function ScanTasks(tasks: seq<Task>, uid: string, i: nat, td: Option<Task>): (r: Option<Task>)
    requires i <= |tasks|
    requires i == 0 ==> td == None
    requires i > 0 ==> td == Some(tasks[i - 1])
    ensures i == |tasks| ==> r == td
    ensures forall k :: (i <= k < |tasks| && tasks[k].uid == uid &&
                        (forall j :: i <= j < k ==> tasks[j].uid != uid)) ==> r == Some(tasks[k])
    ensures i < |tasks| && (forall k :: i <= k < |tasks| ==> tasks[k].uid != uid) ==>
      r == Some(tasks[|tasks| - 1])
    decreases |tasks| - i
  {
    if i == |tasks| then td
    else if tasks[i].uid == uid then Some(tasks[i])
    else ScanTasks(tasks, uid, i + 1, Some(tasks[i]))
  }

  /** `errands_data_get_task`, as written: the first task with the uid, but
      with no match the LAST task (NULL only for an empty store). */
  function GetTask(tasks: seq<Task>, uid: string): (r: Option<Task>)
    ensures r == None <==> tasks == []
    ensures forall k :: (0 <= k < |tasks| && tasks[k].uid == uid &&
                        (forall j :: 0 <= j < k ==> tasks[j].uid != uid)) ==> r == Some(tasks[k])
    ensures |tasks| > 0 && (forall k :: 0 <= k < |tasks| ==> tasks[k].uid != uid) ==>
      r == Some(tasks[|tasks| - 1])
  {
    var r := ScanTasks(tasks, uid, 0, None);
    var k := FirstUid(tasks, uid);
    assert k < |tasks| ==> r == Some(tasks[k]);
    r
  }

  /** Index of the first task with `uid`, or `|tasks|`. */
  function FirstUid(tasks: seq<Task>, uid: string): (k: nat)
    ensures k <= |tasks|
    ensures k < |tasks| ==> tasks[k].uid == uid
    ensures forall j :: 0 <= j < k ==> tasks[j].uid != uid
  {
    if tasks == [] then 0
    else if tasks[0].uid == uid then 0
    else 1 + FirstUid(tasks[1..], uid)
  }

  /** Corrected lookup: the first task with the uid, and NULL when none has it. */
  function FindTask(tasks: seq<Task>, uid: string): (r: Option<Task>)
    ensures r.Some? <==> exists k :: 0 <= k < |tasks| && tasks[k].uid == uid
    ensures r.Some? ==> r.value.uid == uid && r.value in tasks
    ensures forall k :: (0 <= k < |tasks| && tasks[k].uid == uid &&
                        (forall j :: 0 <= j < k ==> tasks[j].uid != uid)) ==> r == Some(tasks[k])
  {
    var k := FirstUid(tasks, uid);
    if k < |tasks| then Some(tasks[k]) else None
  }

  /** On a hit both lookups agree. */
  lemma GetTaskAgreesOnHit(tasks: seq<Task>, uid: string)
    requires FindTask(tasks, uid).Some?
    ensures GetTask(tasks, uid) == FindTask(tasks, uid)
  {
    var k := FirstUid(tasks, uid);
    assert k < |tasks|;
  }

  /** The quirk of `errands_data_get_task`: asking for a uid nobody has
      returns some other task. */
  lemma GetTaskMissReturnsLast(t: Task, u: Task)
    requires t.uid == "a" && u.uid == "b"
    ensures GetTask([t, u], "c") == Some(u)
    ensures FindTask([t, u], "c") == None
  {
    assert [t, u][0].uid != "c" && [t, u][1].uid != "c";
  }

  /** Tombstone cascade: after deleting a list, no lookup yields one of its tasks,
      and a removed task's uid (uids being unique) is no longer found at all. */
  lemma DeleteListCascade(s: Store, i: nat, u: string)
    requires i < |s.lists|
    ensures var r := DeleteList(s, i);
      && (GetTask(r.tasks, u).Some? ==> GetTask(r.tasks, u).value.listUid != s.lists[i].uid)
      && (FindTask(r.tasks, u).Some? ==> FindTask(r.tasks, u).value.listUid != s.lists[i].uid)
    ensures var r := DeleteList(s, i);
      UniqueTaskUids(s.tasks) && (exists t :: t in s.tasks && t.uid == u && t.listUid == s.lists[i].uid)
      ==> FindTask(r.tasks, u) == None
  {
    var r := DeleteList(s, i);
    var g := GetTask(r.tasks, u);
    if g.Some? {
      if k :| 0 <= k < |r.tasks| && r.tasks[k].uid == u {
        var f := FirstUid(r.tasks, u);
        assert g == Some(r.tasks[f]);
      } else {
        assert g == Some(r.tasks[|r.tasks| - 1]);
      }
      assert g.value in r.tasks;
    }
  }

  // --- TAGS --- //

  /** `errands_data_tag_add`: no-op for "" and for a tag already present
      (exact, case-sensitive match); otherwise the tag is put in front. */
  function TagAdd(tags: seq<string>, tag: string): (r: seq<string>)
    ensures tag == "" || tag in tags ==> r == tags
    ensures tag != "" && tag !in tags ==> r == [tag] + tags
    ensures forall x :: x in r <==> x in tags || (x == tag && tag != "")
    ensures ValidTagSet(tags) ==> ValidTagSet(r)
  {
    if tag == "" || tag in tags then tags
    else
      var r := [tag] + tags;
      assert forall k :: 0 < k < |r| ==> r[k] == tags[k - 1] && r[k] in tags;
      r
  }

  /** Adding the same tag twice is the same as adding it once. */
  lemma TagAddIdempotent(tags: seq<string>, tag: string)
    ensures TagAdd(TagAdd(tags, tag), tag) == TagAdd(tags, tag)
  {
  }

  /** Every occurrence of `tag` removed (the per-task loop, whose `j--`
      re-examines the element that slid into the freed slot). */
  function RemoveAll(xs: seq<string>, tag: string): (r: seq<string>)
    ensures forall x :: x in r <==> x in xs && x != tag
    ensures multiset(r) == multiset(xs)[tag := 0]
    ensures Subsequence(r, xs)
    ensures |r| <= |xs|
  {
    if xs == [] then []
    else
      assert xs == [xs[0]] + xs[1..];
      if xs[0] == tag then RemoveAll(xs[1..], tag)
      else
        var rest := RemoveAll(xs[1..], tag);
        assert ([xs[0]] + rest)[1..] == rest;
        [xs[0]] + rest
  }

  /** The loop over the global tag set, as written: after stealing index `i`
      it still advances `i`, so the element that slid into slot `i` is never
      examined. */
  function RemoveSkippingNext(xs: seq<string>, tag: string): (r: seq<string>)
    ensures multiset(r)[tag := 0] == multiset(xs)[tag := 0]
    ensures forall x :: x != tag ==> (x in r <==> x in xs)
    ensures Subsequence(r, xs)
    ensures tag !in xs ==> r == xs
    ensures |r| <= |xs|
  {
    if xs == [] then []
    else if xs[0] == tag then
      if |xs| == 1 then []
      else
        var rest := RemoveSkippingNext(xs[2..], tag);
        SkipStep(xs, tag, rest);
        [xs[1]] + rest
    else
      var rest := RemoveSkippingNext(xs[1..], tag);
      KeepStep(xs, tag, rest);
      [xs[0]] + rest
  }

  /** `r` is `xs` less some copies of `tag`: every other tag keeps its
      count and its order, and `r` equals `xs` when `tag` is absent. */
  ghost predicate SkipsOnly(r: seq<string>, xs: seq<string>, tag: string) {
    && multiset(r)[tag := 0] == multiset(xs)[tag := 0]
    && (forall x :: x != tag ==> (x in r <==> x in xs))
    && Subsequence(r, xs)
    && (tag !in xs ==> r == xs)
    && |r| <= |xs|
  }

  /** Dropping a leading `tag` and keeping the element after it. */
  lemma SkipStep(xs: seq<string>, tag: string, rest: seq<string>)
    requires |xs| >= 2 && xs[0] == tag && SkipsOnly(rest, xs[2..], tag)
    ensures SkipsOnly([xs[1]] + rest, xs, tag)
  {
    assert xs == [xs[0], xs[1]] + xs[2..];
    assert forall x :: x in xs <==> x == xs[0] || x == xs[1] || x in xs[2..];
    assert ([xs[1]] + rest)[1..] == rest && xs[1..][1..] == xs[2..];
    assert Subsequence([xs[1]] + rest, xs[1..]);
    var a, b := multiset([xs[1]] + rest), multiset(xs);
    assert a == multiset{xs[1]} + multiset(rest) && b == multiset{xs[0], xs[1]} + multiset(xs[2..]);
    var ma, mb := a[tag := 0], b[tag := 0];
    forall x ensures ma[x] == mb[x] {
      if x != tag {
        assert multiset(rest)[x] == multiset(rest)[tag := 0][x];
      }
    }
    assert ma == mb;
  }

  /** Keeping a leading tag other than `tag`. */
  lemma KeepStep(xs: seq<string>, tag: string, rest: seq<string>)
    requires |xs| >= 1 && xs[0] != tag && SkipsOnly(rest, xs[1..], tag)
    ensures SkipsOnly([xs[0]] + rest, xs, tag)
  {
    assert xs == [xs[0]] + xs[1..];
    assert forall x :: x in xs <==> x == xs[0] || x in xs[1..];
    assert ([xs[0]] + rest)[1..] == rest;
    var a, b := multiset([xs[0]] + rest), multiset(xs);
    assert a == multiset{xs[0]} + multiset(rest) && b == multiset{xs[0]} + multiset(xs[1..]);
    var ma, mb := a[tag := 0], b[tag := 0];
    forall x ensures ma[x] == mb[x] {
      if x != tag {
        assert multiset(rest)[x] == multiset(rest)[tag := 0][x];
      }
    }
    assert ma == mb;
  }

  /** On a duplicate-free tag set the skipping loop removes the tag entirely. */
  lemma {:induction false} RemoveSkippingNextOnUniqueTags(xs: seq<string>, tag: string)
    requires NoDuplicates(xs)
    ensures RemoveSkippingNext(xs, tag) == RemoveAll(xs, tag)
  {
    if xs != [] {
      assert NoDuplicates(xs[1..]) by {
        forall i, j | 0 <= i < j < |xs| - 1 ensures xs[1..][i] != xs[1..][j] {
          assert xs[1..][i] == xs[i + 1] && xs[1..][j] == xs[j + 1];
        }
      }
      if xs[0] == tag {
        if |xs| > 1 {
          assert xs[1] != tag;
          assert xs[1..][1..] == xs[2..];
          assert NoDuplicates(xs[2..]) by {
            forall i, j | 0 <= i < j < |xs| - 2 ensures xs[2..][i] != xs[2..][j] {
              assert xs[2..][i] == xs[i + 2] && xs[2..][j] == xs[j + 2];
            }
          }
          RemoveSkippingNextOnUniqueTags(xs[2..], tag);
          assert tag !in xs[1..] by {
            forall k | 0 <= k < |xs| - 1 ensures xs[1..][k] != tag {
              assert xs[1..][k] == xs[k + 1];
            }
          }
          assert RemoveAll(xs[1..], tag) == [xs[1]] + RemoveAll(xs[2..], tag);
        }
      } else {
        RemoveSkippingNextOnUniqueTags(xs[1..], tag);
      }
    }
  }

  /** With duplicates in the global set, one copy survives. */
  lemma RemoveSkippingNextKeepsAdjacentCopy()
    ensures RemoveSkippingNext(["x", "x"], "x") == ["x"]
  {
    assert ["x", "x"][2..] == [];
  }

  /** `errands_data_tag_remove`: drops `tag` from every task's tag list and
      from the global set (entirely when that set has no duplicates). */
  function TagRemove(s: Store, tag: string): (r: Store)
    ensures r.lists == s.lists
    ensures |r.tasks| == |s.tasks|
    ensures forall i :: 0 <= i < |r.tasks| ==>
      && tag !in r.tasks[i].tags
      && (forall x :: x != tag ==> (x in r.tasks[i].tags <==> x in s.tasks[i].tags))
      && Subsequence(r.tasks[i].tags, s.tasks[i].tags)
      && r.tasks[i] == s.tasks[i].(tags := r.tasks[i].tags)
    ensures forall i :: 0 <= i < |r.tasks| ==> r.tasks[i].tags == RemoveAll(s.tasks[i].tags, tag)
    ensures r.tags == RemoveSkippingNext(s.tags, tag)
    ensures forall x :: x != tag ==> (x in r.tags <==> x in s.tags)
    ensures NoDuplicates(s.tags) ==> tag !in r.tags && r.tags == RemoveAll(s.tags, tag)
  {
    var tags := RemoveSkippingNext(s.tags, tag);
    var tasks := seq(|s.tasks|, i requires 0 <= i < |s.tasks| =>
      s.tasks[i].(tags := RemoveAll(s.tasks[i].tags, tag)));
    assert NoDuplicates(s.tags) ==> tags == RemoveAll(s.tags, tag) by {
      if NoDuplicates(s.tags) { RemoveSkippingNextOnUniqueTags(s.tags, tag); }
    }
    Store(s.lists, tasks, tags)
  }

  // --- LOADING --- //

  function LiveLists(lists: seq<TaskList>): (r: seq<TaskList>)
    ensures forall l :: l in r <==> l in lists && !l.deleted
    ensures forall l :: multiset(r)[l] == if !l.deleted then multiset(lists)[l] else 0
    ensures Subsequence(r, lists)
  {
    if lists == [] then []
    else
      assert lists == [lists[0]] + lists[1..];
      if lists[0].deleted then LiveLists(lists[1..])
      else
        var rest := LiveLists(lists[1..]);
        assert ([lists[0]] + rest)[1..] == rest;
        [lists[0]] + rest
  }

  function LiveTasks(tasks: seq<Task>): (r: seq<Task>)
    ensures forall t :: t in r <==> t in tasks && !t.deleted
    ensures forall t :: multiset(r)[t] == if !t.deleted then multiset(tasks)[t] else 0
    ensures Subsequence(r, tasks)
  {
    if tasks == [] then []
    else
      assert tasks == [tasks[0]] + tasks[1..];
      if tasks[0].deleted then LiveTasks(tasks[1..])
      else
        var rest := LiveTasks(tasks[1..]);
        assert ([tasks[0]] + rest)[1..] == rest;
        [tasks[0]] + rest
  }

  /** The record filter of `errands_data_load`: tombstoned lists and tasks
      are skipped, everything else is kept in file order; tags are kept. */
  function LoadRecords(lists: seq<TaskList>, tasks: seq<Task>, tags: seq<string>): (r: Store)
    ensures forall l :: l in r.lists <==> l in lists && !l.deleted
    ensures forall t :: t in r.tasks <==> t in tasks && !t.deleted
    ensures forall l :: multiset(r.lists)[l] == if !l.deleted then multiset(lists)[l] else 0
    ensures forall t :: multiset(r.tasks)[t] == if !t.deleted then multiset(tasks)[t] else 0
    ensures Subsequence(r.lists, lists) && Subsequence(r.tasks, tasks)
    ensures r.tags == tags
  {
    Store(LiveLists(lists), LiveTasks(tasks), tags)
  }
}
