/** The plain-text printout of a task list in `src/data.c`: a boxed title,
    then the list's task tree, one checkbox line per task, wrapped at a fixed
    width and indented by depth. Characters stand for the bytes `strlen`
    counts. */
module Printer {
  import opened Wrappers
  import opened Records
  import opened Strings

  /** `MAX_LINE_LENGTH`. */
  const MaxLineLength: nat := 73

  function Spaces(n: nat): (r: string)
    ensures |r| == n && forall i :: 0 <= i < n ==> r[i] == ' '
  {
    if n == 0 then "" else Spaces(n - 1) + " "
  }

  /** `__print_indent`: four spaces per level. */
  function Indent(level: nat): (r: string)
    ensures |r| == 4 * level && forall i :: 0 <= i < |r| ==> r[i] == ' '
  {
    Spaces(4 * level)
  }

  function Checkbox(completed: bool): (r: string)
    ensures |r| == 4
  {
    if completed then "[x] " else "[ ] "
  }

  // --- WRAPPING ONE TASK --- //

  /** Characters of text that fit on one line at nesting level `indent`:
      the position counter starts at `4 * indent` and wraps at 73. */
  function Width(indent: nat): int {
    MaxLineLength as int - 4 * indent
  }

  /** What is written before a wrapped character: a line feed and the
      continuation indent, one level deeper (and one level for the top). */
  function Break(indent: nat): (r: string)
    ensures |r| == 4 * indent + 5
  {
    "\n" + Indent(if indent == 0 then 1 else indent + 1)
  }

  /** Column of the character at `i` within its printed line, counted from
      the first text character of that line, for a width `w > 0`. */
  function Column(i: nat, w: nat): (c: nat)
    requires w > 0
    ensures c < w
  {
    if i == 0 then 0
    else
      var prev := Column(i - 1, w);
      if prev + 1 == w then 0 else prev + 1
  }

  /** The printer starts a new line before the character at `i`. */
  predicate BreakBefore(i: nat, w: int) {
    w <= 0 || (i > 0 && Column(i, w as nat) == 0)
  }

  /** The text with `brk` written before every character where a break falls. */
  function Wrap(text: string, w: int, brk: string): string
    decreases |text|
  {
    if text == [] then ""
    else
      var i := |text| - 1;
      Wrap(text[..i], w, brk) + (if BreakBefore(i, w) then brk else "") + [text[i]]
  }

  /** `errands_print_task`'s output, stated whole. */
  function TaskLine(t: Task, indent: nat): string {
    Indent(indent) + Checkbox(t.completed) + Wrap(t.text, Width(indent), brk := Break(indent)) + "\n"
  }

  /** One more character of the text: its break, if any, then itself. */
  lemma WrapStep(text: string, i: nat, w: int, brk: string)
    requires i < |text|
    ensures Wrap(text[..i + 1], w, brk)
         == Wrap(text[..i], w, brk) + (if BreakBefore(i, w) then brk else "") + [text[i]]
  {
    assert text[..i + 1][..i] == text[..i];
  }

  /** `errands_print_task`: the character loop with its position counter. */
  method PrintTask(t: Task, indent: nat) returns (out: string)
    ensures out == TaskLine(t, indent)
  {
    var text := t.text;
    var w := Width(indent);
    var brk := Break(indent);
    var start := Indent(indent) + Checkbox(t.completed);
    var body := "";
    var idx := indent * 4;
    var i := 0;
    while i < |text|
      invariant 0 <= i <= |text|
      invariant body == Wrap(text[..i], w, brk)
      invariant i == 0 ==> idx == indent * 4
      invariant i > 0 && w > 0 ==> idx == indent * 4 + Column(i - 1, w as nat) + 1
      invariant w <= 0 ==> idx >= MaxLineLength
    {
      var wraps := idx >= MaxLineLength;
      assert wraps == BreakBefore(i, w);
      if wraps {
        body := body + brk;
        idx := indent * 4;
      }
      body := body + [text[i]];
      idx := idx + 1;
      WrapStep(text, i, w, brk);
      i := i + 1;
    }
    assert text[..i] == text;
    out := start + body + "\n";
  }

  // --- AN INDEPENDENT VIEW: FIXED-WIDTH CHUNKS --- //

  /** The text cut into pieces of `w` characters, the last possibly shorter. */
  function Chunks(text: string, w: nat): (r: seq<string>)
    requires w > 0
    ensures forall k :: 0 <= k < |r| ==> 0 < |r[k]| <= w
    decreases |text|
  {
    if text == [] then []
    else if |text| <= w then [text]
    else [text[..w]] + Chunks(text[w..], w)
  }

  function JoinWith(parts: seq<string>, sep: string): string {
    if parts == [] then ""
    else if |parts| == 1 then parts[0]
    else parts[0] + sep + JoinWith(parts[1..], sep)
  }

  /** Cutting loses nothing and reorders nothing; every piece but the last is full. */
  lemma {:induction false} ChunksCover(text: string, w: nat)
    requires w > 0
    ensures Concat(Chunks(text, w)) == text
    ensures forall k :: 0 <= k < |Chunks(text, w)| - 1 ==> |Chunks(text, w)[k]| == w
    decreases |text|
  {
    if |text| > w {
      ChunksCover(text[w..], w);
      var r := Chunks(text, w);
      assert r[1..] == Chunks(text[w..], w);
      assert text == text[..w] + text[w..];
    }
  }

  /** A text no wider than `w` is written without a break. */
  lemma {:induction false} WrapShort(text: string, w: int, brk: string)
    requires 0 < |text| <= w
    ensures Wrap(text, w, brk) == text
    decreases |text|
  {
    var i := |text| - 1;
    if i > 0 {
      WrapShort(text[..i], w, brk);
    }
    if i > 0 {
      ColumnBelowWidth(i, w as nat);
    }
    assert !BreakBefore(i, w);
    assert text == text[..i] + [text[i]];
  }

  /** Columns count from 0 up to `w - 1` and start over. */
  lemma {:induction false} ColumnBelowWidth(i: nat, w: nat)
    requires 0 < w && i < w
    ensures Column(i, w) == i
  {
    if i > 0 {
      ColumnBelowWidth(i - 1, w);
    }
  }

  /** After a line start, columns repeat as from the beginning. */
  lemma {:induction false} ColumnShift(m: nat, j: nat, w: nat)
    requires w > 0 && Column(m, w) == 0
    ensures Column(m + j, w) == Column(j, w)
  {
    if j > 0 {
      ColumnShift(m, j - 1, w);
    }
  }

  /** A multiple of the width is a line start. */
  lemma {:induction false} ColumnOfMultiple(w: nat)
    requires w > 0
    ensures Column(w, w) == 0
  {
    ColumnBelowWidth(w - 1, w);
  }

  /** Wrapping restarts cleanly after a full line. */
  lemma {:induction false} WrapAppend(a: string, b: string, w: int, brk: string)
    requires w > 0 && |a| > 0 && Column(|a|, w as nat) == 0 && |b| > 0
    ensures Wrap(a + b, w, brk) == Wrap(a, w, brk) + brk + Wrap(b, w, brk)
    decreases |b|
  {
    var ab := a + b;
    var j := |b| - 1;
    var i := |ab| - 1;
    assert ab[..i] == a + b[..j];
    assert ab[i] == b[j];
    ColumnShift(|a|, j, w as nat);
    if j == 0 {
      assert a + b[..j] == a;
      assert BreakBefore(i, w);
      assert Wrap(b, w, brk) == [b[j]] by {
        assert b[..j] == [];
      }
    } else {
      WrapAppend(a, b[..j], w, brk);
      assert BreakBefore(i, w) == BreakBefore(j, w);
    }
  }

  /** The printer's per-character rule and the fixed-width cut agree: the
      wrapped text is the pieces of `w` characters joined by breaks. */
  lemma {:induction false} WrapIsChunks(text: string, w: nat, brk: string)
    requires w > 0
    ensures Wrap(text, w, brk) == JoinWith(Chunks(text, w), brk)
    decreases |text|
  {
    if text == [] {
    } else if |text| <= w {
      WrapShort(text, w, brk);
    } else {
      var a, b := text[..w], text[w..];
      assert text == a + b;
      ColumnOfMultiple(w);
      WrapAppend(a, b, w, brk);
      WrapShort(a, w, brk);
      WrapIsChunks(b, w, brk);
      var rest := Chunks(b, w);
      assert Chunks(text, w) == [a] + rest;
      assert |rest| > 0;
    }
  }

  /** Every character preceded by `sep`. */
  function Interleave(text: string, sep: string): string {
    if text == [] then "" else sep + [text[0]] + Interleave(text[1..], sep)
  }

  lemma {:induction false} InterleaveSnoc(text: string, c: char, sep: string)
    ensures Interleave(text + [c], sep) == Interleave(text, sep) + sep + [c]
    decreases |text|
  {
    if text == [] {
      assert [c][1..] == [];
    } else {
      assert (text + [c])[1..] == text[1..] + [c];
      InterleaveSnoc(text[1..], c, sep);
    }
  }

  /** With no room left (nesting 19 deep or more) every character gets a line of its own. */
  lemma {:induction false} WrapNarrow(text: string, w: int, brk: string)
    requires w <= 0
    ensures Wrap(text, w, brk) == Interleave(text, brk)
    decreases |text|
  {
    if text != [] {
      var i := |text| - 1;
      WrapNarrow(text[..i], w, brk);
      InterleaveSnoc(text[..i], text[i], brk);
      assert text[..i] + [text[i]] == text;
    }
  }

  /** Every printed line of a task fits in 77 columns: the first line holds
      the indent, the checkbox and at most one piece; each continuation
      holds the deeper indent and one piece. */
  lemma TaskLineLayout(t: Task, indent: nat)
    requires 4 * indent < MaxLineLength
    ensures var w := Width(indent) as nat;
      && TaskLine(t, indent)
         == Indent(indent) + Checkbox(t.completed) + JoinWith(Chunks(t.text, w), Break(indent)) + "\n"
      && (forall k :: 0 <= k < |Chunks(t.text, w)| ==> |Indent(indent)| + 4 + |Chunks(t.text, w)[k]| <= MaxLineLength + 4)
      && (forall k :: 0 <= k < |Chunks(t.text, w)| ==> |Break(indent)| - 1 + |Chunks(t.text, w)[k]| <= MaxLineLength + 4)
  {
    WrapIsChunks(t.text, Width(indent) as nat, Break(indent));
  }

  /** From 19 levels down the indent alone reaches column 73, so every
      character of the text is put on a continuation line of its own, and
      each of those lines is wider than 77 columns. */
  lemma TaskLineDeep(t: Task, indent: nat)
    requires MaxLineLength <= 4 * indent
    ensures TaskLine(t, indent)
         == Indent(indent) + Checkbox(t.completed) + Interleave(t.text, Break(indent)) + "\n"
    ensures |Break(indent)| - 1 + 1 > MaxLineLength + 4
  {
    WrapNarrow(t.text, Width(indent), Break(indent));
  }

  // --- THE TITLE BOX --- //

  /** Spaces put before a title of `len <= 72` characters by the centring
      loop; the rest of the 73 columns go after it. */
  function Lead(len: nat): nat
    requires len < MaxLineLength
  {
    (MaxLineLength - len) / 2 + 1
  }

  /** The 73 columns between "║ " and " ║": a long name is cut to 70
      characters followed by "...", a short one is padded on both sides. */
  function TitleCell(name: string): string {
    if |name| > MaxLineLength - 1 then name[..MaxLineLength - 3] + "..."
    else Spaces(Lead(|name|)) + name + Spaces(MaxLineLength - |name| - Lead(|name|))
  }

  /** The centring loop of `errands_data_print_list`: a space in front, then
      one behind while the title is still shorter than 72. */
  method PadTitle(name: string) returns (title: string)
    requires |name| < MaxLineLength
    ensures title == TitleCell(name)
  {
    title := name;
    var titleLen := |name|;
    ghost var before, after := 0, 0;
    assert title == Padded(name, before, after) by {
      assert Spaces(0) + name + Spaces(0) == name;
    }
    while titleLen <= MaxLineLength - 1
      invariant title == Padded(name, before, after)
      invariant titleLen == |name| + before + after <= MaxLineLength
      invariant PadBalance(titleLen, before, after)
      decreases MaxLineLength - titleLen
    {
      PadFront(name, before, after);
      title := " " + title;
      before := before + 1;
      titleLen := titleLen + 1;
      if titleLen < MaxLineLength - 1 {
        PadBack(name, before, after);
        title := title + " ";
        after := after + 1;
        titleLen := titleLen + 1;
      }
    }
    PadCount(|name|, before, after);
  }

  /** `name` with `before` spaces in front and `after` behind. */
  function Padded(name: string, before: nat, after: nat): (r: string)
    ensures |r| == before + |name| + after
  {
    Spaces(before) + name + Spaces(after)
  }

  lemma PadFront(name: string, before: nat, after: nat)
    ensures " " + Padded(name, before, after) == Padded(name, before + 1, after)
  {
    SpacesGrow(before);
    assert " " + (Spaces(before) + name + Spaces(after)) == (" " + Spaces(before)) + name + Spaces(after);
  }

  lemma PadBack(name: string, before: nat, after: nat)
    ensures Padded(name, before, after) + " " == Padded(name, before, after + 1)
  {
    SpacesGrow(after);
  }

  /** How far the front padding of the centring loop runs ahead of the back. */
  predicate PadBalance(titleLen: nat, before: nat, after: nat) {
    || (before == after && titleLen <= MaxLineLength - 1)
    || (before == after + 1 && titleLen >= MaxLineLength - 1)
    || (before == after + 2 && titleLen == MaxLineLength)
  }

  lemma SpacesGrow(n: nat)
    ensures " " + Spaces(n) == Spaces(n + 1) == Spaces(n) + " "
  {
  }

  /** When the centring loop stops, the padding is the one `TitleCell` puts. */
  lemma PadCount(len: nat, before: nat, after: nat)
    requires len < MaxLineLength && len + before + after == MaxLineLength
    requires PadBalance(MaxLineLength, before, after)
    ensures before == Lead(len) && after == MaxLineLength - len - Lead(len)
  {
  }

  /** The title always fills exactly 73 columns, so the box is closed. A
      short name appears whole, with one more space before it than after
      when 73 minus its length is odd and two more when that is even; a long
      name keeps its first 70 characters. */
  lemma TitleCellShape(name: string)
    ensures |TitleCell(name)| == MaxLineLength
    ensures |name| < MaxLineLength ==>
      var lead := Lead(|name|);
      var trail := MaxLineLength - |name| - lead;
      && TitleCell(name)[lead..lead + |name|] == name
      && (forall i :: 0 <= i < lead ==> TitleCell(name)[i] == ' ')
      && (forall i :: lead + |name| <= i < MaxLineLength ==> TitleCell(name)[i] == ' ')
      && lead == trail + (if (MaxLineLength - |name|) % 2 == 1 then 1 else 2)
    ensures |name| >= MaxLineLength ==>
      TitleCell(name)[..MaxLineLength - 3] == name[..MaxLineLength - 3]
      && TitleCell(name)[MaxLineLength - 3..] == "..."
  {
    if |name| < MaxLineLength {
      var lead := Lead(|name|);
      var c := TitleCell(name);
      assert c[lead..lead + |name|] == name;
    }
  }

  function Repeat(c: char, n: nat): (r: string)
    ensures |r| == n && forall i :: 0 <= i < n ==> r[i] == c
  {
    if n == 0 then "" else Repeat(c, n - 1) + [c]
  }

  /** The three lines of the box around the list name. */
  function BoxLines(name: string): seq<string> {
    [ "╔" + Repeat('═', MaxLineLength + 2) + "╗",
      "║ " + TitleCell(name) + " ║",
      "╚" + Repeat('═', MaxLineLength + 2) + "╝" ]
  }

  /** The box is the three lines, each 77 columns wide. */
  lemma BoxAligned(name: string)
    ensures var lines := BoxLines(name);
      |lines| == 3 && forall k :: 0 <= k < 3 ==> |lines[k]| == MaxLineLength + 4
  {
    TitleCellShape(name);
  }

  // --- THE TASK TREE --- //

  /** One printed task and its nesting level. */
  datatype Entry = Entry(task: Task, depth: nat)

  /** Every entry is a task of the store in the printed list, at least `depth` deep. */
  predicate Within(es: seq<Entry>, tasks: seq<Task>, listUid: string, depth: nat) {
    forall k :: 0 <= k < |es| ==>
      es[k].task in tasks && es[k].task.listUid == listUid && es[k].depth >= depth
  }

  /** `errands_print_tasks`: the tasks of `listUid` whose parent is
      `parent`, in store order, each followed by its own subtree one level
      deeper. The C recursion has no bound; `fuel` bounds its depth, and
      `None` means the bound was reached. */
  function PrintEntries(tasks: seq<Task>, parent: string, listUid: string, depth: nat, fuel: nat)
    : (r: Option<seq<Entry>>)
    ensures r.Some? ==> Within(r.value, tasks, listUid, depth)
    decreases fuel, |tasks| + 1
  {
    if fuel == 0 then None else ScanEntries(tasks, 0, parent, listUid, depth, fuel)
  }

  /** The loop of `errands_print_tasks` from index `j` on. */
  function ScanEntries(tasks: seq<Task>, j: nat, parent: string, listUid: string, depth: nat, fuel: nat)
    : (r: Option<seq<Entry>>)
    requires fuel > 0
    ensures r.Some? ==> Within(r.value, tasks, listUid, depth)
    ensures r.Some? && r.value != [] ==> r.value[0].depth == depth
    decreases fuel, |tasks| - j
  {
    if j >= |tasks| then Some([])
    else
      var rest := ScanEntries(tasks, j + 1, parent, listUid, depth, fuel);
      var t := tasks[j];
      if t.parent == parent && t.listUid == listUid then
        var sub := PrintEntries(tasks, t.uid, listUid, depth + 1, fuel - 1);
        if sub.None? || rest.None? then None
        else Some([Entry(t, depth)] + sub.value + rest.value)
      else rest
  }

  /** The printed text of some entries. */
  function Render(es: seq<Entry>): string {
    if es == [] then "" else TaskLine(es[0].task, es[0].depth) + Render(es[1..])
  }

  /** The tasks of `listUid` under `parent`, from index `j` on, in store order. */
  function ChildrenFrom(tasks: seq<Task>, j: nat, parent: string, listUid: string): seq<Task>
    decreases |tasks| - j
  {
    if j >= |tasks| then []
    else if tasks[j].parent == parent && tasks[j].listUid == listUid then
      [tasks[j]] + ChildrenFrom(tasks, j + 1, parent, listUid)
    else ChildrenFrom(tasks, j + 1, parent, listUid)
  }

  /** The tasks of the entries exactly `d` deep, in order. */
  function AtDepth(es: seq<Entry>, d: nat): seq<Task> {
    if es == [] then []
    else if es[0].depth == d then [es[0].task] + AtDepth(es[1..], d)
    else AtDepth(es[1..], d)
  }

  lemma {:induction false} AtDepthAppend(a: seq<Entry>, b: seq<Entry>, d: nat)
    ensures AtDepth(a + b, d) == AtDepth(a, d) + AtDepth(b, d)
  {
    if a == [] {
      assert a + b == b;
    } else {
      assert (a + b)[1..] == a[1..] + b;
      AtDepthAppend(a[1..], b, d);
    }
  }

  lemma {:induction false} AtDepthDeeper(es: seq<Entry>, d: nat)
    requires forall k :: 0 <= k < |es| ==> es[k].depth > d
    ensures AtDepth(es, d) == []
  {
    if es != [] {
      AtDepthDeeper(es[1..], d);
    }
  }

  /** The shallowest entries are exactly the children of `parent` in the
      list, in store order: nothing is skipped, repeated or reordered. */
  lemma {:induction false} PrintChildren(tasks: seq<Task>, parent: string, listUid: string, depth: nat, fuel: nat)
    requires PrintEntries(tasks, parent, listUid, depth, fuel).Some?
    ensures AtDepth(PrintEntries(tasks, parent, listUid, depth, fuel).value, depth)
         == ChildrenFrom(tasks, 0, parent, listUid)
    decreases fuel, |tasks| + 1
  {
    ScanChildren(tasks, 0, parent, listUid, depth, fuel);
  }

  lemma {:induction false} ScanChildren(tasks: seq<Task>, j: nat, parent: string, listUid: string, depth: nat, fuel: nat)
    requires fuel > 0 && ScanEntries(tasks, j, parent, listUid, depth, fuel).Some?
    ensures AtDepth(ScanEntries(tasks, j, parent, listUid, depth, fuel).value, depth)
         == ChildrenFrom(tasks, j, parent, listUid)
    decreases fuel, |tasks| - j
  {
    if j < |tasks| {
      var rest := ScanEntries(tasks, j + 1, parent, listUid, depth, fuel);
      ScanChildren(tasks, j + 1, parent, listUid, depth, fuel);
      var t := tasks[j];
      if t.parent == parent && t.listUid == listUid {
        var sub := PrintEntries(tasks, t.uid, listUid, depth + 1, fuel - 1).value;
        AtDepthDeeper(sub, depth);
        AtDepthAppend([Entry(t, depth)] + sub, rest.value, depth);
        AtDepthAppend([Entry(t, depth)], sub, depth);
      }
    }
  }

  /** How a reader recovers the tree from the indentation: an entry at the
      top level has `parent` as parent, and any deeper entry's parent is the
      nearest entry above it that is one level shallower. */
  predicate Nested(es: seq<Entry>, depth: nat, parent: string) {
    forall k :: 0 <= k < |es| ==>
      (es[k].depth == depth && es[k].task.parent == parent)
      || (es[k].depth > depth && ParentAbove(es, k))
  }

  predicate ParentAbove(es: seq<Entry>, k: nat)
    requires k < |es|
  {
    exists j :: 0 <= j < k && es[j].depth + 1 == es[k].depth && es[j].task.uid == es[k].task.parent
      && forall m :: j < m < k ==> es[m].depth >= es[k].depth
  }

  /** Entry `k` of `b` keeps its parent above it when `a` is put in front. */
  lemma ParentAboveShift(a: seq<Entry>, b: seq<Entry>, k: nat)
    requires k < |b| && ParentAbove(b, k)
    ensures ParentAbove(a + b, |a| + k)
  {
    var j :| 0 <= j < k && b[j].depth + 1 == b[k].depth && b[j].task.uid == b[k].task.parent
      && forall m :: j < m < k ==> b[m].depth >= b[k].depth;
    var es := a + b;
    assert es[|a| + j] == b[j] && es[|a| + k] == b[k];
    forall m | |a| + j < m < |a| + k ensures es[m].depth >= es[|a| + k].depth {
      assert es[m] == b[m - |a|];
    }
  }

  /** Entry `k` of `a` keeps its parent above it when `b` is put behind. */
  lemma ParentAboveExtend(a: seq<Entry>, b: seq<Entry>, k: nat)
    requires k < |a| && ParentAbove(a, k)
    ensures ParentAbove(a + b, k)
  {
    var j :| 0 <= j < k && a[j].depth + 1 == a[k].depth && a[j].task.uid == a[k].task.parent
      && forall m :: j < m < k ==> a[m].depth >= a[k].depth;
    var es := a + b;
    assert es[j] == a[j] && es[k] == a[k];
    forall m | j < m < k ensures es[m].depth >= es[k].depth {
      assert es[m] == a[m];
    }
  }

  /** A direct child in the subtree finds the task entry as its parent. */
  lemma ChildFindsHead(t: Task, sub: seq<Entry>, rest: seq<Entry>, depth: nat, k: nat)
    requires 0 < k <= |sub|
    requires sub[k - 1].depth == depth + 1 && sub[k - 1].task.parent == t.uid
    requires forall m :: 0 <= m < |sub| ==> sub[m].depth >= depth + 1
    ensures ParentAbove([Entry(t, depth)] + sub + rest, k)
  {
    var es := [Entry(t, depth)] + sub + rest;
    assert es[k] == sub[k - 1];
    assert es[0].depth + 1 == es[k].depth && es[0].task.uid == es[k].task.parent;
    forall m | 0 < m < k ensures es[m].depth >= es[k].depth {
      assert es[m] == sub[m - 1];
    }
  }

  /** Every entry of a nested printout is at least `depth` deep. */
  lemma NestedDepth(es: seq<Entry>, depth: nat, parent: string)
    requires Nested(es, depth, parent)
    ensures forall m :: 0 <= m < |es| ==> es[m].depth >= depth
  {
  }

  /** A deeper entry of the subtree keeps its parent in the combined printout. */
  lemma SubEntryNested(t: Task, sub: seq<Entry>, rest: seq<Entry>, depth: nat, k: nat)
    requires 0 < k <= |sub|
    requires sub[k - 1].depth > depth + 1 && ParentAbove(sub, k - 1)
    ensures ParentAbove([Entry(t, depth)] + sub + rest, k)
  {
    var head := [Entry(t, depth)];
    ParentAboveShift(head, sub, k - 1);
    assert head + sub + rest == (head + sub) + rest;
    ParentAboveExtend(head + sub, rest, k);
  }

  /** An entry of the following siblings keeps its place in the combined printout. */
  lemma RestEntryNested(pre: seq<Entry>, rest: seq<Entry>, depth: nat, parent: string, k: nat)
    requires |pre| <= k < |pre| + |rest|
    requires Nested(rest, depth, parent)
    ensures var es := pre + rest;
      (es[k].depth == depth && es[k].task.parent == parent) || (es[k].depth > depth && ParentAbove(es, k))
  {
    var k' := k - |pre|;
    assert (pre + rest)[k] == rest[k'];
    if !(rest[k'].depth == depth && rest[k'].task.parent == parent) {
      ParentAboveShift(pre, rest, k');
    }
  }

  /** An entry of the subtree finds its parent above it in the combined printout. */
  lemma NestedInSub(t: Task, sub: seq<Entry>, rest: seq<Entry>, depth: nat, k: nat)
    requires Nested(sub, depth + 1, t.uid)
    requires 0 < k <= |sub|
    ensures var es := [Entry(t, depth)] + sub + rest;
      es[k].depth > depth && ParentAbove(es, k)
  {
    var es := [Entry(t, depth)] + sub + rest;
    assert es[k] == sub[k - 1];
    NestedDepth(sub, depth + 1, t.uid);
    if sub[k - 1].depth == depth + 1 && sub[k - 1].task.parent == t.uid {
      ChildFindsHead(t, sub, rest, depth, k);
    } else {
      SubEntryNested(t, sub, rest, depth, k);
    }
  }

  /** Entry `k` of a task entry, its subtree and the entries after it is
      placed as `Nested` demands. */
  lemma NestedConsAt(t: Task, sub: seq<Entry>, rest: seq<Entry>, depth: nat, parent: string, k: nat)
    requires t.parent == parent
    requires Nested(sub, depth + 1, t.uid) && Nested(rest, depth, parent)
    requires k < 1 + |sub| + |rest|
    ensures var es := [Entry(t, depth)] + sub + rest;
      (es[k].depth == depth && es[k].task.parent == parent) || (es[k].depth > depth && ParentAbove(es, k))
  {
    if 0 < k <= |sub| {
      NestedInSub(t, sub, rest, depth, k);
    } else if k > |sub| {
      RestEntryNested([Entry(t, depth)] + sub, rest, depth, parent, k);
    }
  }

  /** A task entry, its subtree and the entries after it form one nested printout. */
  lemma NestedCons(t: Task, sub: seq<Entry>, rest: seq<Entry>, depth: nat, parent: string)
    requires t.parent == parent
    requires Nested(sub, depth + 1, t.uid) && Nested(rest, depth, parent)
    ensures Nested([Entry(t, depth)] + sub + rest, depth, parent)
  {
    var es := [Entry(t, depth)] + sub + rest;
    forall k | 0 <= k < |es|
      ensures (es[k].depth == depth && es[k].task.parent == parent)
              || (es[k].depth > depth && ParentAbove(es, k))
    {
      NestedConsAt(t, sub, rest, depth, parent, k);
    }
  }

  /** The printout nests correctly: indentation tells each task's parent. */
  lemma {:induction false} PrintNested(tasks: seq<Task>, parent: string, listUid: string, depth: nat, fuel: nat)
    requires PrintEntries(tasks, parent, listUid, depth, fuel).Some?
    ensures Nested(PrintEntries(tasks, parent, listUid, depth, fuel).value, depth, parent)
    decreases fuel, |tasks| + 1
  {
    ScanNested(tasks, 0, parent, listUid, depth, fuel);
  }

  lemma {:induction false} ScanNested(tasks: seq<Task>, j: nat, parent: string, listUid: string, depth: nat, fuel: nat)
    requires fuel > 0 && ScanEntries(tasks, j, parent, listUid, depth, fuel).Some?
    ensures Nested(ScanEntries(tasks, j, parent, listUid, depth, fuel).value, depth, parent)
    decreases fuel, |tasks| - j
  {
    if j < |tasks| {
      ScanNested(tasks, j + 1, parent, listUid, depth, fuel);
      var t := tasks[j];
      if t.parent == parent && t.listUid == listUid {
        PrintNested(tasks, t.uid, listUid, depth + 1, fuel - 1);
        var sub := PrintEntries(tasks, t.uid, listUid, depth + 1, fuel - 1).value;
        var rest := ScanEntries(tasks, j + 1, parent, listUid, depth, fuel).value;
        NestedCons(t, sub, rest, depth, parent);
      }
    } else {
      assert ScanEntries(tasks, j, parent, listUid, depth, fuel).value == [];
    }
  }

  /** The entries right after a task entry that are deeper than it: the
      printed subtree of that task. */
  function TakeDeeper(es: seq<Entry>, d: nat): seq<Entry> {
    if es == [] || es[0].depth <= d then [] else [es[0]] + TakeDeeper(es[1..], d)
  }

  /** The block printed under entry `k`. */
  function Block(es: seq<Entry>, k: nat): seq<Entry>
    requires k < |es|
  {
    TakeDeeper(es[k + 1..], es[k].depth)
  }

  /** Every printed task has all of its children printed in its block, one
      level deeper, in store order, and nothing else at that level. */
  predicate Complete(es: seq<Entry>, tasks: seq<Task>, listUid: string) {
    forall k :: 0 <= k < |es| ==> BlockComplete(es, k, tasks, listUid)
  }

  predicate BlockComplete(es: seq<Entry>, k: nat, tasks: seq<Task>, listUid: string)
    requires k < |es|
  {
    AtDepth(Block(es, k), es[k].depth + 1) == ChildrenFrom(tasks, 0, es[k].task.uid, listUid)
  }

  lemma {:induction false} TakeDeeperAllDeeper(a: seq<Entry>, b: seq<Entry>, d: nat)
    requires forall m :: 0 <= m < |a| ==> a[m].depth > d
    ensures TakeDeeper(a + b, d) == a + TakeDeeper(b, d)
  {
    if a == [] {
      assert a + b == b;
    } else {
      assert (a + b)[1..] == a[1..] + b;
      TakeDeeperAllDeeper(a[1..], b, d);
    }
  }

  lemma {:induction false} TakeDeeperStops(a: seq<Entry>, b: seq<Entry>, d: nat)
    requires b == [] || b[0].depth <= d
    ensures TakeDeeper(a + b, d) == TakeDeeper(a, d)
  {
    if a == [] {
      assert a + b == b;
    } else {
      assert (a + b)[0] == a[0] && (a + b)[1..] == a[1..] + b;
      TakeDeeperStops(a[1..], b, d);
    }
  }

  /** The block of the task entry is its subtree. */
  lemma BlockOfHead(t: Task, sub: seq<Entry>, rest: seq<Entry>, depth: nat)
    requires forall m :: 0 <= m < |sub| ==> sub[m].depth > depth
    requires rest == [] || rest[0].depth <= depth
    ensures Block([Entry(t, depth)] + sub + rest, 0) == sub
  {
    var es := [Entry(t, depth)] + sub + rest;
    assert es[1..] == sub + rest;
    TakeDeeperAllDeeper(sub, rest, depth);
    assert TakeDeeper(rest, depth) == [];
    assert sub + [] == sub;
  }

  /** An entry of the subtree has the same block as in the subtree alone. */
  lemma BlockInSub(t: Task, sub: seq<Entry>, rest: seq<Entry>, depth: nat, k: nat)
    requires 0 < k <= |sub|
    requires forall m :: 0 <= m < |sub| ==> sub[m].depth > depth
    requires rest == [] || rest[0].depth <= depth
    ensures var es := [Entry(t, depth)] + sub + rest;
      es[k] == sub[k - 1] && Block(es, k) == Block(sub, k - 1)
  {
    var es := [Entry(t, depth)] + sub + rest;
    assert es[k] == sub[k - 1];
    assert es[k + 1..] == sub[k..] + rest;
    TakeDeeperStops(sub[k..], rest, sub[k - 1].depth);
  }

  /** An entry after the subtree has the same block as among the following siblings alone. */
  lemma BlockInRest(pre: seq<Entry>, rest: seq<Entry>, k: nat)
    requires |pre| <= k < |pre| + |rest|
    ensures (pre + rest)[k] == rest[k - |pre|] && Block(pre + rest, k) == Block(rest, k - |pre|)
  {
    assert (pre + rest)[k + 1..] == rest[k - |pre| + 1..];
  }

  lemma CompleteHead(tasks: seq<Task>, listUid: string, t: Task, sub: seq<Entry>, rest: seq<Entry>, depth: nat)
    requires forall m :: 0 <= m < |sub| ==> sub[m].depth > depth
    requires rest == [] || rest[0].depth <= depth
    requires AtDepth(sub, depth + 1) == ChildrenFrom(tasks, 0, t.uid, listUid)
    ensures BlockComplete([Entry(t, depth)] + sub + rest, 0, tasks, listUid)
  {
    BlockOfHead(t, sub, rest, depth);
    HeadBlockComplete(tasks, listUid, t, sub, rest, depth);
  }

  lemma HeadBlockComplete(tasks: seq<Task>, listUid: string, t: Task, sub: seq<Entry>, rest: seq<Entry>, depth: nat)
    requires Block([Entry(t, depth)] + sub + rest, 0) == sub
    requires AtDepth(sub, depth + 1) == ChildrenFrom(tasks, 0, t.uid, listUid)
    ensures BlockComplete([Entry(t, depth)] + sub + rest, 0, tasks, listUid)
  {
  }

  lemma CompleteInSub(tasks: seq<Task>, listUid: string, t: Task, sub: seq<Entry>, rest: seq<Entry>, depth: nat, k: nat)
    requires forall m :: 0 <= m < |sub| ==> sub[m].depth > depth
    requires rest == [] || rest[0].depth <= depth
    requires 0 < k <= |sub| && BlockComplete(sub, k - 1, tasks, listUid)
    ensures BlockComplete([Entry(t, depth)] + sub + rest, k, tasks, listUid)
  {
    BlockInSub(t, sub, rest, depth, k);
  }

  lemma CompleteInRest(tasks: seq<Task>, listUid: string, pre: seq<Entry>, rest: seq<Entry>, k: nat)
    requires |pre| <= k < |pre| + |rest| && BlockComplete(rest, k - |pre|, tasks, listUid)
    ensures BlockComplete(pre + rest, k, tasks, listUid)
  {
    BlockInRest(pre, rest, k);
  }

  /** Entry `k` of a task entry, its subtree and the entries after it has a complete block. */
  lemma CompleteConsAt(tasks: seq<Task>, listUid: string, t: Task, sub: seq<Entry>, rest: seq<Entry>, depth: nat, k: nat)
    requires forall m :: 0 <= m < |sub| ==> sub[m].depth > depth
    requires rest == [] || rest[0].depth <= depth
    requires AtDepth(sub, depth + 1) == ChildrenFrom(tasks, 0, t.uid, listUid)
    requires Complete(sub, tasks, listUid) && Complete(rest, tasks, listUid)
    requires k < 1 + |sub| + |rest|
    ensures BlockComplete([Entry(t, depth)] + sub + rest, k, tasks, listUid)
  {
    if k == 0 {
      CompleteHead(tasks, listUid, t, sub, rest, depth);
    } else if k <= |sub| {
      CompleteInSub(tasks, listUid, t, sub, rest, depth, k);
    } else {
      CompleteInRest(tasks, listUid, [Entry(t, depth)] + sub, rest, k);
      assert [Entry(t, depth)] + sub + rest == ([Entry(t, depth)] + sub) + rest;
    }
  }

  /** A task entry, its subtree and the entries after it keep every block complete. */
  lemma CompleteCons(tasks: seq<Task>, listUid: string, t: Task, sub: seq<Entry>, rest: seq<Entry>, depth: nat)
    requires forall m :: 0 <= m < |sub| ==> sub[m].depth > depth
    requires rest == [] || rest[0].depth <= depth
    requires AtDepth(sub, depth + 1) == ChildrenFrom(tasks, 0, t.uid, listUid)
    requires Complete(sub, tasks, listUid) && Complete(rest, tasks, listUid)
    ensures Complete([Entry(t, depth)] + sub + rest, tasks, listUid)
  {
    var es := [Entry(t, depth)] + sub + rest;
    forall k | 0 <= k < |es|
      ensures BlockComplete(es, k, tasks, listUid)
    {
      CompleteConsAt(tasks, listUid, t, sub, rest, depth, k);
    }
  }

  /** Every printed task is followed, one level deeper, by exactly its own
      children in the list, in store order: no sub-task is dropped. */
  lemma {:induction false} PrintComplete(tasks: seq<Task>, parent: string, listUid: string, depth: nat, fuel: nat)
    requires PrintEntries(tasks, parent, listUid, depth, fuel).Some?
    ensures Complete(PrintEntries(tasks, parent, listUid, depth, fuel).value, tasks, listUid)
    decreases fuel, |tasks| + 1
  {
    ScanComplete(tasks, 0, parent, listUid, depth, fuel);
  }

  lemma {:induction false} ScanComplete(tasks: seq<Task>, j: nat, parent: string, listUid: string, depth: nat, fuel: nat)
    requires fuel > 0 && ScanEntries(tasks, j, parent, listUid, depth, fuel).Some?
    ensures Complete(ScanEntries(tasks, j, parent, listUid, depth, fuel).value, tasks, listUid)
    decreases fuel, |tasks| - j
  {
    if j < |tasks| {
      ScanComplete(tasks, j + 1, parent, listUid, depth, fuel);
      var t := tasks[j];
      if t.parent == parent && t.listUid == listUid {
        PrintComplete(tasks, t.uid, listUid, depth + 1, fuel - 1);
        PrintChildren(tasks, t.uid, listUid, depth + 1, fuel - 1);
        var sub := PrintEntries(tasks, t.uid, listUid, depth + 1, fuel - 1).value;
        var rest := ScanEntries(tasks, j + 1, parent, listUid, depth, fuel).value;
        CompleteCons(tasks, listUid, t, sub, rest, depth);
      }
    } else {
      assert ScanEntries(tasks, j, parent, listUid, depth, fuel).value == [];
    }
  }

  // --- WHEN THE RECURSION ENDS --- //

  /** `path` lists store indices from a root task down to a descendant, each
      task a child of the one before. */
  predicate Chain(tasks: seq<Task>, path: seq<nat>) {
    && (forall m :: 0 <= m < |path| ==> path[m] < |tasks|)
    && (|path| > 0 ==> tasks[path[0]].parent == "")
    && (forall m :: 0 < m < |path| ==> tasks[path[m]].parent == tasks[path[m - 1]].uid)
  }

  /** The parent uid the recursion is called with at the end of `path`. */
  function ChainEnd(tasks: seq<Task>, path: seq<nat>): string
    requires Chain(tasks, path)
  {
    if path == [] then "" else tasks[path[|path| - 1]].uid
  }

  predicate NonEmptyUids(tasks: seq<Task>) {
    forall i :: 0 <= i < |tasks| ==> tasks[i].uid != ""
  }

  /** With unique, non-empty uids no task occurs twice on a chain from a root. */
  lemma {:induction false} ChainNoRepeat(tasks: seq<Task>, path: seq<nat>, a: nat, b: nat)
    requires UniqueTaskUids(tasks) && NonEmptyUids(tasks) && Chain(tasks, path)
    requires a < b < |path|
    ensures path[a] != path[b]
    decreases a
  {
    var pb := tasks[path[b]].parent;
    assert pb == tasks[path[b - 1]].uid;
    if a == 0 {
      assert tasks[path[a]].parent == "" != pb;
    } else {
      ChainNoRepeat(tasks, path, a - 1, b - 1);
      var i, j := path[a - 1], path[b - 1];
      assert tasks[i].uid != tasks[j].uid by {
        if i < j {
        } else {
          assert j < i;
        }
      }
      assert tasks[path[a]].parent != pb;
    }
  }

  lemma {:induction false} SubsetCard(a: set<nat>, b: set<nat>)
    requires a <= b
    ensures |a| <= |b|
    decreases |b|
  {
    if b != {} {
      var x :| x in b;
      SubsetCard(a - {x}, b - {x});
    }
  }

  /** The numbers below `n`. */
  function Below(n: nat): (r: set<nat>)
    ensures |r| == n && forall x: nat :: x in r <==> x < n
  {
    if n == 0 then {} else Below(n - 1) + {n - 1}
  }

  /** The numbers on a path. */
  function Elements(path: seq<nat>): (r: set<nat>)
    ensures forall x :: x in r <==> x in path
  {
    if path == [] then {} else {path[0]} + Elements(path[1..])
  }

  lemma {:induction false} DistinctCard(path: seq<nat>)
    requires forall a, b :: 0 <= a < b < |path| ==> path[a] != path[b]
    ensures |Elements(path)| == |path|
  {
    if path != [] {
      var tail := path[1..];
      assert forall a, b :: 0 <= a < b < |tail| ==> tail[a] != tail[b] by {
        forall a, b | 0 <= a < b < |tail| ensures tail[a] != tail[b] {
          assert tail[a] == path[a + 1] && tail[b] == path[b + 1];
        }
      }
      assert path[0] !in tail by {
        forall b | 0 <= b < |tail| ensures tail[b] != path[0] {
          assert tail[b] == path[b + 1];
        }
      }
      DistinctCard(tail);
      assert path[0] !in Elements(tail);
    }
  }

  /** A chain from a root is no longer than the store. */
  lemma ChainBound(tasks: seq<Task>, path: seq<nat>)
    requires UniqueTaskUids(tasks) && NonEmptyUids(tasks) && Chain(tasks, path)
    ensures |path| <= |tasks|
  {
    forall a, b | 0 <= a < b < |path| ensures path[a] != path[b] {
      ChainNoRepeat(tasks, path, a, b);
    }
    DistinctCard(path);
    SubsetCard(Elements(path), Below(|tasks|));
  }

  /** Extending a chain by a child of its last task. */
  lemma ChainExtend(tasks: seq<Task>, path: seq<nat>, j: nat)
    requires Chain(tasks, path) && j < |tasks| && tasks[j].parent == ChainEnd(tasks, path)
    ensures Chain(tasks, path + [j]) && ChainEnd(tasks, path + [j]) == tasks[j].uid
  {
    var p := path + [j];
    forall m | 0 < m < |p| ensures tasks[p[m]].parent == tasks[p[m - 1]].uid {
      if m < |path| {
        assert p[m] == path[m] && p[m - 1] == path[m - 1];
      }
    }
  }

  /** With unique, non-empty uids the recursion under the end of a chain
      finishes once the bound exceeds what the chain leaves of the store. */
  lemma {:induction false} PrintFinishes(tasks: seq<Task>, path: seq<nat>, listUid: string, depth: nat, fuel: nat)
    requires UniqueTaskUids(tasks) && NonEmptyUids(tasks) && Chain(tasks, path)
    requires fuel + |path| > |tasks|
    ensures PrintEntries(tasks, ChainEnd(tasks, path), listUid, depth, fuel).Some?
    decreases fuel, |tasks| + 1
  {
    ChainBound(tasks, path);
    ScanFinishes(tasks, 0, path, listUid, depth, fuel);
  }

  lemma {:induction false} ScanFinishes(tasks: seq<Task>, j: nat, path: seq<nat>, listUid: string, depth: nat, fuel: nat)
    requires UniqueTaskUids(tasks) && NonEmptyUids(tasks) && Chain(tasks, path)
    requires fuel > 0 && fuel + |path| > |tasks|
    ensures ScanEntries(tasks, j, ChainEnd(tasks, path), listUid, depth, fuel).Some?
    decreases fuel, |tasks| - j
  {
    if j < |tasks| {
      ScanFinishes(tasks, j + 1, path, listUid, depth, fuel);
      var t := tasks[j];
      if t.parent == ChainEnd(tasks, path) && t.listUid == listUid {
        ChainExtend(tasks, path, j);
        PrintFinishes(tasks, path + [j], listUid, depth + 1, fuel - 1);
      }
    }
  }

  /** Two tasks sharing a uid, one a root and the other filed under that
      uid: the second is its own child, so the C recursion never ends and
      no bound is enough. */
  lemma {:induction false} SharedUidNeverFinishes(a: Task, b: Task, depth: nat, fuel: nat)
    requires a.parent == "" && b.parent == a.uid == b.uid && a.listUid == b.listUid
    ensures PrintEntries([a, b], "", a.listUid, depth, fuel).None?
    decreases fuel
  {
    if fuel > 0 {
      SelfChildNeverFinishes([a, b], 1, depth + 1, fuel - 1);
      if a.uid == "" {
        SelfChildNeverFinishes([a, b], 1, depth, fuel);
      }
    }
  }

  lemma {:induction false} SelfChildNeverFinishes(tasks: seq<Task>, k: nat, depth: nat, fuel: nat)
    requires k < |tasks| && tasks[k].parent == tasks[k].uid
    ensures PrintEntries(tasks, tasks[k].uid, tasks[k].listUid, depth, fuel).None?
    decreases fuel
  {
    if fuel > 0 {
      SelfChildNeverFinishes(tasks, k, depth + 1, fuel - 1);
      ScanReachesSelf(tasks, 0, k, depth, fuel);
    }
  }

  /** The loop hits task `k` again, whose subtree never finishes. */
  lemma {:induction false} ScanReachesSelf(tasks: seq<Task>, j: nat, k: nat, depth: nat, fuel: nat)
    requires j <= k < |tasks| && tasks[k].parent == tasks[k].uid && fuel > 0
    requires PrintEntries(tasks, tasks[k].uid, tasks[k].listUid, depth + 1, fuel - 1).None?
    ensures ScanEntries(tasks, j, tasks[k].uid, tasks[k].listUid, depth, fuel).None?
    decreases k - j
  {
    if j < k {
      ScanReachesSelf(tasks, j + 1, k, depth, fuel);
    }
  }

  // --- THE WHOLE PRINTOUT --- //

  /** The name of the first list with uid `uid`. */
  function ListName(lists: seq<TaskList>, uid: string): (r: Option<string>)
    ensures r.None? <==> forall i :: 0 <= i < |lists| ==> lists[i].uid != uid
    ensures r.Some? ==> exists i :: 0 <= i < |lists| && lists[i].uid == uid && lists[i].name == r.value
                         && forall j :: 0 <= j < i ==> lists[j].uid != uid
  {
    if lists == [] then None
    else if lists[0].uid == uid then Some(lists[0].name)
    else
      var r := ListName(lists[1..], uid);
      assert forall i :: 0 < i < |lists| ==> lists[i] == lists[1..][i - 1];
      if r.Some? then
        var i :| 0 <= i < |lists| - 1 && lists[1..][i].uid == uid && lists[1..][i].name == r.value
                 && forall j :: 0 <= j < i ==> lists[1..][j].uid != uid;
        assert lists[i + 1] == lists[1..][i];
        r
      else r
  }

  /** The outcome of `errands_data_print_list`. */
  datatype Printout =
    | Printed(text: string)
    | UnknownList   // the name pointer is read without being set: undefined behaviour
    | Unbounded     // the recursion over the task tree does not end

  /** `errands_data_print_list`: the boxed name, then the list's task tree.
      The depth bound is one more than the number of tasks, which the chain
      argument shows is enough whenever uids are unique and non-empty. */
  function PrintList(s: Store, listUid: string): (r: Printout)
    ensures r == UnknownList <==> forall i :: 0 <= i < |s.lists| ==> s.lists[i].uid != listUid
  {
    match ListName(s.lists, listUid)
    case None => UnknownList
    case Some(name) =>
      match PrintEntries(s.tasks, "", listUid, 0, |s.tasks| + 1)
      case None => Unbounded
      case Some(es) => Printed(JoinLines(BoxLines(name)) + Render(es))
  }

  /** For a known list in a store with unique, non-empty task uids, the
      printout is the box around that list's name followed by the rendered
      tree, whose top level is the list's root tasks in store order and whose
      indentation shows each task's parent. */
  lemma PrintListShape(s: Store, listUid: string, i: nat)
    requires UniqueTaskUids(s.tasks) && NonEmptyUids(s.tasks)
    requires i < |s.lists| && s.lists[i].uid == listUid
    requires forall j :: 0 <= j < i ==> s.lists[j].uid != listUid
    ensures PrintList(s, listUid).Printed?
    ensures exists es ::
      && PrintEntries(s.tasks, "", listUid, 0, |s.tasks| + 1) == Some(es)
      && PrintList(s, listUid).text == JoinLines(BoxLines(s.lists[i].name)) + Render(es)
      && AtDepth(es, 0) == ChildrenFrom(s.tasks, 0, "", listUid)
      && Nested(es, 0, "")
      && Complete(es, s.tasks, listUid)
  {
    var r := ListName(s.lists, listUid);
    var k :| 0 <= k < |s.lists| && s.lists[k].uid == listUid && s.lists[k].name == r.value
             && forall j :: 0 <= j < k ==> s.lists[j].uid != listUid;
    assert k == i;
    PrintFinishes(s.tasks, [], listUid, 0, |s.tasks| + 1);
    PrintChildren(s.tasks, "", listUid, 0, |s.tasks| + 1);
    PrintNested(s.tasks, "", listUid, 0, |s.tasks| + 1);
    PrintComplete(s.tasks, "", listUid, 0, |s.tasks| + 1);
  }
}
