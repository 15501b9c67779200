/** The iCal line helpers the converter relies on (`get_ical_value` and
    `get_vtodos`, whose code is not part of this model), stated over
    newline-separated content lines, plus the VTODO property names the
    converter writes. */
module ICalText {
  import opened Wrappers
  import opened Strings

  // --- PROPERTY VALUES --- //

  /** `get_ical_value` over a list of lines: the rest of the first line that
      starts with `name ":"`, or NULL. */
  function FindValue(lines: seq<string>, name: string): (r: Option<string>)
    ensures r.Some? <==> exists i :: 0 <= i < |lines| && StartsWith(lines[i], name + ":")
  {
    if lines == [] then None
    else if StartsWith(lines[0], name + ":") then Some(lines[0][|name| + 1..])
    else
      var r := FindValue(lines[1..], name);
      assert forall i :: 0 < i < |lines| ==> lines[i] == lines[1..][i - 1];
      r
  }

  /** `get_ical_value(s, name)`. */
  function GetIcalValue(s: string, name: string): Option<string> {
    FindValue(SplitLines(s), name)
  }

  lemma {:induction false} FindValueAppend(a: seq<string>, b: seq<string>, name: string)
    ensures FindValue(a + b, name) == if FindValue(a, name).Some? then FindValue(a, name) else FindValue(b, name)
  {
    if a == [] {
      assert a + b == b;
    } else {
      assert (a + b)[0] == a[0];
      assert (a + b)[1..] == a[1..] + b;
      FindValueAppend(a[1..], b, name);
    }
  }

  /** A value that was found is the tail of a whole line `name ":" value`. */
  lemma {:induction false} FindValueLine(lines: seq<string>, name: string)
    requires FindValue(lines, name).Some?
    ensures name + ":" + FindValue(lines, name).value in lines
  {
    var p := name + ":";
    if StartsWith(lines[0], p) {
      var l := lines[0];
      assert l == l[..|p|] + l[|p|..];
      assert name + ":" + l[|p|..] == l;
    } else {
      FindValueLine(lines[1..], name);
      assert forall x :: x in lines[1..] ==> x in lines;
    }
  }

  predicate NoColon(s: string) {
    ':' !in s
  }

  /** One content line, `key ":" value`. */
  function Line(key: string, value: string): string {
    key + ":" + value
  }

  /** A line `key ":" value` starts with `name ":"` exactly when the key is
      the name, provided neither holds a colon. */
  lemma KeyPrefix(key: string, value: string, name: string)
    requires NoColon(key) && NoColon(name)
    ensures StartsWith(key + ":" + value, name + ":") <==> key == name
    ensures (key + ":" + value)[|key| + 1..] == value
  {
    var line := key + ":" + value;
    assert line[..|key|] == key;
    assert line[|key|] == ':';
    if StartsWith(line, name + ":") {
      var p := name + ":";
      assert line[..|p|] == p;
      assert line[|name|] == p[|name|] == ':';
      assert forall i :: 0 <= i < |key| ==> line[i] == key[i] != ':';
      assert forall i :: 0 <= i < |name| ==> line[i] == p[i] == name[i] != ':';
      assert |key| == |name|;
      assert key == line[..|key|] == p[..|name|] == name;
    }
    if key == name {
      assert line[..|name| + 1] == name + ":";
    }
  }

  // --- VTODO PROPERTY NAMES --- //

  /** The properties the converter writes into a VTODO, in output order. */
  datatype PropertyName =
    | Uid | Summary | ErrandsColor | DtStart | Due | RRule | Description
    | Priority | PercentComplete | Status | LastModified | Created | RelatedTo | Categories

  function NameText(n: PropertyName): string {
    match n
    case Uid => "UID"
    case Summary => "SUMMARY"
    case ErrandsColor => "X-ERRANDS-COLOR"
    case DtStart => "DTSTART"
    case Due => "DUE"
    case RRule => "RRULE"
    case Description => "DESCRIPTION"
    case Priority => "PRIORITY"
    case PercentComplete => "PERCENT-COMPLETE"
    case Status => "STATUS"
    case LastModified => "LAST-MODIFIED"
    case Created => "CREATED"
    case RelatedTo => "RELATED-TO"
    case Categories => "CATEGORIES"
  }

  lemma NameTextInjective(a: PropertyName, b: PropertyName)
    ensures NameText(a) == NameText(b) ==> a == b
  {
    if NameText(a) == NameText(b) {
      assert |NameText(a)| == |NameText(b)| && NameText(a)[0] == NameText(b)[0];
    }
  }

  lemma NameTextShape(n: PropertyName)
    ensures NoColon(NameText(n)) && NoNewline(NameText(n))
    ensures NameText(n) != "BEGIN" && NameText(n) != "END"
  {
    NameTextNoColon(n);
    NameTextNotDelimiter(n);
  }

  lemma NameTextNoColon(n: PropertyName)
    ensures NoColon(NameText(n)) && NoNewline(NameText(n))
  {
    match n
    case Uid => NameCharsClean("UID");
    case Summary => NameCharsClean("SUMMARY");
    case ErrandsColor => NameCharsClean("X-ERRANDS-COLOR");
    case DtStart => NameCharsClean("DTSTART");
    case Due => NameCharsClean("DUE");
    case RRule => NameCharsClean("RRULE");
    case Description => NameCharsClean("DESCRIPTION");
    case Priority => NameCharsClean("PRIORITY");
    case PercentComplete => NameCharsClean("PERCENT-COMPLETE");
    case Status => NameCharsClean("STATUS");
    case LastModified => NameCharsClean("LAST-MODIFIED");
    case Created => NameCharsClean("CREATED");
    case RelatedTo => NameCharsClean("RELATED-TO");
    case Categories => NameCharsClean("CATEGORIES");
  }

  /** A name of capital letters and dashes holds neither a colon nor a line break. */
  lemma NameCharsClean(s: string)
    requires forall i :: 0 <= i < |s| ==> 'A' <= s[i] <= 'Z' || s[i] == '-'
    ensures NoColon(s) && NoNewline(s)
  {
  }

  lemma NameTextNotDelimiter(n: PropertyName)
    ensures NameText(n) != "BEGIN" && NameText(n) != "END"
  {
    assert |NameText(n)| != 5 || NameText(n)[0] != 'B';
  }

  /** The content line of one property. */
  function Render(n: PropertyName, value: string): string {
    Line(NameText(n), value)
  }

  /** The order in which `errands_data_task_as_ical` writes properties. */
  const VTodoOrder: seq<PropertyName> :=
    [Uid, Summary, ErrandsColor, DtStart, Due, RRule, Description,
     Priority, PercentComplete, Status, LastModified, Created, RelatedTo, Categories]

  /** The lines written for the names of `order` whose value is present. */
  function RenderPresent(order: seq<PropertyName>, values: PropertyName -> Option<string>): seq<string> {
    if order == [] then []
    else
      var head := values(order[0]);
      (if head.Some? then [Render(order[0], head.value)] else []) + RenderPresent(order[1..], values)
  }

  /** Looking a property up in rendered lines finds the value it was rendered from. */
  lemma {:induction false} FindValueRenderPresent(order: seq<PropertyName>,
                                                  values: PropertyName -> Option<string>, n: PropertyName)
    ensures FindValue(RenderPresent(order, values), NameText(n)) == if n in order then values(n) else None
  {
    if order != [] {
      var m := order[0];
      var rest := RenderPresent(order[1..], values);
      FindValueRenderPresent(order[1..], values, n);
      assert n in order <==> n == m || n in order[1..];
      NameTextShape(m);
      NameTextShape(n);
      if values(m).Some? {
        KeyPrefix(NameText(m), values(m).value, NameText(n));
        NameTextInjective(m, n);
        FindValueAppend([Render(m, values(m).value)], rest, NameText(n));
      } else {
        assert RenderPresent(order, values) == rest;
      }
    }
  }

  /** No rendered line is a component delimiter such as `BEGIN:VTODO`. */
  lemma {:induction false} RenderPresentLines(order: seq<PropertyName>, values: PropertyName -> Option<string>,
                                              key: string, v: string)
    requires key == "BEGIN" || key == "END"
    requires forall n :: n in order && values(n).Some? ==> NoNewline(values(n).value)
    ensures key + ":" + v !in RenderPresent(order, values)
    ensures AllNoNewline(RenderPresent(order, values))
  {
    if order != [] {
      var m := order[0];
      RenderPresentLines(order[1..], values, key, v);
      var rest := RenderPresent(order[1..], values);
      if values(m).Some? {
        var line := Render(m, values(m).value);
        NameTextShape(m);
        KeyPrefix(NameText(m), values(m).value, key);
        if line == key + ":" + v {
          KeyPrefix(key, v, key);
          assert false;
        }
        assert NoNewline(line) by {
          assert line == NameText(m) + (":" + values(m).value);
        }
        var all := [line] + rest;
        assert forall i :: 1 <= i < |all| ==> all[i] == rest[i - 1];
      } else {
        assert RenderPresent(order, values) == rest;
      }
    }
  }

  /** Rendering depends only on the values, not on how the value table is written. */
  lemma {:induction false} RenderPresentExt(order: seq<PropertyName>, v1: PropertyName -> Option<string>,
                                            v2: PropertyName -> Option<string>)
    requires forall n :: v1(n) == v2(n)
    ensures RenderPresent(order, v1) == RenderPresent(order, v2)
  {
    if order != [] {
      RenderPresentExt(order[1..], v1, v2);
    }
  }

  // --- VTODO BLOCKS --- //

  const BeginVTodo: string := "BEGIN:VTODO"
  const EndVTodo: string := "END:VTODO"

  /** Index of the first line equal to `line` at or after `from`, or `|lines|`. */
  function IndexOfLine(lines: seq<string>, line: string, from: nat): (r: nat)
    requires from <= |lines|
    ensures from <= r <= |lines|
    ensures r < |lines| ==> lines[r] == line
    ensures forall j :: from <= j < r ==> lines[j] != line
    decreases |lines| - from
  {
    if from == |lines| then from
    else if lines[from] == line then from
    else IndexOfLine(lines, line, from + 1)
  }

  /** `get_vtodos` over lines, for delimiter lines `begin` and `end`: each
      run from a `begin` line to the next `end` line, both included, in
      order; an unterminated run is dropped. */
  function Blocks(lines: seq<string>, begin: string, end: string): seq<seq<string>>
    decreases |lines|
  {
    if lines == [] then []
    else if lines[0] != begin then Blocks(lines[1..], begin, end)
    else
      var e := IndexOfLine(lines, end, 1);
      if e == |lines| then [] else [lines[..e + 1]] + Blocks(lines[e + 1..], begin, end)
  }

  /** `get_vtodos(s)`: the text of each VTODO block. */
  function GetVTodos(s: string): seq<string> {
    var blocks := Blocks(SplitLines(s), BeginVTodo, EndVTodo);
    seq(|blocks|, i requires 0 <= i < |blocks| => JoinLines(blocks[i]))
  }

  /** Lines before the first `begin` line contribute nothing. */
  lemma {:induction false} BlocksSkip(pre: seq<string>, rest: seq<string>, begin: string, end: string)
    requires begin !in pre
    ensures Blocks(pre + rest, begin, end) == Blocks(rest, begin, end)
  {
    if pre == [] {
      assert pre + rest == rest;
    } else {
      assert (pre + rest)[0] == pre[0];
      assert (pre + rest)[1..] == pre[1..] + rest;
      BlocksSkip(pre[1..], rest, begin, end);
    }
  }

  /** A well-formed block: delimiters at its ends and no `end` line inside. */
  predicate IsBlock(b: seq<string>, begin: string, end: string) {
    && |b| >= 2 && b[0] == begin && b[|b| - 1] == end
    && end !in b[1..|b| - 1]
  }

  /** A well-formed block at the front is found whole. */
  lemma BlocksBlock(block: seq<string>, rest: seq<string>, begin: string, end: string)
    requires IsBlock(block, begin, end)
    ensures Blocks(block + rest, begin, end) == [block] + Blocks(rest, begin, end)
  {
    var all := block + rest;
    var e := IndexOfLine(all, end, 1);
    forall j | 1 <= j < |block| - 1 ensures all[j] != end {
      assert all[j] == block[1..|block| - 1][j - 1];
    }
    assert all[|block| - 1] == end;
    assert e == |block| - 1;
    assert all[..e + 1] == block;
    assert all[e + 1..] == rest;
  }

  /** The lines of one VTODO around its property lines. */
  function Block(mid: seq<string>): seq<string> {
    [BeginVTodo] + mid + [EndVTodo]
  }

  /** A block of property lines is well formed and holds no line break inside a line. */
  lemma BlockShape(order: seq<PropertyName>, values: PropertyName -> Option<string>)
    requires forall n :: n in order && values(n).Some? ==> NoNewline(values(n).value)
    ensures IsBlock(Block(RenderPresent(order, values)), BeginVTodo, EndVTodo)
    ensures AllNoNewline(Block(RenderPresent(order, values)))
  {
    var mid := RenderPresent(order, values);
    var b := Block(mid);
    assert b[1..|b| - 1] == mid;
    RenderPresentLines(order, values, "END", "VTODO");
    assert EndVTodo == "END" + ":" + "VTODO";
    assert forall i :: 0 <= i < |mid| ==> b[i + 1] == mid[i];
    assert AllNoNewline([BeginVTodo]) && AllNoNewline([EndVTodo]);
  }

  /** The delimiters of a block hide no property. */
  lemma FindValueBlock(mid: seq<string>, n: PropertyName)
    ensures FindValue(Block(mid), NameText(n)) == FindValue(mid, NameText(n))
  {
    var name := NameText(n);
    assert Block(mid) == [BeginVTodo] + (mid + [EndVTodo]);
    FindValueAppend([BeginVTodo], mid + [EndVTodo], name);
    FindValueAppend(mid, [EndVTodo], name);
    DelimiterHidesName(BeginVTodo, n);
    DelimiterHidesName(EndVTodo, n);
  }

  /** A block delimiter is not a line of any property. */
  lemma DelimiterHidesName(delimiter: string, n: PropertyName)
    requires delimiter == BeginVTodo || delimiter == EndVTodo
    ensures FindValue([delimiter], NameText(n)).None?
  {
    NameTextShape(n);
    if delimiter == BeginVTodo {
      assert delimiter == "BEGIN" + ":" + "VTODO";
      KeyPrefix("BEGIN", "VTODO", NameText(n));
    } else {
      assert delimiter == "END" + ":" + "VTODO";
      KeyPrefix("END", "VTODO", NameText(n));
    }
  }

  lemma ConcatCons(blocks: seq<seq<string>>, tail: seq<string>)
    requires |blocks| > 0
    ensures Concat(blocks) + tail == blocks[0] + (Concat(blocks[1..]) + tail)
  {
  }

  lemma AllBlocksTail(blocks: seq<seq<string>>, begin: string, end: string)
    requires |blocks| > 0 && forall i :: 0 <= i < |blocks| ==> IsBlock(blocks[i], begin, end)
    ensures IsBlock(blocks[0], begin, end)
    ensures forall i :: 0 <= i < |blocks[1..]| ==> IsBlock(blocks[1..][i], begin, end)
  {
    forall i | 0 <= i < |blocks[1..]| ensures IsBlock(blocks[1..][i], begin, end) {
      assert blocks[1..][i] == blocks[i + 1];
    }
  }

  /** Blocks written one after the other are found again, in order. */
  lemma {:induction false} ConcatBlocks(blocks: seq<seq<string>>, tail: seq<string>, begin: string, end: string)
    requires forall i :: 0 <= i < |blocks| ==> IsBlock(blocks[i], begin, end)
    ensures Blocks(Concat(blocks) + tail, begin, end) == blocks + Blocks(tail, begin, end)
  {
    if blocks == [] {
      assert Concat(blocks) + tail == tail;
    } else {
      AllBlocksTail(blocks, begin, end);
      var rest := Concat(blocks[1..]) + tail;
      var v := Blocks(tail, begin, end);
      calc {
        Blocks(Concat(blocks) + tail, begin, end);
        { ConcatCons(blocks, tail); }
        Blocks(blocks[0] + rest, begin, end);
        { BlocksBlock(blocks[0], rest, begin, end); }
        [blocks[0]] + Blocks(rest, begin, end);
        { ConcatBlocks(blocks[1..], tail, begin, end); }
        [blocks[0]] + (blocks[1..] + v);
        { assert blocks == [blocks[0]] + blocks[1..]; }
        blocks + v;
      }
    }
  }

  lemma {:induction false} ConcatNoNewline(blocks: seq<seq<string>>)
    requires forall i :: 0 <= i < |blocks| ==> AllNoNewline(blocks[i])
    ensures AllNoNewline(Concat(blocks))
  {
    if blocks != [] {
      assert forall i :: 0 <= i < |blocks| - 1 ==> blocks[1..][i] == blocks[i + 1];
      ConcatNoNewline(blocks[1..]);
      var b := blocks[0];
      var rest := Concat(blocks[1..]);
      assert AllNoNewline(b);
      assert forall i :: 0 <= i < |b| + |rest| ==> (b + rest)[i] == if i < |b| then b[i] else rest[i - |b|];
    }
  }

  /** Content lines with colon-free keys are equal only when key and value are. */
  lemma LineInjective(k1: string, v1: string, k2: string, v2: string)
    requires NoColon(k1) && NoColon(k2)
    ensures Line(k1, v1) == Line(k2, v2) ==> k1 == k2 && v1 == v2
  {
    if Line(k1, v1) == Line(k2, v2) {
      KeyPrefix(k1, v1, k2);
      KeyPrefix(k2, v2, k2);
      assert Line(k2, v2)[|k2| + 1..] == v2;
    }
  }

  lemma LineNoNewline(key: string, value: string)
    requires NoNewline(key) && NoNewline(value)
    ensures NoNewline(Line(key, value))
  {
    assert Line(key, value) == key + (":" + value);
  }

  lemma DelimiterLines()
    ensures BeginVTodo == Line("BEGIN", "VTODO") && EndVTodo == Line("END", "VTODO")
  {
  }

  lemma CalendarJoin(header: seq<string>, body: seq<string>, footer: string)
    ensures JoinLines(header) + JoinLines(body) + footer + "\n" == JoinLines(header + (body + [footer]))
  {
    var jh, jb := JoinLines(header), JoinLines(body);
    calc {
      JoinLines(header + (body + [footer]));
      { JoinLinesAppend(header, body + [footer]); }
      jh + JoinLines(body + [footer]);
      { JoinLinesAppend(body, [footer]); }
      jh + (jb + JoinLines([footer]));
      { assert [footer][1..] == []; }
      jh + (jb + (footer + "\n"));
      jh + jb + footer + "\n";
    }
  }

  lemma CalendarBlocks(header: seq<string>, blocks: seq<seq<string>>, footer: string)
    requires BeginVTodo !in header
    requires forall i :: 0 <= i < |blocks| ==> IsBlock(blocks[i], BeginVTodo, EndVTodo)
    requires footer != BeginVTodo
    ensures Blocks(header + (Concat(blocks) + [footer]), BeginVTodo, EndVTodo) == blocks
  {
    BlocksSkip(header, Concat(blocks) + [footer], BeginVTodo, EndVTodo);
    ConcatBlocks(blocks, [footer], BeginVTodo, EndVTodo);
    BlocksSkip([footer], [], BeginVTodo, EndVTodo);
    assert [footer] + [] == [footer];
    assert blocks + [] == blocks;
  }

  lemma CalendarNoNewline(header: seq<string>, blocks: seq<seq<string>>, footer: string)
    requires AllNoNewline(header)
    requires forall i :: 0 <= i < |blocks| ==> AllNoNewline(blocks[i])
    requires NoNewline(footer)
    ensures AllNoNewline(header + (Concat(blocks) + [footer]))
  {
    ConcatNoNewline(blocks);
    AllNoNewlineAppend(Concat(blocks), [footer]);
    AllNoNewlineAppend(header, Concat(blocks) + [footer]);
  }

  /** A calendar: header lines, VTODO blocks, and a footer line. Its lines
      are found again, and so are exactly its blocks. */
  lemma CalendarText(header: seq<string>, blocks: seq<seq<string>>, footer: string)
    requires AllNoNewline(header) && BeginVTodo !in header
    requires forall i :: 0 <= i < |blocks| ==> IsBlock(blocks[i], BeginVTodo, EndVTodo)
    requires forall i :: 0 <= i < |blocks| ==> AllNoNewline(blocks[i])
    requires NoNewline(footer) && footer != BeginVTodo
    ensures SplitLines(JoinLines(header) + JoinLines(Concat(blocks)) + footer + "\n")
            == header + (Concat(blocks) + [footer])
    ensures var todos := GetVTodos(JoinLines(header) + JoinLines(Concat(blocks)) + footer + "\n");
      |todos| == |blocks| && forall i :: 0 <= i < |blocks| ==> todos[i] == JoinLines(blocks[i])
  {
    var lines := header + (Concat(blocks) + [footer]);
    CalendarJoin(header, Concat(blocks), footer);
    CalendarNoNewline(header, blocks, footer);
    SplitJoinLines(lines);
    CalendarBlocks(header, blocks, footer);
  }

  lemma AllNoNewlineAppend(a: seq<string>, b: seq<string>)
    requires AllNoNewline(a) && AllNoNewline(b)
    ensures AllNoNewline(a + b)
  {
    assert forall i :: |a| <= i < |a + b| ==> (a + b)[i] == b[i - |a|];
  }
}
