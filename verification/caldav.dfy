/** The pure parts of the CalDAV client in `src/lib/caldav.c`: the uuid
    taken from a calendar path, the response-body accumulator, the growable
    result list, and the reading of the multistatus bodies (section 13 of
    RFC 4918) answered to the calendar PROPFIND and to the calendar-query
    REPORT (section 7.8 of RFC 4791). The HTTP exchange itself is not part
    of this model: the functions here start from the parsed reply. */
module CalDAV {
  import opened Wrappers
  import opened Strings
  import opened Xml

  // --- THE CALENDAR UUID --- //

  /** Index of the last '/' at or before index `e`, scanning backwards as
      the `start--` loop does. */
  function LastSlash(path: string, e: int): (r: Option<nat>)
    requires e < |path|
    ensures r.Some? ==> r.value <= e && path[r.value] == '/'
                        && forall j :: r.value < j <= e ==> path[j] != '/'
    ensures r.None? ==> forall j :: 0 <= j <= e ==> path[j] != '/'
    decreases e + 1
  {
    if e < 0 then None
    else if path[e] == '/' then Some(e)
    else LastSlash(path, e - 1)
  }

  /** The bounds `__extract_uuid` computes for a non-empty path: `end` is
      the index of the last character once one trailing '/' is dropped, and
      `start` follows the '/' before it. A lone "/" makes `end` wrap below
      zero and a path with no '/' there makes `start` run off the front;
      both read outside the string. */
  function Segment(path: string): (r: Checked<(nat, nat)>)
    requires path != ""
    ensures r.Defined? ==> var (start, end) := r.value;
      0 < start <= end + 1 && end < |path| && path[start - 1] == '/'
  {
    var last := |path| - 1;
    if path[last] == '/' && last == 0 then Undefined
    else
      var end := if path[last] == '/' then last - 1 else last;
      match LastSlash(path, end)
      case None => Undefined
      case Some(k) => Defined((k + 1, end))
  }

  /** `__extract_uuid` as written: it copies `end - start` characters, one
      short of the segment, and when the segment is empty that count wraps
      below zero. */
  function ExtractUuidAsWritten(path: string): (r: Checked<string>)
    ensures path == "" ==> r == Defined("")
    ensures ExtractUuid(path).Undefined? ==> r.Undefined?
    ensures path != "" && ExtractUuid(path) == Defined("") ==> r.Undefined?
    ensures ExtractUuid(path).Defined? && ExtractUuid(path).value != "" ==>
      r == Defined(ExtractUuid(path).value[..|ExtractUuid(path).value| - 1])
  {
    if path == "" then Defined("")
    else
      match Segment(path)
      case Undefined => Undefined
      case Defined((start, end)) =>
        if start > end then Undefined
        else
          assert path[start..end + 1][..end - start] == path[start..end];
          Defined(path[start..end])
  }

  /** `__extract_uuid` with the copy length it evidently means: the whole
      last segment of the path, ignoring one trailing '/'. */
  function ExtractUuid(path: string): (r: Checked<string>)
    ensures path == "" ==> r == Defined("")
    ensures r.Defined? ==> '/' !in r.value
  {
    if path == "" then Defined("")
    else
      match Segment(path)
      case Undefined => Undefined
      case Defined((start, end)) =>
        var r := path[start..end + 1];
        assert forall i :: 0 <= i < |r| ==> r[i] == path[start + i];
        Defined(r)
  }

  /** The two definitions differ only in the last character copied. */
  lemma ExtractUuidOffByOne(path: string)
    requires ExtractUuid(path).Defined? && ExtractUuid(path).value != ""
    ensures ExtractUuidAsWritten(path).Defined?
    ensures ExtractUuidAsWritten(path).value
         == ExtractUuid(path).value[..|ExtractUuid(path).value| - 1]
  {
  }

  /** A non-empty path whose corrected uuid is empty ends in "//" or is a
      lone "/"; the code as written then reads out of bounds. */
  lemma ExtractUuidEmptySegment(path: string)
    ensures path != "" && ExtractUuid(path) == Defined("") ==> ExtractUuidAsWritten(path) == Undefined
  {
  }

  /** The last segment after a '/' is the uuid, with or without one
      trailing '/'. */
  lemma ExtractUuidSegment(pre: string, seg: string)
    requires seg != "" && '/' !in seg
    ensures ExtractUuid(pre + "/" + seg) == Defined(seg)
    ensures ExtractUuid(pre + "/" + seg + "/") == Defined(seg)
  {
    var p := pre + "/" + seg;
    SegmentOf(pre, seg);
    assert p[|pre| + 1..|p|] == seg;
    var q := p + "/";
    assert q[..|p|] == p;
    SegmentTrailing(p);
    assert q[|pre| + 1..|p|] == seg;
  }

  lemma SegmentOf(pre: string, seg: string)
    requires seg != "" && '/' !in seg
    ensures Segment(pre + "/" + seg) == Defined((|pre| + 1, |pre| + |seg|))
  {
    var p := pre + "/" + seg;
    assert forall j :: |pre| < j < |p| ==> p[j] == seg[j - |pre| - 1];
    assert p[|pre|] == '/';
    assert p[|p| - 1] != '/' by {
      assert p[|p| - 1] == seg[|seg| - 1];
    }
  }

  /** One trailing '/' does not move the bounds. */
  lemma SegmentTrailing(p: string)
    requires p != "" && p[|p| - 1] != '/'
    ensures Segment(p + "/") == Segment(p)
  {
    var q := p + "/";
    assert q[|q| - 1] == '/';
    assert q[|p| - 1] == p[|p| - 1];
    LastSlashPrefix(q, p, |p| - 1);
  }

  lemma {:induction false} LastSlashPrefix(q: string, p: string, e: int)
    requires e < |p| <= |q| && q[..|p|] == p
    ensures LastSlash(q, e) == LastSlash(p, e)
    decreases e + 1
  {
    if e >= 0 {
      assert q[e] == p[e];
      LastSlashPrefix(q, p, e - 1);
    }
  }

  /** One trailing '/' changes nothing, in the code as written and in the
      corrected reading. */
  lemma ExtractUuidTrailingSlash(p: string)
    requires p != "" && p[|p| - 1] != '/'
    ensures ExtractUuid(p + "/") == ExtractUuid(p)
    ensures ExtractUuidAsWritten(p + "/") == ExtractUuidAsWritten(p)
  {
    SegmentTrailing(p);
    var q := p + "/";
    assert q[..|p|] == p;
    assert forall a, b :: 0 <= a <= b <= |p| ==> q[a..b] == p[a..b];
  }

  /** The path of a calendar in a calendar home: the code drops the last
      character of the uuid. */
  lemma ExtractUuidExample(pre: string, seg: string)
    requires pre == "/calendars/user" && seg == "abcd-1234"
    ensures ExtractUuidAsWritten(pre + "/" + seg + "/") == Defined("abcd-123")
    ensures ExtractUuid(pre + "/" + seg + "/") == Defined("abcd-1234")
  {
    assert '/' !in seg by {
      assert forall i :: 0 <= i < |seg| ==> seg[i] != '/';
    }
    ExtractUuidSegment(pre, seg);
    ExtractUuidOffByOne(pre + "/" + seg + "/");
    assert seg[..|seg| - 1] == "abcd-123";
  }

  /** A lone "/" and a path without '/' read outside the string. */
  lemma ExtractUuidUndefined(p: string)
    requires p != "" && '/' !in p
    ensures ExtractUuid("/") == Undefined && ExtractUuidAsWritten("/") == Undefined
    ensures ExtractUuid(p) == Undefined && ExtractUuidAsWritten(p) == Undefined
  {
    var e := if p[|p| - 1] == '/' then |p| - 2 else |p| - 1;
    assert LastSlash(p, e).None?;
  }

  // --- THE RESPONSE BODY --- //

  const Nul: char := 0 as char

  /** `struct response_data`: the heap buffer and the count of bytes received. */
  datatype ResponseData = ResponseData(mem: seq<char>, size: nat)

  /** The bytes received so far. */
  function Body(d: ResponseData): string
    requires d.size <= |d.mem|
  {
    d.mem[..d.size]
  }

  /** `write_callback`: libcurl hands over the next `size * nmemb` bytes as
      `chunk`; `allocOk` says whether `realloc` succeeded. */
  function WriteCallback(d: ResponseData, chunk: string, allocOk: bool): (r: (ResponseData, nat))
    requires d.size <= |d.mem|
    ensures !allocOk ==> r == (d, 0)
    ensures allocOk ==> && r.1 == |chunk|
                        && r.0.size == d.size + |chunk|
                        && |r.0.mem| == r.0.size + 1
                        && Body(r.0) == Body(d) + chunk
                        && r.0.mem[r.0.size] == Nul
  {
    if !allocOk then (d, 0)
    else
      var mem := d.mem[..d.size] + chunk + [Nul];
      var r := ResponseData(mem, d.size + |chunk|);
      assert mem[..r.size] == d.mem[..d.size] + chunk;
      (r, |chunk|)
  }

  /** Feeding chunks one after another, each allocation succeeding. */
  function Receive(d: ResponseData, chunks: seq<string>): (r: ResponseData)
    requires d.size <= |d.mem|
    ensures r.size <= |r.mem|
    ensures chunks != [] ==> r.size < |r.mem|
    decreases |chunks|
  {
    if chunks == [] then d else Receive(WriteCallback(d, chunks[0], true).0, chunks[1..])
  }

  /** The body is everything received, in order, and stays NUL-terminated. */
  lemma {:induction false} ReceiveConcatenates(d: ResponseData, chunks: seq<string>)
    requires d.size <= |d.mem|
    ensures Body(Receive(d, chunks)) == Body(d) + Concat(chunks)
    ensures chunks != [] ==> Receive(d, chunks).mem[Receive(d, chunks).size] == Nul
    decreases |chunks|
  {
    if chunks != [] {
      var d1 := WriteCallback(d, chunks[0], true).0;
      ReceiveConcatenates(d1, chunks[1..]);
      if chunks[1..] == [] {
        assert Receive(d, chunks) == d1;
      }
    }
  }

  // --- THE RESULT LIST --- //

  /** `CalDAVList`: `items` are the `len` stored entries, `size` the
      recorded capacity and `capacity` the slots actually allocated. */
  datatype CalDAVList<T> = CalDAVList(items: seq<T>, size: nat, capacity: nat)

  /** The recorded capacity is the allocated one, at least one, and not exceeded. */
  predicate Valid<T>(l: CalDAVList<T>) {
    1 <= l.size == l.capacity && |l.items| <= l.size
  }

  /** `caldav_list_new`. */
  function ListNew<T>(): (r: CalDAVList<T>)
    ensures Valid(r) && r.items == [] && r.size == 1
  {
    CalDAVList([], 1, 1)
  }

  /** `caldav_list_add` as written: a full list doubles `size` first and
      returns without storing when `realloc` fails, so `size` then exceeds
      the allocation; storing past the allocation is undefined. */
  function ListAddAsWritten<T>(l: CalDAVList<T>, x: T, reallocOk: bool): (r: Checked<CalDAVList<T>>)
    ensures |l.items| >= l.size && !reallocOk ==> r == Defined(l.(size := 2 * l.size))
    ensures |l.items| < l.size || reallocOk ==> r == ListAdd(l, x, reallocOk)
  {
    var full := |l.items| >= l.size;
    var size := if full then 2 * l.size else l.size;
    if full && !reallocOk then Defined(l.(size := size))
    else
      var capacity := if full then size else l.capacity;
      if |l.items| >= capacity then Undefined
      else Defined(CalDAVList(l.items + [x], size, capacity))
  }

  /** `caldav_list_add` with the capacity doubled only once `realloc` has succeeded. */
  function ListAdd<T>(l: CalDAVList<T>, x: T, reallocOk: bool): (r: Checked<CalDAVList<T>>)
    ensures Valid(l) ==> r.Defined? && Valid(r.value)
    ensures Valid(l) && reallocOk ==>
      && r.value.items == l.items + [x]
      && r.value.size == (if |l.items| == l.size then 2 * l.size else l.size)
    ensures Valid(l) && !reallocOk && |l.items| == l.size ==> r == Defined(l)
    ensures Valid(l) && |l.items| < l.size ==> r.value.items == l.items + [x]
  {
    var full := |l.items| >= l.size;
    if full && !reallocOk then Defined(l)
    else
      var size := if full then 2 * l.size else l.size;
      var capacity := if full then size else l.capacity;
      if |l.items| >= capacity then Undefined
      else Defined(CalDAVList(l.items + [x], size, capacity))
  }

  /** When `realloc` succeeds the code as written and the corrected one agree. */
  lemma ListAddAgrees<T>(l: CalDAVList<T>, x: T)
    ensures ListAddAsWritten(l, x, true) == ListAdd(l, x, true)
  {
  }

  /** A failed growth leaves `size` doubled over the allocation, and the
      next addition writes past the end of the array. */
  lemma FailedGrowthOverflows<T>(l: CalDAVList<T>, x: T, y: T, reallocOk: bool)
    requires Valid(l) && |l.items| == l.size
    ensures ListAddAsWritten(l, x, false).Defined?
    ensures !Valid(ListAddAsWritten(l, x, false).value)
    ensures ListAddAsWritten(ListAddAsWritten(l, x, false).value, y, reallocOk) == Undefined
  {
  }

  /** Appending with allocation succeeding. */
  function Push<T>(l: CalDAVList<T>, x: T): (r: CalDAVList<T>)
    requires Valid(l)
    ensures Valid(r) && r.items == l.items + [x]
  {
    ListAdd(l, x, true).value
  }

  // --- RESPONSE LOOPS --- //

  /** `step` reads an item from response `x`. */
  predicate Adds<T>(step: Node -> Checked<Option<T>>, x: Node) {
    step(x).Defined? && step(x).value.Some?
  }

  /** The responses `step` reads an item from, in order. */
  function Announcing<T>(step: Node -> Checked<Option<T>>, responses: seq<Node>): (r: seq<Node>)
    ensures |r| <= |responses|
  {
    if responses == [] then []
    else if Adds(step, responses[0]) then [responses[0]] + Announcing(step, responses[1..])
    else Announcing(step, responses[1..])
  }

  /** The `for` loop over the `response` elements of a multistatus reply:
      each adds to `acc` what `step` reads from it, and a response `step`
      reads through NULL makes the whole reply undefined. */
  function Collect<T>(step: Node -> Checked<Option<T>>, responses: seq<Node>, acc: CalDAVList<T>)
    : (r: Checked<CalDAVList<T>>)
    requires Valid(acc)
    ensures r.Defined? <==> forall k :: 0 <= k < |responses| ==> step(responses[k]).Defined?
    ensures r.Defined? ==> Valid(r.value) && |r.value.items| == |acc.items| + |Announcing(step, responses)|
    ensures r.Defined? ==> r.value.items[..|acc.items|] == acc.items
    decreases |responses|
  {
    if responses == [] then Defined(acc)
    else
      assert forall k :: 0 < k < |responses| ==> responses[k] == responses[1..][k - 1];
      var found := step(responses[0]);
      if found.Undefined? then Undefined
      else
        var next := if found.value.Some? then Push(acc, found.value.value) else acc;
        var r := Collect(step, responses[1..], next);
        if r.Defined? then
          assert r.value.items[..|acc.items|] == acc.items by {
            assert r.value.items[..|next.items|] == next.items;
            assert next.items[..|acc.items|] == acc.items;
          }
          r
        else r
  }

  /** Each item is the one `step` reads from the response at the same place. */
  ghost predicate AnnouncedBy<T>(step: Node -> Checked<Option<T>>, responses: seq<Node>, items: seq<T>) {
    |items| == |responses|
    && forall k :: 0 <= k < |responses| ==> step(responses[k]) == Defined(Some(items[k]))
  }

  lemma AnnouncedCons<T>(step: Node -> Checked<Option<T>>, x: Node, rest: seq<Node>, c: T, items: seq<T>)
    requires step(x) == Defined(Some(c)) && AnnouncedBy(step, rest, items)
    ensures AnnouncedBy(step, [x] + rest, [c] + items)
  {
    forall k | 0 < k < 1 + |rest| ensures step(([x] + rest)[k]) == Defined(Some(([c] + items)[k])) {
      assert ([x] + rest)[k] == rest[k - 1] && ([c] + items)[k] == items[k - 1];
    }
  }

  /** The loop adds exactly the items `step` reads, in response order. */
  lemma {:induction false} CollectItems<T>(step: Node -> Checked<Option<T>>, responses: seq<Node>, acc: CalDAVList<T>)
    requires Valid(acc) && Collect(step, responses, acc).Defined?
    ensures AnnouncedBy(step, Announcing(step, responses), Collect(step, responses, acc).value.items[|acc.items|..])
    decreases |responses|
  {
    var r := Collect(step, responses, acc).value.items;
    if responses != [] {
      var found := step(responses[0]);
      var next := if found.value.Some? then Push(acc, found.value.value) else acc;
      var r' := Collect(step, responses[1..], next).value.items;
      assert r == r';
      CollectItems(step, responses[1..], next);
      if found.value.Some? {
        assert r[..|next.items|] == next.items;
        assert r[|acc.items|..] == [found.value.value] + r'[|next.items|..];
        AnnouncedCons(step, responses[0], Announcing(step, responses[1..]), found.value.value, r'[|next.items|..]);
      }
    } else {
      assert r[|acc.items|..] == [];
    }
  }

  /** The loop run from a fresh list holds exactly the items `step` reads. */
  lemma CollectFresh<T>(step: Node -> Checked<Option<T>>, responses: seq<Node>)
    requires Collect(step, responses, ListNew()).Defined?
    ensures AnnouncedBy(step, Announcing(step, responses), Collect(step, responses, ListNew()).value.items)
  {
    var items := Collect(step, responses, ListNew()).value.items;
    CollectItems(step, responses, ListNew());
    assert items[0..] == items;
  }

  // --- CALENDARS --- //

  /** `CalDAVCalendar`. */
  datatype Calendar = Calendar(componentSet: string, name: string, url: string, uuid: string)

  /** `caldav_calendar_new`: the calendar keeps its url and takes its uuid
      from `__extract_uuid` as written, so the uuid is its last path
      segment short of the final character, and a path ending in "//" is
      read out of bounds. */
  function CalendarNew(componentSet: string, name: string, url: string): (r: Checked<Calendar>)
    ensures r.Defined? <==> url == "" || (ExtractUuid(url).Defined? && ExtractUuid(url).value != "")
    ensures r.Defined? ==> r.value.componentSet == componentSet && r.value.name == name && r.value.url == url
    ensures r.Defined? && url != "" ==>
      r.value.uuid == ExtractUuid(url).value[..|ExtractUuid(url).value| - 1]
  {
    ExtractUuidEmptySegment(url);
    if ExtractUuid(url).Defined? && ExtractUuid(url).value != "" then ExtractUuidOffByOne(url); CalendarOf(componentSet, name, url)
    else CalendarOf(componentSet, name, url)
  }

  function CalendarOf(componentSet: string, name: string, url: string): Checked<Calendar> {
    match ExtractUuidAsWritten(url)
    case Undefined => Undefined
    case Defined(uuid) => Defined(Calendar(componentSet, name, url, uuid))
  }

  /** `caldav_calendar_new` with the corrected `__extract_uuid`. */
  function CalendarNewCorrected(componentSet: string, name: string, url: string): (r: Checked<Calendar>)
    ensures r.Defined? <==> ExtractUuid(url).Defined?
    ensures r.Defined? ==> r.value.componentSet == componentSet && r.value.name == name && r.value.url == url
    ensures r.Defined? ==> '/' !in r.value.uuid
  {
    match ExtractUuid(url)
    case Undefined => Undefined
    case Defined(uuid) => Defined(Calendar(componentSet, name, url, uuid))
  }

  /** A calendar at `base ++ pre/seg/` is known by `seg` less its last
      character as written, and by `seg` once corrected. */
  lemma CalendarNewUuid(componentSet: string, name: string, base: string, pre: string, seg: string)
    requires seg != "" && '/' !in seg
    ensures CalendarNew(componentSet, name, base + pre + "/" + seg + "/").Defined?
    ensures CalendarNew(componentSet, name, base + pre + "/" + seg + "/").value.uuid == seg[..|seg| - 1]
    ensures CalendarNewCorrected(componentSet, name, base + pre + "/" + seg + "/").Defined?
    ensures CalendarNewCorrected(componentSet, name, base + pre + "/" + seg + "/").value.uuid == seg
  {
    assert base + pre + "/" + seg + "/" == (base + pre) + "/" + seg + "/";
    ExtractUuidSegment(base + pre, seg);
  }

  const SupportedSet := "supported-calendar-component-set"

  /** The calendar a PROPFIND response announces, as `caldav_get_calendars`
      reads it: one with a component set whose first child is named VTODO,
      asked for with set VTODO, and not marked deleted. */
  predicate Qualifies(componentSet: string, response: Node) {
    && FindTag(response, SupportedSet).Some?
    && componentSet == "VTODO"
    && Attr(ChildAt(FindTag(response, SupportedSet).value, 0), "name") == Some("VTODO")
    && FindTag(response, "deleted-calendar").None?
  }

  /** The body of the response loop of `caldav_get_calendars`. Comparing a
      missing `name` attribute, or reading the text of a missing
      `displayname` or `href`, dereferences NULL. */
  function ResponseCalendar(base: string, componentSet: string, response: Node): (r: Checked<Option<Calendar>>)
    ensures r.Defined? && r.value.Some? ==> Qualifies(componentSet, response)
    ensures r.Defined? && r.value.None? ==> !Qualifies(componentSet, response)
    ensures componentSet != "VTODO" ==> r == Defined(None)
  {
    match FindTag(response, SupportedSet)
    case None => Defined(None)
    case Some(supported) =>
      var setVal := Attr(ChildAt(supported, 0), "name");
      if componentSet != "VTODO" then Defined(None)
      else if setVal.None? then Undefined
      else if setVal.value != "VTODO" then Defined(None)
      else if FindTag(response, "deleted-calendar").Some? then Defined(None)
      else
        match (FindTag(response, "displayname"), FindTag(response, "href"))
        case (Some(name), Some(href)) =>
          (match CalendarNew(componentSet, name.text, base + href.text)
           case Undefined => Undefined
           case Defined(c) => Defined(Some(c)))
        case _ => Undefined
  }

  /** The responses that announce a calendar, in order. */
  function Qualifying(componentSet: string, responses: seq<Node>): seq<Node> {
    if responses == [] then []
    else if Qualifies(componentSet, responses[0]) then [responses[0]] + Qualifying(componentSet, responses[1..])
    else Qualifying(componentSet, responses[1..])
  }

  /** The response loop body of `caldav_get_calendars` as a step. */
  function CalendarStep(base: string, componentSet: string): Node -> Checked<Option<Calendar>> {
    n => ResponseCalendar(base, componentSet, n)
  }

  /** Once every response reads without a NULL dereference, the responses
      that add a calendar are exactly the qualifying ones. */
  lemma {:induction false} AnnouncingQualifying(base: string, componentSet: string, responses: seq<Node>)
    requires forall k :: 0 <= k < |responses| ==> ResponseCalendar(base, componentSet, responses[k]).Defined?
    ensures Announcing(CalendarStep(base, componentSet), responses) == Qualifying(componentSet, responses)
  {
    if responses != [] {
      assert forall k :: 0 < k < |responses| ==> responses[k] == responses[1..][k - 1];
      AnnouncingQualifying(base, componentSet, responses[1..]);
      assert CalendarStep(base, componentSet)(responses[0]) == ResponseCalendar(base, componentSet, responses[0]);
    }
  }

  /** `caldav_get_calendars` on the parsed PROPFIND reply: `root`'s first
      child is the multistatus element; a reply without one is read through NULL. */
  function GetCalendars(base: string, componentSet: string, root: Node): (r: Checked<CalDAVList<Calendar>>)
    ensures root.children == [] ==> r == Undefined
    ensures r.Defined? ==> |root.children| > 0 && Valid(r.value)
                           && |r.value.items| <= |root.children[0].children|
  {
    if ChildAt(root, 0).None? then Undefined
    else Collect(CalendarStep(base, componentSet), root.children[0].children, ListNew())
  }

  /** The reply is read without a NULL dereference iff every response is;
      then there is one calendar per qualifying response, in response
      order, each the one that response announces. */
  lemma GetCalendarsSpec(base: string, componentSet: string, root: Node)
    requires |root.children| > 0
    ensures GetCalendars(base, componentSet, root).Defined? <==>
      forall k :: 0 <= k < |root.children[0].children| ==>
        ResponseCalendar(base, componentSet, root.children[0].children[k]).Defined?
    ensures GetCalendars(base, componentSet, root).Defined? ==>
      && Valid(GetCalendars(base, componentSet, root).value)
      && AnnouncedBy(CalendarStep(base, componentSet), Qualifying(componentSet, root.children[0].children),
                     GetCalendars(base, componentSet, root).value.items)
  {
    var rs := root.children[0].children;
    var step := CalendarStep(base, componentSet);
    assert forall k :: 0 <= k < |rs| ==> step(rs[k]) == ResponseCalendar(base, componentSet, rs[k]);
    if GetCalendars(base, componentSet, root).Defined? {
      CollectFresh(step, rs);
      AnnouncingQualifying(base, componentSet, rs);
    }
  }

  /** Asking for any component set other than VTODO yields no calendars. */
  lemma GetCalendarsOtherSet(base: string, componentSet: string, root: Node)
    requires GetCalendars(base, componentSet, root).Defined? && componentSet != "VTODO"
    ensures GetCalendars(base, componentSet, root).value.items == []
  {
    GetCalendarsSpec(base, componentSet, root);
    NoneQualify(componentSet, root.children[0].children);
  }

  lemma {:induction false} NoneQualify(componentSet: string, responses: seq<Node>)
    requires componentSet != "VTODO"
    ensures Qualifying(componentSet, responses) == []
  {
    if responses != [] {
      NoneQualify(componentSet, responses[1..]);
    }
  }

  /** A qualifying response yields the calendar named by its `displayname`
      at `base ++ href`, with the uuid of that url. */
  lemma QualifyingCalendar(base: string, componentSet: string, response: Node, c: Calendar)
    requires ResponseCalendar(base, componentSet, response) == Defined(Some(c))
    ensures c.componentSet == "VTODO"
    ensures FindTag(response, "displayname").Some? && c.name == FindTag(response, "displayname").value.text
    ensures FindTag(response, "href").Some? && c.url == base + FindTag(response, "href").value.text
    ensures Defined(c.uuid) == ExtractUuidAsWritten(c.url)
  {
  }

  // --- EVENTS --- //

  /** `CalDAVEvent`. */
  datatype Event = Event(ical: string, url: string)

  /** The body of the response loop of `caldav_calendar_get_events`; a
      response without `href` or `calendar-data` is read through NULL. */
  function EventOf(base: string, response: Node): (r: Checked<Event>)
    ensures r.Defined? <==> FindTag(response, "href").Some? && FindTag(response, "calendar-data").Some?
    ensures r.Defined? ==> r.value.url == base + FindTag(response, "href").value.text
    ensures r.Defined? ==> r.value.ical == FindTag(response, "calendar-data").value.text
  {
    match (FindTag(response, "href"), FindTag(response, "calendar-data"))
    case (Some(href), Some(data)) => Defined(Event(data.text, base + href.text))
    case _ => Undefined
  }

  /** The response loop body of `caldav_calendar_get_events` as a step:
      every readable response adds its event. */
  function EventStep(base: string): Node -> Checked<Option<Event>> {
    n => if EventOf(base, n).Defined? then Defined(Some(EventOf(base, n).value)) else Undefined
  }

  lemma {:induction false} AnnouncingAll(base: string, responses: seq<Node>)
    requires forall k :: 0 <= k < |responses| ==> EventOf(base, responses[k]).Defined?
    ensures Announcing(EventStep(base), responses) == responses
  {
    if responses != [] {
      assert forall k :: 0 < k < |responses| ==> responses[k] == responses[1..][k - 1];
      AnnouncingAll(base, responses[1..]);
    }
  }

  /** `caldav_calendar_get_events` on the parsed REPORT reply. */
  function GetEvents(base: string, root: Node): (r: Checked<CalDAVList<Event>>)
    ensures root.children == [] ==> r == Undefined
    ensures r.Defined? ==> |root.children| > 0 && Valid(r.value)
                           && |r.value.items| <= |root.children[0].children|
  {
    if ChildAt(root, 0).None? then Undefined
    else Collect(EventStep(base), root.children[0].children, ListNew())
  }

  /** Exactly one event per response, in order, each with the url
      `base ++ href` and the `calendar-data` text; the reply is read without
      a NULL dereference iff every response has both. */
  lemma GetEventsSpec(base: string, root: Node)
    requires |root.children| > 0
    ensures GetEvents(base, root).Defined? <==>
      forall i :: 0 <= i < |root.children[0].children| ==>
        FindTag(root.children[0].children[i], "href").Some?
        && FindTag(root.children[0].children[i], "calendar-data").Some?
    ensures GetEvents(base, root).Defined? ==>
      && Valid(GetEvents(base, root).value)
      && |GetEvents(base, root).value.items| == |root.children[0].children|
      && forall i :: 0 <= i < |root.children[0].children| ==>
           GetEvents(base, root).value.items[i]
             == Event(FindTag(root.children[0].children[i], "calendar-data").value.text,
                      base + FindTag(root.children[0].children[i], "href").value.text)
  {
    var rs := root.children[0].children;
    var step := EventStep(base);
    assert forall k :: 0 <= k < |rs| ==> step(rs[k]).Defined? == EventOf(base, rs[k]).Defined?;
    if GetEvents(base, root).Defined? {
      var items := GetEvents(base, root).value.items;
      CollectFresh(step, rs);
      AnnouncingAll(base, rs);
      forall i | 0 <= i < |rs|
        ensures items[i] == Event(FindTag(rs[i], "calendar-data").value.text, base + FindTag(rs[i], "href").value.text)
      {
        assert step(rs[i]) == Defined(Some(items[i]));
      }
    }
  }
}
