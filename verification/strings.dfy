/** Text helpers over `string` (= `seq<char>`): prefixes, substring search,
    and splitting/joining on the newline character. */
module Strings {

  predicate StartsWith(s: string, prefix: string) {
    |prefix| <= |s| && s[..|prefix|] == prefix
  }

  predicate EndsWith(s: string, suffix: string) {
    |suffix| <= |s| && s[|s| - |suffix|..] == suffix
  }

  /** `needle` occurs in `hay` at position `i`. */
  predicate OccursAt(hay: string, needle: string, i: int) {
    0 <= i && i + |needle| <= |hay| && hay[i..i + |needle|] == needle
  }

  /** Substring search, the `strstr(hay, needle) != NULL` test. */
  function Contains(hay: string, needle: string): (r: bool)
    ensures r <==> exists i :: OccursAt(hay, needle, i)
    decreases |hay|
  {
    if StartsWith(hay, needle) then
      assert OccursAt(hay, needle, 0);
      true
    else if |hay| == 0 then
      assert forall i :: !OccursAt(hay, needle, i);
      false
    else
      var r := Contains(hay[1..], needle);
      assert forall i :: OccursAt(hay[1..], needle, i) <==> OccursAt(hay, needle, i + 1) by {
        forall i ensures OccursAt(hay[1..], needle, i) <==> OccursAt(hay, needle, i + 1) {
          if 0 <= i && i + |needle| <= |hay| - 1 {
            assert hay[1..][i..i + |needle|] == hay[i + 1..i + 1 + |needle|];
          }
        }
      }
      assert !OccursAt(hay, needle, 0);
      assert forall i :: OccursAt(hay, needle, i) ==> i >= 1 && OccursAt(hay[1..], needle, i - 1);
      r
  }

  /** Index of the first `c` in `s`, or `|s|` when there is none. */
  function IndexOfChar(s: string, c: char): (r: nat)
    ensures r <= |s|
    ensures r < |s| ==> s[r] == c
    ensures forall j :: 0 <= j < r ==> s[j] != c
  {
    if |s| == 0 then 0
    else if s[0] == c then 0
    else 1 + IndexOfChar(s[1..], c)
  }

  /** The pieces one after the other: several texts, or several blocks of lines. */
  function Concat<T>(parts: seq<seq<T>>): seq<T> {
    if parts == [] then [] else parts[0] + Concat(parts[1..])
  }

  /** `f` applied to every element, in order. */
  function Map<A, B>(f: A -> B, xs: seq<A>): (r: seq<B>)
    ensures |r| == |xs| && forall i :: 0 <= i < |xs| ==> r[i] == f(xs[i])
  {
    if xs == [] then [] else [f(xs[0])] + Map(f, xs[1..])
  }

  /** Lines terminated by `'\n'` (a last line without terminator counts too). */
  function JoinLines(lines: seq<string>): string {
    if lines == [] then "" else lines[0] + "\n" + JoinLines(lines[1..])
  }

  /** Splits `s` at every `'\n'`; the empty text has no lines, and a final
      `'\n'` does not start another line. */
  function SplitLines(s: string): seq<string>
    decreases |s|
  {
    if s == [] then []
    else
      var i := IndexOfChar(s, '\n');
      if i == |s| then [s] else [s[..i]] + SplitLines(s[i + 1..])
  }

  predicate NoNewline(s: string) {
    '\n' !in s
  }

  predicate AllNoNewline(lines: seq<string>) {
    forall i :: 0 <= i < |lines| ==> NoNewline(lines[i])
  }

  /** Splitting undoes joining, as long as no line holds a newline itself. */
  lemma {:induction false} SplitJoinLines(lines: seq<string>)
    requires AllNoNewline(lines)
    ensures SplitLines(JoinLines(lines)) == lines
  {
    if lines != [] {
      assert NoNewline(lines[0]);
      assert JoinLines(lines) == lines[0] + "\n" + JoinLines(lines[1..]);
      SplitFirstLine(lines[0], JoinLines(lines[1..]));
      assert AllNoNewline(lines[1..]) by {
        forall i | 0 <= i < |lines| - 1 ensures NoNewline(lines[1..][i]) {
          assert lines[1..][i] == lines[i + 1];
        }
      }
      SplitJoinLines(lines[1..]);
    }
  }

  /** A first line without a newline of its own is split off whole. */
  lemma SplitFirstLine(l: string, rest: string)
    requires NoNewline(l)
    ensures SplitLines(l + "\n" + rest) == [l] + SplitLines(rest)
  {
    var s := l + "\n" + rest;
    assert s[..|l|] == l;
    assert s[|l|] == '\n';
    assert forall j :: 0 <= j < |l| ==> s[j] == l[j] && s[j] != '\n';
    assert IndexOfChar(s, '\n') == |l|;
    assert s[|l| + 1..] == rest;
  }

  /** Joining distributes over concatenation of line sequences. */
  lemma {:induction false} JoinLinesAppend(a: seq<string>, b: seq<string>)
    ensures JoinLines(a + b) == JoinLines(a) + JoinLines(b)
  {
    if a != [] {
      assert (a + b)[0] == a[0];
      assert (a + b)[1..] == a[1..] + b;
      JoinLinesAppend(a[1..], b);
    } else {
      assert a + b == b;
    }
  }

  /** Joined lines end with the last line and its terminator. */
  lemma JoinLinesEndsWith(a: seq<string>, x: string)
    ensures EndsWith(JoinLines(a + [x]), x + "\n")
  {
    JoinLinesAppend(a, [x]);
    assert [x][1..] == [];
    var p := JoinLines(a);
    var q := x + "\n";
    assert JoinLines(a + [x]) == p + q;
    assert (p + q)[|p + q| - |q|..] == q;
  }

  /** Joined lines begin with the first line and its terminator. */
  lemma JoinLinesStartsWith(a: seq<string>, rest: string)
    requires |a| > 0
    ensures StartsWith(JoinLines(a) + rest, a[0] + "\n")
  {
    var p := a[0] + "\n";
    assert JoinLines(a) + rest == p + (JoinLines(a[1..]) + rest);
    assert (p + (JoinLines(a[1..]) + rest))[..|p|] == p;
  }
}
