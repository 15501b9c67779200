/** The parsed XML tree the CalDAV client reads multistatus bodies from.
    The parser (`xml.h`) is not part of this model; the lookups below are the
    first-match reading of `xml_node_find_tag`, `xml_node_child_at` and
    `xml_node_attr`, with namespace prefixes already removed from tags. */
module Xml {
  import opened Wrappers

  datatype Node = Node(tag: string, attrs: seq<(string, string)>, text: string, children: seq<Node>)

  /** `xml_node_child_at`: the `i`-th child, or NULL. */
  function ChildAt(n: Node, i: nat): (r: Option<Node>)
    ensures r.Some? <==> i < |n.children|
    ensures r.Some? ==> r.value == n.children[i]
  {
    if i < |n.children| then Some(n.children[i]) else None
  }

  /** `xml_node_attr`: the value of the first attribute called `name`; a
      NULL node has none. */
  function Attr(n: Option<Node>, name: string): (r: Option<string>)
    ensures r.Some? <==> n.Some? && exists i :: 0 <= i < |n.value.attrs| && n.value.attrs[i].0 == name
    ensures r.Some? ==> exists i :: 0 <= i < |n.value.attrs| && n.value.attrs[i] == (name, r.value)
  {
    if n.None? then None else AttrIn(n.value.attrs, name)
  }

  function AttrIn(attrs: seq<(string, string)>, name: string): (r: Option<string>)
    ensures r.Some? <==> exists i :: 0 <= i < |attrs| && attrs[i].0 == name
    ensures r.Some? ==> exists i :: 0 <= i < |attrs| && attrs[i] == (name, r.value)
  {
    if attrs == [] then None
    else if attrs[0].0 == name then Some(attrs[0].1)
    else
      var r := AttrIn(attrs[1..], name);
      assert forall i :: 0 < i < |attrs| ==> attrs[i] == attrs[1..][i - 1];
      if r.Some? then
        var i :| 0 <= i < |attrs| - 1 && attrs[1..][i] == (name, r.value);
        assert attrs[i + 1] == attrs[1..][i];
        r
      else r
  }

  /** `xml_node_find_tag`: the first descendant (not the node itself) in
      document order whose tag is `tag`. */
  function FindTag(n: Node, tag: string): (r: Option<Node>)
    ensures r.Some? ==> r.value.tag == tag
  {
    FindIn(n.children, tag)
  }

  /** Document-order search through some siblings and their subtrees. */
  function FindIn(nodes: seq<Node>, tag: string): (r: Option<Node>)
    ensures r.Some? ==> r.value.tag == tag
    decreases nodes
  {
    if nodes == [] then None
    else if nodes[0].tag == tag then Some(nodes[0])
    else
      match FindIn(nodes[0].children, tag)
      case Some(m) => Some(m)
      case None => FindIn(nodes[1..], tag)
  }

  /** All nodes of some sibling subtrees, in document order. */
  function Preorder(nodes: seq<Node>): seq<Node>
    decreases nodes
  {
    if nodes == [] then []
    else [nodes[0]] + Preorder(nodes[0].children) + Preorder(nodes[1..])
  }

  /** The first node with tag `tag` in a flat sequence. */
  function FirstTagged(ns: seq<Node>, tag: string): Option<Node> {
    if ns == [] then None
    else if ns[0].tag == tag then Some(ns[0])
    else FirstTagged(ns[1..], tag)
  }

  lemma {:induction false} FirstTaggedAppend(a: seq<Node>, b: seq<Node>, tag: string)
    ensures FirstTagged(a + b, tag)
         == (if FirstTagged(a, tag).Some? then FirstTagged(a, tag) else FirstTagged(b, tag))
  {
    if a == [] {
      assert a + b == b;
    } else {
      assert (a + b)[1..] == a[1..] + b;
      FirstTaggedAppend(a[1..], b, tag);
    }
  }

  lemma {:induction false} FirstTaggedNone(ns: seq<Node>, tag: string)
    ensures FirstTagged(ns, tag).None? <==> forall i :: 0 <= i < |ns| ==> ns[i].tag != tag
  {
    if ns != [] {
      FirstTaggedNone(ns[1..], tag);
      assert forall i :: 0 < i < |ns| ==> ns[i] == ns[1..][i - 1];
    }
  }

  /** The recursive search finds exactly the first tagged node of the
      flattened document order. */
  lemma {:induction false} FindInIsFirstInPreorder(nodes: seq<Node>, tag: string)
    ensures FindIn(nodes, tag) == FirstTagged(Preorder(nodes), tag)
    decreases nodes
  {
    if nodes != [] {
      var head := [nodes[0]];
      var kids := Preorder(nodes[0].children);
      var rest := Preorder(nodes[1..]);
      FindInIsFirstInPreorder(nodes[0].children, tag);
      FindInIsFirstInPreorder(nodes[1..], tag);
      FirstTaggedAppend(head + kids, rest, tag);
      FirstTaggedAppend(head, kids, tag);
      assert FirstTagged(head, tag) == (if nodes[0].tag == tag then Some(nodes[0]) else None);
    }
  }

  /** A tag is found iff some descendant carries it, and what is found is
      the first such descendant in document order. */
  lemma FindTagSpec(n: Node, tag: string)
    ensures FindTag(n, tag) == FirstTagged(Preorder(n.children), tag)
    ensures FindTag(n, tag).None? <==>
      forall i :: 0 <= i < |Preorder(n.children)| ==> Preorder(n.children)[i].tag != tag
  {
    FindInIsFirstInPreorder(n.children, tag);
    FirstTaggedNone(Preorder(n.children), tag);
  }
}
