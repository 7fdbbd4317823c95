/** The table of contents' highlighting and expansion rule: a node is active
    when its url points at the active heading or one of its children is
    active, and a node's children are shown only beneath an active node that
    has children. */
module Highlight {

  import opened Options
  import opened Outline

  /** The url an entry must carry to be the active one: `#` followed by the
      active id. An id that is still undefined concatenates as the text
      "undefined". */
  function Target(activeId: Option<string>): string
  {
    match activeId
    case Some(id) => "#" + id
    case None => "#undefined"
  }

  /** The recursive activity test of the renderer. */
  predicate IsActive(n: Node, activeId: Option<string>)
    decreases n
  {
    || n.entry.url == Target(activeId)
    || exists k :: 0 <= k < |n.children| && IsActive(n.children[k], activeId)
  }

  /** The urls of a tree in pre-order. */
  function Urls(n: Node): seq<string>
    decreases n, 1
  {
    [n.entry.url] + UrlsAll(n.children)
  }

  /** The urls of a sequence of trees, one tree after the other. */
  function UrlsAll(ns: seq<Node>): seq<string>
    decreases ns, 0
  {
    if ns == [] then [] else Urls(ns[0]) + UrlsAll(ns[1..])
  }

  /** `d` is `n` or lies somewhere beneath it. */
  predicate Contains(n: Node, d: Node)
    decreases n
  {
    d == n || exists k :: 0 <= k < |n.children| && Contains(n.children[k], d)
  }

  /** A node is active exactly when the target url occurs in its tree. */
  lemma {:induction false} ActiveIffTargetInside(n: Node, activeId: Option<string>)
    ensures IsActive(n, activeId) <==> Target(activeId) in Urls(n)
    decreases n, 1
  {
    AnyActiveIffTargetInside(n.children, activeId);
  }

  /** Some tree of `ns` is active exactly when the target url occurs in one of them. */
  lemma {:induction false} AnyActiveIffTargetInside(ns: seq<Node>, activeId: Option<string>)
    ensures (exists k :: 0 <= k < |ns| && IsActive(ns[k], activeId)) <==> Target(activeId) in UrlsAll(ns)
    decreases ns, 0
  {
    if ns != [] {
      var rest := ns[1..];
      ActiveIffTargetInside(ns[0], activeId);
      AnyActiveIffTargetInside(rest, activeId);
      assert forall k :: 0 <= k < |rest| ==> rest[k] == ns[k + 1];
      if exists k :: 0 <= k < |ns| && IsActive(ns[k], activeId) {
        var k :| 0 <= k < |ns| && IsActive(ns[k], activeId);
        if k > 0 {
          assert IsActive(rest[k - 1], activeId);
        }
      }
      if Target(activeId) in UrlsAll(rest) {
        var k :| 0 <= k < |rest| && IsActive(rest[k], activeId);
        assert IsActive(ns[k + 1], activeId);
      }
    }
  }

  /** Every node above an active node is active. */
  lemma {:induction false} AncestorsOfActiveAreActive(n: Node, d: Node, activeId: Option<string>)
    requires Contains(n, d) && IsActive(d, activeId)
    ensures IsActive(n, activeId)
    decreases n
  {
    if d != n {
      var k :| 0 <= k < |n.children| && Contains(n.children[k], d);
      AncestorsOfActiveAreActive(n.children[k], d, activeId);
    }
  }

  /** One rendered TOC line: its link, its text, whether it carries the
      highlight, and the lines shown indented beneath it. */
  datatype Item = Item(href: string, text: string, highlighted: bool, nested: seq<Item>)

  function RenderOne(n: Node, activeId: Option<string>): Item
    decreases n, 1
  {
    var active := IsActive(n, activeId);
    Item(n.entry.url, n.entry.value, active,
         if active && |n.children| > 0 then Render(n.children, activeId) else [])
  }

  /** The recursive renderer: one line per node, highlighted when the node is
      active, with the children's lines beneath it only when the node is
      active and has children. */
  function Render(ns: seq<Node>, activeId: Option<string>): (r: seq<Item>)
    ensures |r| == |ns|
    ensures forall k :: 0 <= k < |r| ==>
              && r[k].href == ns[k].entry.url
              && r[k].text == ns[k].entry.value
              && r[k].highlighted == IsActive(ns[k], activeId)
    ensures forall k :: 0 <= k < |r| ==>
              (r[k].nested != [] <==> IsActive(ns[k], activeId) && ns[k].children != [])
    decreases ns, 0
  {
    seq(|ns|, k requires 0 <= k < |ns| => RenderOne(ns[k], activeId))
  }

  /** The line shows `href` highlighted, itself or somewhere beneath it. */
  predicate ItemShows(item: Item, href: string)
    decreases item, 1
  {
    (item.href == href && item.highlighted) || Shows(item.nested, href)
  }

  /** Some line of `items`, at any nesting, shows `href` highlighted. */
  predicate Shows(items: seq<Item>, href: string)
    decreases items, 0
  {
    exists k :: 0 <= k < |items| && ItemShows(items[k], href)
  }

  lemma {:induction false} ActiveNodeShown(n: Node, activeId: Option<string>)
    requires IsActive(n, activeId)
    ensures ItemShows(RenderOne(n, activeId), Target(activeId))
    decreases n
  {
    if n.entry.url != Target(activeId) {
      var k :| 0 <= k < |n.children| && IsActive(n.children[k], activeId);
      ActiveNodeShown(n.children[k], activeId);
      var lines := Render(n.children, activeId);
      assert lines[k] == RenderOne(n.children[k], activeId);
      assert RenderOne(n, activeId).nested == lines;
    }
  }

  /** The heading being read is always on screen: when its url occurs in the
      outline, the rendered outline shows it highlighted; and nothing is
      highlighted when it does not occur. */
  lemma RenderShowsTarget(ns: seq<Node>, activeId: Option<string>)
    ensures Target(activeId) in UrlsAll(ns) <==> Shows(Render(ns, activeId), Target(activeId))
    ensures forall href :: Shows(Render(ns, activeId), href) ==> Target(activeId) in UrlsAll(ns)
  {
    var lines := Render(ns, activeId);
    AnyActiveIffTargetInside(ns, activeId);
    if Target(activeId) in UrlsAll(ns) {
      var k :| 0 <= k < |ns| && IsActive(ns[k], activeId);
      ActiveNodeShown(ns[k], activeId);
      assert lines[k] == RenderOne(ns[k], activeId);
    }
    forall href | Shows(lines, href)
      ensures Target(activeId) in UrlsAll(ns)
    {
      var k :| 0 <= k < |lines| && ItemShows(lines[k], href);
      assert Shows(lines[k].nested, href) ==> lines[k].nested != [];
      assert IsActive(ns[k], activeId);
    }
  }
}
