/** The outline builder of the post layout's table of contents: a flat,
    document-ordered list of headings becomes a forest in which the depth-1
    headings are the roots and every other heading hangs under the nearest
    preceding heading exactly one level shallower. */
module Outline {

  import opened Options

  /** One heading as the content pipeline supplies it. */
  datatype Entry = Entry(depth: int, url: string, value: string)

  /** A heading copied into the outline. `index` is its position in the input
      list and stands for the identity of the copied heading object; `entry`
      holds the copied fields and `children` the headings attached beneath it. */
  datatype Node = Node(index: nat, entry: Entry, children: seq<Node>)

  /** Depth-1 headings are the roots and are never attached to a parent. */
  predicate IsRoot(toc: seq<Entry>, i: nat)
    requires i < |toc|
  {
    toc[i].depth == 1
  }

  /** Heading `j` can hold heading `i`: it is exactly one level shallower. */
  predicate Fits(toc: seq<Entry>, j: nat, i: nat)
    requires j < |toc| && i < |toc|
  {
    toc[i].depth - toc[j].depth == 1
  }

  /** Strictly increasing sequence of indices. */
  predicate Increasing(s: seq<nat>)
  {
    forall a, b :: 0 <= a < b < |s| ==> s[a] < s[b]
  }

  /** The inner search loop for heading `i`: walk `j` down to 0 and stop at
      the first heading that fits. */
  function Scan(toc: seq<Entry>, i: nat, j: int): (r: Option<nat>)
    requires i < |toc| && -1 <= j <= i
    ensures r.Some? ==> r.value <= j && Fits(toc, r.value, i)
    ensures r.Some? ==> forall k :: r.value < k <= j ==> !Fits(toc, k, i)
    ensures r.None? ==> forall k :: 0 <= k <= j ==> !Fits(toc, k, i)
    decreases j + 1
  {
    if j < 0 then None
    else if Fits(toc, j, i) then Some(j)
    else Scan(toc, i, j - 1)
  }

  /** The heading that heading `i` is attached under: the greatest `j < i`
      exactly one level shallower, and none for a root or an orphan. */
  function ParentOf(toc: seq<Entry>, i: nat): (r: Option<nat>)
    requires i < |toc|
    ensures r.Some? ==> !IsRoot(toc, i) && r.value < i && Fits(toc, r.value, i)
    ensures r.Some? ==> forall k :: r.value < k < i ==> !Fits(toc, k, i)
    ensures r.None? ==> IsRoot(toc, i) || forall k :: 0 <= k < i ==> !Fits(toc, k, i)
  {
    if IsRoot(toc, i) then None else Scan(toc, i, i)
  }

  /** The headings at positions `lo` and beyond whose parent is `p`, in input order. */
  function ChildrenFrom(toc: seq<Entry>, p: nat, lo: nat): (r: seq<nat>)
    requires p < |toc| && lo <= |toc|
    ensures forall k :: k in r <==> lo <= k < |toc| && ParentOf(toc, k) == Some(p)
    ensures Increasing(r)
    decreases |toc| - lo
  {
    if lo == |toc| then []
    else if ParentOf(toc, lo) == Some(p) then
      var rest := ChildrenFrom(toc, p, lo + 1);
      assert forall b :: 0 <= b < |rest| ==> rest[b] in rest;
      [lo] + rest
    else ChildrenFrom(toc, p, lo + 1)
  }

  /** The children of heading `p`: every heading attached under it, in input
      order; a heading is a child of `p` exactly when `p` is its parent. */
  function ChildIndices(toc: seq<Entry>, p: nat): (r: seq<nat>)
    requires p < |toc|
    ensures forall k: nat :: k in r <==> k < |toc| && ParentOf(toc, k) == Some(p)
    ensures forall k :: k in r ==> p < k && toc[k].depth == toc[p].depth + 1
    ensures Increasing(r)
  {
    ChildrenFrom(toc, p, 0)
  }

  /** The root headings among the first `hi` positions, in input order. */
  function RootsUpTo(toc: seq<Entry>, hi: nat): (r: seq<nat>)
    requires hi <= |toc|
    ensures forall k: nat :: k in r <==> k < hi && IsRoot(toc, k)
    ensures Increasing(r)
  {
    if hi == 0 then []
    else if IsRoot(toc, hi - 1) then
      var front := RootsUpTo(toc, hi - 1);
      assert forall a :: 0 <= a < |front| ==> front[a] in front;
      front + [hi - 1]
    else RootsUpTo(toc, hi - 1)
  }

  /** The positions of the depth-1 headings, in input order. */
  function RootIndices(toc: seq<Entry>): (r: seq<nat>)
    ensures forall k: nat :: k in r <==> k < |toc| && IsRoot(toc, k)
    ensures Increasing(r)
  {
    RootsUpTo(toc, |toc|)
  }

  /** The copy of heading `i` with everything attached beneath it. */
  function Subtree(toc: seq<Entry>, i: nat): (n: Node)
    requires i < |toc|
    decreases |toc| - i
  {
    var ks := ChildIndices(toc, i);
    assert forall k :: 0 <= k < |ks| ==> ks[k] in ks;
    Node(i, toc[i], seq(|ks|, k requires 0 <= k < |ks| => Subtree(toc, ks[k])))
  }

  /** The outline: one tree per depth-1 heading, in input order. */
  function Build(toc: seq<Entry>): (f: seq<Node>)
    ensures |toc| == 0 ==> f == []
    ensures forall k :: 0 <= k < |f| ==> f[k].index < |toc| && f[k].entry == toc[f[k].index]
    ensures forall k :: 0 <= k < |f| ==> f[k].entry.depth == 1
    ensures forall i :: 0 <= i < |toc| && IsRoot(toc, i) ==> exists k :: 0 <= k < |f| && f[k].index == i
    ensures forall a, b :: 0 <= a < b < |f| ==> f[a].index < f[b].index
  {
    var rs := RootIndices(toc);
    assert forall k :: 0 <= k < |rs| ==> rs[k] in rs;
    var f := seq(|rs|, k requires 0 <= k < |rs| => Subtree(toc, rs[k]));
    assert forall i :: 0 <= i < |toc| && IsRoot(toc, i) ==> exists k :: 0 <= k < |rs| && rs[k] == i && f[k].index == i;
    f
  }

  /** Heading `a` is heading `k` or lies on its chain of parents. */
  predicate AncestorOrSelf(toc: seq<Entry>, a: nat, k: nat)
    requires k < |toc|
    decreases k
  {
    a == k || (ParentOf(toc, k).Some? && AncestorOrSelf(toc, a, ParentOf(toc, k).value))
  }

  /** Heading `k`'s chain of parents ends at a depth-1 heading. */
  predicate Anchored(toc: seq<Entry>, k: nat)
    requires k < |toc|
    decreases k
  {
    IsRoot(toc, k) || (ParentOf(toc, k).Some? && Anchored(toc, ParentOf(toc, k).value))
  }

  /** The headings of a tree in pre-order (node first, then each child's tree). */
  function Preorder(n: Node): seq<nat>
    decreases n, 1
  {
    [n.index] + PreorderAll(n.children)
  }

  /** The pre-order listings of a sequence of trees, one after the other. */
  function PreorderAll(ns: seq<Node>): seq<nat>
    decreases ns, 0
  {
    if ns == [] then [] else Preorder(ns[0]) + PreorderAll(ns[1..])
  }
}
