/** Worked inputs for the outline builder, including one that shows a
    pre-order walk of the outline need not follow the input order. */
module OutlineExamples {

  import opened Options
  import opened Outline

  /** Two sections, the first with two subsections. */
  function Nested(): seq<Entry>
  {
    [Entry(1, "#a", "a"), Entry(2, "#b", "b"), Entry(2, "#c", "c"), Entry(1, "#d", "d")]
  }

  /** A heading that is nobody's parent has no children. */
  lemma {:induction false} NoChildrenFrom(toc: seq<Entry>, p: nat, lo: nat)
    requires p < |toc| && lo <= |toc|
    requires forall k: nat :: lo <= k < |toc| ==> ParentOf(toc, k) != Some(p)
    ensures ChildrenFrom(toc, p, lo) == []
    decreases |toc| - lo
  {
    if lo < |toc| {
      NoChildrenFrom(toc, p, lo + 1);
    }
  }

  lemma NestedParents()
    ensures ParentOf(Nested(), 0) == None && ParentOf(Nested(), 3) == None
    ensures ParentOf(Nested(), 1) == Some(0) && ParentOf(Nested(), 2) == Some(0)
  {
    var toc := Nested();
    assert Scan(toc, 1, 1) == Scan(toc, 1, 0) == Some(0);
    assert Scan(toc, 2, 2) == Scan(toc, 2, 1) == Scan(toc, 2, 0) == Some(0);
  }

  lemma NestedLinks()
    ensures ChildIndices(Nested(), 0) == [1, 2]
    ensures ChildIndices(Nested(), 1) == [] && ChildIndices(Nested(), 2) == [] && ChildIndices(Nested(), 3) == []
    ensures RootIndices(Nested()) == [0, 3]
  {
    var toc := Nested();
    NestedParents();
    assert ChildrenFrom(toc, 0, 3) == [];
    assert ChildrenFrom(toc, 0, 2) == [2];
    assert ChildrenFrom(toc, 0, 1) == [1, 2];
    NoChildrenFrom(toc, 1, 0);
    NoChildrenFrom(toc, 2, 0);
    NoChildrenFrom(toc, 3, 0);
  }

  /** The subsections hang under the first section in input order and the
      second section has no children. */
  lemma NestedExample()
    ensures var toc := Nested();
            Build(toc) == [Node(0, toc[0], [Node(1, toc[1], []), Node(2, toc[2], [])]), Node(3, toc[3], [])]
  {
    var toc := Nested();
    NestedLinks();
    assert Subtree(toc, 1) == Node(1, toc[1], []);
    assert Subtree(toc, 2) == Node(2, toc[2], []);
    assert Subtree(toc, 3) == Node(3, toc[3], []);
    assert Subtree(toc, 0) == Node(0, toc[0], [Subtree(toc, 1), Subtree(toc, 2)]);
  }

  /** A depth-3 heading with no depth-2 heading before it is dropped. */
  lemma OrphanExample()
    ensures var toc := [Entry(1, "#a", "a"), Entry(3, "#b", "b")];
            Build(toc) == [Node(0, toc[0], [])]
  {
    var toc := [Entry(1, "#a", "a"), Entry(3, "#b", "b")];
    assert ParentOf(toc, 1) == None;
    assert ChildIndices(toc, 0) == [];
    assert RootIndices(toc) == [0];
    assert Subtree(toc, 0) == Node(0, toc[0], []);
  }

  /** Headings of depths 1, 2, 1, 3. */
  function Crossing(): seq<Entry>
  {
    [Entry(1, "#a", "a"), Entry(2, "#b", "b"), Entry(1, "#c", "c"), Entry(3, "#d", "d")]
  }

  lemma CrossingParents()
    ensures ParentOf(Crossing(), 0) == None && ParentOf(Crossing(), 2) == None
    ensures ParentOf(Crossing(), 1) == Some(0) && ParentOf(Crossing(), 3) == Some(1)
  {
    var toc := Crossing();
    assert Scan(toc, 1, 1) == Scan(toc, 1, 0) == Some(0);
    assert Scan(toc, 3, 3) == Scan(toc, 3, 2) == Scan(toc, 3, 1) == Some(1);
  }

  lemma CrossingLinks()
    ensures ChildIndices(Crossing(), 0) == [1] && ChildIndices(Crossing(), 1) == [3]
    ensures ChildIndices(Crossing(), 2) == [] && ChildIndices(Crossing(), 3) == []
    ensures RootIndices(Crossing()) == [0, 2]
  {
    var toc := Crossing();
    CrossingParents();
    assert ChildrenFrom(toc, 0, 2) == [];
    assert ChildrenFrom(toc, 0, 1) == [1];
    assert ChildrenFrom(toc, 1, 3) == [3];
    assert ChildrenFrom(toc, 1, 1) == [3];
    NoChildrenFrom(toc, 2, 0);
    NoChildrenFrom(toc, 3, 0);
  }

  lemma CrossingForest()
    ensures var toc := Crossing();
            Build(toc) == [Node(0, toc[0], [Node(1, toc[1], [Node(3, toc[3], [])])]), Node(2, toc[2], [])]
  {
    var toc := Crossing();
    CrossingLinks();
    assert Subtree(toc, 3) == Node(3, toc[3], []);
    assert Subtree(toc, 1) == Node(1, toc[1], [Subtree(toc, 3)]);
    assert Subtree(toc, 0) == Node(0, toc[0], [Subtree(toc, 1)]);
    assert Subtree(toc, 2) == Node(2, toc[2], []);
  }

  /** Depths 1, 2, 1, 3: the depth-3 heading attaches under the depth-2
      heading at position 1, which lies before the second root, so the
      pre-order listing is 0, 1, 3, 2. */
  lemma PreorderNotDocumentOrder()
    ensures PreorderAll(Build(Crossing())) == [0, 1, 3, 2]
  {
    var toc := Crossing();
    CrossingForest();
    var d := Node(3, toc[3], []);
    var b := Node(1, toc[1], [d]);
    var a := Node(0, toc[0], [b]);
    var c := Node(2, toc[2], []);
    assert Preorder(d) == [3];
    assert PreorderAll([d]) == [3];
    assert Preorder(b) == [1, 3];
    assert PreorderAll([b]) == [1, 3];
    assert Preorder(a) == [0, 1, 3];
    assert Preorder(c) == [2];
    assert PreorderAll([c]) == [2];
    assert PreorderAll([a, c]) == [0, 1, 3] + PreorderAll([c]);
  }
}
