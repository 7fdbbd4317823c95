/** What the outline builder guarantees about the forest it returns: which
    headings are reachable, that each appears once, under which parent, and in
    which order. */
module OutlineShape {

  import opened Options
  import opened Outline

  /** No index is listed twice. */
  predicate NoDup(s: seq<nat>)
  {
    forall a, b :: 0 <= a < b < |s| ==> s[a] != s[b]
  }

  /** The two listings share no index. */
  predicate Disjoint(s: seq<nat>, t: seq<nat>)
  {
    forall x :: x in s ==> x !in t
  }

  /** Every node of the tree copies its heading unchanged, every child hangs
      under the child's parent one level deeper and later in the input, the
      children are in input order, and every heading whose parent is the node
      is among its children. */
  predicate WellLinked(toc: seq<Entry>, n: Node)
    decreases n
  {
    && n.index < |toc|
    && n.entry == toc[n.index]
    && (forall k :: 0 <= k < |n.children| ==>
          && n.children[k].index < |toc|
          && ParentOf(toc, n.children[k].index) == Some(n.index)
          && n.children[k].entry.depth == n.entry.depth + 1
          && n.index < n.children[k].index
          && WellLinked(toc, n.children[k]))
    && (forall a, b :: 0 <= a < b < |n.children| ==> n.children[a].index < n.children[b].index)
    && (forall j: nat :: j < |toc| && ParentOf(toc, j) == Some(n.index) ==>
          exists k :: 0 <= k < |n.children| && n.children[k].index == j)
  }

  /** The indices a listing mentions. */
  function Elems(s: seq<nat>): set<nat>
  {
    set x | x in s
  }

  /** The set of headings whose parent chain reaches a depth-1 heading. */
  function AnchoredSet(toc: seq<Entry>): set<nat>
  {
    set k: nat | k < |toc| && Anchored(toc, k)
  }

  /** The tree of heading `i` unfolded one level. */
  lemma SubtreeShape(toc: seq<Entry>, i: nat)
    requires i < |toc|
    ensures Subtree(toc, i).index == i && Subtree(toc, i).entry == toc[i]
    ensures |Subtree(toc, i).children| == |ChildIndices(toc, i)|
    ensures forall k :: 0 <= k < |ChildIndices(toc, i)| ==>
              ChildIndices(toc, i)[k] in ChildIndices(toc, i) &&
              Subtree(toc, i).children[k] == Subtree(toc, ChildIndices(toc, i)[k])
  {
    var ks := ChildIndices(toc, i);
    assert forall k :: 0 <= k < |ks| ==> ks[k] in ks;
  }

  lemma {:induction false} SubtreeWellLinked(toc: seq<Entry>, i: nat)
    requires i < |toc|
    ensures WellLinked(toc, Subtree(toc, i))
    decreases |toc| - i
  {
    var n := Subtree(toc, i);
    var ks := ChildIndices(toc, i);
    SubtreeShape(toc, i);
    forall k | 0 <= k < |n.children|
      ensures WellLinked(toc, n.children[k])
    {
      assert ks[k] in ks;
      SubtreeWellLinked(toc, ks[k]);
    }
    forall j: nat | j < |toc| && ParentOf(toc, j) == Some(i)
      ensures exists k :: 0 <= k < |n.children| && n.children[k].index == j
    {
      assert j in ks;
      var k :| 0 <= k < |ks| && ks[k] == j;
      assert n.children[k].index == j;
    }
  }

  /** Every tree of the outline is well linked. */
  lemma ForestWellLinked(toc: seq<Entry>)
    ensures forall k :: 0 <= k < |Build(toc)| ==> WellLinked(toc, Build(toc)[k])
  {
    var rs := RootIndices(toc);
    forall k | 0 <= k < |Build(toc)|
      ensures WellLinked(toc, Build(toc)[k])
    {
      assert rs[k] in rs;
      SubtreeWellLinked(toc, rs[k]);
    }
  }

  lemma {:induction false} InPreorderAll(ns: seq<Node>, x: nat)
    ensures x in PreorderAll(ns) <==> exists m :: 0 <= m < |ns| && x in Preorder(ns[m])
    decreases |ns|
  {
    if ns != [] {
      InPreorderAll(ns[1..], x);
      if x in PreorderAll(ns[1..]) {
        var m :| 0 <= m < |ns[1..]| && x in Preorder(ns[1..][m]);
        assert ns[1..][m] == ns[m + 1];
      }
      if exists m :: 0 <= m < |ns| && x in Preorder(ns[m]) {
        var m :| 0 <= m < |ns| && x in Preorder(ns[m]);
        if m > 0 {
          assert ns[1..][m - 1] == ns[m];
        }
      }
    }
  }

  lemma NoDupConcat(s: seq<nat>, t: seq<nat>)
    requires NoDup(s) && NoDup(t) && Disjoint(s, t)
    ensures NoDup(s + t)
  {
    forall a, b | 0 <= a < b < |s + t|
      ensures (s + t)[a] != (s + t)[b]
    {
      if a < |s| && b >= |s| {
        assert (s + t)[a] in s;
        assert (s + t)[b] == t[b - |s|];
      }
    }
  }

  lemma {:induction false} NoDupAll(ns: seq<Node>)
    requires forall m :: 0 <= m < |ns| ==> NoDup(Preorder(ns[m]))
    requires forall m1, m2 :: 0 <= m1 < m2 < |ns| ==> Disjoint(Preorder(ns[m1]), Preorder(ns[m2]))
    ensures NoDup(PreorderAll(ns))
    decreases |ns|
  {
    if ns != [] {
      var rest := ns[1..];
      assert forall m :: 0 <= m < |rest| ==> rest[m] == ns[m + 1];
      NoDupAll(rest);
      forall x | x in Preorder(ns[0])
        ensures x !in PreorderAll(rest)
      {
        forall m | 0 <= m < |rest|
          ensures x !in Preorder(rest[m])
        {
          assert Disjoint(Preorder(ns[0]), Preorder(ns[m + 1]));
        }
        InPreorderAll(rest, x);
      }
      NoDupConcat(Preorder(ns[0]), PreorderAll(rest));
    }
  }

  /** Along a parent chain indices and depths strictly decrease. */
  lemma {:induction false} AncestorDepth(toc: seq<Entry>, a: nat, k: nat)
    requires k < |toc| && AncestorOrSelf(toc, a, k)
    ensures a <= k && toc[a].depth <= toc[k].depth
    ensures a != k ==> a < k && toc[a].depth < toc[k].depth
    decreases k
  {
    if a != k {
      AncestorDepth(toc, a, ParentOf(toc, k).value);
    }
  }

  /** A heading has at most one ancestor at each depth. */
  lemma {:induction false} AncestorUnique(toc: seq<Entry>, a: nat, b: nat, k: nat)
    requires k < |toc| && AncestorOrSelf(toc, a, k) && AncestorOrSelf(toc, b, k)
    requires a < |toc| && b < |toc| && toc[a].depth == toc[b].depth
    ensures a == b
    decreases k
  {
    AncestorDepth(toc, a, k);
    AncestorDepth(toc, b, k);
    if a != k && b != k {
      AncestorUnique(toc, a, b, ParentOf(toc, k).value);
    }
  }

  lemma {:induction false} AncestorStep(toc: seq<Entry>, i: nat, c: nat, k: nat)
    requires k < |toc| && c < |toc| && ParentOf(toc, c) == Some(i) && AncestorOrSelf(toc, c, k)
    ensures AncestorOrSelf(toc, i, k)
    decreases k
  {
    if c != k {
      AncestorStep(toc, i, c, ParentOf(toc, k).value);
    } else {
      assert AncestorOrSelf(toc, i, i);
    }
  }

  lemma {:induction false} AncestorViaChild(toc: seq<Entry>, i: nat, k: nat)
    requires k < |toc| && AncestorOrSelf(toc, i, k) && i != k
    ensures exists c: nat :: c < |toc| && ParentOf(toc, c) == Some(i) && AncestorOrSelf(toc, c, k)
    decreases k
  {
    var p := ParentOf(toc, k).value;
    if p == i {
      assert AncestorOrSelf(toc, k, k);
    } else {
      AncestorViaChild(toc, i, p);
      var c: nat :| c < |toc| && ParentOf(toc, c) == Some(i) && AncestorOrSelf(toc, c, p);
      assert AncestorOrSelf(toc, c, k);
    }
  }

  /** The tree of heading `i` holds exactly the headings that `i` is an
      ancestor of (itself included). */
  lemma {:induction false} SubtreeIndices(toc: seq<Entry>, i: nat)
    requires i < |toc|
    ensures forall k: nat :: k in Preorder(Subtree(toc, i)) <==> k < |toc| && AncestorOrSelf(toc, i, k)
    decreases |toc| - i
  {
    var n := Subtree(toc, i);
    var ks := ChildIndices(toc, i);
    SubtreeShape(toc, i);
    forall k: nat | k in Preorder(n)
      ensures k < |toc| && AncestorOrSelf(toc, i, k)
    {
      if k != i {
        assert k in PreorderAll(n.children);
        InPreorderAll(n.children, k);
        var m :| 0 <= m < |n.children| && k in Preorder(n.children[m]);
        assert ks[m] in ks;
        SubtreeIndices(toc, ks[m]);
        AncestorStep(toc, i, ks[m], k);
      }
    }
    forall k: nat | k < |toc| && AncestorOrSelf(toc, i, k)
      ensures k in Preorder(n)
    {
      if k != i {
        AncestorViaChild(toc, i, k);
        var c: nat :| c < |toc| && ParentOf(toc, c) == Some(i) && AncestorOrSelf(toc, c, k);
        assert c in ks;
        var m :| 0 <= m < |ks| && ks[m] == c;
        SubtreeIndices(toc, c);
        assert k in Preorder(n.children[m]);
        InPreorderAll(n.children, k);
      }
    }
  }

  lemma {:induction false} AnchoredIffRootAbove(toc: seq<Entry>, k: nat)
    requires k < |toc|
    ensures Anchored(toc, k) <==> exists r: nat :: r < |toc| && IsRoot(toc, r) && AncestorOrSelf(toc, r, k)
    decreases k
  {
    if IsRoot(toc, k) {
      assert AncestorOrSelf(toc, k, k);
    } else if ParentOf(toc, k).Some? {
      var p := ParentOf(toc, k).value;
      AnchoredIffRootAbove(toc, p);
      if exists r: nat :: r < |toc| && IsRoot(toc, r) && AncestorOrSelf(toc, r, k) {
        var r: nat :| r < |toc| && IsRoot(toc, r) && AncestorOrSelf(toc, r, k);
        assert r != k;
        assert AncestorOrSelf(toc, r, p);
      }
      if Anchored(toc, k) {
        var r: nat :| r < |toc| && IsRoot(toc, r) && AncestorOrSelf(toc, r, p);
        assert AncestorOrSelf(toc, r, k);
      }
    }
  }

  /** A heading is in the outline exactly when its parent chain reaches a
      depth-1 heading. */
  lemma ForestIndices(toc: seq<Entry>)
    ensures forall k: nat :: k in PreorderAll(Build(toc)) <==> k < |toc| && Anchored(toc, k)
  {
    var f := Build(toc);
    var rs := RootIndices(toc);
    forall k: nat
      ensures k in PreorderAll(f) <==> k < |toc| && Anchored(toc, k)
    {
      InPreorderAll(f, k);
      if k in PreorderAll(f) {
        var m :| 0 <= m < |f| && k in Preorder(f[m]);
        assert rs[m] in rs;
        SubtreeIndices(toc, rs[m]);
        AnchoredIffRootAbove(toc, k);
      }
      if k < |toc| && Anchored(toc, k) {
        AnchoredIffRootAbove(toc, k);
        var r: nat :| r < |toc| && IsRoot(toc, r) && AncestorOrSelf(toc, r, k);
        assert r in rs;
        var m :| 0 <= m < |rs| && rs[m] == r;
        SubtreeIndices(toc, r);
        assert k in Preorder(f[m]);
      }
    }
  }

  lemma {:induction false} SubtreeNoDup(toc: seq<Entry>, i: nat)
    requires i < |toc|
    ensures NoDup(Preorder(Subtree(toc, i)))
    decreases |toc| - i
  {
    var n := Subtree(toc, i);
    var ks := ChildIndices(toc, i);
    SubtreeShape(toc, i);
    forall m | 0 <= m < |n.children|
      ensures NoDup(Preorder(n.children[m]))
    {
      assert ks[m] in ks;
      SubtreeNoDup(toc, ks[m]);
    }
    forall m1, m2 | 0 <= m1 < m2 < |n.children|
      ensures Disjoint(Preorder(n.children[m1]), Preorder(n.children[m2]))
    {
      assert ks[m1] in ks && ks[m2] in ks;
      SubtreeIndices(toc, ks[m1]);
      SubtreeIndices(toc, ks[m2]);
      forall x | x in Preorder(n.children[m1])
        ensures x !in Preorder(n.children[m2])
      {
        if x in Preorder(n.children[m2]) {
          AncestorUnique(toc, ks[m1], ks[m2], x);
        }
      }
    }
    NoDupAll(n.children);
    forall x | x in PreorderAll(n.children)
      ensures x != i
    {
      InPreorderAll(n.children, x);
      var m :| 0 <= m < |n.children| && x in Preorder(n.children[m]);
      assert ks[m] in ks;
      SubtreeIndices(toc, ks[m]);
      AncestorDepth(toc, ks[m], x);
    }
    NoDupConcat([i], PreorderAll(n.children));
  }

  /** No heading appears twice in the outline. */
  lemma ForestNoDup(toc: seq<Entry>)
    ensures NoDup(PreorderAll(Build(toc)))
  {
    var f := Build(toc);
    var rs := RootIndices(toc);
    forall m | 0 <= m < |f|
      ensures NoDup(Preorder(f[m]))
    {
      assert rs[m] in rs;
      SubtreeNoDup(toc, rs[m]);
    }
    forall m1, m2 | 0 <= m1 < m2 < |f|
      ensures Disjoint(Preorder(f[m1]), Preorder(f[m2]))
    {
      assert rs[m1] in rs && rs[m2] in rs;
      SubtreeIndices(toc, rs[m1]);
      SubtreeIndices(toc, rs[m2]);
      forall x | x in Preorder(f[m1])
        ensures x !in Preorder(f[m2])
      {
        if x in Preorder(f[m2]) {
          AncestorUnique(toc, rs[m1], rs[m2], x);
        }
      }
    }
    NoDupAll(f);
  }

  lemma ElemsCons(s: seq<nat>)
    requires s != []
    ensures Elems(s) == {s[0]} + Elems(s[1..])
  {
    forall x | x in Elems(s)
      ensures x in {s[0]} + Elems(s[1..])
    {
      var j :| 0 <= j < |s| && s[j] == x;
      if j > 0 {
        assert s[1..][j - 1] == x;
      }
    }
  }

  lemma NoDupTail(s: seq<nat>)
    requires s != [] && NoDup(s)
    ensures NoDup(s[1..]) && s[0] !in Elems(s[1..])
  {
    var t := s[1..];
    forall a, b | 0 <= a < b < |t|
      ensures t[a] != t[b]
    {
      assert t[a] == s[a + 1] && t[b] == s[b + 1];
    }
    forall b | 0 <= b < |t|
      ensures t[b] != s[0]
    {
      assert t[b] == s[b + 1];
    }
  }

  lemma {:induction false} NoDupCard(s: seq<nat>)
    requires NoDup(s)
    ensures |Elems(s)| == |s|
    decreases |s|
  {
    if s != [] {
      NoDupTail(s);
      NoDupCard(s[1..]);
      ElemsCons(s);
    }
  }

  /** The outline has exactly one node per anchored heading. */
  lemma ForestSize(toc: seq<Entry>)
    ensures |PreorderAll(Build(toc))| == |AnchoredSet(toc)|
  {
    var pre := PreorderAll(Build(toc));
    ForestIndices(toc);
    ForestNoDup(toc);
    NoDupCard(pre);
    assert Elems(pre) == AnchoredSet(toc);
  }

  /** Below a heading that is not anchored nothing is anchored either. */
  lemma {:induction false} AnchoredUpward(toc: seq<Entry>, i: nat, k: nat)
    requires k < |toc| && AncestorOrSelf(toc, i, k) && Anchored(toc, k)
    ensures i < |toc| && Anchored(toc, i)
    decreases k
  {
    if i != k {
      AnchoredUpward(toc, i, ParentOf(toc, k).value);
    }
  }

  /** A heading that is neither a root nor has a fitting predecessor is left
      out of the outline, and so is every heading beneath it. */
  lemma OrphanDropped(toc: seq<Entry>, i: nat, k: nat)
    requires i < |toc| && !IsRoot(toc, i) && ParentOf(toc, i) == None
    requires k < |toc| && AncestorOrSelf(toc, i, k)
    ensures k !in PreorderAll(Build(toc))
  {
    ForestIndices(toc);
    if Anchored(toc, k) {
      AnchoredUpward(toc, i, k);
    }
  }
}
