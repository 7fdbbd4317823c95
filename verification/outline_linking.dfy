/** The builder's two loops as written: a descending pass that pushes each
    heading onto the front of its parent's child list, then a filter that keeps
    the depth-1 headings. The child lists are indexed by input position, the
    position standing for the shared heading object that the loops mutate. */
module OutlineLinking {

  import opened Options
  import opened Outline

  method LinkChildren(toc: seq<Entry>) returns (kids: seq<seq<nat>>, roots: seq<nat>)
    ensures |kids| == |toc|
    ensures forall p :: 0 <= p < |toc| ==> kids[p] == ChildIndices(toc, p)
    ensures roots == RootIndices(toc)
  {
    var n := |toc|;
    kids := seq(n, _ => []);
    var i := n - 1;
    while i >= 0
      invariant -1 <= i < n
      invariant |kids| == n
      invariant forall p :: 0 <= p < n ==> kids[p] == ChildrenFrom(toc, p, i + 1)
    {
      if toc[i].depth != 1 {
        var j := i;
        while j >= 0 && toc[i].depth - toc[j].depth != 1
          invariant -1 <= j <= i
          invariant forall k :: j < k <= i ==> !Fits(toc, k, i)
        {
          j := j - 1;
        }
        if j >= 0 {
          assert Fits(toc, j, i) && j < i;
          var q := ParentOf(toc, i);
          assert q.Some? && !(q.value < j) && !(j < q.value);
          kids := kids[j := [i] + kids[j]];
        } else {
          assert ParentOf(toc, i) == None;
        }
      }
      i := i - 1;
    }
    roots := [];
    var k := 0;
    while k < n
      invariant 0 <= k <= n
      invariant roots == RootsUpTo(toc, k)
    {
      if toc[k].depth == 1 {
        roots := roots + [k];
      }
      k := k + 1;
    }
  }
}
