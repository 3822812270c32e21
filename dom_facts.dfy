/** Facts about the element tree of module Dom that the plugin's proofs rest on. */
module DomFacts {
  import opened Wrappers
  import opened Dom

  /** Whether `a` is an ancestor of `j` depends only on the parent links of `j` and the nodes before it. */
  lemma {:induction false} AncestorFrame(n1: seq<Node>, n2: seq<Node>, a: NodeId, j: NodeId)
    requires j < |n1| && j < |n2|
    requires forall k :: 0 <= k <= j ==> n1[k].parent == n2[k].parent
    ensures AncestorOrSelf(n1, a, j) == AncestorOrSelf(n2, a, j)
    decreases j
  {
    if j != a && n1[j].parent.Some? && n1[j].parent.value < j {
      AncestorFrame(n1, n2, a, n1[j].parent.value);
    }
  }

  /** An ancestor never has a larger id than its descendant. */
  lemma {:induction false} AncestorPrecedes(nodes: seq<Node>, a: NodeId, j: NodeId)
    requires j < |nodes| && AncestorOrSelf(nodes, a, j)
    ensures a <= j
    decreases j
  {
    if j != a {
      AncestorPrecedes(nodes, a, nodes[j].parent.value);
    }
  }

  /** The walk from `j` depends only on the parent links of `j` and the nodes before it. */
  lemma {:induction false} WalkFrame(n1: seq<Node>, n2: seq<Node>, stop: NodeId, j: NodeId)
    requires j < |n1| && j < |n2|
    requires forall k :: 0 <= k <= j ==> n1[k].parent == n2[k].parent
    ensures Walk(n1, stop, j) == Walk(n2, stop, j)
    decreases j
  {
    if j != stop && ParentElement(n1, j).Some? {
      WalkFrame(n1, n2, stop, ParentElement(n1, j).value);
    }
  }

  /** The walk from an element other than `stop` starts at the element itself,
      moves to the parent element at each step and ends where there is no parent
      element or where the parent is `stop`; `stop` itself is never visited. */
  lemma {:induction false} WalkIsParentChain(nodes: seq<Node>, stop: NodeId, j: NodeId)
    requires j < |nodes| && j != stop
    ensures var w := Walk(nodes, stop, j);
      && |w| > 0 && w[0] == j
      && stop !in w
      && (forall k :: 0 <= k < |w| - 1 ==> ParentElement(nodes, w[k]) == Some(w[k + 1]))
      && (ParentElement(nodes, w[|w| - 1]) == None || ParentElement(nodes, w[|w| - 1]) == Some(stop))
    decreases j
  {
    match ParentElement(nodes, j)
    case None =>
    case Some(p) =>
      if p != stop {
        WalkIsParentChain(nodes, stop, p);
      }
  }

  /** Started anywhere below `stop` (the body), the walk visits only strict
      descendants of `stop` and always ends at a child of `stop`. */
  lemma {:induction false} WalkStaysBelow(nodes: seq<Node>, stop: NodeId, j: NodeId)
    requires j < |nodes| && stop != DOCUMENT && j != stop && AncestorOrSelf(nodes, stop, j)
    ensures var w := Walk(nodes, stop, j);
      && |w| > 0
      && (forall k :: 0 <= k < |w| ==> w[k] != stop && AncestorOrSelf(nodes, stop, w[k]))
      && ParentElement(nodes, w[|w| - 1]) == Some(stop)
    decreases j
  {
    var p := nodes[j].parent.value;
    assert AncestorOrSelf(nodes, stop, p);
    assert ParentElement(nodes, j) == Some(p);
    if p != stop {
      WalkStaysBelow(nodes, stop, p);
    }
  }

  /** Reading back a subtree depends only on the nodes from its root on. */
  lemma {:induction false} SubtreeFrame(n1: seq<Node>, n2: seq<Node>, i: NodeId)
    requires WellFormed(n1) && i < |n1| <= |n2|
    requires forall j :: i <= j < |n1| ==> n2[j].el == n1[j].el && n2[j].children == n1[j].children
    ensures SubtreeAt(n2, i) == SubtreeAt(n1, i)
    decreases |n1| - i, 1
  {
    SubtreesFrame(n1, n2, i, n1[i].children);
  }

  lemma {:induction false} SubtreesFrame(n1: seq<Node>, n2: seq<Node>, lo: NodeId, ids: seq<NodeId>)
    requires WellFormed(n1) && lo < |n1| <= |n2|
    requires forall k :: 0 <= k < |ids| ==> lo < ids[k] < |n1|
    requires forall j :: lo < j < |n1| ==> n2[j].el == n1[j].el && n2[j].children == n1[j].children
    ensures SubtreesAt(n2, lo, ids) == SubtreesAt(n1, lo, ids)
    decreases |n1| - lo, 0, |ids|
  {
    if ids != [] {
      SubtreeFrame(n1, n2, ids[0]);
      SubtreesFrame(n1, n2, lo, ids[1..]);
    }
  }

  /** Appending a child id appends its subtree. */
  lemma {:induction false} SubtreesAppend(nodes: seq<Node>, lo: NodeId, ids: seq<NodeId>, c: NodeId)
    requires lo < c < |nodes|
    ensures SubtreesAt(nodes, lo, ids + [c]) == SubtreesAt(nodes, lo, ids) + [SubtreeAt(nodes, c)]
    decreases |ids|
  {
    if ids == [] {
      assert ids + [c] == [c];
    } else {
      assert (ids + [c])[1..] == ids[1..] + [c];
      SubtreesAppend(nodes, lo, ids[1..], c);
    }
  }

  /** Each child tree's elements are elements of the whole list. */
  lemma {:induction false} EltsOfAllMember(ts: seq<Tree>, k: nat)
    requires k < |ts|
    ensures Elts(ts[k]) <= EltsOfAll(ts)
    decreases k
  {
    if k > 0 {
      EltsOfAllMember(ts[1..], k - 1);
    }
  }

  lemma {:induction false} WithoutNothing(ids: seq<NodeId>, gone: set<NodeId>)
    requires forall x :: x in ids ==> x !in gone
    ensures Without(ids, gone) == ids
  {
    if ids != [] {
      WithoutNothing(ids[1..], gone);
    }
  }

  lemma {:induction false} WithoutTwice(ids: seq<NodeId>, a: set<NodeId>, b: set<NodeId>)
    ensures Without(Without(ids, a), b) == Without(ids, a + b)
  {
    if ids != [] {
      var x, rest := ids[0], ids[1..];
      WithoutTwice(rest, a, b);
      if x in a {
        assert Without(ids, a) == Without(rest, a);
      } else {
        var w := Without(ids, a);
        assert w == [x] + Without(rest, a);
        assert w[0] == x && w[1..] == Without(rest, a);
        assert Without(w, b) == (if x in b then [] else [x]) + Without(w[1..], b);
      }
    }
  }

  /** Removing nothing changes nothing. */
  lemma DetachNothing(nodes: seq<Node>)
    ensures Detach(nodes, {}) == nodes
  {
    forall j | 0 <= j < |nodes|
      ensures Detach(nodes, {})[j] == nodes[j]
    {
      WithoutNothing(nodes[j].children, {});
    }
  }

  /** Removing `a` and then `b` is removing both. */
  lemma DetachTwice(nodes: seq<Node>, a: set<NodeId>, b: set<NodeId>)
    ensures Detach(Detach(nodes, a), b) == Detach(nodes, a + b)
  {
    forall j | 0 <= j < |nodes|
      ensures Detach(Detach(nodes, a), b)[j] == Detach(nodes, a + b)[j]
    {
      WithoutTwice(nodes[j].children, a, b);
    }
  }

  /** Removal keeps parent and child links in agreement. */
  lemma DetachWellFormed(nodes: seq<Node>, gone: set<NodeId>)
    requires WellFormed(nodes)
    ensures WellFormed(Detach(nodes, gone))
  {
    var d := Detach(nodes, gone);
    forall i | 0 <= i < |d| && d[i].parent.Some?
      ensures d[i].parent.value < i && i in d[d[i].parent.value].children
    {
    }
    forall i, k | 0 <= i < |d| && 0 <= k < |d[i].children|
      ensures i < d[i].children[k] < |d| && d[d[i].children[k]].parent == Some(i)
    {
      assert d[i].children[k] in nodes[i].children;
    }
  }

  /** What is still in the document after removal was in it before, and no removed
      node is in it any more. */
  lemma {:induction false} DetachInDocument(nodes: seq<Node>, gone: set<NodeId>, j: NodeId)
    requires j < |nodes| && InDocument(Detach(nodes, gone), j)
    ensures InDocument(nodes, j)
    ensures j in gone ==> j == DOCUMENT
    decreases j
  {
    var d := Detach(nodes, gone);
    if j != DOCUMENT {
      DetachInDocument(nodes, gone, d[j].parent.value);
    }
  }

  /** Removing one node edits only its parent's child list and its own parent link. */
  lemma DetachOne(nodes: seq<Node>, c: NodeId)
    requires WellFormed(nodes) && c < |nodes|
    ensures Detach(nodes, {c}) ==
      if nodes[c].parent.None? then nodes
      else
        var p := nodes[c].parent.value;
        nodes[p := nodes[p].(children := Without(nodes[p].children, {c}))][c := nodes[c].(parent := None)]
  {
    var d := Detach(nodes, {c});
    if nodes[c].parent.None? {
      forall j | 0 <= j < |nodes| ensures d[j] == nodes[j] {
        WithoutNothing(nodes[j].children, {c});
      }
    } else {
      var p := nodes[c].parent.value;
      var e := nodes[p := nodes[p].(children := Without(nodes[p].children, {c}))][c := nodes[c].(parent := None)];
      forall j | 0 <= j < |nodes| ensures d[j] == e[j] {
        if j != p {
          WithoutNothing(nodes[j].children, {c});
        }
      }
    }
  }

  /** Filtering a concatenation filters each part. */
  lemma {:induction false} WithoutConcat(xs: seq<NodeId>, ys: seq<NodeId>, gone: set<NodeId>)
    ensures Without(xs + ys, gone) == Without(xs, gone) + Without(ys, gone)
  {
    if xs == [] {
      assert xs + ys == ys;
    } else {
      assert (xs + ys)[0] == xs[0];
      assert (xs + ys)[1..] == xs[1..] + ys;
      WithoutConcat(xs[1..], ys, gone);
    }
  }

  /** A list whose prefix is `ys` is `ys` followed by its last entry. */
  lemma SplitLast(xs: seq<NodeId>, ys: seq<NodeId>)
    requires |xs| == |ys| + 1 && xs[..|ys|] == ys
    ensures xs == ys + [xs[|ys|]]
  {
  }

  /** A prefix one longer is the shorter prefix and the next entry. */
  lemma TakeSnoc<T>(xs: seq<T>, k: nat)
    requires k < |xs|
    ensures xs[..k + 1] == xs[..k] + [xs[k]]
  {
  }
}
