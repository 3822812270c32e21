/**
 * The page the plugin runs in: the element tree, the ids of the `<style>`
 * elements in `document.head`, in order, and the mutation observers registered
 * on the document (whether each is still connected). The methods are the
 * browser primitives the plugin calls.
 */
module Page {
  import opened Wrappers
  import opened Dom
  import DomFacts

  class Document {
    var nodes: seq<Node>
    const body: NodeId
    var styles: seq<string>
    var observers: seq<bool>

    ghost predicate Valid()
      reads this
    {
      WellFormed(nodes) && body < |nodes| && body != DOCUMENT
    }

    constructor (tree: seq<Node>, bodyId: NodeId, headStyles: seq<string>)
      requires WellFormed(tree) && bodyId < |tree| && bodyId != DOCUMENT
      ensures Valid()
      ensures nodes == tree && body == bodyId && styles == headStyles && observers == []
    {
      nodes := tree;
      body := bodyId;
      styles := headStyles;
      observers := [];
    }

    /** `parent.appendChild(child)` for a detached child created after `parent`:
        the child becomes the parent's last child. */
    method AppendChild(parent: NodeId, child: NodeId)
      requires Valid() && parent < child < |nodes| && nodes[child].parent == None
      modifies this`nodes
      ensures Valid()
      ensures nodes == old(nodes)[parent := old(nodes[parent]).(children := old(nodes[parent].children) + [child])]
                                 [child := old(nodes[child]).(parent := Some(parent))]
    {
      nodes := nodes[parent := nodes[parent].(children := nodes[parent].children + [child])];
      nodes := nodes[child := nodes[child].(parent := Some(parent))];
    }

    /** `document.createElement` for every element of `t`, each appended to its
        parent in order: the elements get fresh ids from `id` on, and read back
        as `t`. The new root is left detached. */
    method Instantiate(t: Tree) returns (id: NodeId)
      requires Valid()
      modifies this`nodes
      ensures Valid()
      ensures id == |old(nodes)| && id < |nodes| && nodes[..id] == old(nodes)
      ensures nodes[id].parent == None
      ensures forall j :: id < j < |nodes| ==> nodes[j].parent.Some? && id <= nodes[j].parent.value
      ensures forall j :: id <= j < |nodes| ==> nodes[j].el in Elts(t)
      ensures SubtreeAt(nodes, id) == t
      decreases t
    {
      id := |nodes|;
      nodes := nodes + [Node(t.el, None, [])];
      var k := 0;
      while k < |t.kids|
        invariant 0 <= k <= |t.kids|
        invariant Valid() && id < |nodes| && nodes[..id] == old(nodes)
        invariant nodes[id].el == t.el && nodes[id].parent == None
        invariant forall j :: id < j < |nodes| ==> nodes[j].parent.Some? && id <= nodes[j].parent.value
        invariant forall j :: id <= j < |nodes| ==> nodes[j].el in Elts(t)
        invariant SubtreeAt(nodes, id) == Tree(t.el, t.kids[..k])
      {
        ghost var before := nodes;
        var c := Instantiate(t.kids[k]);
        ghost var built := nodes;
        AppendChild(id, c);
        InstantiateStep(t, k, id, before, built, nodes, c);
        k := k + 1;
      }
      assert t.kids[..k] == t.kids;
    }

    /** `child.remove()`: the node leaves its parent's child list and loses its
        parent; without a parent nothing happens. */
    method Remove(child: NodeId)
      requires Valid() && child < |nodes|
      modifies this`nodes
      ensures Valid()
      ensures nodes == Detach(old(nodes), {child})
    {
      ghost var o := nodes;
      if nodes[child].parent.Some? {
        var p := nodes[child].parent.value;
        nodes := nodes[p := nodes[p].(children := Without(nodes[p].children, {child}))];
        nodes := nodes[child := nodes[child].(parent := None)];
      }
      DomFacts.DetachOne(o, child);
      DomFacts.DetachWellFormed(o, {child});
    }

    /** `ids.forEach(n => n.remove())`: removing each node of a snapshot in turn
        is removing all of them at once. */
    method RemoveEach(ids: seq<NodeId>)
      requires Valid() && forall k :: 0 <= k < |ids| ==> ids[k] < |nodes|
      modifies this`nodes
      ensures Valid()
      ensures nodes == Detach(old(nodes), Members(ids))
    {
      ghost var o := nodes;
      ghost var done: set<NodeId> := {};
      DomFacts.DetachNothing(o);
      var i := 0;
      while i < |ids|
        invariant 0 <= i <= |ids|
        invariant done == Members(ids[..i])
        invariant nodes == Detach(o, done)
      {
        MembersSnoc(ids, i);
        DomFacts.DetachWellFormed(o, done);
        Remove(ids[i]);
        DomFacts.DetachTwice(o, done, {ids[i]});
        done := done + {ids[i]};
        i := i + 1;
      }
      assert ids[..i] == ids;
      DomFacts.DetachWellFormed(o, done);
    }

    /** `document.head.appendChild(style)` for a style element with this id. */
    method AppendStyle(styleId: string)
      modifies this`styles
      ensures styles == old(styles) + [styleId]
    {
      styles := styles + [styleId];
    }

    /** `document.getElementById(styleId)?.remove()`: only the first style with the id goes. */
    method RemoveStyleById(styleId: string)
      modifies this`styles
      ensures styles == RemoveFirst(old(styles), styleId)
    {
      var i := 0;
      while i < |styles| && styles[i] != styleId
        invariant 0 <= i <= |styles|
        invariant forall k :: 0 <= k < i ==> styles[k] != styleId
      {
        i := i + 1;
      }
      RemoveFirstAt(styles, styleId, i);
      if i < |styles| {
        styles := styles[..i] + styles[i + 1..];
      }
    }

    /** `new MutationObserver(..).observe(document.body, ..)`: a new connected observer. */
    method Observe() returns (handle: nat)
      modifies this`observers
      ensures handle == |old(observers)| && observers == old(observers) + [true]
    {
      handle := |observers|;
      observers := observers + [true];
    }

    /** `observer.disconnect()`; disconnecting twice is harmless. */
    method Disconnect(handle: nat)
      requires handle < |observers|
      modifies this`observers
      ensures observers == old(observers)[handle := false]
    {
      observers := observers[handle := false];
    }
  }

  /** The members of a one-longer prefix of a snapshot are those of the prefix
      and the next entry. */
  lemma MembersSnoc(ids: seq<NodeId>, i: nat)
    requires i < |ids|
    ensures Members(ids[..i + 1]) == Members(ids[..i]) + {ids[i]}
  {
    assert ids[..i + 1] == ids[..i] + [ids[i]];
  }

  /** One round of Instantiate's loop: kid `k` of `t`, built from `c` on, is
      appended to the node `id`; the subtree's nodes are kept and reading it
      back adds that child, and everything the loop keeps still holds. */
  lemma InstantiateStep(t: Tree, k: nat, id: NodeId, before: seq<Node>, built: seq<Node>, after: seq<Node>, c: NodeId)
    requires k < |t.kids| && WellFormed(before) && id < |before|
    requires before[id].el == t.el
    requires forall j :: id < j < |before| ==> before[j].parent.Some? && id <= before[j].parent.value
    requires forall j :: id <= j < |before| ==> before[j].el in Elts(t)
    requires SubtreeAt(before, id) == Tree(t.el, t.kids[..k])
    requires WellFormed(built) && c == |before| < |built| && built[..c] == before && built[c].parent == None
    requires forall j :: c < j < |built| ==> built[j].parent.Some? && c <= built[j].parent.value
    requires forall j :: c <= j < |built| ==> built[j].el in Elts(t.kids[k])
    requires SubtreeAt(built, c) == t.kids[k]
    requires after == built[id := built[id].(children := built[id].children + [c])][c := built[c].(parent := Some(id))]
    ensures forall j :: id < j < |after| ==> after[j].parent.Some? && id <= after[j].parent.value
    ensures forall j :: id <= j < |after| ==> after[j].el in Elts(t)
    ensures SubtreeAt(after, id) == Tree(t.el, t.kids[..k + 1])
    ensures after[..id] == before[..id] && after[id].el == before[id].el && after[id].parent == before[id].parent
  {
    assert after[..id] == built[..id] == before[..id];
    InstantiateParents(id, before, built, after, c);
    InstantiateElts(t, k, id, before, built, after, c);
    OldKidsUnchanged(id, before, built, after, c);
    NewKidUnchanged(built, after, id, c);
    assert built[id] == before[id];
    InstantiateSubtree(t, k, id, before, after, c);
  }

  lemma InstantiateParents(id: NodeId, before: seq<Node>, built: seq<Node>, after: seq<Node>, c: NodeId)
    requires id < c == |before| < |built| && built[..c] == before
    requires forall j :: id < j < |before| ==> before[j].parent.Some? && id <= before[j].parent.value
    requires forall j :: c < j < |built| ==> built[j].parent.Some? && c <= built[j].parent.value
    requires after == built[id := built[id].(children := built[id].children + [c])][c := built[c].(parent := Some(id))]
    ensures forall j :: id < j < |after| ==> after[j].parent.Some? && id <= after[j].parent.value
  {
    forall j | id < j < |after| ensures after[j].parent.Some? && id <= after[j].parent.value {
      if j < c {
        assert after[j] == before[j];
      }
    }
  }

  lemma InstantiateElts(t: Tree, k: nat, id: NodeId, before: seq<Node>, built: seq<Node>, after: seq<Node>, c: NodeId)
    requires k < |t.kids| && id < c == |before| < |built| && built[..c] == before
    requires forall j :: id <= j < |before| ==> before[j].el in Elts(t)
    requires forall j :: c <= j < |built| ==> built[j].el in Elts(t.kids[k])
    requires after == built[id := built[id].(children := built[id].children + [c])][c := built[c].(parent := Some(id))]
    ensures forall j :: id <= j < |after| ==> after[j].el in Elts(t)
  {
    DomFacts.EltsOfAllMember(t.kids, k);
    forall j | id <= j < |after| ensures after[j].el in Elts(t) {
      if j < c {
        assert after[j].el == before[j].el;
      } else {
        assert after[j].el == built[j].el;
      }
    }
  }

  lemma InstantiateSubtree(t: Tree, k: nat, id: NodeId, before: seq<Node>, after: seq<Node>, c: NodeId)
    requires k < |t.kids| && id < |before| && id < c < |after|
    requires after[id].el == t.el && after[id].children == before[id].children + [c]
    requires SubtreeAt(before, id) == Tree(t.el, t.kids[..k])
    requires SubtreesAt(after, id, before[id].children) == SubtreesAt(before, id, before[id].children)
    requires SubtreeAt(after, c) == t.kids[k]
    ensures SubtreeAt(after, id) == Tree(t.el, t.kids[..k + 1])
  {
    var ids := before[id].children;
    assert SubtreesAt(before, id, ids) == SubtreeAt(before, id).kids == t.kids[..k];
    DomFacts.SubtreesAppend(after, id, ids, c);
    var xs := SubtreesAt(after, id, after[id].children);
    assert xs == t.kids[..k] + [t.kids[k]];
    DomFacts.TakeSnoc(t.kids, k);
    assert SubtreeAt(after, id) == Tree(after[id].el, xs);
  }

  lemma OldKidsUnchanged(id: NodeId, before: seq<Node>, built: seq<Node>, after: seq<Node>, c: NodeId)
    requires WellFormed(before) && id < |before| && c == |before| < |built| && built[..c] == before
    requires after == built[id := built[id].(children := built[id].children + [c])][c := built[c].(parent := Some(id))]
    ensures SubtreesAt(after, id, before[id].children) == SubtreesAt(before, id, before[id].children)
  {
    forall j | id < j < |before| ensures after[j].el == before[j].el && after[j].children == before[j].children {
      assert after[j] == built[j];
    }
    DomFacts.SubtreesFrame(before, after, id, before[id].children);
  }

  lemma NewKidUnchanged(built: seq<Node>, after: seq<Node>, id: NodeId, c: NodeId)
    requires WellFormed(built) && id < c < |built|
    requires after == built[id := built[id].(children := built[id].children + [c])][c := built[c].(parent := Some(id))]
    ensures SubtreeAt(after, c) == SubtreeAt(built, c)
  {
    DomFacts.SubtreeFrame(built, after, c);
  }

  /** The list with its first occurrence of `x` taken out, if there is one. */
  function RemoveFirst(xs: seq<string>, x: string): (r: seq<string>)
    ensures x !in xs ==> r == xs
    ensures x in xs ==> |r| == |xs| - 1
  {
    if xs == [] then []
    else if xs[0] == x then xs[1..]
    else [xs[0]] + RemoveFirst(xs[1..], x)
  }

  /** The first occurrence is the one at the first index holding `x`. */
  lemma {:induction false} RemoveFirstAt(xs: seq<string>, x: string, i: nat)
    requires i <= |xs| && (forall k :: 0 <= k < i ==> xs[k] != x) && (i < |xs| ==> xs[i] == x)
    ensures RemoveFirst(xs, x) == if i < |xs| then xs[..i] + xs[i + 1..] else xs
  {
    if i == |xs| {
      assert x !in xs;
    } else if i == 0 {
      assert xs[..0] + xs[1..] == xs[1..];
    } else {
      var rest := xs[1..];
      assert xs[0] != x;
      RemoveFirstAt(rest, x, i - 1);
      ConsSplice(xs, i);
    }
  }

  /** Splicing out entry `i` of the tail, then putting the head back, splices out entry `i`. */
  lemma ConsSplice<T>(xs: seq<T>, i: nat)
    requires 0 < i < |xs|
    ensures [xs[0]] + (xs[1..][..i - 1] + xs[1..][i..]) == xs[..i] + xs[i + 1..]
  {
    assert xs[1..][..i - 1] == xs[1..i];
    assert xs[1..][i..] == xs[i + 1..];
    assert [xs[0]] + xs[1..i] == xs[..i];
  }

  /** Counting the style elements with a given id. */
  function Count(xs: seq<string>, x: string): nat
  {
    if xs == [] then 0 else (if xs[0] == x then 1 else 0) + Count(xs[1..], x)
  }

  /** Taking out the first occurrence lowers the count by one, or by nothing when there is none. */
  lemma {:induction false} RemoveFirstCount(xs: seq<string>, x: string)
    ensures Count(RemoveFirst(xs, x), x) == if Count(xs, x) > 0 then Count(xs, x) - 1 else 0
    ensures Count(xs, x) > 0 <==> x in xs
  {
    if xs != [] {
      RemoveFirstCount(xs[1..], x);
      if xs[0] != x {
        assert ([xs[0]] + RemoveFirst(xs[1..], x))[1..] == RemoveFirst(xs[1..], x);
      }
    }
  }

  lemma {:induction false} CountAppend(xs: seq<string>, y: string, x: string)
    ensures Count(xs + [y], x) == Count(xs, x) + (if y == x then 1 else 0)
  {
    if xs == [] {
      assert [] + [y] == [y];
    } else {
      assert (xs + [y])[1..] == xs[1..] + [y];
      CountAppend(xs[1..], y, x);
    }
  }
}
