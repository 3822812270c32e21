/**
 * An abstract element tree, as much of the browser DOM as the plugin touches.
 *
 * A document is a sequence of nodes; a node's id is its index. Node 0 is the
 * document node itself, which is not an element: `parentElement` of the root
 * element is `null` because its parent is the document node. Every node keeps
 * its parent link and its ordered child list, and the two agree. Parents have
 * smaller ids than their children; any finite tree can be numbered that way,
 * and it is what makes every upward walk finite.
 */
module Dom {
  import opened Wrappers
  import Text

  type NodeId = nat

  /** The document node: parent of the root element, never matched by a selector. */
  const DOCUMENT: NodeId := 0

  /** The attributes of an `<img>` that the badge sets. */
  datatype Image = Image(src: string, width: int, height: int, alt: string)

  /** What an element carries apart from its links: tag, class attribute,
      `data-user-id`, `aria-label`, image attributes (for `<img>`) and text. */
  datatype Element = Element(
    tag: string,
    className: string,
    dataUserId: Option<string>,
    ariaLabel: Option<string>,
    image: Option<Image>,
    text: string)

  /** A detached element tree, as built before it is attached to the document. */
  datatype Tree = Tree(el: Element, kids: seq<Tree>)

  /** A node of the document with its parent link and its children in order. */
  datatype Node = Node(el: Element, parent: Option<NodeId>, children: seq<NodeId>)

  /** Parent and child links agree, and every parent precedes its children. */
  ghost predicate WellFormed(nodes: seq<Node>)
  {
    && |nodes| > 0
    && (forall i :: 0 <= i < |nodes| && nodes[i].parent.Some? ==>
          nodes[i].parent.value < i && i in nodes[nodes[i].parent.value].children)
    && (forall i, k :: 0 <= i < |nodes| && 0 <= k < |nodes[i].children| ==>
          i < nodes[i].children[k] < |nodes| && nodes[nodes[i].children[k]].parent == Some(i))
  }

  /** `a` is `j` or one of its ancestors (following parent links). */
  predicate AncestorOrSelf(nodes: seq<Node>, a: NodeId, j: NodeId)
    requires j < |nodes|
    decreases j
  {
    j == a || (nodes[j].parent.Some? && nodes[j].parent.value < j && AncestorOrSelf(nodes, a, nodes[j].parent.value))
  }

  /** `u` is a proper ancestor of `j`: `u.contains(j) && u != j`. */
  predicate ProperAncestor(nodes: seq<Node>, u: NodeId, j: NodeId)
    requires j < |nodes|
  {
    nodes[j].parent.Some? && nodes[j].parent.value < j && AncestorOrSelf(nodes, u, nodes[j].parent.value)
  }

  /** The node is connected to the document. */
  predicate InDocument(nodes: seq<Node>, j: NodeId)
    requires j < |nodes|
  {
    AncestorOrSelf(nodes, DOCUMENT, j)
  }

  /** `parentElement`: the parent, unless there is none or it is the document node. */
  function ParentElement(nodes: seq<Node>, j: NodeId): (r: Option<NodeId>)
    requires j < |nodes|
    ensures r.Some? ==> r.value != DOCUMENT && r.value < j && nodes[j].parent == r
    ensures nodes[j].parent.Some? && nodes[j].parent.value != DOCUMENT && nodes[j].parent.value < j ==> r == nodes[j].parent
  {
    match nodes[j].parent
    case Some(p) => if p != DOCUMENT && p < j then Some(p) else None
    case None => None
  }

  /** The elements an upward walk from `j` visits: `j` itself, then each
      `parentElement` in turn, stopping before `stop` (the body) and when there
      is no parent element left. */
  function Walk(nodes: seq<Node>, stop: NodeId, j: NodeId): (w: seq<NodeId>)
    requires j < |nodes|
    ensures forall k :: 0 <= k < |w| ==> w[k] <= j
    decreases j
  {
    if j == stop then []
    else
      match ParentElement(nodes, j)
      case None => [j]
      case Some(p) => [j] + Walk(nodes, stop, p)
  }

  /** The elements at the given ids, in the same order. */
  function ElementsOf(nodes: seq<Node>, ids: seq<NodeId>): (es: seq<Element>)
    requires forall k :: 0 <= k < |ids| ==> ids[k] < |nodes|
    ensures |es| == |ids|
    ensures forall k :: 0 <= k < |ids| ==> es[k] == nodes[ids[k]].el
  {
    seq(|ids|, k requires 0 <= k < |ids| => nodes[ids[k]].el)
  }

  /** The two selector shapes the plugin uses: `[class*="frag"]` and `.token`. */
  datatype Selector = ClassContains(fragment: string) | ClassToken(token: string)

  predicate SelectorMatches(sel: Selector, e: Element)
  {
    match sel
    case ClassContains(f) => Text.Includes(e.className, f)
    case ClassToken(t) => Text.HasClass(e.className, t)
  }

  /** The element `j` is in the document and matches `sel`. */
  predicate Selected(nodes: seq<Node>, sel: Selector, j: NodeId)
    requires j < |nodes|
  {
    j != DOCUMENT && InDocument(nodes, j) && SelectorMatches(sel, nodes[j].el)
  }

  /** `document.querySelectorAll(sel)` from id `lo` on: a static snapshot of the
      matching elements, ancestors before descendants. */
  function QueryAll(nodes: seq<Node>, sel: Selector, lo: NodeId): (r: seq<NodeId>)
    ensures forall j :: j in r <==> lo <= j < |nodes| && Selected(nodes, sel, j)
    ensures forall a, b :: 0 <= a < b < |r| ==> r[a] < r[b]
    ensures forall a :: 0 <= a < |r| ==> lo <= r[a] < |nodes|
    decreases |nodes| - lo
  {
    if lo >= |nodes| then []
    else (if Selected(nodes, sel, lo) then [lo] else []) + QueryAll(nodes, sel, lo + 1)
  }

  /** `u.querySelector(sel) != null`: some proper descendant of `u` matches. */
  predicate HasDescendantMatching(nodes: seq<Node>, sel: Selector, u: NodeId)
  {
    exists j :: u < j < |nodes| && SelectorMatches(sel, nodes[j].el) && ProperAncestor(nodes, u, j)
  }

  /** The subtree rooted at `i`, read back as a detached tree. */
  function SubtreeAt(nodes: seq<Node>, i: NodeId): Tree
    requires i < |nodes|
    decreases |nodes| - i, 1
  {
    Tree(nodes[i].el, SubtreesAt(nodes, i, nodes[i].children))
  }

  /** The subtrees at `ids`; ids not above `lo` (which do not occur in a
      well-formed document) are skipped. */
  function SubtreesAt(nodes: seq<Node>, lo: NodeId, ids: seq<NodeId>): seq<Tree>
    requires lo < |nodes|
    decreases |nodes| - lo, 0, |ids|
  {
    if ids == [] then []
    else (if lo < ids[0] < |nodes| then [SubtreeAt(nodes, ids[0])] else []) + SubtreesAt(nodes, lo, ids[1..])
  }

  /** Every element of a detached tree. */
  ghost function Elts(t: Tree): set<Element>
    decreases t, 1
  {
    {t.el} + EltsOfAll(t.kids)
  }

  ghost function EltsOfAll(ts: seq<Tree>): set<Element>
    decreases ts, 0
  {
    if ts == [] then {} else Elts(ts[0]) + EltsOfAll(ts[1..])
  }

  /** The ids of `ids` that are not in `gone`, in their original order. */
  function Without(ids: seq<NodeId>, gone: set<NodeId>): (r: seq<NodeId>)
    ensures forall x :: x in r <==> x in ids && x !in gone
    ensures |r| <= |ids|
  {
    if ids == [] then []
    else (if ids[0] in gone then [] else [ids[0]]) + Without(ids[1..], gone)
  }

  /** The ids a snapshot holds, as a set. */
  function Members(ids: seq<NodeId>): (r: set<NodeId>)
    ensures forall x :: x in r <==> x in ids
  {
    set x | x in ids
  }

  /** The document after `remove()` has been called on every node in `gone`:
      each of them loses its parent and disappears from its parent's child list. */
  function Detach(nodes: seq<Node>, gone: set<NodeId>): (r: seq<Node>)
    ensures |r| == |nodes|
  {
    seq(|nodes|, j requires 0 <= j < |nodes| =>
      Node(nodes[j].el, if j in gone then None else nodes[j].parent, Without(nodes[j].children, gone)))
  }
}
