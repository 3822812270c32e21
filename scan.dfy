/**
 * What one `addBadges` pass does to the element tree (customBadge.tsx:164-176),
 * stated as a relation between the tree before (`O`) and after (`N`), and the
 * facts about that relation: nothing new for other users, at most one badge per
 * element, none where one is already present, and a second pass is a no-op.
 */
module Scan {
  import opened Wrappers
  import opened Dom
  import DomFacts
  import Text
  import opened Identity
  import opened Badge

  /** `[class*="username-"]` */
  const USERNAME_SELECTOR: Selector := ClassContains("username-")
  /** `.custom-3tb-badge` */
  const BADGE_SELECTOR: Selector := ClassToken(BADGE_CLASS)

  /** `j` is in the `querySelectorAll('[class*="username-"]')` snapshot. */
  predicate IsUsername(nodes: seq<Node>, j: NodeId)
    requires j < |nodes|
  {
    Selected(nodes, USERNAME_SELECTOR, j)
  }

  /** `u.querySelector('.custom-3tb-badge')` finds something. */
  predicate HasBadge(nodes: seq<Node>, u: NodeId)
  {
    HasDescendantMatching(nodes, BADGE_SELECTOR, u)
  }

  /** The id `findUserId(u)` returns: the chain from `u` up to, not including, the body. */
  function Resolves(nodes: seq<Node>, body: NodeId, u: NodeId): Option<string>
    requires u < |nodes|
  {
    Resolve(ElementsOf(nodes, Walk(nodes, body, u)))
  }

  /** One step of the walk: an element below the body decides by itself,
      or else its `parentElement` (if any) decides. */
  lemma ResolvesStep(nodes: seq<Node>, body: NodeId, j: NodeId)
    requires j < |nodes| && j != body
    ensures Resolves(nodes, body, j) ==
      if Examine(nodes[j].el).Some? then Examine(nodes[j].el)
      else match ParentElement(nodes, j)
        case Some(p) => Resolves(nodes, body, p)
        case None => None
  {
    var w := Walk(nodes, body, j);
    var chain := ElementsOf(nodes, w);
    DomFacts.WalkIsParentChain(nodes, body, j);
    assert chain[0] == nodes[j].el;
    assert chain[1..] == ElementsOf(nodes, w[1..]);
    assert Resolve(chain) == if Examine(chain[0]).Some? then Examine(chain[0]) else Resolve(chain[1..]);
    match ParentElement(nodes, j)
    case Some(p) =>
      assert w[1..] == Walk(nodes, body, p);
    case None =>
      assert w[1..] == [] && chain[1..] == [];
  }

  /** A username element that has no badge yet and resolves to the owner. */
  predicate NeedsBadge(nodes: seq<Node>, body: NodeId, u: NodeId)
  {
    u < |nodes| && IsUsername(nodes, u) && !HasBadge(nodes, u) && Resolves(nodes, body, u) == Some(OWNER_ID)
  }

  /** In `N`, element `j` has kept its children of `O` and gained exactly one
      more, last, which is a fresh node holding the badge built from `s`. */
  ghost predicate Decorated(O: seq<Node>, N: seq<Node>, j: NodeId, s: Settings)
    requires j < |O| && j < |N|
  {
    var c := O[j].children;
    && |N[j].children| == |c| + 1
    && N[j].children[..|c|] == c
    && |O| <= N[j].children[|c|] < |N|
    && SubtreeAt(N, N[j].children[|c|]) == CreateBadge(s)
  }

  /** The pass has dealt with every element below id `hi`: existing nodes keep
      their element and parent; those below `hi` that needed a badge got one and
      every other keeps its children; each new node hangs below a new node or
      below an element that got a badge, and carries a badge class. */
  ghost predicate ScannedUpTo(O: seq<Node>, N: seq<Node>, body: NodeId, s: Settings, hi: nat)
  {
    && |O| <= |N| && hi <= |O|
    && (forall j :: 0 <= j < |O| ==> N[j].el == O[j].el && N[j].parent == O[j].parent)
    && (forall j :: 0 <= j < |O| ==>
          if j < hi && NeedsBadge(O, body, j) then Decorated(O, N, j, s) else N[j].children == O[j].children)
    && (forall j :: |O| <= j < |N| ==>
          N[j].parent.Some? &&
          (|O| <= N[j].parent.value || (N[j].parent.value < hi && NeedsBadge(O, body, N[j].parent.value))))
    && (forall j :: |O| <= j < |N| ==> N[j].el.className in TREE_CLASSES)
  }

  /** One whole `addBadges` pass from `O` to `N` with settings `s`. */
  ghost predicate Scanned(O: seq<Node>, N: seq<Node>, body: NodeId, s: Settings)
  {
    ScannedUpTo(O, N, body, s, |O|)
  }

  /** No class attribute of a badge tree looks like a username. */
  lemma TreeClassesAreNotUsernames()
    ensures forall c :: c in TREE_CLASSES ==> !Text.Includes(c, "username-")
  {
    assert "username-"[3] == 'r';
    forall c | c in TREE_CLASSES ensures !Text.Includes(c, "username-") {
      Text.MissingCharExcludes(c, "username-", 'r');
    }
  }

  /** The root of a badge matches `.custom-3tb-badge`. */
  lemma BadgeRootMatches(s: Settings)
    ensures SelectorMatches(BADGE_SELECTOR, CreateBadge(s).el)
  {
    assert Text.TokenAt(BADGE_CLASS, BADGE_CLASS, 0) by {
      assert BADGE_CLASS[0..0 + |BADGE_CLASS|] == BADGE_CLASS;
    }
  }

  /** A new node's ancestors among the old nodes all lie below `hi`. */
  lemma {:induction false} NewNodeAncestry(O: seq<Node>, N: seq<Node>, body: NodeId, s: Settings, hi: nat, a: NodeId, j: NodeId)
    requires ScannedUpTo(O, N, body, s, hi)
    requires a < |O| <= j < |N| && AncestorOrSelf(N, a, j)
    ensures a < hi
    decreases j
  {
    var p := N[j].parent.value;
    if |O| <= p {
      NewNodeAncestry(O, N, body, s, hi, a, p);
    } else {
      DomFacts.AncestorPrecedes(N, a, p);
    }
  }

  /** An element the pass has not reached yet looks to `addBadges` exactly as it did before the pass. */
  lemma Unreached(O: seq<Node>, N: seq<Node>, body: NodeId, s: Settings, hi: nat, u: NodeId)
    requires ScannedUpTo(O, N, body, s, hi) && hi <= u < |O|
    ensures IsUsername(N, u) == IsUsername(O, u)
    ensures HasBadge(N, u) == HasBadge(O, u)
    ensures Resolves(N, body, u) == Resolves(O, body, u)
  {
    UnreachedResolves(O, N, body, s, hi, u);
    UnreachedKeepsBadge(O, N, body, s, hi, u);
    UnreachedGainsNoBadge(O, N, body, s, hi, u);
  }

  lemma UnreachedResolves(O: seq<Node>, N: seq<Node>, body: NodeId, s: Settings, hi: nat, u: NodeId)
    requires ScannedUpTo(O, N, body, s, hi) && hi <= u < |O|
    ensures IsUsername(N, u) == IsUsername(O, u)
    ensures Resolves(N, body, u) == Resolves(O, body, u)
  {
    DomFacts.AncestorFrame(O, N, DOCUMENT, u);
    DomFacts.WalkFrame(O, N, body, u);
    var w := Walk(O, body, u);
    assert ElementsOf(N, w) == ElementsOf(O, w);
  }

  lemma UnreachedKeepsBadge(O: seq<Node>, N: seq<Node>, body: NodeId, s: Settings, hi: nat, u: NodeId)
    requires ScannedUpTo(O, N, body, s, hi) && hi <= u < |O|
    ensures HasBadge(O, u) ==> HasBadge(N, u)
  {
    if HasBadge(O, u) {
      var j :| u < j < |O| && SelectorMatches(BADGE_SELECTOR, O[j].el) && ProperAncestor(O, u, j);
      DomFacts.AncestorFrame(O, N, u, O[j].parent.value);
      assert ProperAncestor(N, u, j);
    }
  }

  lemma UnreachedGainsNoBadge(O: seq<Node>, N: seq<Node>, body: NodeId, s: Settings, hi: nat, u: NodeId)
    requires ScannedUpTo(O, N, body, s, hi) && hi <= u < |O|
    ensures HasBadge(N, u) ==> HasBadge(O, u)
  {
    if HasBadge(N, u) {
      var j :| u < j < |N| && SelectorMatches(BADGE_SELECTOR, N[j].el) && ProperAncestor(N, u, j);
      var p := N[j].parent.value;
      if j < |O| {
        DomFacts.AncestorFrame(O, N, u, p);
        assert ProperAncestor(O, u, j);
      } else if |O| <= p {
        NewNodeAncestry(O, N, body, s, hi, u, p);
      } else {
        DomFacts.AncestorPrecedes(N, u, p);
      }
    }
  }

  /** Passing over element `u` without decorating it. */
  lemma SkipStep(O: seq<Node>, N: seq<Node>, body: NodeId, s: Settings, hi: nat, u: NodeId)
    requires ScannedUpTo(O, N, body, s, hi) && hi <= u < |O|
    requires forall j :: hi <= j < u ==> !IsUsername(O, j)
    requires !NeedsBadge(O, body, u)
    ensures ScannedUpTo(O, N, body, s, u + 1)
  {
  }

  /** Decorating element `u`: a badge tree is built from `|N|` on (giving `built`)
      and its root appended as `u`'s last child (giving `after`). */
  lemma DecorateStep(O: seq<Node>, N: seq<Node>, built: seq<Node>, after: seq<Node>,
                     body: NodeId, s: Settings, hi: nat, u: NodeId, b: NodeId)
    requires WellFormed(N) && ScannedUpTo(O, N, body, s, hi) && hi <= u < |O|
    requires forall j :: hi <= j < u ==> !IsUsername(O, j)
    requires NeedsBadge(O, body, u)
    requires WellFormed(built) && b == |N| < |built| && built[..b] == N && built[b].parent == None
    requires forall j :: b < j < |built| ==> built[j].parent.Some? && b <= built[j].parent.value
    requires forall j :: b <= j < |built| ==> built[j].el in Elts(CreateBadge(s))
    requires SubtreeAt(built, b) == CreateBadge(s)
    requires after == built[u := built[u].(children := built[u].children + [b])][b := built[b].(parent := Some(u))]
    ensures ScannedUpTo(O, after, body, s, u + 1)
  {
    DecoratedChildren(O, N, built, after, body, s, hi, u, b);
    DecoratedNewNodes(O, N, built, after, body, s, hi, u, b);
  }

  lemma DecoratedChildren(O: seq<Node>, N: seq<Node>, built: seq<Node>, after: seq<Node>,
                          body: NodeId, s: Settings, hi: nat, u: NodeId, b: NodeId)
    requires WellFormed(N) && ScannedUpTo(O, N, body, s, hi) && hi <= u < |O|
    requires forall j :: hi <= j < u ==> !IsUsername(O, j)
    requires NeedsBadge(O, body, u)
    requires WellFormed(built) && b == |N| < |built| && built[..b] == N
    requires SubtreeAt(built, b) == CreateBadge(s)
    requires after == built[u := built[u].(children := built[u].children + [b])][b := built[b].(parent := Some(u))]
    ensures forall j :: 0 <= j < |O| ==> after[j].el == O[j].el && after[j].parent == O[j].parent
    ensures forall j :: 0 <= j < |O| ==>
      if j < u + 1 && NeedsBadge(O, body, j) then Decorated(O, after, j, s) else after[j].children == O[j].children
  {
    forall j | 0 <= j < |O|
      ensures after[j].el == O[j].el && after[j].parent == O[j].parent
    {
      assert after[j].el == N[j].el && after[j].parent == N[j].parent;
    }
    forall j | 0 <= j < |O|
      ensures if j < u + 1 && NeedsBadge(O, body, j) then Decorated(O, after, j, s) else after[j].children == O[j].children
    {
      if j == u {
        NewBadgeDecorates(O, N, built, after, s, u, b);
      } else {
        OtherStaysDecorated(O, N, after, body, s, hi, u, j);
      }
    }
  }

  /** The element just decorated. */
  lemma NewBadgeDecorates(O: seq<Node>, N: seq<Node>, built: seq<Node>, after: seq<Node>, s: Settings, u: NodeId, b: NodeId)
    requires u < |O| <= |N| && N[u].children == O[u].children
    requires WellFormed(built) && b == |N| < |built| && built[..b] == N
    requires SubtreeAt(built, b) == CreateBadge(s)
    requires after == built[u := built[u].(children := built[u].children + [b])][b := built[b].(parent := Some(u))]
    ensures Decorated(O, after, u, s)
  {
    assert after[u].children == O[u].children + [b];
    assert after[u].children[..|O[u].children|] == O[u].children;
    DomFacts.SubtreeFrame(built, after, b);
  }

  /** Any other old element: its state from before the step carries over. */
  lemma OtherStaysDecorated(O: seq<Node>, N: seq<Node>, after: seq<Node>, body: NodeId, s: Settings, hi: nat, u: NodeId, j: NodeId)
    requires WellFormed(N) && ScannedUpTo(O, N, body, s, hi) && hi <= u < |O|
    requires forall k :: hi <= k < u ==> !IsUsername(O, k)
    requires j < |O| && j != u && |N| <= |after| && after[j] == N[j]
    requires forall k :: |O| <= k < |N| ==> after[k].el == N[k].el && after[k].children == N[k].children
    ensures if j < u + 1 && NeedsBadge(O, body, j) then Decorated(O, after, j, s) else after[j].children == O[j].children
  {
    if j < hi && NeedsBadge(O, body, j) {
      var c := N[j].children[|O[j].children|];
      assert Decorated(O, N, j, s);
      DomFacts.SubtreeFrame(N, after, c);
    }
  }

  lemma DecoratedNewNodes(O: seq<Node>, N: seq<Node>, built: seq<Node>, after: seq<Node>,
                          body: NodeId, s: Settings, hi: nat, u: NodeId, b: NodeId)
    requires ScannedUpTo(O, N, body, s, hi) && hi <= u < |O|
    requires NeedsBadge(O, body, u)
    requires b == |N| < |built| && built[..b] == N
    requires forall j :: b < j < |built| ==> built[j].parent.Some? && b <= built[j].parent.value
    requires forall j :: b <= j < |built| ==> built[j].el in Elts(CreateBadge(s))
    requires after == built[u := built[u].(children := built[u].children + [b])][b := built[b].(parent := Some(u))]
    ensures forall j :: |O| <= j < |after| ==>
      after[j].parent.Some? &&
      (|O| <= after[j].parent.value || (after[j].parent.value < u + 1 && NeedsBadge(O, body, after[j].parent.value)))
    ensures forall j :: |O| <= j < |after| ==> after[j].el.className in TREE_CLASSES
  {
    BadgeClasses(s);
    forall j | |O| <= j < |after|
      ensures after[j].parent.Some? &&
        (|O| <= after[j].parent.value || (after[j].parent.value < u + 1 && NeedsBadge(O, body, after[j].parent.value)))
      ensures after[j].el.className in TREE_CLASSES
    {
      if j < b {
        assert after[j] == N[j];
      } else {
        assert after[j].el == built[j].el;
      }
    }
  }

  /** With no username element left from `hi` on, the pass is complete. */
  lemma Finish(O: seq<Node>, N: seq<Node>, body: NodeId, s: Settings, hi: nat)
    requires ScannedUpTo(O, N, body, s, hi)
    requires forall j :: hi <= j < |O| ==> !IsUsername(O, j)
    ensures Scanned(O, N, body, s)
  {
  }
}
