/**
 * What a whole `addBadges` pass (customBadge.tsx:164-176) guarantees: the old
 * elements answer every question the pass asks in the same way afterwards,
 * the elements it decorates are exactly the owner's username elements that
 * had no badge, afterwards none is left wanting one, and so a second pass
 * (the observer firing on the pass's own changes) changes nothing.
 */
module ScanFacts {
  import opened Wrappers
  import opened Dom
  import DomFacts
  import Text
  import opened Identity
  import opened Badge
  import opened Scan

  /** The old elements keep their place in the document, their class, the id
      they resolve to, and any badge they already had. */
  lemma OldNodeAnswers(O: seq<Node>, N: seq<Node>, body: NodeId, s: Settings, u: NodeId)
    requires Scanned(O, N, body, s) && u < |O|
    ensures InDocument(N, u) == InDocument(O, u)
    ensures IsUsername(N, u) == IsUsername(O, u)
    ensures Resolves(N, body, u) == Resolves(O, body, u)
    ensures HasBadge(O, u) ==> HasBadge(N, u)
  {
    DomFacts.AncestorFrame(O, N, DOCUMENT, u);
    DomFacts.WalkFrame(O, N, body, u);
    var w := Walk(O, body, u);
    assert ElementsOf(N, w) == ElementsOf(O, w);
    if HasBadge(O, u) {
      var j :| u < j < |O| && SelectorMatches(BADGE_SELECTOR, O[j].el) && ProperAncestor(O, u, j);
      DomFacts.AncestorFrame(O, N, u, O[j].parent.value);
      assert ProperAncestor(N, u, j);
    }
  }

  /** The badge the pass gives an element is its last child, in the document,
      and matches `.custom-3tb-badge`. */
  lemma DecoratedHasBadge(O: seq<Node>, N: seq<Node>, body: NodeId, s: Settings, u: NodeId)
    requires Scanned(O, N, body, s) && WellFormed(N) && NeedsBadge(O, body, u)
    ensures |N[u].children| > 0
    ensures var c := N[u].children[|N[u].children| - 1];
      && N[u].children == O[u].children + [c]
      && |O| <= c < |N| && N[c].parent == Some(u)
      && Selected(N, BADGE_SELECTOR, c) && ProperAncestor(N, u, c)
    ensures HasBadge(N, u)
  {
    assert Decorated(O, N, u, s);
    var c := N[u].children[|O[u].children|];
    DomFacts.SplitLast(N[u].children, O[u].children);
    assert N[c].el == SubtreeAt(N, c).el;
    BadgeRootMatches(s);
    OldNodeAnswers(O, N, body, s, u);
    assert InDocument(N, u);
    assert N[c].parent == Some(u) && u < c;
    assert AncestorOrSelf(N, u, u);
    assert ProperAncestor(N, u, c);
    assert InDocument(N, c);
  }

  /** Badge trees hold no username element. */
  lemma NewNodesAreNotUsernames(O: seq<Node>, N: seq<Node>, body: NodeId, s: Settings, u: NodeId)
    requires Scanned(O, N, body, s) && |O| <= u < |N|
    ensures !IsUsername(N, u)
  {
    TreeClassesAreNotUsernames();
    assert N[u].el.className in TREE_CLASSES;
  }

  /** The elements whose children a pass changes are exactly the owner's
      username elements without a badge; each gains one child, last, holding
      the badge built from the settings, which is in the document. */
  lemma DecoratedOnlyOwners(O: seq<Node>, N: seq<Node>, body: NodeId, s: Settings, u: NodeId)
    requires Scanned(O, N, body, s) && WellFormed(N) && u < |O|
    ensures N[u].children != O[u].children <==>
      IsUsername(O, u) && !HasBadge(O, u) && Resolves(O, body, u) == Some(OWNER_ID)
    ensures N[u].children != O[u].children ==>
      && N[u].children[..|N[u].children| - 1] == O[u].children
      && var c := N[u].children[|N[u].children| - 1];
         |O| <= c < |N| && SubtreeAt(N, c) == CreateBadge(s) && Selected(N, BADGE_SELECTOR, c)
  {
    if NeedsBadge(O, body, u) {
      DecoratedHasBadge(O, N, body, s, u);
    }
  }

  /** After a pass no element is left that the pass would decorate. */
  lemma ScanCompletes(O: seq<Node>, N: seq<Node>, body: NodeId, s: Settings)
    requires Scanned(O, N, body, s) && WellFormed(N)
    ensures forall u :: !NeedsBadge(N, body, u)
  {
    forall u: NodeId | u < |N| ensures !NeedsBadge(N, body, u) {
      if u < |O| {
        OldNodeAnswers(O, N, body, s, u);
        if NeedsBadge(O, body, u) {
          DecoratedHasBadge(O, N, body, s, u);
        }
      } else {
        NewNodesAreNotUsernames(O, N, body, s, u);
      }
    }
  }

  /** A pass over a document where nothing wants a badge changes nothing. */
  lemma ScanNoOp(O: seq<Node>, N: seq<Node>, body: NodeId, s: Settings)
    requires Scanned(O, N, body, s) && WellFormed(N)
    requires forall u :: !NeedsBadge(O, body, u)
    ensures |N| == |O|
    ensures N == O
  {
    forall j | |O| <= j < |N| ensures |O| <= N[j].parent.value {
      assert !NeedsBadge(O, body, N[j].parent.value);
    }
    NoNewNodes(O, N);
    forall j | 0 <= j < |O| ensures N[j] == O[j] {
      assert !NeedsBadge(O, body, j);
    }
  }

  /** In a well-formed document some new node would have to hang below an old one. */
  lemma NoNewNodes(O: seq<Node>, N: seq<Node>)
    requires WellFormed(N) && |O| <= |N|
    requires forall j :: |O| <= j < |N| ==> N[j].parent.Some? && |O| <= N[j].parent.value
    ensures |N| == |O|
  {
    ParentBefore(N, |O|);
  }

  lemma ParentBefore(nodes: seq<Node>, j: NodeId)
    requires WellFormed(nodes)
    ensures j < |nodes| && nodes[j].parent.Some? ==> nodes[j].parent.value < j
  {
  }

  /** A second pass, with any settings, changes nothing: `addBadges` is idempotent. */
  lemma ScanIdempotent(O: seq<Node>, N: seq<Node>, M: seq<Node>, body: NodeId, s: Settings, s': Settings)
    requires Scanned(O, N, body, s) && WellFormed(N)
    requires Scanned(N, M, body, s') && WellFormed(M)
    ensures M == N
  {
    ScanCompletes(O, N, body, s);
    ScanNoOp(N, M, body, s');
  }
}
