/**
 * The plugin object itself (customBadge.tsx:128-246): its lifecycle hooks
 * `start` and `stop`, the scan `addBadges` and the walk `findUserId`, over one
 * page. `this.observer` is a handle into the page's list of observers.
 */
module Plugin {
  import opened Wrappers
  import opened Dom
  import DomFacts
  import opened Page
  import opened Identity
  import opened Badge
  import opened Scan
  import ScanFacts

  /** The id of the injected `<style>` element. */
  const STYLE_ID: string := "custom-3tb-badge-style"

  /** Every element that `document.querySelectorAll('.custom-3tb-badge')` finds. */
  ghost function BadgeSet(nodes: seq<Node>): set<NodeId>
  {
    set j | 0 <= j < |nodes| && Selected(nodes, BADGE_SELECTOR, j)
  }

  /** The snapshot `usernames` is sorted, holds only username elements of `O`,
      and from entry `i` on holds every username element from id `hi` on. */
  ghost predicate Pending(O: seq<Node>, usernames: seq<NodeId>, i: nat, hi: nat)
  {
    && i <= |usernames|
    && (forall k :: 0 <= k < |usernames| ==> usernames[k] < |O| && IsUsername(O, usernames[k]))
    && (forall a, b :: 0 <= a < b < |usernames| ==> usernames[a] < usernames[b])
    && (forall k :: i <= k < |usernames| ==> hi <= usernames[k])
    && (forall j :: hi <= j < |O| && IsUsername(O, j) ==> j in usernames[i..])
  }

  lemma PendingStart(O: seq<Node>, usernames: seq<NodeId>)
    requires forall j :: j in usernames <==> 0 <= j < |O| && Selected(O, USERNAME_SELECTOR, j)
    requires forall a, b :: 0 <= a < b < |usernames| ==> usernames[a] < usernames[b]
    requires forall a :: 0 <= a < |usernames| ==> 0 <= usernames[a] < |O|
    ensures Pending(O, usernames, 0, 0)
  {
    assert usernames[0..] == usernames;
    forall k | 0 <= k < |usernames| ensures IsUsername(O, usernames[k]) {
      assert usernames[k] in usernames;
    }
  }

  lemma PendingStep(O: seq<Node>, usernames: seq<NodeId>, i: nat, hi: nat)
    requires Pending(O, usernames, i, hi) && i < |usernames|
    ensures var u := usernames[i];
      && hi <= u < |O| && IsUsername(O, u)
      && (forall j :: hi <= j < u ==> !IsUsername(O, j))
      && Pending(O, usernames, i + 1, u + 1)
  {
    var u := usernames[i];
    forall j | u + 1 <= j < |O| && IsUsername(O, j) ensures j in usernames[i + 1..] {
      var k :| i <= k < |usernames| && usernames[k] == j;
      assert k != i;
      assert usernames[i + 1..][k - i - 1] == j;
    }
    forall j | hi <= j < |O| && IsUsername(O, j) ensures u <= j {
      var k :| i <= k < |usernames| && usernames[k] == j;
      assert k == i || usernames[i] < usernames[k];
    }
  }

  lemma PendingDone(O: seq<Node>, usernames: seq<NodeId>, hi: nat)
    requires Pending(O, usernames, |usernames|, hi)
    ensures forall j :: hi <= j < |O| ==> !IsUsername(O, j)
  {
    assert usernames[|usernames|..] == [];
  }

  class Custom3TbBadge {
    const doc: Document
    var observer: Option<nat>

    ghost predicate Valid()
      reads this, doc
    {
      doc.Valid() && (observer.Some? ==> observer.value < |doc.observers|)
    }

    constructor (page: Document)
      requires page.Valid()
      ensures Valid() && doc == page && observer == None
    {
      doc := page;
      observer := None;
    }

    /** `findUserId(element)`: walk up from the element, stopping at the body,
        and return the first user id found. */
    method FindUserId(element: NodeId) returns (r: Option<string>)
      requires doc.Valid() && element < |doc.nodes| && element != DOCUMENT
      ensures r == Resolves(doc.nodes, doc.body, element)
    {
      var nodes := doc.nodes;
      var current: Option<NodeId> := Some(element);
      while current.Some? && current.value != doc.body
        invariant current.Some? ==> current.value < |nodes|
        invariant Resolves(nodes, doc.body, element) ==
          if current.Some? then Resolves(nodes, doc.body, current.value) else None
        decreases if current.Some? then current.value + 1 else 0
      {
        var j := current.value;
        var e := nodes[j].el;
        ResolvesStep(nodes, doc.body, j);
        if e.dataUserId.Some? && e.dataUserId.value != "" {
          return e.dataUserId;
        }
        if e.ariaLabel.Some? && Text.Includes(e.ariaLabel.value, OWNER_ID) {
          return Some(OWNER_ID);
        }
        current := ParentElement(nodes, j);
      }
      return None;
    }

    /** `addBadges()`: every username element that has no badge and resolves
        to the owner gets a badge, built from the current settings, appended
        as its last child. */
    method AddBadges(s: Settings)
      requires Valid()
      modifies doc`nodes
      ensures Valid()
      ensures Scanned(old(doc.nodes), doc.nodes, doc.body, s)
    {
      var usernames := QueryAll(doc.nodes, USERNAME_SELECTOR, 0);
      ghost var O := doc.nodes;
      PendingStart(O, usernames);
      ghost var hi: nat := 0;
      var i := 0;
      while i < |usernames|
        invariant 0 <= i <= |usernames| && hi <= |O|
        invariant Valid()
        invariant Pending(O, usernames, i, hi)
        invariant ScannedUpTo(O, doc.nodes, doc.body, s, hi)
      {
        var u := usernames[i];
        PendingStep(O, usernames, i, hi);
        VisitUsername(s, u, O, hi);
        hi := u + 1;
        i := i + 1;
      }
      PendingDone(O, usernames, hi);
      Finish(O, doc.nodes, doc.body, s, hi);
    }

    /** The body of the `forEach` in `addBadges`, for the username element `u`. */
    method VisitUsername(s: Settings, u: NodeId, ghost O: seq<Node>, ghost hi: nat)
      requires Valid() && ScannedUpTo(O, doc.nodes, doc.body, s, hi) && hi <= u < |O|
      requires IsUsername(O, u) && forall j :: hi <= j < u ==> !IsUsername(O, j)
      modifies doc`nodes
      ensures Valid()
      ensures ScannedUpTo(O, doc.nodes, doc.body, s, u + 1)
    {
      ghost var N := doc.nodes;
      Unreached(O, N, doc.body, s, hi, u);
      if HasDescendantMatching(doc.nodes, BADGE_SELECTOR, u) {
        SkipStep(O, N, doc.body, s, hi, u);
      } else {
        var userId := FindUserId(u);
        if userId == Some(OWNER_ID) {
          Decorate(s, u, O, hi);
        } else {
          SkipStep(O, N, doc.body, s, hi, u);
        }
      }
    }

    /** `username.appendChild(this.createBadge())` for an element that needs a badge. */
    method Decorate(s: Settings, u: NodeId, ghost O: seq<Node>, ghost hi: nat)
      requires Valid() && ScannedUpTo(O, doc.nodes, doc.body, s, hi) && hi <= u < |O|
      requires forall j :: hi <= j < u ==> !IsUsername(O, j)
      requires NeedsBadge(O, doc.body, u)
      modifies doc`nodes
      ensures Valid()
      ensures ScannedUpTo(O, doc.nodes, doc.body, s, u + 1)
    {
      ghost var N := doc.nodes;
      var b := doc.Instantiate(CreateBadge(s));
      ghost var built := doc.nodes;
      doc.AppendChild(u, b);
      DecorateStep(O, N, built, doc.nodes, doc.body, s, hi, u, b);
    }

    /** `start()`: append the style element, create the observer and point it
        at the body, then run one pass. There is no guard against starting twice. */
    method Start(s: Settings)
      requires Valid()
      modifies this, doc`nodes, doc`styles, doc`observers
      ensures Valid()
      ensures doc.styles == old(doc.styles) + [STYLE_ID]
      ensures doc.observers == old(doc.observers) + [true]
      ensures observer == Some(|old(doc.observers)|)
      ensures Scanned(old(doc.nodes), doc.nodes, doc.body, s)
    {
      doc.AppendStyle(STYLE_ID);
      var handle := doc.Observe();
      observer := Some(handle);
      AddBadges(s);
    }

    /** `stop()`: remove the first element with the style id, remove every
        badge in the document, and disconnect the current observer if there
        is one. The observer field keeps its value. */
    method Stop()
      requires Valid()
      modifies doc`nodes, doc`styles, doc`observers
      ensures Valid()
      ensures doc.styles == RemoveFirst(old(doc.styles), STYLE_ID)
      ensures doc.nodes == Detach(old(doc.nodes), BadgeSet(old(doc.nodes)))
      ensures doc.observers ==
        if observer.Some? then old(doc.observers)[observer.value := false] else old(doc.observers)
    {
      doc.RemoveStyleById(STYLE_ID);
      var badges := QueryAll(doc.nodes, BADGE_SELECTOR, 0);
      ghost var O := doc.nodes;
      doc.RemoveEach(badges);
      assert Members(badges) == BadgeSet(O);
      if observer.Some? {
        doc.Disconnect(observer.value);
      }
    }
  }

  /** After `stop()` no badge is left in the document, and each removed badge is detached. */
  lemma StopLeavesNoBadge(nodes: seq<Node>)
    requires WellFormed(nodes)
    ensures BadgeSet(Detach(nodes, BadgeSet(nodes))) == {}
    ensures forall j :: j in BadgeSet(nodes) ==> Detach(nodes, BadgeSet(nodes))[j].parent == None
  {
    var gone := BadgeSet(nodes);
    var d := Detach(nodes, gone);
    forall j | 0 <= j < |d| && Selected(d, BADGE_SELECTOR, j) ensures false {
      DomFacts.DetachInDocument(nodes, gone, j);
    }
  }

  /** A second `stop()` finds no badge and leaves the elements as they are. */
  lemma StopNodesIdempotent(nodes: seq<Node>)
    requires WellFormed(nodes)
    ensures var d := Detach(nodes, BadgeSet(nodes)); Detach(d, BadgeSet(d)) == d
  {
    StopLeavesNoBadge(nodes);
    DomFacts.DetachNothing(Detach(nodes, BadgeSet(nodes)));
  }

  /** No old element is a badge after a pass over a page that had none. */
  lemma OldNodesAreNotBadges(O: seq<Node>, N: seq<Node>, body: NodeId, s: Settings)
    requires Scanned(O, N, body, s) && BadgeSet(O) == {}
    ensures forall j :: j < |O| ==> j !in BadgeSet(N)
  {
    forall j: NodeId | j < |O| ensures j !in BadgeSet(N) {
      ScanFacts.OldNodeAnswers(O, N, body, s, j);
      assert N[j].el == O[j].el;
      assert j !in BadgeSet(O);
    }
  }

  /** A new node either is a badge the pass attached, or hangs below another new node. */
  lemma NewNodeParent(O: seq<Node>, N: seq<Node>, body: NodeId, s: Settings, j: NodeId)
    requires Scanned(O, N, body, s) && WellFormed(O) && WellFormed(N) && |O| <= j < |N|
    ensures j in BadgeSet(N) || (N[j].parent.Some? && |O| <= N[j].parent.value)
  {
    var p := N[j].parent.value;
    if p < |O| {
      ScanFacts.DecoratedHasBadge(O, N, body, s, p);
      var c := N[p].children[|N[p].children| - 1];
      assert j in N[p].children;
      assert j !in O[p].children;
      assert j == c;
    }
  }

  /** After stop, no node the pass created is still in the document. */
  lemma {:induction false} NewNodesGone(O: seq<Node>, N: seq<Node>, body: NodeId, s: Settings, j: NodeId)
    requires Scanned(O, N, body, s) && WellFormed(O) && WellFormed(N) && |O| <= j < |N|
    ensures !InDocument(Detach(N, BadgeSet(N)), j)
    decreases j
  {
    var d := Detach(N, BadgeSet(N));
    NewNodeParent(O, N, body, s, j);
    if j !in BadgeSet(N) {
      var p := N[j].parent.value;
      assert d[j].parent == Some(p);
      NewNodesGone(O, N, body, s, p);
    }
  }

  /** After stop, an old element's child list is what it was before the pass. */
  lemma OldChildrenRestored(O: seq<Node>, N: seq<Node>, body: NodeId, s: Settings, j: NodeId)
    requires Scanned(O, N, body, s) && WellFormed(O) && WellFormed(N) && BadgeSet(O) == {} && j < |O|
    ensures Without(N[j].children, BadgeSet(N)) == O[j].children
  {
    OldChildrenKept(O, N, body, s, j);
    if NeedsBadge(O, body, j) {
      BadgeChildDropped(O, N, body, s, j);
    }
  }

  /** None of an old element's original children is a badge afterwards. */
  lemma OldChildrenKept(O: seq<Node>, N: seq<Node>, body: NodeId, s: Settings, j: NodeId)
    requires Scanned(O, N, body, s) && WellFormed(O) && BadgeSet(O) == {} && j < |O|
    ensures Without(O[j].children, BadgeSet(N)) == O[j].children
  {
    OldNodesAreNotBadges(O, N, body, s);
    assert forall x :: x in O[j].children ==> x < |O|;
    DomFacts.WithoutNothing(O[j].children, BadgeSet(N));
  }

  /** Dropping the badges from a decorated element's children drops exactly the one it gained. */
  lemma BadgeChildDropped(O: seq<Node>, N: seq<Node>, body: NodeId, s: Settings, j: NodeId)
    requires Scanned(O, N, body, s) && WellFormed(N) && NeedsBadge(O, body, j)
    ensures Without(N[j].children, BadgeSet(N)) == Without(O[j].children, BadgeSet(N))
  {
    var gone := BadgeSet(N);
    ScanFacts.DecoratedHasBadge(O, N, body, s, j);
    var c := N[j].children[|N[j].children| - 1];
    DomFacts.WithoutConcat(O[j].children, [c], gone);
    assert Without([c], gone) == [];
    assert Without(O[j].children, gone) + [] == Without(O[j].children, gone);
  }

  /** `d` holds the nodes of `O` unchanged, and none of the nodes added after
      them is in the document. */
  ghost predicate Restored(O: seq<Node>, d: seq<Node>)
  {
    && |O| <= |d| && d[..|O|] == O
    && forall j :: |O| <= j < |d| ==> !InDocument(d, j)
  }

  /** `start()` then `stop()` on a page without badges gives back the elements as
      they were: every old node is restored and every node the pass created is
      out of the document. */
  lemma StartStopRestores(O: seq<Node>, N: seq<Node>, d: seq<Node>, body: NodeId, s: Settings)
    requires Scanned(O, N, body, s) && WellFormed(O) && WellFormed(N) && BadgeSet(O) == {}
    requires d == Detach(N, BadgeSet(N))
    ensures Restored(O, d)
  {
    OldNodesAreNotBadges(O, N, body, s);
    forall j | 0 <= j < |O| ensures d[j] == O[j] {
      OldChildrenRestored(O, N, body, s, j);
    }
    forall j | |O| <= j < |d| ensures !InDocument(d, j) {
      NewNodesGone(O, N, body, s, j);
    }
  }

  /** Start then stop leaves the style list as it was, when it had no badge style. */
  lemma StartStopStyles(styles: seq<string>)
    requires STYLE_ID !in styles
    ensures RemoveFirst(styles + [STYLE_ID], STYLE_ID) == styles
  {
    RemoveFirstAt(styles + [STYLE_ID], STYLE_ID, |styles|);
    assert (styles + [STYLE_ID])[..|styles|] == styles;
  }

  /** Starting twice and stopping once leaves one badge style behind. */
  lemma RestartLeavesStyle(styles: seq<string>)
    requires STYLE_ID !in styles
    ensures Count(RemoveFirst(styles + [STYLE_ID] + [STYLE_ID], STYLE_ID), STYLE_ID) == 1
  {
    RemoveFirstCount(styles + [STYLE_ID] + [STYLE_ID], STYLE_ID);
    CountAppend(styles + [STYLE_ID], STYLE_ID, STYLE_ID);
    CountAppend(styles, STYLE_ID, STYLE_ID);
    RemoveFirstCount(styles, STYLE_ID);
  }

  /** Starting and then stopping on a page with no badge and no badge style
      gives the page back: the same styles, the same old elements, none of the
      new ones in the document, and the observer disconnected. */
  method StartThenStop(p: Custom3TbBadge, s: Settings)
    requires p.Valid() && STYLE_ID !in p.doc.styles && BadgeSet(p.doc.nodes) == {}
    modifies p, p.doc`nodes, p.doc`styles, p.doc`observers
    ensures p.Valid()
    ensures p.doc.styles == old(p.doc.styles)
    ensures p.doc.observers == old(p.doc.observers) + [false]
    ensures Restored(old(p.doc.nodes), p.doc.nodes)
  {
    ghost var O := p.doc.nodes;
    ghost var observers := p.doc.observers;
    StartStopStyles(p.doc.styles);
    assert (observers + [true])[|observers| := false] == observers + [false];
    p.Start(s);
    ghost var N := p.doc.nodes;
    p.Stop();
    StartStopRestores(O, N, p.doc.nodes, p.doc.body, s);
  }

  /** There is no guard in `start()`: starting twice and stopping once leaves
      one badge style in the head and the first observer still connected. */
  method StartTwiceThenStop(p: Custom3TbBadge, s: Settings)
    requires p.Valid() && STYLE_ID !in p.doc.styles
    modifies p, p.doc`nodes, p.doc`styles, p.doc`observers
    ensures p.Valid()
    ensures Count(p.doc.styles, STYLE_ID) == 1
    ensures var k := |old(p.doc.observers)|;
      && |p.doc.observers| == k + 2
      && p.doc.observers[k] && !p.doc.observers[k + 1]
      && p.observer == Some(k + 1)
  {
    ghost var styles := p.doc.styles;
    p.Start(s);
    p.Start(s);
    p.Stop();
    RestartLeavesStyle(styles);
  }

  /** A second `stop()` changes nothing more, as long as at most one badge
      style was there. */
  method StopTwice(p: Custom3TbBadge)
    requires p.Valid() && Count(p.doc.styles, STYLE_ID) <= 1
    modifies p.doc`nodes, p.doc`styles, p.doc`observers
    ensures p.Valid()
    ensures p.doc.styles == RemoveFirst(old(p.doc.styles), STYLE_ID) && STYLE_ID !in p.doc.styles
    ensures p.doc.nodes == Detach(old(p.doc.nodes), BadgeSet(old(p.doc.nodes)))
    ensures p.doc.observers ==
      if p.observer.Some? then old(p.doc.observers)[p.observer.value := false] else old(p.doc.observers)
  {
    ghost var O := p.doc.nodes;
    p.Stop();
    ghost var styles := p.doc.styles;
    RemoveFirstCount(old(p.doc.styles), STYLE_ID);
    RemoveFirstCount(styles, STYLE_ID);
    StopNodesIdempotent(O);
    p.Stop();
  }

  /** `stop()` before any `start()` leaves the page as it is. */
  method StopBeforeStart(p: Custom3TbBadge)
    requires p.Valid() && p.observer == None && STYLE_ID !in p.doc.styles && BadgeSet(p.doc.nodes) == {}
    modifies p.doc`nodes, p.doc`styles, p.doc`observers
    ensures p.Valid()
    ensures p.doc.nodes == old(p.doc.nodes)
    ensures p.doc.styles == old(p.doc.styles)
    ensures p.doc.observers == old(p.doc.observers)
  {
    DomFacts.DetachNothing(p.doc.nodes);
    p.Stop();
  }
}
