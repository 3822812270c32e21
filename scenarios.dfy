/**
 * Concrete pages: a profile popout whose wrapper `<div>` carries the user's
 * identity and whose username `<span>` sits inside it, and what one
 * `addBadges` pass (customBadge.tsx:164-191) does to each.
 */
module Scenarios {
  import opened Wrappers
  import opened Dom
  import Text
  import opened Identity
  import opened Badge
  import opened Scan
  import ScanFacts

  const BODY: NodeId := 1
  const USERNAME_CLASS: string := "username-1A2b3c"

  function Plain(tag: string): Element
  {
    Element(tag, "", None, None, None, "")
  }

  /** document (0) > body (1) > div with the given identity (2) > username span (3). */
  function ProfilePage(userId: Option<string>, aria: Option<string>): seq<Node>
  {
    [ Node(Plain("#document"), None, [1]),
      Node(Plain("body"), Some(0), [2]),
      Node(Element("div", "", userId, aria, None, ""), Some(1), [3]),
      Node(Element("span", USERNAME_CLASS, None, None, None, "3Tb"), Some(2), []) ]
  }

  /** On a profile page, the span is the only username element, it has no
      badge, and `findUserId` reads the div. */
  lemma ProfileFacts(userId: Option<string>, aria: Option<string>)
    ensures IsUsername(ProfilePage(userId, aria), 3)
    ensures !HasBadge(ProfilePage(userId, aria), 3)
    ensures Resolves(ProfilePage(userId, aria), BODY, 3) == Examine(ProfilePage(userId, aria)[2].el)
    ensures forall u: NodeId :: u < 3 ==> !IsUsername(ProfilePage(userId, aria), u)
  {
    var O := ProfilePage(userId, aria);
    assert AncestorOrSelf(O, DOCUMENT, 1);
    assert AncestorOrSelf(O, DOCUMENT, 2);
    assert InDocument(O, 3);
    assert USERNAME_CLASS[..|"username-"|] == "username-";
    assert Walk(O, BODY, 2) == [2];
    assert Walk(O, BODY, 3) == [3, 2];
    assert ElementsOf(O, [3, 2]) == [O[3].el, O[2].el];
    assert [O[3].el, O[2].el][1..] == [O[2].el];
    assert [O[2].el][1..] == [];
    assert Resolve([O[2].el]) == Examine(O[2].el);
    assert Examine(O[3].el) == None;
    assert Resolve([O[3].el, O[2].el]) == Resolve([O[2].el]);
    assert Resolves(O, BODY, 3) == Resolve([O[3].el, O[2].el]);
    forall u: NodeId | u < 3 ensures !IsUsername(O, u) {
      assert O[u].el.className == "";
    }
  }

  /** A wrapper with the owner's `data-user-id`: the username gets one badge,
      built from the settings, showing the configured icon at the configured size. */
  lemma OwnerIdGetsBadge(N: seq<Node>, s: Settings)
    requires Scanned(ProfilePage(Some(OWNER_ID), None), N, BODY, s) && WellFormed(N)
    ensures |N[3].children| == 1
    ensures var b := SubtreeAt(N, N[3].children[0]);
      && b == CreateBadge(s)
      && b.kids[0].el.image == Some(Image(s.badgeIcon, s.badgeSize, s.badgeSize, "3Tb"))
  {
    var O := ProfilePage(Some(OWNER_ID), None);
    ProfileFacts(Some(OWNER_ID), None);
    assert NeedsBadge(O, BODY, 3);
    ScanFacts.DecoratedOnlyOwners(O, N, BODY, s, 3);
  }

  /** An empty `data-user-id` is skipped, and an `aria-label` that mentions the
      owner anywhere decides instead. */
  lemma EmptyIdFallsBackToLabel(N: seq<Node>, s: Settings)
    requires Scanned(ProfilePage(Some(""), Some("@" + OWNER_ID + " profile")), N, BODY, s) && WellFormed(N)
    ensures |N[3].children| == 1 && SubtreeAt(N, N[3].children[0]) == CreateBadge(s)
  {
    var aria := "@" + OWNER_ID + " profile";
    var O := ProfilePage(Some(""), Some(aria));
    ProfileFacts(Some(""), Some(aria));
    assert aria[1..1 + |OWNER_ID|] == OWNER_ID;
    LabelContainment(O[2].el, 1);
    assert NeedsBadge(O, BODY, 3);
    ScanFacts.DecoratedOnlyOwners(O, N, BODY, s, 3);
  }

  /** Another user's id: the username is left as it was. */
  lemma OtherUserGetsNothing(N: seq<Node>, s: Settings)
    requires Scanned(ProfilePage(Some("123"), None), N, BODY, s) && WellFormed(N)
    ensures N[3].children == []
  {
    var O := ProfilePage(Some("123"), None);
    ProfileFacts(Some("123"), None);
    assert Resolves(O, BODY, 3) == Some("123");
    ScanFacts.DecoratedOnlyOwners(O, N, BODY, s, 3);
  }

  /** On one element, another user's `data-user-id` wins over a label that
      mentions the owner. */
  lemma IdBeatsLabelOnSameElement(N: seq<Node>, s: Settings)
    requires Scanned(ProfilePage(Some("123"), Some(OWNER_ID)), N, BODY, s) && WellFormed(N)
    ensures N[3].children == []
  {
    var O := ProfilePage(Some("123"), Some(OWNER_ID));
    ProfileFacts(Some("123"), Some(OWNER_ID));
    assert Resolves(O, BODY, 3) == Some("123");
    ScanFacts.DecoratedOnlyOwners(O, N, BODY, s, 3);
  }

  /** document (0) > body (1) > div labelled with the owner (2) > username span
      with another user's id (3). */
  function NestedPage(): seq<Node>
  {
    [ Node(Plain("#document"), None, [1]),
      Node(Plain("body"), Some(0), [2]),
      Node(Element("div", "", None, Some(OWNER_ID), None, ""), Some(1), [3]),
      Node(Element("span", USERNAME_CLASS, Some("123"), None, None, "3Tb"), Some(2), []) ]
  }

  /** A nearer element with another user's id wins over a farther label that
      mentions the owner: the username is left as it was. */
  lemma NearerIdWins(N: seq<Node>, s: Settings)
    requires Scanned(NestedPage(), N, BODY, s) && WellFormed(N)
    ensures N[3].children == []
  {
    var O := NestedPage();
    assert AncestorOrSelf(O, DOCUMENT, 1);
    assert AncestorOrSelf(O, DOCUMENT, 2);
    assert InDocument(O, 3);
    assert USERNAME_CLASS[..|"username-"|] == "username-";
    assert IsUsername(O, 3);
    assert Walk(O, BODY, 2) == [2];
    assert Walk(O, BODY, 3) == [3, 2];
    assert ElementsOf(O, [3, 2]) == [O[3].el, O[2].el];
    assert Examine(O[3].el) == Some("123");
    assert Resolves(O, BODY, 3) == Some("123");
    ScanFacts.DecoratedOnlyOwners(O, N, BODY, s, 3);
  }
}
