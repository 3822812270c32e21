/**
 * The settings, the constant plugin list, and the badge and tooltip trees that
 * `createBadge` and `createTooltip` build (customBadge.tsx:13-42, 193-245).
 * Both builders only ever touch freshly created elements, so they are given as
 * pure constructors of detached trees; the current settings are a parameter,
 * because the source reads the settings store afresh on every call.
 */
module Badge {
  import opened Wrappers
  import opened Dom

  /** The four user-facing options. `badgeSize` snapping to `SIZE_MARKERS` is done by the host. */
  datatype Settings = Settings(badgeIcon: string, badgeSize: int, showTooltip: bool, tooltipTitle: string)

  const DEFAULT_SETTINGS: Settings := Settings("https://g.top4top.io/p_36628weww1.png", 22, true, "3Tb's Plugins")
  const SIZE_MARKERS: seq<int> := [18, 20, 22, 24, 26, 28]

  /** One entry of the companion-plugin list shown in the tooltip. */
  datatype PluginInfo = PluginInfo(name: string, desc: string)

  const MY_PLUGINS: seq<PluginInfo> := [
    PluginInfo("PullUser", "Drag users with you across voice channels"),
    PluginInfo("FollowUser", "Always be in the same VC as someone"),
    PluginInfo("VoiceChannelBlacklist", "Block users from voice channels")
  ]

  const BADGE_CLASS: string := "custom-3tb-badge"
  const TOOLTIP_CLASS: string := "custom-3tb-tooltip"
  const TITLE_CLASS: string := "custom-3tb-tooltip-title"
  const LIST_CLASS: string := "custom-3tb-plugin-list"
  const ITEM_CLASS: string := "custom-3tb-plugin-item"
  const NAME_CLASS: string := "custom-3tb-plugin-name"
  const DESC_CLASS: string := "custom-3tb-plugin-desc"
  const BADGE_ALT: string := "3Tb"

  /** Every class attribute that occurs in a badge tree (the image has none). */
  const TREE_CLASSES: set<string> :=
    {BADGE_CLASS, "", TOOLTIP_CLASS, TITLE_CLASS, LIST_CLASS, ITEM_CLASS, NAME_CLASS, DESC_CLASS}

  /** A fresh `<div>` with a class and text content and no attributes besides. */
  function Div(cls: string, text: string): Element
  {
    Element("div", cls, None, None, None, text)
  }

  /** One list item: a name line, then a description line. */
  function PluginItem(p: PluginInfo): Tree
  {
    Tree(Div(ITEM_CLASS, ""), [Tree(Div(NAME_CLASS, p.name), []), Tree(Div(DESC_CLASS, p.desc), [])])
  }

  /** The items of the list, one per plugin and in the plugins' order. */
  function PluginItems(ps: seq<PluginInfo>): (items: seq<Tree>)
    ensures |items| == |ps|
    ensures forall k :: 0 <= k < |ps| ==>
      && items[k].el == Div(ITEM_CLASS, "")
      && |items[k].kids| == 2
      && items[k].kids[0] == Tree(Div(NAME_CLASS, ps[k].name), [])
      && items[k].kids[1] == Tree(Div(DESC_CLASS, ps[k].desc), [])
  {
    if ps == [] then [] else [PluginItem(ps[0])] + PluginItems(ps[1..])
  }

  /** `createTooltip()`: a title holding the current tooltip title, then the plugin list. */
  function CreateTooltip(s: Settings): (t: Tree)
    ensures t.el == Div(TOOLTIP_CLASS, "") && |t.kids| == 2
    ensures t.kids[0] == Tree(Div(TITLE_CLASS, s.tooltipTitle), [])
    ensures t.kids[1].el == Div(LIST_CLASS, "") && |t.kids[1].kids| == |MY_PLUGINS|
    ensures forall k :: 0 <= k < |MY_PLUGINS| ==>
      && t.kids[1].kids[k].el.className == ITEM_CLASS
      && |t.kids[1].kids[k].kids| == 2
      && t.kids[1].kids[k].kids[0].el == Div(NAME_CLASS, MY_PLUGINS[k].name)
      && t.kids[1].kids[k].kids[1].el == Div(DESC_CLASS, MY_PLUGINS[k].desc)
  {
    Tree(Div(TOOLTIP_CLASS, ""), [
      Tree(Div(TITLE_CLASS, s.tooltipTitle), []),
      Tree(Div(LIST_CLASS, ""), PluginItems(MY_PLUGINS))
    ])
  }

  /** The badge image: source and both dimensions from the settings, fixed alt text. */
  function BadgeImage(s: Settings): Element
  {
    Element("img", "", None, None, Some(Image(s.badgeIcon, s.badgeSize, s.badgeSize, BADGE_ALT)), "")
  }

  /** `createBadge()`: a span of class `custom-3tb-badge` holding the image and,
      only when tooltips are on, the tooltip after it. */
  function CreateBadge(s: Settings): (b: Tree)
    ensures b.el == Element("span", BADGE_CLASS, None, None, None, "")
    ensures |b.kids| == if s.showTooltip then 2 else 1
    ensures b.kids[0].kids == [] && b.kids[0].el.tag == "img"
    ensures b.kids[0].el.image == Some(Image(s.badgeIcon, s.badgeSize, s.badgeSize, "3Tb"))
    ensures s.showTooltip ==> b.kids[1] == CreateTooltip(s)
  {
    Tree(Element("span", BADGE_CLASS, None, None, None, ""),
      [Tree(BadgeImage(s), [])] + (if s.showTooltip then [CreateTooltip(s)] else []))
  }

  /** The badge depends on exactly the settings it shows: two settings give the
      same badge if and only if they agree on icon, size and tooltip switch, and,
      when the tooltip is shown, on its title. */
  lemma BadgeReflectsSettings(s1: Settings, s2: Settings)
    ensures CreateBadge(s1) == CreateBadge(s2) <==>
      && s1.badgeIcon == s2.badgeIcon
      && s1.badgeSize == s2.badgeSize
      && s1.showTooltip == s2.showTooltip
      && (s1.showTooltip ==> s1.tooltipTitle == s2.tooltipTitle)
  {
    if CreateBadge(s1) == CreateBadge(s2) && s1.showTooltip {
      assert CreateBadge(s1).kids[1].kids[0].el.text == s1.tooltipTitle;
    }
  }

  lemma {:induction false} ItemClasses(ps: seq<PluginInfo>)
    ensures forall e :: e in EltsOfAll(PluginItems(ps)) ==> e.className in TREE_CLASSES
  {
    if ps != [] {
      ItemClasses(ps[1..]);
      var item := PluginItem(ps[0]);
      assert PluginItems(ps)[1..] == PluginItems(ps[1..]);
      assert EltsOfAll(item.kids) == Elts(item.kids[0]) + EltsOfAll(item.kids[1..]);
      assert EltsOfAll(item.kids[1..]) == Elts(item.kids[1]) + EltsOfAll(item.kids[2..]);
    }
  }

  /** Every element of a badge carries one of the badge's own class attributes. */
  lemma BadgeClasses(s: Settings)
    ensures forall e :: e in Elts(CreateBadge(s)) ==> e.className in TREE_CLASSES
  {
    var b := CreateBadge(s);
    assert EltsOfAll(b.kids) == Elts(b.kids[0]) + EltsOfAll(b.kids[1..]);
    if s.showTooltip {
      var t := CreateTooltip(s);
      assert EltsOfAll(b.kids[1..]) == Elts(t) + EltsOfAll(b.kids[2..]);
      assert EltsOfAll(t.kids) == Elts(t.kids[0]) + EltsOfAll(t.kids[1..]);
      assert EltsOfAll(t.kids[1..]) == Elts(t.kids[1]) + EltsOfAll(t.kids[2..]);
      ItemClasses(MY_PLUGINS);
    }
  }
}
