# Custom3TbBadge: a verified model of the badge plugin

The plugin `Custom3TbBadge` (`src/plugins/_core/customBadge.tsx`) is a client mod for a chat
application. It puts a small badge, with an optional hover tooltip that lists companion plugins,
next to every displayed username that belongs to one fixed user, `OWNER_ID`. Most of the file
is a CSS string. This project models the logic beneath it, over an abstract element tree:

- **Identity resolution.** `findUserId` walks from a username element up towards
  `document.body`. At each element it takes a non-empty `data-user-id` first. Failing that, it
  takes `OWNER_ID` when the `aria-label` contains it. Otherwise it moves to the parent element.
- **The decoration scan.** `addBadges` snapshots every element whose class contains
  `username-`. It skips those that already contain a `.custom-3tb-badge`. It appends a freshly
  built badge as the last child of each remaining element that resolves to `OWNER_ID`.
- **Construction.** `createBadge` and `createTooltip` build fixed-shape trees from the current
  settings and the constant `MY_PLUGINS` list.
- **Lifecycle.** `start` appends the style element, creates and arms the observer, and runs one
  scan. `stop` removes the style element with the fixed id and every badge in the document, and
  disconnects the observer if there is one.

## Layout

| file | module | contents |
|---|---|---|
| `wrappers.dfy` | `Wrappers` | `Option` |
| `text.dfy` | `Text` | `String.prototype.includes` and class-token matching |
| `dom.dfy` | `Dom` | The element tree as a sequence of nodes (id = index, node 0 is the document node), `parentElement`, the upward walk, `querySelectorAll` / `querySelector`, reading a subtree back, the effect of `remove()` |
| `dom_facts.dfy` | `DomFacts` | Frame and shape lemmas about walks, subtrees and removal |
| `identity.dfy` | `Identity` | `OWNER_ID`; the per-element test and the first-hit rule of `findUserId` |
| `badge.dfy` | `Badge` | Settings and their defaults, `MY_PLUGINS`, the class names, `createTooltip`, `createBadge` |
| `page.dfy` | `Page` | `class Document`: the nodes, the head's style ids and the observers, with the DOM primitives the plugin calls (`appendChild`, building a fresh tree, `remove`, head style append and remove-by-id, observe and disconnect) |
| `scan.dfy` | `Scan` | The selectors; `Scanned`, the relation between the tree before and after one `addBadges` pass; the step lemmas of the pass |
| `scan_facts.dfy` | `ScanFacts` | What one whole pass guarantees, and that a second pass is a no-op |
| `plugin.dfy` | `Plugin` | `class Custom3TbBadge`: `FindUserId`, `AddBadges`, `Start`, `Stop`; the lemmas about `stop` and the lifecycle |
| `scenarios.dfy` | `Scenarios` | Concrete profile pages and what a pass does to each |

`FindUserId`, `AddBadges`, `Start` and `Stop` are imperative methods on the plugin object,
like the source:

- `FindUserId` is the `while` loop over `current`. It is proved equal to the recursive
  function `Scan.Resolves`, which applies `Identity.Resolve` to the elements of `Dom.Walk`.
- `AddBadges` is the loop over the snapshot. It is proved to produce a tree related to the old
  one by `Scan.Scanned`.
- `Stop` removes the badges one by one, as the `forEach` does. It is proved equal to
  `Dom.Detach` applied to the whole snapshot at once.

The builders touch only fresh elements, so `createBadge` and `createTooltip` are pure functions
that return detached trees. `Document.Instantiate` mounts such a tree, node by node.

## Where the code and its design description differ

The model follows the code:

- **No start guard.** The design description says `start` does nothing if the plugin is
  already running, and that at most one stylesheet and one observer exist at a time. The code
  has no guard. A second `start` appends a second style element with the same id. It also creates
  a second connected observer and overwrites `this.observer`.
  - `stop` removes only the first element with that id (`getElementById`).
  - `stop` disconnects only the observer in the field.
  - So starting twice and stopping once leaves one badge style and one live observer behind.
    `Plugin.StartTwiceThenStop` and `Plugin.RestartLeavesStyle` state exactly that.
  - The leftover observer still watches `document.body` and its subtree. So it is notified of
    `stop`'s own badge removals, and its callback runs `addBadges` again, which puts a badge
    back on every owner username. The model does not deliver notifications, so this last
    step is stated here and not proved.
- **Observer kept.** `stop` does not clear `this.observer`, which the description says is
  discarded. `Stop` leaves the field as it is.
- **All badges removed.** `stop` removes every `.custom-3tb-badge` in the document, not only the
  badges this plugin created.
- **No decoration mark.** Nothing marks a decorated element. The skip test is whether the
  element already contains a badge element.
- **Lifecycle symmetry.** This holds only under conditions, and `Plugin.StartThenStop` states
  them: the page had no badge and no badge style. Under those conditions `start(); stop()`
  restores the head styles and every old element. None of the created elements stays in the
  document, and the observer ends up disconnected.

## Model

| member | source | states |
|---|---|---|
| Text.IncludesIff | src/plugins/_core/customBadge.tsx:185 | The scan behind `includes` answers yes exactly when the fragment occurs at some position |
| Text.MissingCharExcludes | src/plugins/_core/customBadge.tsx:165 | A string lacking a character of the fragment does not include it, so no badge class contains `username-` |
| Text.SingleTokenClass | src/plugins/_core/customBadge.tsx:157 | For a class attribute without whitespace, `.token` matches exactly when the attribute is the token |
| Dom.ParentElement | src/plugins/_core/customBadge.tsx:187 | A parent other than the document node is returned; a non-null result is always the parent, so the document node and a missing parent give null |
| Dom.Walk | src/plugins/_core/customBadge.tsx:179-188 | Every id the loop visits is at most the start element's id (parents precede children), which bounds the loop |
| Dom.QueryAll | src/plugins/_core/customBadge.tsx:165 | The snapshot holds exactly the in-document elements that match, each once, in increasing order |
| Dom.Without | src/plugins/_core/customBadge.tsx:157 | A child list after removals keeps exactly the children that were not removed |
| DomFacts.WalkIsParentChain | src/plugins/_core/customBadge.tsx:179-190 | The walk starts at the element itself, steps to the parent element each time, never visits the body, and ends where there is no parent element or the parent is the body |
| DomFacts.WalkStaysBelow | src/plugins/_core/customBadge.tsx:181 | From inside the body, the walk visits only strict descendants of the body and ends at a child of the body |
| DomFacts.WalkFrame | src/plugins/_core/customBadge.tsx:179-190 | Two trees that agree on the parent links of the element and of every node before it give the same walk |
| DomFacts.DetachTwice | src/plugins/_core/customBadge.tsx:157 | Removing one set of nodes and then another is removing both |
| DomFacts.DetachNothing | src/plugins/_core/customBadge.tsx:157 | Removing nothing leaves the tree unchanged |
| DomFacts.DetachInDocument | src/plugins/_core/customBadge.tsx:157 | A node still connected after removals was connected before and was not itself removed |
| DomFacts.DetachWellFormed | src/plugins/_core/customBadge.tsx:157 | Removal keeps parent and child links consistent |
| DomFacts.DetachOne | src/plugins/_core/customBadge.tsx:157 | Removing one node edits only its parent's child list and its own parent link |
| Identity.Examine | src/plugins/_core/customBadge.tsx:182-185 | An element decides exactly when it has a non-empty `data-user-id` or a label containing `OWNER_ID`; a non-empty id is taken before the label is looked at; the answer is that id or exactly `OWNER_ID`, never empty |
| Identity.ResolveFirstHit | src/plugins/_core/customBadge.tsx:181-187 | The walk returns what the first deciding element says |
| Identity.ResolveCases | src/plugins/_core/customBadge.tsx:181-190 | The result is null exactly when no element on the chain decides; otherwise it comes from the first that does |
| Identity.ResolvedValue | src/plugins/_core/customBadge.tsx:182-185 | A non-null result is `OWNER_ID` or the `data-user-id` of some element on the chain |
| Identity.ResolveAppend | src/plugins/_core/customBadge.tsx:181-188 | A nearer part of the chain that decides hides everything farther up |
| Identity.NearerIdSuppresses | src/plugins/_core/customBadge.tsx:182-187 | A nearer element with another user's id wins over a farther label that mentions the owner |
| Identity.LabelContainment | src/plugins/_core/customBadge.tsx:184-185 | A label with `OWNER_ID` anywhere inside it gives exactly `OWNER_ID` |
| Identity.LabelWithoutOwner | src/plugins/_core/customBadge.tsx:184-187 | An element with no id and a label lacking `OWNER_ID` does not end the walk |
| Badge.PluginItems | src/plugins/_core/customBadge.tsx:224-239 | One list item per plugin, in order, each holding a name line and then a description line |
| Badge.CreateTooltip | src/plugins/_core/customBadge.tsx:213-245 | The tooltip holds the title with the configured text, then the list with one item per `MY_PLUGINS` entry |
| Badge.CreateBadge | src/plugins/_core/customBadge.tsx:193-211 | A span of class `custom-3tb-badge`. Its first child is an img with the configured source, width and height equal to the size, and alt `3Tb`. A second child, the tooltip, exists exactly when tooltips are on |
| Badge.BadgeReflectsSettings | src/plugins/_core/customBadge.tsx:193-211 | Two settings build the same badge exactly when they agree on icon, size and tooltip switch, and on the title when the tooltip is shown |
| Badge.BadgeClasses | src/plugins/_core/customBadge.tsx:193-245 | Every element of a badge carries one of the badge's own classes |
| Page.Document.constructor | src/plugins/_core/customBadge.tsx:135-162 | A page with a given tree, body, head styles and no observers |
| Page.Document.AppendChild | src/plugins/_core/customBadge.tsx:173 | `appendChild` of a detached node makes it the parent's last child and sets its parent; nothing else changes |
| Page.Document.Instantiate | src/plugins/_core/customBadge.tsx:194-244 | Building a tree adds fresh nodes only, keeps the old ones, leaves the root detached, and reads back as the given tree |
| Page.InstantiateStep | src/plugins/_core/customBadge.tsx:194-244 | Appending the next built child keeps the earlier nodes, and the subtree now reads back with one more child |
| Page.Document.Remove | src/plugins/_core/customBadge.tsx:155-157 | `remove()` is `Detach` of that one node |
| Page.Document.RemoveEach | src/plugins/_core/customBadge.tsx:157 | Removing the nodes of a snapshot one by one is removing all of them at once |
| Page.Document.AppendStyle | src/plugins/_core/customBadge.tsx:136-139 | `document.head.appendChild(style)` adds one style with that id at the end |
| Page.Document.RemoveStyleById | src/plugins/_core/customBadge.tsx:154-155 | `getElementById` and then `remove` take out the first style with that id, if there is one |
| Page.Document.Observe | src/plugins/_core/customBadge.tsx:141-148 | A new observer is registered, connected, under the next handle |
| Page.Document.Disconnect | src/plugins/_core/customBadge.tsx:160 | Disconnecting marks that observer disconnected; doing it again changes nothing |
| Page.RemoveFirst | src/plugins/_core/customBadge.tsx:154-155 | With no such id the styles are unchanged; otherwise exactly one is gone |
| Page.RemoveFirstAt | src/plugins/_core/customBadge.tsx:154-155 | The style taken out is the one at the first index with that id |
| Page.RemoveFirstCount | src/plugins/_core/customBadge.tsx:154-155 | The count of that id drops by one, or stays 0 |
| Page.CountAppend | src/plugins/_core/customBadge.tsx:139 | Appending a style raises the count of its id by one |
| Scan.ResolvesStep | src/plugins/_core/customBadge.tsx:181-187 | An element below the body that decides gives the answer itself; otherwise the answer is its parent element's, or null when there is none |
| Scan.Unreached | src/plugins/_core/customBadge.tsx:167-170 | An element the pass has not reached yet looks to the pass exactly as before it |
| Scan.DecorateStep | src/plugins/_core/customBadge.tsx:171-174 | Decorating the current element extends the pass's invariant past it |
| Scan.SkipStep | src/plugins/_core/customBadge.tsx:168-171 | Skipping the current element extends the invariant past it |
| ScanFacts.OldNodeAnswers | src/plugins/_core/customBadge.tsx:165-170 | After a pass, old elements are still in the document, still usernames, still resolve to the same id, and keep any badge they had |
| ScanFacts.DecoratedHasBadge | src/plugins/_core/customBadge.tsx:172-173 | A decorated element gains exactly one child, last, a connected `.custom-3tb-badge`, so it now has a badge |
| ScanFacts.NewNodesAreNotUsernames | src/plugins/_core/customBadge.tsx:165 | No element of a badge is a username element |
| ScanFacts.DecoratedOnlyOwners | src/plugins/_core/customBadge.tsx:165-175 | An element's children change exactly when it is a username without a badge that resolves to `OWNER_ID`. It then gains one badge, last, built from the settings |
| ScanFacts.ScanCompletes | src/plugins/_core/customBadge.tsx:164-176 | After a pass no element is left that a pass would decorate |
| ScanFacts.ScanNoOp | src/plugins/_core/customBadge.tsx:164-176 | A pass where nothing needs a badge leaves the tree unchanged |
| ScanFacts.ScanIdempotent | src/plugins/_core/customBadge.tsx:141-176 | A second pass, with any settings, leaves the tree unchanged; this covers the observer re-running the scan on its own changes |
| Plugin.Custom3TbBadge.constructor | src/plugins/_core/customBadge.tsx:128-133 | The plugin starts with no observer |
| Plugin.Custom3TbBadge.FindUserId | src/plugins/_core/customBadge.tsx:178-191 | The loop returns exactly the first-hit result over the walk from the element to the body |
| Plugin.Custom3TbBadge.AddBadges | src/plugins/_core/customBadge.tsx:164-176 | One pass relates the old tree to the new one by `Scanned`, and the page stays well formed |
| Plugin.Custom3TbBadge.VisitUsername | src/plugins/_core/customBadge.tsx:167-175 | One iteration of the `forEach` extends the pass's invariant past the current element |
| Plugin.Custom3TbBadge.Decorate | src/plugins/_core/customBadge.tsx:171-174 | Building the badge and appending it to an owner's username element extends the pass's invariant past that element |
| Plugin.Custom3TbBadge.Start | src/plugins/_core/customBadge.tsx:135-151 | One more style with the fixed id; one more connected observer, now the plugin's; one pass over the tree |
| Plugin.Custom3TbBadge.Stop | src/plugins/_core/customBadge.tsx:153-162 | The first style with the fixed id removed; every connected badge removed; the current observer, if any, disconnected; the field kept |
| Plugin.PendingStep | src/plugins/_core/customBadge.tsx:165-167 | Consecutive snapshot entries leave no username element between them |
| Plugin.StopLeavesNoBadge | src/plugins/_core/customBadge.tsx:157 | After `stop` no badge is left in the document, and each removed badge is detached |
| Plugin.StopNodesIdempotent | src/plugins/_core/customBadge.tsx:157 | A second `stop` leaves the elements as they are |
| Plugin.OldNodesAreNotBadges | src/plugins/_core/customBadge.tsx:157-176 | On a page that had no badge, a pass makes no old element a badge |
| Plugin.NewNodeParent | src/plugins/_core/customBadge.tsx:172-173 | A node created by a pass is a badge root or hangs below another created node |
| Plugin.NewNodesGone | src/plugins/_core/customBadge.tsx:157-173 | After `stop`, no node created by the pass is in the document |
| Plugin.BadgeChildDropped | src/plugins/_core/customBadge.tsx:157-173 | Removing the badges from a decorated element's children removes exactly the badge the pass appended |
| Plugin.OldChildrenRestored | src/plugins/_core/customBadge.tsx:157-173 | After `stop`, an old element's child list is what it was before the pass |
| Plugin.StartStopRestores | src/plugins/_core/customBadge.tsx:135-162 | On a page without badges, a pass followed by `stop` gives back every old element unchanged and leaves no created node in the document |
| Plugin.StartStopStyles | src/plugins/_core/customBadge.tsx:136-155 | Appending the style and then removing by id restores the head, when it had no such style |
| Plugin.RestartLeavesStyle | src/plugins/_core/customBadge.tsx:135-155 | Appending the style twice and removing once leaves one |
| Plugin.StartThenStop | src/plugins/_core/customBadge.tsx:135-162 | `start(); stop()` on a page without badges or badge style restores styles and elements, and leaves the observer disconnected |
| Plugin.StartTwiceThenStop | src/plugins/_core/customBadge.tsx:135-162 | `start(); start(); stop()` leaves one badge style and the first observer still connected |
| Plugin.StopTwice | src/plugins/_core/customBadge.tsx:153-162 | When the head held at most one badge style, a second `stop` changes nothing more than the first did |
| Plugin.StopBeforeStart | src/plugins/_core/customBadge.tsx:153-162 | `stop` before any `start`, on a page without badges or badge style, changes nothing |
| Scenarios.ProfileFacts | src/plugins/_core/customBadge.tsx:165-190 | On the profile page the span is the only username, has no badge, and resolves to what the wrapper says |
| Scenarios.OwnerIdGetsBadge | src/plugins/_core/customBadge.tsx:170-211 | The owner's `data-user-id` on the wrapper gives the username one badge with the configured icon and size |
| Scenarios.EmptyIdFallsBackToLabel | src/plugins/_core/customBadge.tsx:182-185 | An empty `data-user-id` is skipped; a label mentioning `OWNER_ID` decides |
| Scenarios.OtherUserGetsNothing | src/plugins/_core/customBadge.tsx:170-174 | Another user's id leaves the username unchanged |
| Scenarios.IdBeatsLabelOnSameElement | src/plugins/_core/customBadge.tsx:182-185 | Another user's id on the wrapper wins over an owner label on the same element |
| Scenarios.NearerIdWins | src/plugins/_core/customBadge.tsx:181-187 | Another user's id on the username element wins over an owner label on its parent: no badge |

## Left out

- **The CSS text and all hover styling.** These are presentation handled by the browser, so
  the style element is modelled only by its id.
- **Observer delivery.** When mutation notifications arrive and how they are batched is event
  plumbing. An observer is a connected flag. The callback only re-runs `addBadges`. When it
  fires on a pass's own appends, `ScanFacts.ScanIdempotent` shows that run changes nothing.
  Any other firing is one more pass, which `AddBadges` and `Scan.Scanned` describe.
- **The host settings API, `definePlugin` registration and the slider's snapping to markers.**
  The host does these. Settings are a parameter of each pass, read at each call as in the source.
  `DEFAULT_SETTINGS` and `SIZE_MARKERS` are only constants.
- **Loading the badge image.** This is network I/O, so only the image's attributes are modelled.
- **`getElementById` over the whole document.** The model looks only among the head's style
  elements, where the plugin puts its style.
- **Document order.** It is modelled as id order, with parents numbered before children. The
  scan depends only on ancestors coming before descendants, which both orders give.
- **`appendChild` of an attached node.** That would be a move. `appendChild` is modelled only
  for the fresh, detached nodes the plugin attaches.
- **Selector semantics in general.** Only `[class*=...]` and `.token` are modelled. Elements are
  reduced to tag, class, `data-user-id`, `aria-label`, image attributes and text.
- **Integer width.** `badgeSize` is an unbounded integer; HTML's unsigned `width` is not modelled.
- **Re-entrancy and concurrent mutation by the host during a pass.** The pass's own appends
  happen inside the loop, as in the code. No other party changes the tree during a pass.
