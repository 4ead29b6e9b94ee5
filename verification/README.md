# Settings page deep links, modelled in Dafny

The settings page of niri-flake renders every configuration option as a
collapsible `<details class="option">` section. One browser script,
`pages/settings.js`, keeps the URL fragment and those sections in step:

- at start-up it moves the id of every legacy `.option-anchor` marker onto
  the option that holds it and removes the marker;
- `get_option_from_hash` turns a fragment into the element it names;
- `expand` opens an element and every option enclosing it;
- `jump_to` expands, scrolls, and records `#id` in the history when the
  URL does not already show it;
- four listeners wire this to page load, `hashchange`, clicks on `#` links,
  and taps on the summary of a closed option on devices without hover.

The model replaces the DOM by an immutable page: a sequence of nodes in
document order, each with its parent link, its id, the classes and tags
the selectors look at, and its `open` flag (`dom.dfy`). Each part of the
script is a pure function over that page and a browser state made of the
current URL fragment and the entries the script pushed onto the history:

| file | module | models |
|---|---|---|
| `dom.dfy` | `Dom` | the page, `closest`, `getElementById` |
| `anchors.dfy` | `Anchors` | the start-up loop over `.option-anchor` (lines 1-6) |
| `expansion.dfy` | `Expansion` | `expand` (lines 13-18) |
| `navigation.dfy` | `Navigation` | `get_option_from_hash`, `jump_to`, `location.hash` (lines 8-28) |
| `handlers.dfy` | `Handlers` | the four listeners, and a run of events (lines 30-58) |
| `scenarios.dfy` | `Scenarios` | a small page with a nested option, a dead link and touch taps |

Modelling choices:

- A node is named by its position in document order, that is, in a
  pre-order walk of the tree. `Page.Valid` checks only part of that:
  every parent comes before its children. For a page whose indices are
  not in pre-order, "first in document order" (as in `getElementById`)
  means first by index. Node 0 is the document
  element. `expand` climbs to a strictly earlier node at each step, which
  is its termination measure.
- `removeChild` sets the removed node's parent to none; the node stays in
  the sequence, detached. A node is in the document when node 0 is one of
  its inclusive ancestors. `getElementById` returns the first node of the
  document, in document order, with the id, and nothing for the empty
  string, which is no element's ID. Ids need not be unique.
- `closest` is inclusive: it may return the element itself. The model
  keeps that, with the three selectors `.option`, `a[href^="#"]` and
  `.option>summary`.
- `encodeURIComponent` and `decodeURIComponent` are opaque functions
  given as a parameter (`Navigation.Uri`). The decoder returns none where
  the real one throws a `URIError`. A listener that throws stops there;
  nothing was changed before the decode in any of them.
- `location.hash` reads `""` when the fragment is empty and `#` + the
  fragment otherwise (`Navigation.LocationHash`).
- The start-up loop can throw. `closest(".option")` may be null, which
  gives a TypeError. `removeChild` throws NotFoundError when the anchor is
  not a child of the option it found. Either way the loop stops with the
  earlier anchors already moved (`Anchors.Outcome`). The script stops too,
  so no listener is ever added.
- Both click listeners run on every click, in the order they were added.
  The second sees the state the first left. The default is prevented if
  either listener prevented it (`Handlers.OnClick`).

Three consequences of the code as written are worth stating:

- The start-up loop completes only when every marker is a direct child of
  an option and is not an option itself. `option.removeChild(anchor)`
  (`pages/settings.js:4`) throws for a marker nested deeper inside its
  option (`Anchors.NormalizeSucceeds`).
- `jump_to` on a node whose encoded id is empty pushes `#` every time.
  The expected hash is then `#`, but `location.hash` reads `""` for an
  empty fragment, so the comparison at `pages/settings.js:24-26` never
  matches (`Navigation.JumpToTwice`). A tap reaches such a node when an
  option has no id.
- Lookup is by any element's id, not only options. `jump_to` then sets
  `open` on whatever element it gets, as the script does.

## Model

| member | source | states |
|---|---|---|
| `Dom.Page.Closest` | pages/settings.js:3 | the result is an inclusive ancestor matching the selector and every matching inclusive ancestor lies at or above it; none when no inclusive ancestor matches |
| `Dom.Page.ElementById` | pages/settings.js:10 | the result is the first node in the document, in document order, carrying the id; none when no node in the document carries it |
| `Anchors.AnchorsFrom` | pages/settings.js:1 | the list holds exactly the anchors in the document, strictly increasing in document order |
| `Anchors.MoveAll` | pages/settings.js:1-6 | the loop keeps the page valid; a throw names one of the listed anchors, and that anchor does not hang off an option on the page left |
| `Anchors.Normalize` | pages/settings.js:1-6 | start-up completes exactly when every anchor in the document is a non-option child of an option; a throw names an anchor of the document |
| `Anchors.MoveAnchor` | pages/settings.js:2-5 | one turn completes exactly when the anchor is not an option and its parent is one; on a throw the page is unchanged and the error is the TypeError exactly when no inclusive ancestor is an option |
| `Anchors.MoveAnchorEffect` | pages/settings.js:4-5 | a completed turn detaches the anchor, gives its id to its parent, and changes no other node or field |
| `Anchors.MoveAllSucceeds` | pages/settings.js:1-6 | the loop over a list of distinct anchors completes exactly when every anchor in it hangs off an option |
| `Anchors.MoveAllThrows` | pages/settings.js:1-6 | a throw happens at the first listed anchor that does not hang off an option, and replaying that anchor on the page left gives the same throw |
| `Anchors.MoveAllSplit` | pages/settings.js:1-6 | running the loop over two lists in a row is running it over their concatenation |
| `Anchors.MoveAllThrowsAfterPrefix` | pages/settings.js:1-6 | when the loop throws at an anchor, the page left is the one the anchors before it produced |
| `Anchors.MoveAllShape` | pages/settings.js:1-6 | a completed loop detaches exactly the listed anchors and changes no flag of any node |
| `Anchors.MoveAllKeepsId` | pages/settings.js:2-5 | after a completed loop a node that is no listed anchor's parent keeps its id |
| `Anchors.MoveAllIds` | pages/settings.js:2-5 | after a completed loop a node carries the id of the last listed anchor whose parent it is |
| `Anchors.DetachingAddsNoAncestor` | pages/settings.js:4 | removing nodes from their parents gives no node a new ancestor |
| `Anchors.NormalizeSucceeds` | pages/settings.js:1-6 | start-up completes exactly when every anchor in the document is a non-option child of an option, and then each anchor's nearest option is its parent |
| `Anchors.NormalizeThrows` | pages/settings.js:1-6 | a throw is at the first anchor in document order that does not hang off an option, and is the TypeError exactly when no option encloses that anchor |
| `Anchors.NormalizeThrowsAfterPrefix` | pages/settings.js:1-6 | after a throw the page is the one the anchors before the failing one produced |
| `Anchors.NormalizeRemovesAnchors` | pages/settings.js:1-6 | after a completed start-up no anchor is left in the document, only the anchors were detached, and no flag changed |
| `Anchors.NormalizeKeepsIds` | pages/settings.js:2-5 | after a completed start-up every node with no anchor child in the document keeps its id |
| `Anchors.NormalizeMovesIds` | pages/settings.js:2-5 | after a completed start-up a node with anchor children carries the id of the last of them in document order |
| `Expansion.NextEnclosing` | pages/settings.js:16 | the result is the nearest option strictly above the node: earlier in document order, and every option strictly above the node encloses it; none when no option is strictly above it |
| `Expansion.ChainStep` | pages/settings.js:15-16 | above the node, the options expand reaches are the next enclosing option and the options that enclose it |
| `Expansion.Expand` | pages/settings.js:13-18 | opens the node and every enclosing option; no other node and no other field changes; expanding nothing changes nothing |
| `Expansion.ExpandIdempotent` | pages/settings.js:13-18 | expanding twice gives the same page as expanding once |
| `Navigation.LocationHash` | pages/settings.js:25 | the hash is empty exactly when the fragment is, and otherwise is `#` followed by the fragment |
| `Navigation.DropFirst` | pages/settings.js:9 | `slice(1)` gives the string without its first character, and the empty string for the empty string |
| `Navigation.OptionFromHash` | pages/settings.js:8-11 | a malformed escape throws; an empty decoded id or an id no node in the document carries gives none; otherwise the result is the first node in the document carrying the decoded id |
| `Navigation.ResolveEncodedId` | pages/settings.js:9-10 | a fragment `#` + encode(id) of a non-empty id resolves to the first node carrying the id, given that decode undoes encode |
| `Navigation.JumpTo` | pages/settings.js:20-28 | opens the target and its enclosing options and nothing else; the fragment becomes the encoded id of the target as it was before expanding; one entry `#` + encoded id is pushed exactly when the fragment differed or is empty |
| `Navigation.JumpToTwice` | pages/settings.js:24-27 | a second jump to the same target changes neither page nor fragment and pushes nothing, except one more `#` when the encoded id is empty |
| `Navigation.JumpToReflectedInUrl` | pages/settings.js:24-26 | after a jump to the first node carrying a non-empty id, the URL resolves back to that node, given that decode undoes encode |
| `Handlers.OnLoad` | pages/settings.js:30-33 | jumps to the node the fragment names and otherwise changes nothing |
| `Handlers.OnHashChange` | pages/settings.js:35-38 | jumps to the node the new fragment names; a fragment naming nothing is cleared with page and history untouched; a malformed one changes nothing |
| `Handlers.OnLinkClick` | pages/settings.js:40-47 | prevents the default exactly when the click is inside a `#` link whose hash names a node, then jumps there; otherwise nothing changes |
| `Handlers.SummaryOption` | pages/settings.js:54 | the option of a summary is the summary itself when it is an option, and otherwise its parent, which is an option |
| `Handlers.OnSummaryTap` | pages/settings.js:49-58 | prevents the default exactly when hover is unavailable and the click is in the summary of a closed option, then opens that option by jumping to it; otherwise nothing changes |
| `Handlers.OnClick` | pages/settings.js:40-58 | both listeners run in order: the state is what the summary-tap listener leaves from the state the link listener left, and is the summary-tap listener's own reaction when the link listener does not prevent the default; the default is prevented when either prevents it; when neither does, nothing changes |
| `Handlers.Step` | pages/settings.js:30-58 | every event keeps the page's structure, ids and classes, never closes an open node and only appends to the history |
| `Handlers.Run` | pages/settings.js:30-58 | over any sequence of events the page keeps its structure, ids and classes, no node is closed and history only grows |
| `Scenarios.LoadDeepLink` | pages/settings.js:30-33 | loading with `#child-3` opens child-3 and its parent, leaves the summaries alone and pushes nothing |
| `Scenarios.ClickMissingLink` | pages/settings.js:40-47 | a click on a link to `#missing-id` is not prevented and changes nothing |
| `Scenarios.TapClosedOption` | pages/settings.js:51-58 | a tap on the summary of closed child-3 without hover is prevented, opens child-3 and its parent and pushes `#child-3` |
| `Scenarios.TapOpenOption` | pages/settings.js:55 | a second tap on the now open option is not prevented and changes nothing |
| `Scenarios.HashChangeToMissing` | pages/settings.js:37 | a fragment naming nothing is cleared and leaves page and history as they were |

## Left out

- `scrollIntoView` (line 23) is treated as having no effect on the state; it only moves the viewport.
- The percent-encoding of `encodeURIComponent` and `decodeURIComponent` is not modelled; both are opaque parameters, and round trips are stated as explicit hypotheses where a lemma needs them.
- CSS selector matching is reduced to per-node flags: the classes `option` and `option-anchor`, the `<summary>` tag, and whether an `<a>` has an href starting with `#`. A link carries its `hash` property as the browser computes it.
- `matchMedia("screen and (hover: none)")` (line 49) is a boolean carried by each click event, as the live query is read at click time.
- The browser's default actions are not modelled: opening or closing a `<details>` on a summary click, and following a link. The handlers report whether they prevented them.
- History entries the browser makes itself are not modelled, such as those from the user's navigation or from assigning `location.hash`. The model keeps only the script's `pushState` entries. The state object and title given to `pushState` are dropped.
- Whether assigning `location.hash = ""` fires another `hashchange` is browser behaviour; the model delivers only the events in the given sequence.
- Event-loop dispatch is reduced to delivering events one at a time in sequence order (`Handlers.Run`).
- Once the start-up loop throws, the script adds no listener. The model gives the page the loop leaves but does not replay events on it.
- Strings are sequences of Dafny characters; `slice(1)` on UTF-16 code units is modelled as dropping the first character.
