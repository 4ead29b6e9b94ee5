/**
 The four event listeners as transitions of the browser state. A click
 listener also reports whether it called preventDefault; an exception
 thrown inside a listener (a URIError from decoding) ends that listener
 before it has changed anything.
 */
module Handlers {
  import opened Dom
  import opened Expansion
  import opened Navigation

  /** What a click listener leaves behind. */
  datatype Reaction = Reaction(after: Browser, prevented: bool)

  /**
   The events the script listens to. `HashChanged` carries the fragment
   the browser has just moved to; `Clicked` carries the event target and
   whether "screen and (hover: none)" matches at that moment.
   */
  datatype Event =
    | Loaded
    | HashChanged(fragment: string)
    | Clicked(target: NodeRef, noHover: bool)

  /** The state of the page evolves only as the handlers allow. */
  predicate Evolves(b: Browser, c: Browser)
    requires b.page.Valid()
  {
    && c.page.Valid()
    && b.page.SameExceptOpen(c.page)
    && (forall k :: 0 <= k < |b.page.nodes| && b.page.nodes[k].open ==> c.page.nodes[k].open)
    && |b.pushed| <= |c.pushed|
    && c.pushed[..|b.pushed|] == b.pushed
  }

  /** Two allowed evolutions in a row are one. */
  lemma EvolvesTransitive(b: Browser, c: Browser, d: Browser)
    requires b.page.Valid() && Evolves(b, c) && Evolves(c, d)
    ensures Evolves(b, d)
  {
    assert d.pushed[..|b.pushed|] == d.pushed[..|c.pushed|][..|b.pushed|];
  }

  /** DOMContentLoaded: jump to the node the fragment names, if any. */
  function OnLoad(b: Browser, uri: Uri): (r: Browser)
    requires b.page.Valid()
    ensures Evolves(b, r)
    ensures match OptionFromHash(b.page, uri, LocationHash(b.fragment))
            case Target(n) => r == JumpTo(b, uri, n)
            case _ => r == b
  {
    match OptionFromHash(b.page, uri, LocationHash(b.fragment))
    case Target(n) => JumpTo(b, uri, n)
    case NoTarget => b
    case Malformed => b
  }

  /**
   hashchange: jump to the node the new fragment names; when it names
   nothing, clear the fragment and touch neither the page nor the history.
   */
  function OnHashChange(b: Browser, uri: Uri): (r: Browser)
    requires b.page.Valid()
    ensures Evolves(b, r)
    ensures match OptionFromHash(b.page, uri, LocationHash(b.fragment))
            case Target(n) => r == JumpTo(b, uri, n)
            case NoTarget => r.page == b.page && r.pushed == b.pushed && r.fragment == ""
            case Malformed => r == b
  {
    match OptionFromHash(b.page, uri, LocationHash(b.fragment))
    case Target(n) => JumpTo(b, uri, n)
    case NoTarget => b.(fragment := "")
    case Malformed => b
  }

  /**
   The first click listener: inside a link whose href starts with '#' and
   whose hash names a node, prevent the default and jump there; in every
   other case nothing changes and the default proceeds.
   */
  function OnLinkClick(b: Browser, uri: Uri, target: NodeRef): (r: Reaction)
    requires b.page.Valid() && target < |b.page.nodes|
    ensures Evolves(b, r.after)
    ensures r.prevented <==>
      exists a, n :: 0 <= a < |b.page.nodes| &&
        b.page.Closest(target, LinkSel) == Some(a) &&
        OptionFromHash(b.page, uri, b.page.nodes[a].link.value) == Target(n)
    ensures !r.prevented ==> r.after == b
    ensures r.prevented ==>
      var a := b.page.Closest(target, LinkSel).value;
      r.after == JumpTo(b, uri, OptionFromHash(b.page, uri, b.page.nodes[a].link.value).node)
  {
    match b.page.Closest(target, LinkSel)
    case None => Reaction(b, false)
    case Some(a) =>
      match OptionFromHash(b.page, uri, b.page.nodes[a].link.value)
      case Target(n) => Reaction(JumpTo(b, uri, n), true)
      case NoTarget => Reaction(b, false)
      case Malformed => Reaction(b, false)
  }

  /** The option whose summary was tapped: `summary.closest(".option")`. */
  function SummaryOption(p: Page, summary: NodeRef): (o: NodeRef)
    requires p.Valid() && summary < |p.nodes| && p.Matches(summary, SummarySel)
    ensures o < |p.nodes| && p.nodes[o].isOption && p.IsInclusiveAncestor(o, summary)
    ensures o == summary || Some(o) == p.nodes[summary].parent
    ensures p.nodes[summary].isOption ==> o == summary
  {
    var up := p.nodes[summary].parent.value;
    assert p.IsInclusiveAncestor(up, summary);
    p.Closest(summary, OptionSel).value
  }

  /**
   The second click listener: on a device without hover, a click inside
   the summary of a closed option prevents the default and jumps to that
   option; an open option, or a device with hover, is left to the default.
   */
  function OnSummaryTap(b: Browser, uri: Uri, target: NodeRef, noHover: bool): (r: Reaction)
    requires b.page.Valid() && target < |b.page.nodes|
    ensures Evolves(b, r.after)
    ensures r.prevented <==>
      && noHover
      && b.page.Closest(target, SummarySel).Some?
      && !b.page.nodes[SummaryOption(b.page, b.page.Closest(target, SummarySel).value)].open
    ensures !r.prevented ==> r.after == b
    ensures r.prevented ==>
      var o := SummaryOption(b.page, b.page.Closest(target, SummarySel).value);
      && r.after.page.nodes[o].open
      && r.after == JumpTo(b, uri, o)
  {
    match b.page.Closest(target, SummarySel)
    case None => Reaction(b, false)
    case Some(summary) =>
      if !noHover then Reaction(b, false)
      else
        var o := SummaryOption(b.page, summary);
        if b.page.nodes[o].open then Reaction(b, false)
        else Reaction(JumpTo(b, uri, o), true)
  }

  /**
   One click: both listeners run, in the order they were added, the second
   on the state the first left; the default is prevented if either prevented it.
   */
  function OnClick(b: Browser, uri: Uri, target: NodeRef, noHover: bool): (r: Reaction)
    requires b.page.Valid() && target < |b.page.nodes|
    ensures Evolves(b, r.after)
    ensures r.prevented <==>
      (OnLinkClick(b, uri, target).prevented ||
       OnSummaryTap(OnLinkClick(b, uri, target).after, uri, target, noHover).prevented)
    ensures r.after == OnSummaryTap(OnLinkClick(b, uri, target).after, uri, target, noHover).after
    ensures !OnLinkClick(b, uri, target).prevented ==> r == OnSummaryTap(b, uri, target, noHover)
    ensures !r.prevented ==> r.after == b
  {
    var first := OnLinkClick(b, uri, target);
    var second := OnSummaryTap(first.after, uri, target, noHover);
    EvolvesTransitive(b, first.after, second.after);
    Reaction(second.after, first.prevented || second.prevented)
  }

  predicate Targets(p: Page, e: Event) {
    e.Clicked? ==> e.target < |p.nodes|
  }

  /** One event delivered to the page. */
  function Step(b: Browser, uri: Uri, e: Event): (r: Browser)
    requires b.page.Valid() && Targets(b.page, e)
    ensures Evolves(b, r)
  {
    match e
    case Loaded => OnLoad(b, uri)
    case HashChanged(f) => OnHashChange(b.(fragment := f), uri)
    case Clicked(t, noHover) => OnClick(b, uri, t, noHover).after
  }

  /**
   A sequence of events, delivered one at a time. Whatever arrives, the
   page keeps its structure, ids and classes, no option is ever closed by
   the script, and history only grows.
   */
  function Run(b: Browser, uri: Uri, events: seq<Event>): (r: Browser)
    requires b.page.Valid()
    requires forall i :: 0 <= i < |events| ==> Targets(b.page, events[i])
    ensures Evolves(b, r)
    decreases |events|
  {
    if events == [] then b
    else
      var next := Step(b, uri, events[0]);
      assert forall i :: 0 <= i < |events[1..]| ==> Targets(next.page, events[1..][i]) by {
        forall i | 0 <= i < |events[1..]|
          ensures Targets(next.page, events[1..][i])
        {
          assert Targets(b.page, events[i + 1]);
        }
      }
      Run(next, uri, events[1..])
  }
}
