/**
 A small settings page, and what the handlers do on it: a deep link on
 load, a link to an id nobody carries, and taps on a touch screen.
 */
module Scenarios {
  import opened Dom
  import opened Expansion
  import opened Navigation
  import opened Handlers

  /** A codec that leaves plain ids alone, as percent-encoding does for letters, digits and '-'. */
  function Plain(): Uri {
    Uri(s => s, s => Some(s))
  }

  /** Option "parent-2" holding option "child-3", each with a summary, and a link to "#missing-id". */
  function Sample(): Page {
    Page([
      Node(None, "", false, false, false, None, false),
      Node(Some(0), "parent-2", true, false, false, None, false),
      Node(Some(1), "", false, false, true, None, false),
      Node(Some(1), "child-3", true, false, false, None, false),
      Node(Some(3), "", false, false, true, None, false),
      Node(Some(0), "", false, false, false, Some("#missing-id"), false)
    ])
  }

  /** Loading with #child-3 opens child-3 and parent-2, and pushes nothing. */
  lemma LoadDeepLink()
    ensures Sample().Valid()
    ensures var r := OnLoad(Browser(Sample(), "child-3", []), Plain());
      && r.page.nodes[1].open && r.page.nodes[3].open
      && !r.page.nodes[2].open && !r.page.nodes[4].open
      && r.fragment == "child-3" && r.pushed == []
  {
    var p := Sample();
    assert DropFirst(LocationHash("child-3")) == "child-3";
    assert p.Connected(3);
    assert p.nodes[0].id != "child-3" && p.nodes[1].id != "child-3" && p.nodes[2].id != "child-3";
    assert p.ElementById("child-3") == Some(3);
    assert OnChain(p, 3, 1) by {
      assert p.IsInclusiveAncestor(1, 1);
    }
  }

  /** A click on a link to #missing-id is left to the browser and changes nothing. */
  lemma ClickMissingLink(noHover: bool)
    ensures Sample().Valid()
    ensures var b := Browser(Sample(), "", []);
      OnClick(b, Plain(), 5, noHover) == Reaction(b, false)
  {
    var p := Sample();
    assert DropFirst("#missing-id") == "missing-id";
    assert p.Closest(5, LinkSel) == Some(5);
    assert p.Closest(5, SummarySel) == None by {
      assert p.IsInclusiveAncestor(0, 5);
    }
    assert p.ElementById("missing-id") == None;
  }

  /** Where a click on child-3's summary leads: no link above it; the summary belongs to child-3. */
  lemma SampleSummary()
    ensures Sample().Valid()
    ensures Sample().Closest(4, LinkSel) == None
    ensures Sample().Closest(4, SummarySel) == Some(4)
    ensures Sample().Closest(4, OptionSel) == Some(3)
    ensures OnChain(Sample(), 3, 1) && !OnChain(Sample(), 3, 0) && !OnChain(Sample(), 3, 2)
  {
    var p := Sample();
    assert p.IsInclusiveAncestor(3, 4) && p.IsInclusiveAncestor(1, 4) && p.IsInclusiveAncestor(0, 4);
    assert p.IsInclusiveAncestor(1, 1);
  }

  /** On a touch screen a tap on closed child-3's summary opens it and its parent and records #child-3. */
  lemma TapClosedOption()
    ensures Sample().Valid()
    ensures var r := OnClick(Browser(Sample(), "", []), Plain(), 4, true);
      && r.prevented
      && r.after.page.nodes[3].open && r.after.page.nodes[1].open
      && r.after.fragment == "child-3" && r.after.pushed == ["#child-3"]
  {
    SampleSummary();
    var p := Sample();
    var b := Browser(p, "", []);
    assert OnLinkClick(b, Plain(), 4) == Reaction(b, false);
    assert SummaryOption(p, 4) == 3;
    var r := OnSummaryTap(b, Plain(), 4, true);
    assert r.prevented && r.after == JumpTo(b, Plain(), 3);
    assert r.after.pushed[0] == "#child-3";
  }

  /** A second tap on the now open option is left to the browser, which may close it. */
  lemma TapOpenOption()
    ensures Sample().Valid()
    ensures var first := OnClick(Browser(Sample(), "", []), Plain(), 4, true).after;
      OnClick(first, Plain(), 4, true) == Reaction(first, false)
  {
    TapClosedOption();
    SampleSummary();
    var p := Sample();
    var first := OnClick(Browser(p, "", []), Plain(), 4, true).after;
    var q := first.page;
    ShapeKeepsClosest(p, q, 4, LinkSel);
    ShapeKeepsClosest(p, q, 4, SummarySel);
    ShapeKeepsClosest(p, q, 4, OptionSel);
    assert OnLinkClick(first, Plain(), 4) == Reaction(first, false);
    assert SummaryOption(q, 4) == 3;
  }

  /** A fragment that names nothing is cleared, and the page and history stay as they were. */
  lemma HashChangeToMissing()
    ensures Sample().Valid()
    ensures var b := Browser(Sample(), "", ["#child-3"]);
      Step(b, Plain(), HashChanged("missing-id")) == b
  {
    var p := Sample();
    assert DropFirst(LocationHash("missing-id")) == "missing-id";
    assert p.ElementById("missing-id") == None;
  }
}
