/**
 The loop that runs when the script is evaluated: every ".option-anchor"
 element hands its id to the option returned by `closest(".option")` and
 is removed from that option. A missing option (a TypeError on null) or
 an anchor that is not a child of that option (removeChild's
 NotFoundError) ends the loop, and the script, with the anchors before it
 already moved.
 */
module Anchors {
  import opened Dom

  datatype ScriptError =
    | NoEnclosingOption(anchor: NodeRef)
    | NotAChild(anchor: NodeRef)

  /** How the loop ends, with the page as it then stands. */
  datatype Outcome = Done(page: Page) | Threw(page: Page, error: ScriptError)

  /** document.querySelectorAll(".option-anchor"), from node `from` on: the anchors in the document, in document order. */
  function AnchorsFrom(p: Page, from: nat): (r: seq<NodeRef>)
    requires p.Valid() && from <= |p.nodes|
    ensures forall i :: 0 <= i < |r| ==> from <= r[i] < |p.nodes| && p.nodes[r[i]].isAnchor && p.Connected(r[i])
    ensures forall k :: from <= k < |p.nodes| && p.nodes[k].isAnchor && p.Connected(k) ==> k in r
    ensures forall i, j :: 0 <= i < j < |r| ==> r[i] < r[j]
    decreases |p.nodes| - from
  {
    if from == |p.nodes| then []
    else if p.nodes[from].isAnchor && p.Connected(from) then [from] + AnchorsFrom(p, from + 1)
    else AnchorsFrom(p, from + 1)
  }

  function AnchorList(p: Page): seq<NodeRef>
    requires p.Valid()
  {
    AnchorsFrom(p, 0)
  }

  /** What the loop body needs of an anchor: it is no option itself and its parent is one. */
  predicate HangsOffOption(p: Page, a: NodeRef)
    requires a < |p.nodes|
  {
    && !p.nodes[a].isOption
    && p.nodes[a].parent.Some?
    && p.nodes[a].parent.value < |p.nodes|
    && p.nodes[p.nodes[a].parent.value].isOption
  }

  /** Every field but `parent` and `id`, the two the loop writes. */
  predicate SameFlags(x: Node, y: Node) {
    x.(parent := None, id := "") == y.(parent := None, id := "")
  }

  /** One turn of the loop: give `a`'s id to its option and detach `a` from it. */
  function MoveAnchor(p: Page, a: NodeRef): (r: Outcome)
    requires p.Valid() && a < |p.nodes|
    ensures r.Done? <==> HangsOffOption(p, a)
    ensures r.Threw? ==> r.page == p && r.error.anchor == a
    ensures r.Threw? ==>
      (r.error.NoEnclosingOption? <==>
       forall k :: 0 <= k < |p.nodes| && p.IsInclusiveAncestor(k, a) ==> !p.nodes[k].isOption)
    ensures r.page.Valid() && |r.page.nodes| == |p.nodes|
  {
    var id := p.nodes[a].id;
    var up := p.nodes[a].parent;
    assert up.Some? ==> p.IsInclusiveAncestor(up.value, a);
    match p.Closest(a, OptionSel)
    case None => Threw(p, NoEnclosingOption(a))
    case Some(o) =>
      if up != Some(o) then Threw(p, NotAChild(a))
      else
        var detached := p.nodes[a := p.nodes[a].(parent := None)];
        Done(Page(detached[o := detached[o].(id := id)]))
  }

  /** The loop over a fixed list of anchors. */
  function MoveAll(p: Page, anchors: seq<NodeRef>): (r: Outcome)
    requires p.Valid() && forall i :: 0 <= i < |anchors| ==> anchors[i] < |p.nodes|
    ensures r.page.Valid() && |r.page.nodes| == |p.nodes|
    ensures r.Threw? ==> r.error.anchor in anchors && !HangsOffOption(r.page, r.error.anchor)
    decreases |anchors|
  {
    if anchors == [] then Done(p)
    else match MoveAnchor(p, anchors[0])
      case Threw(q, e) => Threw(q, e)
      case Done(q) => MoveAll(q, anchors[1..])
  }

  /** The whole loop, over the anchors the page holds when the script starts. */
  function Normalize(p: Page): (r: Outcome)
    requires p.Valid()
    ensures r.page.Valid() && |r.page.nodes| == |p.nodes|
    ensures r.Done? <==>
      forall a :: 0 <= a < |p.nodes| && p.nodes[a].isAnchor && p.Connected(a) ==> HangsOffOption(p, a)
    ensures r.Threw? ==> r.error.anchor < |p.nodes| && p.nodes[r.error.anchor].isAnchor && p.Connected(r.error.anchor)
  {
    var anchors := AnchorList(p);
    MoveAllSucceeds(p, anchors);
    assert MoveAll(p, anchors).Done? <==>
      forall a :: 0 <= a < |p.nodes| && p.nodes[a].isAnchor && p.Connected(a) ==> HangsOffOption(p, a) by {
      if forall i :: 0 <= i < |anchors| ==> HangsOffOption(p, anchors[i]) {
        forall a | 0 <= a < |p.nodes| && p.nodes[a].isAnchor && p.Connected(a)
          ensures HangsOffOption(p, a)
        {
          var i :| 0 <= i < |anchors| && anchors[i] == a;
        }
      }
    }
    MoveAll(p, anchors)
  }

  predicate Distinct(s: seq<NodeRef>) {
    forall i, j :: 0 <= i < j < |s| ==> s[i] != s[j]
  }

  /** A completed turn detaches `a`, gives its id to its parent and changes nothing else. */
  lemma MoveAnchorEffect(p: Page, a: NodeRef)
    requires p.Valid() && a < |p.nodes| && MoveAnchor(p, a).Done?
    ensures var q := MoveAnchor(p, a).page;
      forall k :: 0 <= k < |p.nodes| ==>
        && SameFlags(q.nodes[k], p.nodes[k])
        && q.nodes[k].parent == (if k == a then None else p.nodes[k].parent)
        && q.nodes[k].id == (if Some(k) == p.nodes[a].parent then p.nodes[a].id else p.nodes[k].id)
  {
    assert p.IsInclusiveAncestor(p.nodes[a].parent.value, a);
  }

  /** A completed turn for `a` leaves every other node's parent, and the id of every non-option, as it was. */
  lemma MoveAnchorKeepsOthers(p: Page, a: NodeRef, b: NodeRef)
    requires p.Valid() && a < |p.nodes| && b < |p.nodes| && a != b && MoveAnchor(p, a).Done?
    ensures var q := MoveAnchor(p, a).page;
      && q.nodes[b].parent == p.nodes[b].parent
      && HangsOffOption(q, b) == HangsOffOption(p, b)
      && (HangsOffOption(p, b) ==> q.nodes[b].id == p.nodes[b].id)
  {
    var q := MoveAnchor(p, a).page;
    MoveAnchorEffect(p, a);
    assert SameFlags(q.nodes[b], p.nodes[b]);
    if p.nodes[b].parent.Some? && p.nodes[b].parent.value < |p.nodes| {
      assert SameFlags(q.nodes[p.nodes[b].parent.value], p.nodes[p.nodes[b].parent.value]);
    }
  }

  /** After a completed first turn, the other anchors hang off an option as they did before. */
  lemma TailKeepsHanging(p: Page, anchors: seq<NodeRef>)
    requires p.Valid() && Distinct(anchors) && anchors != []
    requires forall i :: 0 <= i < |anchors| ==> anchors[i] < |p.nodes|
    requires MoveAnchor(p, anchors[0]).Done?
    ensures Distinct(anchors[1..])
    ensures forall i :: 0 <= i < |anchors[1..]| ==>
      HangsOffOption(MoveAnchor(p, anchors[0]).page, anchors[1..][i]) == HangsOffOption(p, anchors[1..][i])
  {
    forall i | 0 <= i < |anchors[1..]|
      ensures HangsOffOption(MoveAnchor(p, anchors[0]).page, anchors[1..][i]) == HangsOffOption(p, anchors[1..][i])
    {
      assert anchors[1..][i] == anchors[i + 1];
      MoveAnchorKeepsOthers(p, anchors[0], anchors[1..][i]);
    }
  }

  /** The loop over a list completes exactly when every anchor in it hangs off an option. */
  lemma {:induction false} MoveAllSucceeds(p: Page, anchors: seq<NodeRef>)
    requires p.Valid() && Distinct(anchors)
    requires forall i :: 0 <= i < |anchors| ==> anchors[i] < |p.nodes|
    ensures MoveAll(p, anchors).Done? <==> forall i :: 0 <= i < |anchors| ==> HangsOffOption(p, anchors[i])
    decreases |anchors|
  {
    if anchors != [] && MoveAnchor(p, anchors[0]).Done? {
      var q1 := MoveAnchor(p, anchors[0]).page;
      TailKeepsHanging(p, anchors);
      MoveAllSucceeds(q1, anchors[1..]);
    }
  }

  /**
   When the loop throws, it is at an anchor that does not hang off an
   option, and the page it leaves is what the anchors before it made.
   */
  lemma {:induction false} MoveAllThrows(p: Page, anchors: seq<NodeRef>)
    requires p.Valid() && Distinct(anchors)
    requires forall i :: 0 <= i < |anchors| ==> anchors[i] < |p.nodes|
    requires MoveAll(p, anchors).Threw?
    ensures exists i ::
      && 0 <= i < |anchors|
      && MoveAll(p, anchors).error.anchor == anchors[i]
      && !HangsOffOption(p, anchors[i])
      && (forall j :: 0 <= j < i ==> HangsOffOption(p, anchors[j]))
      && MoveAnchor(MoveAll(p, anchors).page, anchors[i]) == MoveAll(p, anchors)
    decreases |anchors|
  {
    var r := MoveAll(p, anchors);
    var a := anchors[0];
    var tail := anchors[1..];
    if MoveAnchor(p, a).Done? {
      var q1 := MoveAnchor(p, a).page;
      TailKeepsHanging(p, anchors);
      MoveAllThrows(q1, tail);
      var i' :| 0 <= i' < |tail| && r.error.anchor == tail[i'] &&
        !HangsOffOption(q1, tail[i']) && (forall j :: 0 <= j < i' ==> HangsOffOption(q1, tail[j])) &&
        MoveAnchor(r.page, tail[i']) == r;
      var i := i' + 1;
      assert anchors[i] == tail[i'];
      forall j | 0 <= j < i
        ensures HangsOffOption(p, anchors[j])
      {
        if j > 0 {
          assert anchors[j] == tail[j - 1];
        }
      }
    }
  }

  /** Running the loop over `xs + ys` is running it over `xs` and then, if that completed, over `ys`. */
  lemma {:induction false} MoveAllSplit(p: Page, xs: seq<NodeRef>, ys: seq<NodeRef>)
    requires p.Valid()
    requires forall i :: 0 <= i < |xs| ==> xs[i] < |p.nodes|
    requires forall i :: 0 <= i < |ys| ==> ys[i] < |p.nodes|
    ensures forall i :: 0 <= i < |xs + ys| ==> (xs + ys)[i] < |p.nodes|
    ensures MoveAll(p, xs + ys) ==
      match MoveAll(p, xs)
      case Done(q) => MoveAll(q, ys)
      case Threw(q, e) => Threw(q, e)
    decreases |xs|
  {
    if xs != [] {
      assert (xs + ys)[0] == xs[0] && (xs + ys)[1..] == xs[1..] + ys;
      if MoveAnchor(p, xs[0]).Done? {
        MoveAllSplit(MoveAnchor(p, xs[0]).page, xs[1..], ys);
      }
    } else {
      assert xs + ys == ys;
    }
  }

  /** When the loop throws at `anchors[i]`, the page it leaves is what the anchors before it made. */
  lemma MoveAllThrowsAfterPrefix(p: Page, anchors: seq<NodeRef>, i: nat)
    requires p.Valid() && Distinct(anchors)
    requires forall j :: 0 <= j < |anchors| ==> anchors[j] < |p.nodes|
    requires i < |anchors| && !HangsOffOption(p, anchors[i])
    requires forall j :: 0 <= j < i ==> HangsOffOption(p, anchors[j])
    ensures MoveAll(p, anchors[..i]) == Done(MoveAll(p, anchors).page)
    ensures MoveAll(p, anchors).Threw? && MoveAll(p, anchors).error.anchor == anchors[i]
  {
    var before := anchors[..i];
    assert anchors == before + anchors[i..];
    assert Distinct(before);
    MoveAllSucceeds(p, before);
    MoveAllSplit(p, before, anchors[i..]);
    var q := MoveAll(p, before).page;
    MoveAllShape(p, before);
    var b := anchors[i];
    assert b !in before;
    assert SameFlags(q.nodes[b], p.nodes[b]);
    if p.nodes[b].parent.Some? && p.nodes[b].parent.value < |p.nodes| {
      assert SameFlags(q.nodes[p.nodes[b].parent.value], p.nodes[p.nodes[b].parent.value]);
    }
    assert !HangsOffOption(q, b);
    assert anchors[i..][0] == b;
  }

  /** A completed loop detaches exactly the listed anchors and writes no flag. */
  lemma {:induction false} MoveAllShape(p: Page, anchors: seq<NodeRef>)
    requires p.Valid() && Distinct(anchors)
    requires forall i :: 0 <= i < |anchors| ==> anchors[i] < |p.nodes|
    requires MoveAll(p, anchors).Done?
    ensures var q := MoveAll(p, anchors).page;
      forall k :: 0 <= k < |p.nodes| ==>
        && SameFlags(q.nodes[k], p.nodes[k])
        && q.nodes[k].parent == (if k in anchors then None else p.nodes[k].parent)
    decreases |anchors|
  {
    if anchors != [] {
      var q1 := MoveAnchor(p, anchors[0]).page;
      MoveAnchorEffect(p, anchors[0]);
      MoveAllShape(q1, anchors[1..]);
    }
  }

  /** After a completed first turn, the other listed anchors keep their parent and their id. */
  lemma TailKeepsParents(p: Page, anchors: seq<NodeRef>)
    requires p.Valid() && Distinct(anchors) && anchors != []
    requires forall i :: 0 <= i < |anchors| ==> anchors[i] < |p.nodes|
    requires MoveAll(p, anchors).Done?
    ensures MoveAnchor(p, anchors[0]).Done?
    ensures forall j :: 0 <= j < |anchors[1..]| ==>
      && MoveAnchor(p, anchors[0]).page.nodes[anchors[1..][j]].parent == p.nodes[anchors[1..][j]].parent
      && MoveAnchor(p, anchors[0]).page.nodes[anchors[1..][j]].id == p.nodes[anchors[1..][j]].id
  {
    MoveAllSucceeds(p, anchors);
    forall j | 0 <= j < |anchors[1..]|
      ensures MoveAnchor(p, anchors[0]).page.nodes[anchors[1..][j]].parent == p.nodes[anchors[1..][j]].parent
      ensures MoveAnchor(p, anchors[0]).page.nodes[anchors[1..][j]].id == p.nodes[anchors[1..][j]].id
    {
      assert anchors[1..][j] == anchors[j + 1];
      MoveAnchorKeepsOthers(p, anchors[0], anchors[1..][j]);
    }
  }

  /** A completed loop leaves the id of a node that is no listed anchor's parent as it was. */
  lemma {:induction false} MoveAllKeepsId(p: Page, anchors: seq<NodeRef>, k: NodeRef)
    requires p.Valid() && Distinct(anchors) && k < |p.nodes|
    requires forall i :: 0 <= i < |anchors| ==> anchors[i] < |p.nodes|
    requires MoveAll(p, anchors).Done?
    requires forall i :: 0 <= i < |anchors| ==> p.nodes[anchors[i]].parent != Some(k)
    ensures MoveAll(p, anchors).page.nodes[k].id == p.nodes[k].id
    decreases |anchors|
  {
    if anchors != [] {
      var q1 := MoveAnchor(p, anchors[0]).page;
      TailKeepsParents(p, anchors);
      MoveAnchorEffect(p, anchors[0]);
      assert q1.nodes[k].id == p.nodes[k].id;
      MoveAllKeepsId(q1, anchors[1..], k);
    }
  }

  /** A completed loop gives a node the id of the last listed anchor whose parent it is. */
  lemma {:induction false} MoveAllIds(p: Page, anchors: seq<NodeRef>, k: NodeRef, i: nat)
    requires p.Valid() && Distinct(anchors) && k < |p.nodes|
    requires forall j :: 0 <= j < |anchors| ==> anchors[j] < |p.nodes|
    requires MoveAll(p, anchors).Done?
    requires i < |anchors| && p.nodes[anchors[i]].parent == Some(k)
    requires forall j :: i < j < |anchors| ==> p.nodes[anchors[j]].parent != Some(k)
    ensures MoveAll(p, anchors).page.nodes[k].id == p.nodes[anchors[i]].id
    decreases |anchors|
  {
    var q1 := MoveAnchor(p, anchors[0]).page;
    var tail := anchors[1..];
    TailKeepsParents(p, anchors);
    if i == 0 {
      MoveAnchorEffect(p, anchors[0]);
      assert q1.nodes[k].id == p.nodes[anchors[0]].id;
      forall j | 0 <= j < |tail|
        ensures q1.nodes[tail[j]].parent != Some(k)
      {
        assert tail[j] == anchors[j + 1];
      }
      MoveAllKeepsId(q1, tail, k);
    } else {
      assert tail[i - 1] == anchors[i];
      forall j | i - 1 < j < |tail|
        ensures q1.nodes[tail[j]].parent != Some(k)
      {
        assert tail[j] == anchors[j + 1];
      }
      MoveAllIds(q1, tail, k, i - 1);
    }
  }

  /** Removing nodes from their parents never gives a node a new ancestor. */
  lemma {:induction false} DetachingAddsNoAncestor(p: Page, q: Page, a: NodeRef, n: NodeRef)
    requires p.Valid() && q.Valid() && |q.nodes| == |p.nodes| && n < |p.nodes|
    requires forall k :: 0 <= k < |p.nodes| ==> q.nodes[k].parent == p.nodes[k].parent || q.nodes[k].parent.None?
    requires q.IsInclusiveAncestor(a, n)
    ensures p.IsInclusiveAncestor(a, n)
    decreases n
  {
    if a != n {
      DetachingAddsNoAncestor(p, q, a, q.nodes[n].parent.value);
    }
  }

  /**
   The loop runs to completion exactly when every anchor of the document
   is a child of an option and is not an option itself; then each
   anchor's nearest option is its parent.
   */
  lemma NormalizeSucceeds(p: Page)
    requires p.Valid()
    ensures Normalize(p).Done? <==>
      forall a :: 0 <= a < |p.nodes| && p.nodes[a].isAnchor && p.Connected(a) ==> HangsOffOption(p, a)
    ensures Normalize(p).Done? ==>
      forall a :: 0 <= a < |p.nodes| && p.nodes[a].isAnchor && p.Connected(a) ==>
        p.Closest(a, OptionSel) == p.nodes[a].parent
  {
    var anchors := AnchorList(p);
    MoveAllSucceeds(p, anchors);
    if Normalize(p).Done? {
      forall a | 0 <= a < |p.nodes| && p.nodes[a].isAnchor && p.Connected(a)
        ensures HangsOffOption(p, a) && p.Closest(a, OptionSel) == p.nodes[a].parent
      {
        var i :| 0 <= i < |anchors| && anchors[i] == a;
        assert MoveAnchor(p, a).Done?;
      }
    }
  }

  /** When the loop throws, it is at the first anchor, in document order, that does not hang off an option. */
  lemma NormalizeThrows(p: Page)
    requires p.Valid() && Normalize(p).Threw?
    ensures var e := Normalize(p).error;
      && e.anchor < |p.nodes| && p.nodes[e.anchor].isAnchor && p.Connected(e.anchor)
      && !HangsOffOption(p, e.anchor)
      && (forall a :: 0 <= a < e.anchor && p.nodes[a].isAnchor && p.Connected(a) ==> HangsOffOption(p, a))
      && var q := Normalize(p).page;
         (e.NoEnclosingOption? <==>
          forall k :: 0 <= k < |q.nodes| && q.IsInclusiveAncestor(k, e.anchor) ==> !q.nodes[k].isOption)
  {
    var anchors := AnchorList(p);
    var r := MoveAll(p, anchors);
    assert Normalize(p) == r;
    MoveAllThrows(p, anchors);
    var i :| 0 <= i < |anchors| && r.error.anchor == anchors[i] &&
      !HangsOffOption(p, anchors[i]) && (forall j :: 0 <= j < i ==> HangsOffOption(p, anchors[j])) &&
      MoveAnchor(r.page, anchors[i]) == r;
    forall a | 0 <= a < anchors[i] && p.nodes[a].isAnchor && p.Connected(a)
      ensures HangsOffOption(p, a)
    {
      var j :| 0 <= j < |anchors| && anchors[j] == a;
      assert j < i;
    }
  }

  /** When the loop throws, the page it leaves is what the anchors before the failing one made of it. */
  lemma NormalizeThrowsAfterPrefix(p: Page, i: nat)
    requires p.Valid() && Normalize(p).Threw?
    requires i < |AnchorList(p)| && AnchorList(p)[i] == Normalize(p).error.anchor
    ensures MoveAll(p, AnchorList(p)[..i]) == Done(Normalize(p).page)
  {
    var anchors := AnchorList(p);
    var r := MoveAll(p, anchors);
    MoveAllThrows(p, anchors);
    var i' :| 0 <= i' < |anchors| && r.error.anchor == anchors[i'] &&
      !HangsOffOption(p, anchors[i']) && (forall j :: 0 <= j < i' ==> HangsOffOption(p, anchors[j])) &&
      MoveAnchor(r.page, anchors[i']) == r;
    assert i' == i;
    MoveAllThrowsAfterPrefix(p, anchors, i);
  }

  /** When the loop completes, no anchor is left in the document, and only the anchors were detached. */
  lemma NormalizeRemovesAnchors(p: Page)
    requires p.Valid() && Normalize(p).Done?
    ensures var q := Normalize(p).page;
      && (forall k :: 0 <= k < |q.nodes| && q.Connected(k) ==> !q.nodes[k].isAnchor)
      && forall k :: 0 <= k < |p.nodes| ==>
           && SameFlags(q.nodes[k], p.nodes[k])
           && q.nodes[k].parent == (if p.nodes[k].isAnchor && p.Connected(k) then None else p.nodes[k].parent)
  {
    var anchors := AnchorList(p);
    var q := Normalize(p).page;
    MoveAllShape(p, anchors);
    MoveAllSucceeds(p, anchors);
    forall k | 0 <= k < |q.nodes| && q.Connected(k)
      ensures !q.nodes[k].isAnchor
    {
      DetachingAddsNoAncestor(p, q, 0, k);
    }
  }

  /** When the loop completes, a node with no anchor child in the document keeps its id. */
  lemma NormalizeKeepsIds(p: Page, k: NodeRef)
    requires p.Valid() && Normalize(p).Done? && k < |p.nodes|
    requires forall a :: 0 <= a < |p.nodes| && p.nodes[a].isAnchor && p.Connected(a) ==> p.nodes[a].parent != Some(k)
    ensures Normalize(p).page.nodes[k].id == p.nodes[k].id
  {
    MoveAllKeepsId(p, AnchorList(p), k);
  }

  /**
   When the loop completes, a node with anchor children carries the id of
   the last of them in document order.
   */
  lemma NormalizeMovesIds(p: Page, k: NodeRef, a: NodeRef)
    requires p.Valid() && Normalize(p).Done? && k < |p.nodes|
    requires a < |p.nodes| && p.nodes[a].isAnchor && p.Connected(a) && p.nodes[a].parent == Some(k)
    requires forall b :: a < b < |p.nodes| && p.nodes[b].isAnchor && p.Connected(b) ==> p.nodes[b].parent != Some(k)
    ensures Normalize(p).page.nodes[k].id == p.nodes[a].id
  {
    var anchors := AnchorList(p);
    var i :| 0 <= i < |anchors| && anchors[i] == a;
    assert forall j :: i < j < |anchors| ==> anchors[j] > a;
    MoveAllIds(p, anchors, k, i);
  }
}
