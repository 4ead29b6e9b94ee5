/**
 `expand`: open a node and every option that encloses it, climbing one
 enclosing option at a time.
 */
module Expansion {
  import opened Dom

  /** `k` is the node `n` itself or an option enclosing it: what `expand(n)` opens. */
  predicate OnChain(p: Page, n: NodeRef, k: NodeRef)
    requires p.Valid() && n < |p.nodes| && k < |p.nodes|
  {
    k == n || (p.nodes[k].isOption && p.IsStrictAncestor(k, n))
  }

  /** `option.parentElement?.closest(".option")`: the nearest option strictly above `n`. */
  function NextEnclosing(p: Page, n: NodeRef): (r: Option<NodeRef>)
    requires p.Valid() && n < |p.nodes|
    ensures r.Some? ==> r.value < n && p.nodes[r.value].isOption && p.IsStrictAncestor(r.value, n)
    ensures r.Some? ==> forall k :: 0 <= k < |p.nodes| && p.IsStrictAncestor(k, n) && p.nodes[k].isOption ==>
      p.IsInclusiveAncestor(k, r.value)
    ensures r.None? ==> forall k :: 0 <= k < |p.nodes| && p.IsStrictAncestor(k, n) ==> !p.nodes[k].isOption
  {
    match p.nodes[n].parent
    case None => None
    case Some(up) => p.Closest(up, OptionSel)
  }

  /** The nodes of a chain step: above `n`, the options are `next` and the options enclosing it. */
  lemma ChainStep(p: Page, q: Page, n: NodeRef)
    requires p.Valid() && q.Valid() && p.SameExceptOpen(q) && n < |p.nodes|
    ensures forall k :: 0 <= k < |p.nodes| && k != n ==>
      ((NextEnclosing(q, n).Some? && OnChain(q, NextEnclosing(q, n).value, k)) <==> OnChain(p, n, k))
  {
    var next := NextEnclosing(q, n);
    assert q.nodes[n].Shape() == p.nodes[n].Shape();
    forall k | 0 <= k < |p.nodes| && k != n
      ensures (next.Some? && OnChain(q, next.value, k)) <==> OnChain(p, n, k)
    {
      assert q.nodes[k].Shape() == p.nodes[k].Shape();
      match p.nodes[n].parent
      case None =>
      case Some(up) =>
        ShapeKeepsAncestry(p, q, k, up);
        if next.Some? {
          var c := next.value;
          ShapeKeepsAncestry(p, q, k, c);
          if OnChain(q, c, k) && k != c {
            AncestorTransitive(q, k, c, up);
          }
        }
    }
  }

  /**
   expand(n): sets `open` on `n` and on every option enclosing it; every
   other node, and every other field, is left as it was. The recursion
   climbs to a strictly earlier node, so it terminates.
   */
  function Expand(p: Page, n: Option<NodeRef>): (r: Page)
    requires p.Valid() && (n.Some? ==> n.value < |p.nodes|)
    ensures r.Valid() && p.SameExceptOpen(r)
    ensures forall k :: 0 <= k < |p.nodes| ==>
      r.nodes[k] == if n.Some? && OnChain(p, n.value, k) then p.nodes[k].(open := true) else p.nodes[k]
    decreases if n.Some? then n.value + 1 else 0
  {
    if n.None? then p
    else
      var m := n.value;
      var marked := p.(nodes := p.nodes[m := p.nodes[m].(open := true)]);
      assert p.SameExceptOpen(marked);
      ShapeKeepsValid(p, marked);
      ChainStep(p, marked, m);
      Expand(marked, NextEnclosing(marked, m))
  }

  /** Expanding twice is expanding once. */
  lemma ExpandIdempotent(p: Page, n: Option<NodeRef>)
    requires p.Valid() && (n.Some? ==> n.value < |p.nodes|)
    ensures Expand(Expand(p, n), n) == Expand(p, n)
  {
    var once := Expand(p, n);
    var twice := Expand(once, n);
    forall k | 0 <= k < |p.nodes|
      ensures twice.nodes[k] == once.nodes[k]
    {
      if n.Some? {
        ShapeKeepsAncestry(p, once, k, n.value);
        if p.nodes[n.value].parent.Some? {
          ShapeKeepsAncestry(p, once, k, p.nodes[n.value].parent.value);
        }
        assert OnChain(once, n.value, k) == OnChain(p, n.value, k);
      }
    }
    assert twice.nodes == once.nodes;
  }
}
