/**
 The abstract document the settings page script works on. The DOM is
 replaced by a sequence of nodes in document order; each node keeps the
 link to its parent element and the few flags the script's CSS selectors
 look at.
 */
module Dom {

  datatype Option<+T> = None | Some(value: T)

  /** A node's position in document order; node 0 is the document element. */
  type NodeRef = nat

  /** The three selectors the script hands to `closest`. */
  datatype Selector =
    | OptionSel   // ".option"
    | LinkSel     // 'a[href^="#"]'
    | SummarySel  // ".option>summary"

  /**
   One element. `parent` is its parentElement (None for the document
   element and for a node that has been removed from its parent);
   `isOption` and `isAnchor` are the classes "option" and "option-anchor";
   `isSummary` marks a <summary> element; `link` is Some(hash) for an <a>
   whose href begins with "#", holding that link's `hash` property; `open`
   is the element's `open` property.
   */
  datatype Node = Node(
    parent: Option<NodeRef>,
    id: string,
    isOption: bool,
    isAnchor: bool,
    isSummary: bool,
    link: Option<string>,
    open: bool)
  {
    /** The node with its `open` flag cleared: every field the event handlers never write. */
    function Shape(): Node {
      this.(open := false)
    }
  }

  datatype Page = Page(nodes: seq<Node>) {

    /**
     Node indices are read as document order (a pre-order walk of the tree).
     Only the part of that the model relies on is checked: every parent
     comes before its children.
     */
    predicate Valid() {
      forall k :: 0 <= k < |nodes| && nodes[k].parent.Some? ==> nodes[k].parent.value < k
    }

    /** `a` is `n` or is reached from `n` by following parent links. */
    predicate IsInclusiveAncestor(a: NodeRef, n: NodeRef)
      requires Valid() && n < |nodes|
      ensures IsInclusiveAncestor(a, n) ==> a <= n
      decreases n
    {
      a == n || (nodes[n].parent.Some? && IsInclusiveAncestor(a, nodes[n].parent.value))
    }

    predicate IsStrictAncestor(a: NodeRef, n: NodeRef)
      requires Valid() && n < |nodes|
    {
      nodes[n].parent.Some? && IsInclusiveAncestor(a, nodes[n].parent.value)
    }

    /** In the document: the document element is an inclusive ancestor. */
    predicate Connected(n: NodeRef)
      requires Valid() && n < |nodes|
    {
      IsInclusiveAncestor(0, n)
    }

    predicate Matches(k: NodeRef, sel: Selector)
      requires k < |nodes|
    {
      match sel
      case OptionSel => nodes[k].isOption
      case LinkSel => nodes[k].link.Some?
      case SummarySel =>
        && nodes[k].isSummary
        && nodes[k].parent.Some?
        && nodes[k].parent.value < |nodes|
        && nodes[nodes[k].parent.value].isOption
    }

    /** Element.closest: the nearest inclusive ancestor matching `sel`. */
    function Closest(n: NodeRef, sel: Selector): (r: Option<NodeRef>)
      requires Valid() && n < |nodes|
      ensures r.Some? ==> IsInclusiveAncestor(r.value, n) && Matches(r.value, sel)
      ensures r.Some? ==> forall k :: 0 <= k < |nodes| && IsInclusiveAncestor(k, n) && Matches(k, sel) ==>
                                         IsInclusiveAncestor(k, r.value)
      ensures r.None? ==> forall k :: 0 <= k < |nodes| && IsInclusiveAncestor(k, n) ==> !Matches(k, sel)
      decreases n
    {
      if Matches(n, sel) then Some(n)
      else if nodes[n].parent.None? then None
      else Closest(nodes[n].parent.value, sel)
    }

    /** `n` is the first node of the document, in document order, whose id is `s`. */
    predicate IsFirstWithId(n: NodeRef, s: string)
      requires Valid()
    {
      && n < |nodes|
      && Connected(n)
      && nodes[n].id == s
      && forall k :: 0 <= k < n && Connected(k) ==> nodes[k].id != s
    }

    function FirstWithIdFrom(s: string, from: nat): (r: Option<NodeRef>)
      requires Valid() && from <= |nodes|
      ensures r.Some? ==> from <= r.value < |nodes| && Connected(r.value) && nodes[r.value].id == s
      ensures forall k :: from <= k < |nodes| && (r.None? || k < r.value) && Connected(k) ==> nodes[k].id != s
      decreases |nodes| - from
    {
      if from == |nodes| then None
      else if Connected(from) && nodes[from].id == s then Some(from)
      else FirstWithIdFrom(s, from + 1)
    }

    /**
     document.getElementById: the first connected node in document order
     with id `s`. An empty id attribute gives an element no ID, so the
     empty string names nothing.
     */
    function ElementById(s: string): (r: Option<NodeRef>)
      requires Valid()
      ensures r.Some? ==> s != "" && IsFirstWithId(r.value, s)
      ensures r.None? <==> (s == "" || forall k :: 0 <= k < |nodes| && Connected(k) ==> nodes[k].id != s)
    {
      if s == "" then None else FirstWithIdFrom(s, 0)
    }

    /** `q` differs from this page at most in `open` flags. */
    predicate SameExceptOpen(q: Page) {
      && |q.nodes| == |nodes|
      && forall k :: 0 <= k < |nodes| ==> q.nodes[k].Shape() == nodes[k].Shape()
    }
  }

  lemma {:induction false} AncestorTransitive(p: Page, a: NodeRef, b: NodeRef, c: NodeRef)
    requires p.Valid() && b < |p.nodes| && c < |p.nodes|
    requires p.IsInclusiveAncestor(a, b) && p.IsInclusiveAncestor(b, c)
    ensures p.IsInclusiveAncestor(a, c)
    decreases c
  {
    if b != c {
      AncestorTransitive(p, a, b, p.nodes[c].parent.value);
    }
  }

  lemma ShapeKeepsValid(p: Page, q: Page)
    requires p.Valid() && p.SameExceptOpen(q)
    ensures q.Valid()
  {
    forall k | 0 <= k < |q.nodes| && q.nodes[k].parent.Some?
      ensures q.nodes[k].parent.value < k
    {
      assert q.nodes[k].Shape() == p.nodes[k].Shape();
    }
  }

  lemma {:induction false} ShapeKeepsAncestry(p: Page, q: Page, a: NodeRef, n: NodeRef)
    requires p.Valid() && q.Valid() && p.SameExceptOpen(q) && n < |p.nodes|
    ensures p.IsInclusiveAncestor(a, n) == q.IsInclusiveAncestor(a, n)
    decreases n
  {
    assert q.nodes[n].Shape() == p.nodes[n].Shape();
    if a != n && p.nodes[n].parent.Some? {
      ShapeKeepsAncestry(p, q, a, p.nodes[n].parent.value);
    }
  }

  lemma ShapeKeepsMatches(p: Page, q: Page, k: NodeRef, sel: Selector)
    requires p.SameExceptOpen(q) && k < |p.nodes|
    ensures p.Matches(k, sel) == q.Matches(k, sel)
  {
    assert q.nodes[k].Shape() == p.nodes[k].Shape();
    if p.nodes[k].parent.Some? && p.nodes[k].parent.value < |p.nodes| {
      var up := p.nodes[k].parent.value;
      assert q.nodes[up].Shape() == p.nodes[up].Shape();
    }
  }

  lemma {:induction false} ShapeKeepsClosest(p: Page, q: Page, n: NodeRef, sel: Selector)
    requires p.Valid() && q.Valid() && p.SameExceptOpen(q) && n < |p.nodes|
    ensures p.Closest(n, sel) == q.Closest(n, sel)
    decreases n
  {
    assert q.nodes[n].Shape() == p.nodes[n].Shape();
    ShapeKeepsMatches(p, q, n, sel);
    if !p.Matches(n, sel) && p.nodes[n].parent.Some? {
      ShapeKeepsClosest(p, q, p.nodes[n].parent.value, sel);
    }
  }

  lemma {:induction false} ShapeKeepsFirstWithId(p: Page, q: Page, s: string, from: nat)
    requires p.Valid() && q.Valid() && p.SameExceptOpen(q) && from <= |p.nodes|
    ensures p.FirstWithIdFrom(s, from) == q.FirstWithIdFrom(s, from)
    decreases |p.nodes| - from
  {
    if from < |p.nodes| {
      assert q.nodes[from].Shape() == p.nodes[from].Shape();
      ShapeKeepsAncestry(p, q, 0, from);
      ShapeKeepsFirstWithId(p, q, s, from + 1);
    }
  }
}
