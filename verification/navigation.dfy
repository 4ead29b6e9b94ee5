/**
 Fragment resolution (`get_option_from_hash`) and navigation (`jump_to`)
 over a browser state made of the page, the current URL fragment and the
 entries the script has pushed onto the session history.
 */
module Navigation {
  import opened Dom
  import opened Expansion

  /**
   encodeURIComponent and decodeURIComponent, left opaque. `decode` gives
   None where decodeURIComponent throws a URIError (a malformed escape).
   */
  datatype Uri = Uri(encode: string -> string, decode: string -> Option<string>)

  /**
   `fragment` is the current URL's fragment, as stored (percent-encoded,
   without the '#'; empty when there is none); `pushed` holds the URLs the
   script has handed to history.pushState, oldest first.
   */
  datatype Browser = Browser(page: Page, fragment: string, pushed: seq<string>)

  /** location.hash: "" when the fragment is empty, otherwise '#' and the fragment. */
  function LocationHash(fragment: string): (h: string)
    ensures h == "" <==> fragment == ""
    ensures h != "" ==> h[0] == '#' && h[1..] == fragment
  {
    if fragment == "" then "" else "#" + fragment
  }

  /** String.prototype.slice(1): drop the first character, if there is one. */
  function DropFirst(s: string): (r: string)
    ensures |s| > 0 ==> s == [s[0]] + r
    ensures |s| == 0 ==> r == ""
  {
    if |s| == 0 then "" else s[1..]
  }

  lemma DropFirstOfLocationHash(fragment: string)
    ensures DropFirst(LocationHash(fragment)) == fragment
  {
  }

  /** What `get_option_from_hash` comes to: a node, null, or a thrown URIError. */
  datatype Lookup = Target(node: NodeRef) | NoTarget | Malformed

  /**
   get_option_from_hash(hash): decode what follows the first character;
   the empty id names nothing; any other id names the first node of the
   document that carries it, of whatever kind.
   */
  function OptionFromHash(p: Page, uri: Uri, hash: string): (r: Lookup)
    requires p.Valid()
    ensures r.Malformed? <==> uri.decode(DropFirst(hash)).None?
    ensures r.NoTarget? <==>
      && uri.decode(DropFirst(hash)).Some?
      && var id := uri.decode(DropFirst(hash)).value;
         id == "" || forall k :: 0 <= k < |p.nodes| && p.Connected(k) ==> p.nodes[k].id != id
    ensures r.Target? ==>
      && uri.decode(DropFirst(hash)).Some?
      && uri.decode(DropFirst(hash)).value != ""
      && p.IsFirstWithId(r.node, uri.decode(DropFirst(hash)).value)
  {
    match uri.decode(DropFirst(hash))
    case None => Malformed
    case Some(id) =>
      if id == "" then NoTarget
      else match p.ElementById(id)
        case None => NoTarget
        case Some(n) => Target(n)
  }

  /** The fragment `#` + encodeURIComponent(id) of the hash `jump_to` expects for `n`. */
  function ExpectedFragment(p: Page, uri: Uri, n: NodeRef): string
    requires n < |p.nodes|
  {
    uri.encode(p.nodes[n].id)
  }

  /**
   jump_to(n): expand `n`, scroll to it (no effect on this state), and
   push `#` + encodeURIComponent(id) unless location.hash already equals it.
   */
  function JumpTo(b: Browser, uri: Uri, n: NodeRef): (r: Browser)
    requires b.page.Valid() && n < |b.page.nodes|
    ensures r.page.Valid() && b.page.SameExceptOpen(r.page)
    ensures forall k :: 0 <= k < |b.page.nodes| ==>
      r.page.nodes[k].open == (b.page.nodes[k].open || OnChain(b.page, n, k))
    ensures r.fragment == ExpectedFragment(b.page, uri, n)
    ensures |b.pushed| <= |r.pushed| <= |b.pushed| + 1 && r.pushed[..|b.pushed|] == b.pushed
    ensures |r.pushed| == |b.pushed| <==> (b.fragment == r.fragment && r.fragment != "")
    ensures |r.pushed| > |b.pushed| ==> r.pushed[|b.pushed|] == "#" + r.fragment
  {
    var page := Expand(b.page, Some(n));
    assert page.nodes[n].Shape() == b.page.nodes[n].Shape();
    var expected := "#" + uri.encode(page.nodes[n].id);
    if LocationHash(b.fragment) != expected then
      Browser(page, expected[1..], b.pushed + [expected])
    else
      b.(page := page)
  }

  /**
   A second jump to the same node changes nothing, except that when the
   expected fragment is empty location.hash reads "" and never equals "#",
   so every jump pushes another "#".
   */
  lemma JumpToTwice(b: Browser, uri: Uri, n: NodeRef)
    requires b.page.Valid() && n < |b.page.nodes|
    ensures var once := JumpTo(b, uri, n);
            var twice := JumpTo(once, uri, n);
            && twice.page == once.page
            && twice.fragment == once.fragment
            && twice.pushed == if once.fragment == "" then once.pushed + ["#"] else once.pushed
  {
    var once := JumpTo(b, uri, n);
    assert once.page.nodes[n].Shape() == b.page.nodes[n].Shape();
    ExpandIdempotent(b.page, Some(n));
    var expected := "#" + uri.encode(once.page.nodes[n].id);
    assert expected[1..] == once.fragment;
    if once.fragment == "" {
      assert expected == "#";
    } else {
      assert LocationHash(once.fragment) == expected;
    }
  }

  /**
   After jumping to the first node carrying a non-empty id, the URL names
   that node again, provided decoding undoes encoding for that id.
   */
  lemma JumpToReflectedInUrl(b: Browser, uri: Uri, n: NodeRef)
    requires b.page.Valid() && n < |b.page.nodes|
    requires b.page.IsFirstWithId(n, b.page.nodes[n].id) && b.page.nodes[n].id != ""
    requires uri.decode(uri.encode(b.page.nodes[n].id)) == Some(b.page.nodes[n].id)
    ensures var r := JumpTo(b, uri, n);
            OptionFromHash(r.page, uri, LocationHash(r.fragment)) == Target(n)
  {
    var r := JumpTo(b, uri, n);
    var id := b.page.nodes[n].id;
    DropFirstOfLocationHash(r.fragment);
    ShapeKeepsFirstWithId(b.page, r.page, id, 0);
    assert b.page.ElementById(id) == Some(n) by {
      var e := b.page.ElementById(id);
      if e.None? {
        assert false;
      } else if e.value < n {
        assert false;
      } else if e.value > n {
        assert false;
      }
    }
  }

  /** A resolvable link `#` + encode(id) leads to the first node carrying `id`. */
  lemma ResolveEncodedId(p: Page, uri: Uri, id: string)
    requires p.Valid() && id != ""
    requires uri.decode(uri.encode(id)) == Some(id)
    ensures match p.ElementById(id)
            case Some(n) => OptionFromHash(p, uri, "#" + uri.encode(id)) == Target(n)
            case None => OptionFromHash(p, uri, "#" + uri.encode(id)) == NoTarget
  {
    assert DropFirst("#" + uri.encode(id)) == uri.encode(id);
  }
}
