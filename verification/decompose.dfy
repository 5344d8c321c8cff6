/**
 * How `generate_theme` cuts the page body into the header, main and footer
 * fragments, each rewritten by the asset-path rewriter.
 */
module Decompose {
  import opened Wrappers
  import opened PyStr
  import opened OrderedDict
  import opened Html
  import opened Rewriter

  /** The parsed `index.html` (after its comments have been extracted) and its serialisation `str(soup)`. */
  datatype Document = Document(nodes: seq<Node>, html: string)

  datatype Fragments = Fragments(header: string, main: string, footer: string)

  /** `soup.body`. */
  function Body(doc: Document): Option<Node>
  {
    Find(doc.nodes, "body")
  }

  /** The child the header falls back to: the first one that has a (non-empty) tag name. */
  function FirstNamedChild(children: seq<Node>): (r: Option<nat>)
    ensures r.Some? ==> r.value < |children| && children[r.value].Element? && children[r.value].name != ""
    ensures forall j | 0 <= j < |children| && (r.None? || j < r.value) :: !(children[j].Element? && children[j].name != "")
  {
    if children == [] then None
    else if children[0].Element? && children[0].name != "" then Some(0)
    else match FirstNamedChild(children[1..])
      case Some(i) => Some(i + 1)
      case None => None
  }

  /** A top-level body child that the main fallback keeps. */
  predicate Kept(n: Node)
  {
    match n
    case Element(name, _, _, _) => name != "header" && name != "footer"
    case Comment(_) => false
    case Text(s) => Strip(s) != ""
  }

  /** The serialisations the main fallback joins, in document order. */
  function MainParts(children: seq<Node>): seq<string>
  {
    if children == [] then []
    else
      var last := children[|children| - 1];
      MainParts(children[..|children| - 1]) + (if Kept(last) then [Serialize(last)] else [])
  }

  /** The header, main and footer fragments of a document, rewritten with `mapping`. */
  function Fragment(doc: Document, mapping: Dict): Fragments
  {
    match Body(doc)
    case None => Fragments("", Rewrite(doc.html, mapping), "")
    case Some(body) =>
      var children := body.children;
      var header := match Find(children, "header")
        case Some(h) => Rewrite(Serialize(h), mapping)
        case None =>
          match FirstNamedChild(children)
          case Some(i) => Rewrite(Serialize(children[i]), mapping)
          case None => "";
      var main := match Find(children, "main")
        case Some(m) => Rewrite(Serialize(m), mapping)
        case None => Rewrite(Concat(MainParts(children)), mapping);
      var footer := match Find(children, "footer")
        case Some(f) => Rewrite(Serialize(f), mapping)
        case None => "";
      Fragments(header, main, footer)
  }

  /** The main-fallback loop over the body's children. */
  method CollectMainParts(children: seq<Node>) returns (parts: seq<string>)
    ensures parts == MainParts(children)
  {
    parts := [];
    for i := 0 to |children|
      invariant parts == MainParts(children[..i])
    {
      var el := children[i];
      assert children[..i + 1][..i] == children[..i];
      if el.Element? && (el.name == "header" || el.name == "footer") {
        continue;
      }
      if el.Comment? {
        continue;
      }
      if el.Text? {
        if Strip(el.s) == "" {
          continue;
        }
        parts := parts + [Serialize(el)];
        continue;
      }
      parts := parts + [Serialize(el)];
    }
    assert children[..|children|] == children;
  }

  /** The fallback keeps the children of a concatenation part by part. */
  lemma {:induction false} MainPartsAppend(a: seq<Node>, b: seq<Node>)
    ensures MainParts(a + b) == MainParts(a) + MainParts(b)
    decreases |b|
  {
    if b == [] {
      assert a + b == a;
    } else {
      var n := |b| - 1;
      assert (a + b)[..|a + b| - 1] == a + b[..n];
      MainPartsAppend(a, b[..n]);
    }
  }

  /**
   * The main fallback keeps a child exactly when it is not a `header` or
   * `footer` element, not a comment and not whitespace-only text, and it
   * keeps the kept children's serialisations in document order.
   */
  lemma {:induction false} MainPartsFilter(children: seq<Node>)
    ensures |MainParts(children)| <= |children|
    ensures (forall i | 0 <= i < |children| :: Kept(children[i])) ==>
              MainParts(children) == seq(|children|, i requires 0 <= i < |children| => Serialize(children[i]))
    ensures (forall i | 0 <= i < |children| :: !Kept(children[i])) ==> MainParts(children) == []
  {
    if children != [] {
      var n := |children| - 1;
      var init, last := children[..n], children[n];
      MainPartsFilter(init);
      assert MainParts(children) == MainParts(init) + (if Kept(last) then [Serialize(last)] else []);
      if forall i | 0 <= i < |children| :: Kept(children[i]) {
        assert forall i | 0 <= i < n :: Kept(init[i]) by {
          forall i | 0 <= i < n ensures Kept(init[i]) { assert init[i] == children[i]; }
        }
        var all := seq(|children|, i requires 0 <= i < |children| => Serialize(children[i]));
        assert all == seq(n, i requires 0 <= i < n => Serialize(init[i])) + [Serialize(last)];
      }
      if forall i | 0 <= i < |children| :: !Kept(children[i]) {
        assert forall i | 0 <= i < n :: !Kept(init[i]) by {
          forall i | 0 <= i < n ensures !Kept(init[i]) { assert init[i] == children[i]; }
        }
      }
    }
  }

  /** Without a body the whole document is the main fragment and the header and footer are empty. */
  lemma NoBodyIsAllMain(doc: Document, mapping: Dict)
    requires NoneNamed(doc.nodes, "body")
    ensures Fragment(doc, mapping) == Fragments("", Rewrite(doc.html, mapping), "")
  {
  }

  /** A leaf element: one without element children. */
  predicate Leaf(n: Node)
  {
    n.Element? && forall i | 0 <= i < |n.children| :: !n.children[i].Element?
  }

  lemma {:induction false} NoElementsBelow(nodes: seq<Node>)
    requires forall i | 0 <= i < |nodes| :: !nodes[i].Element?
    ensures AllElements(nodes) == []
  {
    if nodes != [] {
      NoElementsBelow(nodes[1..]);
    }
  }

  /**
   * A body made of `<header>H</header><main>M</main><footer>F</footer>`
   * yields those three elements, each rewritten, as header, main and footer.
   */
  lemma HeaderMainFooter(doc: Document, mapping: Dict, body: Node, h: Node, m: Node, f: Node)
    requires Body(doc) == Some(body) && body.children == [h, m, f]
    requires Leaf(h) && h.name == "header"
    requires Leaf(m) && m.name == "main"
    requires Leaf(f) && f.name == "footer"
    ensures Fragment(doc, mapping)
            == Fragments(Rewrite(Serialize(h), mapping), Rewrite(Serialize(m), mapping), Rewrite(Serialize(f), mapping))
  {
    NoElementsBelow(h.children);
    NoElementsBelow(m.children);
    NoElementsBelow(f.children);
    assert [h, m, f][1..] == [m, f];
    assert [m, f][1..] == [f];
    assert [f][1..] == [];
    assert AllElements([f]) == [f];
    assert AllElements([m, f]) == [m, f];
    var all := AllElements([h, m, f]);
    assert all == [h, m, f];
    assert FirstNamed(all, "header") == Some(0);
    assert FirstNamed(all, "main") == Some(1);
    assert FirstNamed(all, "footer") == Some(2) by {
      assert FirstNamed(all[1..], "footer") == Some(1) by {
        assert all[1..][1..] == [f];
      }
    }
  }

  /**
   * With no `header` element anywhere in the body, the header is the first
   * top-level child that has a tag name, such as a leading `<div id="top">`.
   */
  lemma HeaderFallsBackToFirstElement(doc: Document, mapping: Dict, body: Node, k: nat)
    requires Body(doc) == Some(body)
    requires NoneNamed(body.children, "header")
    requires k < |body.children| && body.children[k].Element? && body.children[k].name != ""
    requires forall j | 0 <= j < k :: !body.children[j].Element?
    ensures Fragment(doc, mapping).header == Rewrite(Serialize(body.children[k]), mapping)
  {
    var r := FirstNamedChild(body.children);
    assert r == Some(k) by {
      assert r.Some?;
      assert r.value >= k;
    }
  }

  /** With no `main` element in the body, main is the kept children joined in order. */
  lemma MainFallsBack(doc: Document, mapping: Dict, body: Node)
    requires Body(doc) == Some(body)
    requires NoneNamed(body.children, "main")
    ensures Fragment(doc, mapping).main == Rewrite(Concat(MainParts(body.children)), mapping)
  {
  }

  /** With no `footer` element in the body, the footer is empty. */
  lemma FooterFallsBack(doc: Document, mapping: Dict, body: Node)
    requires Body(doc) == Some(body)
    requires NoneNamed(body.children, "footer")
    ensures Fragment(doc, mapping).footer == ""
  {
  }

  /** `generate_theme`'s selection of the three fragments, as the converter runs it. */
  method DecomposeBody(doc: Document, mapping: Dict) returns (fragments: Fragments)
    ensures fragments == Fragment(doc, mapping)
  {
    var headerHtml, mainHtml, footerHtml := "", "", "";
    var body := Body(doc);
    if body.Some? {
      var children := body.value.children;
      var headerTag := Find(children, "header");
      var footerTag := Find(children, "footer");
      var mainTag := Find(children, "main");
      if headerTag.Some? {
        headerHtml := ReplaceAssetPathsInHtml(Serialize(headerTag.value), mapping);
      } else {
        var first := FirstNamedChild(children);
        if first.Some? {
          headerHtml := ReplaceAssetPathsInHtml(Serialize(children[first.value]), mapping);
        }
      }
      if mainTag.Some? {
        mainHtml := ReplaceAssetPathsInHtml(Serialize(mainTag.value), mapping);
      } else {
        var parts := CollectMainParts(children);
        mainHtml := ReplaceAssetPathsInHtml(Concat(parts), mapping);
      }
      if footerTag.Some? {
        footerHtml := ReplaceAssetPathsInHtml(Serialize(footerTag.value), mapping);
      }
    } else {
      mainHtml := ReplaceAssetPathsInHtml(doc.html, mapping);
    }
    fragments := Fragments(headerHtml, mainHtml, footerHtml);
  }
}
