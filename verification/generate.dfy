/**
 * `generate_theme` without its file-system effects: from the parsed
 * `index.html` to the asset mapping and the text of `functions.php`,
 * `header.php`, `footer.php` and `index.php`.
 */
module Generate {
  import opened Wrappers
  import opened PyStr
  import opened PosixPath
  import opened OrderedDict
  import opened Html
  import opened Assets
  import opened Rewriter
  import opened Decompose
  import opened Templates

  datatype ConvertError =
    | IndexNotFound        // `index.html` is missing from the site directory
    | HeadMissing          // the document has no `head` element
    | ReparsedHeadMissing  // re-parsing the rewritten head found no `head` element

  /** The asset mapping (theme-relative paths) and the text of the generated PHP templates. */
  datatype ThemeFiles = ThemeFiles(mapping: Dict, functionsPhp: string, headerPhp: string, footerPhp: string, indexPhp: string)

  function SerializeAll(nodes: seq<Node>): (r: seq<string>)
    ensures |r| == |nodes| && forall i | 0 <= i < |nodes| :: r[i] == Serialize(nodes[i])
  {
    seq(|nodes|, i requires 0 <= i < |nodes| => Serialize(nodes[i]))
  }

  /**
   * The head markup exactly as the converter computes it. The join over the
   * re-parsed head's children sits outside the `if soup.head:` block, so a
   * document without a `head` element fails on the unset `head_inner`.
   * `reparse` stands for `BeautifulSoup(..., 'html.parser')`.
   */
  function HeadFragmentAsWritten(doc: Document, mapping: Dict, reparse: string -> seq<Node>)
    : (r: Result<string, ConvertError>)
    ensures r == Failure(HeadMissing) <==> NoneNamed(doc.nodes, "head")
  {
    match Find(doc.nodes, "head")
    case None => Failure(HeadMissing)
    case Some(head) =>
      match Find(reparse(Rewrite(Serialize(head), mapping)), "head")
      case None => Failure(ReparsedHeadMissing)
      case Some(inner) => Success(Concat(SerializeAll(inner.children)))
  }

  /**
   * The head markup as evidently intended: the rewritten head's inner
   * markup, without the `<head>` wrapper, or the empty string when the
   * document has no head.
   */
  function HeadFragment(doc: Document, mapping: Dict, reparse: string -> seq<Node>)
    : (r: Result<string, ConvertError>)
    ensures NoneNamed(doc.nodes, "head") ==> r == Success("")
    ensures r != Failure(HeadMissing)
  {
    match Find(doc.nodes, "head")
    case None => Success("")
    case Some(head) =>
      match Find(reparse(Rewrite(Serialize(head), mapping)), "head")
      case None => Failure(ReparsedHeadMissing)
      case Some(inner) => Success(Concat(SerializeAll(inner.children)))
  }

  /**
   * Every document without a `head` element makes the code as written
   * fail, while the intended head markup is simply empty; on documents
   * with a head the two agree.
   */
  lemma HeadlessDocumentFails(doc: Document, mapping: Dict, reparse: string -> seq<Node>)
    ensures NoneNamed(doc.nodes, "head") ==>
            HeadFragmentAsWritten(doc, mapping, reparse) == Failure(HeadMissing)
            && HeadFragment(doc, mapping, reparse) == Success("")
    ensures !NoneNamed(doc.nodes, "head") ==>
            HeadFragmentAsWritten(doc, mapping, reparse) == HeadFragment(doc, mapping, reparse)
  {
    var found := Find(doc.nodes, "head");
    if found.Some? {
      var inner := Find(reparse(Rewrite(Serialize(found.value), mapping)), "head");
      assert HeadFragmentAsWritten(doc, mapping, reparse)
             == if inner.None? then Failure(ReparsedHeadMissing) else Success(Concat(SerializeAll(inner.value.children)));
    }
  }

  /** `order` lists the files of `s`, each once: one of the orders in which a set can be iterated. */
  predicate Enumerates(order: seq<Path>, s: set<Path>)
  {
    (forall i | 0 <= i < |order| :: order[i] in s)
    && (forall p | p in s :: p in order)
    && (forall i, j | 0 <= i < j < |order| :: order[i] != order[j])
  }

  /** Iterating over a set: the order is left to the implementation. */
  method Enumerate(s: set<Path>) returns (order: seq<Path>)
    ensures Enumerates(order, s)
  {
    order := [];
    var remaining := s;
    while remaining != {}
      invariant remaining <= s
      invariant forall i | 0 <= i < |order| :: order[i] in s && order[i] !in remaining
      invariant forall p | p in s :: p in remaining || p in order
      invariant forall i, j | 0 <= i < j < |order| :: order[i] != order[j]
      decreases |remaining|
    {
      var a :| a in remaining;
      order := order + [a];
      remaining := remaining - {a};
    }
  }

  /** The theme's asset mapping: one entry per copied file, values normalised. */
  function ThemeMapping(order: seq<Path>, siteDir: Path, outName: string): Dict
  {
    Normalized(FromPairs(CopyEntries(order, siteDir)), outName)
  }

  /** The theme files around the head markup `head`, once the mapping is known. */
  function Assemble(doc: Document, mapping: Dict, head: string): ThemeFiles
  {
    var fragments := Fragment(doc, mapping);
    var lines := EnqueueList(ValuesWithSuffix(mapping, ".css"), ValuesWithSuffix(mapping, ".js"));
    ThemeFiles(mapping, FunctionsPhp(lines), HeaderPhp(head, fragments.header),
               FooterPhp(fragments.footer), IndexPhp(fragments.main))
  }

  /**
   * The theme generated from the parsed `index.html`, when the collected
   * assets are copied in the order `order`, as the code is written: a page
   * without a `head` element fails.
   */
  function ThemeOf(doc: Document, siteDir: Path, outName: string, order: seq<Path>, reparse: string -> seq<Node>)
    : (r: Result<ThemeFiles, ConvertError>)
    ensures r.Success? ==> r.value.mapping == ThemeMapping(order, siteDir, outName)
    ensures r == Failure(HeadMissing) <==> NoneNamed(doc.nodes, "head")
  {
    var mapping := ThemeMapping(order, siteDir, outName);
    match HeadFragmentAsWritten(doc, mapping, reparse)
    case Failure(e) => Failure(e)
    case Success(head) => Success(Assemble(doc, mapping, head))
  }

  /** The theme as evidently intended: a page without a `head` element gets an empty head. */
  function IntendedThemeOf(doc: Document, siteDir: Path, outName: string, order: seq<Path>, reparse: string -> seq<Node>)
    : (r: Result<ThemeFiles, ConvertError>)
    ensures r.Success? ==> r.value.mapping == ThemeMapping(order, siteDir, outName)
    ensures NoneNamed(doc.nodes, "head") ==> r == Success(Assemble(doc, ThemeMapping(order, siteDir, outName), ""))
  {
    var mapping := ThemeMapping(order, siteDir, outName);
    match HeadFragment(doc, mapping, reparse)
    case Failure(e) => Failure(e)
    case Success(head) => Success(Assemble(doc, mapping, head))
  }

  /**
   * The generated theme fails on exactly the pages without a `head`
   * element, where the intended theme has an empty head; on every other
   * page the two are the same.
   */
  lemma HeadlessPageFails(doc: Document, siteDir: Path, outName: string, order: seq<Path>, reparse: string -> seq<Node>)
    ensures NoneNamed(doc.nodes, "head") ==>
            ThemeOf(doc, siteDir, outName, order, reparse) == Failure(HeadMissing)
            && IntendedThemeOf(doc, siteDir, outName, order, reparse).Success?
    ensures !NoneNamed(doc.nodes, "head") ==>
            ThemeOf(doc, siteDir, outName, order, reparse) == IntendedThemeOf(doc, siteDir, outName, order, reparse)
  {
    HeadlessDocumentFails(doc, ThemeMapping(order, siteDir, outName), reparse);
  }

  /**
   * `generate_theme(site_dir, out_dir)`. `index` is the parsed
   * `index.html`, or None when the file does not exist; `outName` is
   * `out_dir.name`; `fileExists` answers `Path.exists`. The returned
   * `order` is the order in which the set of assets was iterated.
   */
  method GenerateTheme(siteDir: Path, outName: string, index: Option<Document>,
                       fileExists: Path -> bool, reparse: string -> seq<Node>)
    returns (result: Result<ThemeFiles, ConvertError>, order: seq<Path>)
    ensures index.None? ==> result == Failure(IndexNotFound)
    ensures index.Some? ==> Enumerates(order, LocalAssets(AllElements(index.value.nodes), siteDir, fileExists))
    ensures index.Some? ==> result == ThemeOf(index.value, siteDir, outName, order, reparse)
    ensures index.Some? && NoneNamed(index.value.nodes, "head") ==> result == Failure(HeadMissing)
  {
    if index.None? {
      return Failure(IndexNotFound), [];
    }
    var doc := index.value;
    var assets := CollectLocalAssets(AllElements(doc.nodes), siteDir, fileExists);
    order := Enumerate(assets);
    var copied := CopyAssets(order, siteDir);
    var mapping := NormalizeMapping(copied, outName);

    var headTag := Find(doc.nodes, "head");
    if headTag.None? {
      return Failure(HeadMissing), order;
    }
    var rewritten := ReplaceAssetPathsInHtml(Serialize(headTag.value), mapping);
    var headInner := Find(reparse(rewritten), "head");
    if headInner.None? {
      return Failure(ReparsedHeadMissing), order;
    }
    var headHtml := Concat(SerializeAll(headInner.value.children));

    var fragments := DecomposeBody(doc, mapping);
    var css := ValuesWithSuffix(mapping, ".css");
    var js := ValuesWithSuffix(mapping, ".js");
    var lines := EnqueueLines(css, js);
    result := Success(ThemeFiles(mapping, FunctionsPhp(lines), HeaderPhp(headHtml, fragments.header),
                                 FooterPhp(fragments.footer), IndexPhp(fragments.main)));
  }

  /**
   * For the files the converter collects, when no path holds a backslash,
   * the theme mapping has one entry per file, in copying order: the key is
   * the file's path relative to the site directory and the value is that
   * path normalised.
   */
  lemma MappingFollowsAssets(tags: seq<Node>, siteDir: Path, fileExists: Path -> bool, order: seq<Path>, outName: string)
    requires forall i | 0 <= i < |order| :: order[i] in LocalAssets(tags, siteDir, fileExists)
    requires forall i, j | 0 <= i < j < |order| :: order[i] != order[j]
    requires forall i, k | 0 <= i < |order| && 0 <= k < |order[i]| :: '\\' !in order[i][k]
    ensures |ThemeMapping(order, siteDir, outName)| == |order|
    ensures forall i | 0 <= i < |order| ::
              RelativeTo(order[i], siteDir).Some? &&
              var rel := PathString(RelativeTo(order[i], siteDir).value);
              ThemeMapping(order, siteDir, outName)[i] == (rel, NormalizeValue(rel, outName))
  {
    CollectedOrderBelowSite(tags, siteDir, fileExists, order);
    MappingOfDistinctAssets(order, siteDir, outName);
  }

  lemma CollectedOrderBelowSite(tags: seq<Node>, siteDir: Path, fileExists: Path -> bool, order: seq<Path>)
    requires forall i | 0 <= i < |order| :: order[i] in LocalAssets(tags, siteDir, fileExists)
    ensures forall i | 0 <= i < |order| :: RelativeTo(order[i], siteDir).Some? && ValidPath(order[i][|siteDir|..])
  {
    forall i | 0 <= i < |order|
      ensures RelativeTo(order[i], siteDir).Some? && ValidPath(order[i][|siteDir|..])
    {
      CollectedBelowSite(tags, siteDir, fileExists, order[i]);
    }
  }

  lemma MappingOfDistinctAssets(order: seq<Path>, siteDir: Path, outName: string)
    requires forall i | 0 <= i < |order| :: RelativeTo(order[i], siteDir).Some? && ValidPath(order[i][|siteDir|..])
    requires forall i, j | 0 <= i < j < |order| :: order[i] != order[j]
    requires forall i, k | 0 <= i < |order| && 0 <= k < |order[i]| :: '\\' !in order[i][k]
    ensures |ThemeMapping(order, siteDir, outName)| == |order|
    ensures forall i | 0 <= i < |order| ::
              ThemeMapping(order, siteDir, outName)[i]
              == (PathString(order[i][|siteDir|..]), NormalizeValue(PathString(order[i][|siteDir|..]), outName))
  {
    CopyOneEntryPerAsset(order, siteDir);
    var entries := CopyEntries(order, siteDir);
    assert ThemeMapping(order, siteDir, outName) == Normalized(entries, outName);
  }

  /** Every mapped file whose suffix is exactly `.css` gets a stylesheet line in `functions.php`. */
  lemma CssFilesEnqueued(mapping: Dict, i: nat)
    requires i < |mapping| && Suffix(mapping[i].1) == ".css"
    ensures var css := ValuesWithSuffix(mapping, ".css");
            var lines := EnqueueList(css, ValuesWithSuffix(mapping, ".js"));
            exists k | 0 <= k < |css| :: lines[1 + k] == CssLine(k, mapping[i].1)
  {
    var css := ValuesWithSuffix(mapping, ".css");
    ValuesWithSuffixMembers(mapping, ".css", mapping[i].1);
    var k :| 0 <= k < |css| && css[k] == mapping[i].1;
    var lines := EnqueueList(css, ValuesWithSuffix(mapping, ".js"));
    assert lines[1 + k] == CssLine(k, css[k]);
  }

  /** Every mapped file whose suffix is exactly `.js` gets a script line in `functions.php`. */
  lemma JsFilesEnqueued(mapping: Dict, i: nat)
    requires i < |mapping| && Suffix(mapping[i].1) == ".js"
    ensures var css := ValuesWithSuffix(mapping, ".css");
            var js := ValuesWithSuffix(mapping, ".js");
            var lines := EnqueueList(css, js);
            exists k | 0 <= k < |js| :: lines[1 + |css| + k] == JsLine(k, mapping[i].1)
  {
    var js := ValuesWithSuffix(mapping, ".js");
    ValuesWithSuffixMembers(mapping, ".js", mapping[i].1);
    var k :| 0 <= k < |js| && js[k] == mapping[i].1;
    var css := ValuesWithSuffix(mapping, ".css");
    var lines := EnqueueList(css, js);
    assert lines[1 + |css| + k] == JsLine(k, js[k]);
  }

  /**
   * `functions.php` gets exactly one line for the theme stylesheet, then
   * one per mapped value with suffix `.css`, then one per mapped value
   * with suffix `.js`, numbered from 0 in mapping order: `cp` and `jp`
   * are the increasing positions of exactly those entries. The theme uses
   * `cssExt == ".css"` and `jsExt == ".js"`.
   */
  lemma EnqueuedInMappingOrder(mapping: Dict, cssExt: string, jsExt: string)
    ensures var cp := Positions(mapping, HasSuffix(cssExt));
            var jp := Positions(mapping, HasSuffix(jsExt));
            var lines := EnqueueList(ValuesWithSuffix(mapping, cssExt), ValuesWithSuffix(mapping, jsExt));
            |lines| == 1 + |cp| + |jp| && lines[0] == StyleLine
            && (forall k | 0 <= k < |cp| :: lines[1 + k] == CssLine(k, mapping[cp[k]].1))
            && (forall k | 0 <= k < |jp| :: lines[1 + |cp| + k] == JsLine(k, mapping[jp[k]].1))
  {
    ValuesWithSuffixAt(mapping, cssExt);
    ValuesWithSuffixAt(mapping, jsExt);
    EnqueueListAt(mapping, ValuesWithSuffix(mapping, cssExt), Positions(mapping, HasSuffix(cssExt)),
                  ValuesWithSuffix(mapping, jsExt), Positions(mapping, HasSuffix(jsExt)));
  }
}
