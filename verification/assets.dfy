/**
 * Locating the local assets a page references (`is_remote`,
 * `collect_local_assets`), copying them into the theme (`copy_assets`, whose
 * file copying is left out) and normalising the resulting path mapping.
 */
module Assets {
  import opened Wrappers
  import opened PyStr
  import opened PosixPath
  import opened OrderedDict
  import opened Html

  /** The file suffixes (lower-cased) that count as assets. */
  const AssetExts: set<string> :=
    {".css", ".js", ".png", ".jpg", ".jpeg", ".gif", ".svg", ".webp", ".ico", ".woff", ".woff2", ".ttf", ".otf"}

  /** The attributes inspected on every element, in the order they are inspected. */
  const AttrNames: seq<string> := ["src", "href"]

  /**
   * `is_remote`: the empty value is not remote; otherwise a value is remote
   * when, with surrounding whitespace removed, it is an absolute or
   * scheme-relative URL, a mail or phone link, or an in-page anchor.
   */
  predicate IsRemote(url: string)
  {
    url != [] && HasRemotePrefix(Strip(url))
  }

  /** The six prefixes `is_remote` tests a stripped value for. */
  predicate HasRemotePrefix(u: string)
  {
    StartsWith(u, "http://") || StartsWith(u, "https://") || StartsWith(u, "//")
    || StartsWith(u, "mailto:") || StartsWith(u, "tel:") || StartsWith(u, "#")
  }

  /** Whitespace around a value never changes whether it is remote. */
  lemma IsRemoteIgnoresPadding(ws: string, url: string, ws': string)
    requires forall i | 0 <= i < |ws| :: IsSpace(ws[i])
    requires forall i | 0 <= i < |ws'| :: IsSpace(ws'[i])
    ensures IsRemote(ws + url + ws') == IsRemote(url)
  {
    StripIgnoresPadding(ws, url, ws');
    var u := Strip(url);
    assert Strip(ws + url + ws') == u;
    if url == [] {
      assert u == [];
    } else {
      assert |ws + url + ws'| > 0;
    }
  }

  /** A value that is empty or only whitespace is never remote. */
  lemma BlankIsNotRemote(url: string)
    requires forall i | 0 <= i < |url| :: IsSpace(url[i])
    ensures !IsRemote(url)
  {
    assert url + [] + [] == url;
    StripIgnoresPadding(url, [], []);
  }

  /** `val.lstrip('./')`: the whole leading run of dots and slashes goes, so `../img/a.png` becomes `img/a.png`. */
  function Cleaned(val: string): string
  {
    LStrip(val, IsDotOrSlash)
  }

  /**
   * The file one attribute of one element makes `collect_local_assets` keep:
   * a string value that is not remote, whose cleaned form has an allowed
   * suffix (compared in lower case), joined to the site directory, provided
   * that file exists.
   */
  function Reference(tag: Node, attr: string, siteDir: Path, fileExists: Path -> bool): Option<Path>
  {
    if attr !in Attrs(tag) then None
    else match Attrs(tag)[attr]
      case Multi(_) => None
      case Str(val) =>
        if IsRemote(val) then None
        else
          var cleaned := Cleaned(val);
          if LowerAscii(Suffix(cleaned)) !in AssetExts then None
          else
            var candidate := siteDir + Parts(cleaned);
            if fileExists(candidate) then Some(candidate) else None
  }

  /** The files the attributes `names` of one element make the collector keep. */
  function TagAssets(tag: Node, names: seq<string>, siteDir: Path, fileExists: Path -> bool): set<Path>
  {
    if names == [] then {}
    else
      var ref := Reference(tag, names[|names| - 1], siteDir, fileExists);
      TagAssets(tag, names[..|names| - 1], siteDir, fileExists) + (if ref.Some? then {ref.value} else {})
  }

  /** The set `collect_local_assets` returns for the elements `tags`, accumulated element by element. */
  function LocalAssets(tags: seq<Node>, siteDir: Path, fileExists: Path -> bool): set<Path>
  {
    if tags == [] then {}
    else LocalAssets(tags[..|tags| - 1], siteDir, fileExists) + TagAssets(tags[|tags| - 1], AttrNames, siteDir, fileExists)
  }

  lemma {:induction false} TagAssetsMembers(tag: Node, names: seq<string>, siteDir: Path, fileExists: Path -> bool, p: Path)
    ensures p in TagAssets(tag, names, siteDir, fileExists) <==>
            exists a | a in names :: Reference(tag, a, siteDir, fileExists) == Some(p)
  {
    if names != [] {
      var init, last := names[..|names| - 1], names[|names| - 1];
      TagAssetsMembers(tag, init, siteDir, fileExists, p);
      if p in TagAssets(tag, names, siteDir, fileExists) {
        if p in TagAssets(tag, init, siteDir, fileExists) {
          var a :| a in init && Reference(tag, a, siteDir, fileExists) == Some(p);
          assert a in names;
        } else {
          assert last in names && Reference(tag, last, siteDir, fileExists) == Some(p);
        }
      } else {
        forall a | a in names
          ensures Reference(tag, a, siteDir, fileExists) != Some(p)
        {
          assert names == init + [last];
          assert a in init || a == last;
        }
      }
    }
  }

  /**
   * A file is collected exactly when some `src` or `href` of some element
   * refers to it: a string value, not remote, whose cleaned form has an
   * allowed suffix in lower case, naming an existing file below the site
   * directory. Being a set, the result holds each file once however often
   * it is referenced.
   */
  lemma {:induction false} LocalAssetsMembers(tags: seq<Node>, siteDir: Path, fileExists: Path -> bool, p: Path)
    ensures p in LocalAssets(tags, siteDir, fileExists) <==>
            exists j, a, val | 0 <= j < |tags| && a in AttrNames ::
              a in Attrs(tags[j]) && Attrs(tags[j])[a] == Str(val) && !IsRemote(val)
              && LowerAscii(Suffix(Cleaned(val))) in AssetExts
              && p == siteDir + Parts(Cleaned(val)) && fileExists(p)
  {
    if tags != [] {
      var n := |tags| - 1;
      LocalAssetsMembers(tags[..n], siteDir, fileExists, p);
      TagAssetsMembers(tags[n], AttrNames, siteDir, fileExists, p);
      if p in LocalAssets(tags, siteDir, fileExists) {
        if p !in LocalAssets(tags[..n], siteDir, fileExists) {
          var a :| a in AttrNames && Reference(tags[n], a, siteDir, fileExists) == Some(p);
          var val := Attrs(tags[n])[a].s;
          assert a in Attrs(tags[n]) && Attrs(tags[n])[a] == Str(val);
        }
      } else {
        forall j, a, val | 0 <= j < |tags| && a in AttrNames
          ensures !(a in Attrs(tags[j]) && Attrs(tags[j])[a] == Str(val) && !IsRemote(val)
                    && LowerAscii(Suffix(Cleaned(val))) in AssetExts
                    && p == siteDir + Parts(Cleaned(val)) && fileExists(p))
        {
          if j == n {
            if a in Attrs(tags[j]) && Attrs(tags[j])[a] == Str(val) {
              assert Reference(tags[n], a, siteDir, fileExists) != Some(p);
            }
          } else {
            assert tags[j] == tags[..n][j];
          }
        }
      }
    }
  }

  /** `collect_local_assets(soup, site_dir)`, with `tags` standing for `soup.find_all()`. */
  method CollectLocalAssets(tags: seq<Node>, siteDir: Path, fileExists: Path -> bool) returns (assets: set<Path>)
    ensures assets == LocalAssets(tags, siteDir, fileExists)
  {
    assets := {};
    for i := 0 to |tags|
      invariant assets == LocalAssets(tags[..i], siteDir, fileExists)
    {
      var tag := tags[i];
      for k := 0 to |AttrNames|
        invariant assets == LocalAssets(tags[..i], siteDir, fileExists) + TagAssets(tag, AttrNames[..k], siteDir, fileExists)
      {
        var attr := AttrNames[k];
        var ref := Reference(tag, attr, siteDir, fileExists);
        TagAssetsStep(tag, k, siteDir, fileExists);
        if ref.Some? {
          assets := assets + {ref.value};
        }
      }
      LocalAssetsStep(tags, i, siteDir, fileExists);
    }
    assert tags[..|tags|] == tags;
  }

  lemma TagAssetsStep(tag: Node, k: nat, siteDir: Path, fileExists: Path -> bool)
    requires k < |AttrNames|
    ensures var ref := Reference(tag, AttrNames[k], siteDir, fileExists);
            TagAssets(tag, AttrNames[..k + 1], siteDir, fileExists)
            == TagAssets(tag, AttrNames[..k], siteDir, fileExists) + (if ref.Some? then {ref.value} else {})
  {
    assert AttrNames[..k + 1][..k] == AttrNames[..k];
  }

  lemma LocalAssetsStep(tags: seq<Node>, i: nat, siteDir: Path, fileExists: Path -> bool)
    requires i < |tags|
    ensures LocalAssets(tags[..i + 1], siteDir, fileExists)
            == LocalAssets(tags[..i], siteDir, fileExists) + TagAssets(tags[i], AttrNames[..|AttrNames|], siteDir, fileExists)
  {
    assert tags[..i + 1][..i] == tags[..i];
    assert AttrNames[..|AttrNames|] == AttrNames;
  }

  /**
   * The entry `copy_assets` makes for one asset: the asset's path relative
   * to the site directory (the bare file name when it lies elsewhere),
   * printed with `str` and backslashes turned into slashes for the key, and
   * printed with `as_posix` for the value.
   */
  function CopyEntry(asset: Path, siteDir: Path): (string, string)
  {
    var rel := match RelativeTo(asset, siteDir)
      case Some(r) => r
      case None => Parts(NameOf(asset));
    (Replace(PathString(rel), "\\", "/"), PathString(rel))
  }

  function CopyEntries(order: seq<Path>, siteDir: Path): (r: seq<(string, string)>)
    ensures |r| == |order| && forall i | 0 <= i < |order| :: r[i] == CopyEntry(order[i], siteDir)
  {
    seq(|order|, i requires 0 <= i < |order| => CopyEntry(order[i], siteDir))
  }

  /**
   * `copy_assets(assets, site_dir, dest_assets_dir)` without the copying:
   * `order` is the order in which the loop visits the set of assets.
   */
  method CopyAssets(order: seq<Path>, siteDir: Path) returns (mapping: Dict)
    ensures mapping == FromPairs(CopyEntries(order, siteDir))
  {
    mapping := [];
    for i := 0 to |order|
      invariant mapping == FromPairs(CopyEntries(order[..i], siteDir))
    {
      var asset := order[i];
      var rel: Path;
      match RelativeTo(asset, siteDir) {
        case Some(r) => rel := r;
        case None => rel := Parts(NameOf(asset));
      }
      mapping := Put(mapping, Replace(PathString(rel), "\\", "/"), PathString(rel));
      assert CopyEntries(order[..i + 1], siteDir)[..i] == CopyEntries(order[..i], siteDir);
    }
    assert order[..|order|] == order;
  }

  /** The key of an entry is its value with every backslash turned into a slash. */
  lemma CopyEntryKey(asset: Path, siteDir: Path)
    ensures CopyEntry(asset, siteDir).0 == Replace(CopyEntry(asset, siteDir).1, "\\", "/")
    ensures (forall i | 0 <= i < |asset| :: '\\' !in asset[i]) ==> CopyEntry(asset, siteDir).0 == CopyEntry(asset, siteDir).1
  {
    var v := CopyEntry(asset, siteDir).1;
    if forall i | 0 <= i < |asset| :: '\\' !in asset[i] {
      NoBackslashInPathString(asset, siteDir);
      forall i: nat | i < |v| ensures !OccursAt(v, "\\", i) {
        assert v[i..][..1] == [v[i]];
      }
      ReplaceAbsent(v, "\\", "/");
    }
  }

  lemma NoBackslashInPathString(asset: Path, siteDir: Path)
    requires forall i | 0 <= i < |asset| :: '\\' !in asset[i]
    ensures '\\' !in CopyEntry(asset, siteDir).1
  {
    var rel := match RelativeTo(asset, siteDir)
      case Some(r) => r
      case None => Parts(NameOf(asset));
    if RelativeTo(asset, siteDir).Some? {
      assert forall i | 0 <= i < |rel| :: rel[i] == asset[|siteDir| + i];
    } else {
      PartsAvoid(NameOf(asset), '\\');
      assert '\\' !in NameOf(asset);
    }
    NoBackslashInJoin(rel);
  }

  lemma {:induction false} NoBackslashInJoin(parts: Path)
    requires forall i | 0 <= i < |parts| :: '\\' !in parts[i]
    ensures '\\' !in PathString(parts)
  {
    if |parts| > 1 {
      NoBackslashInJoin(parts[1..]);
    }
  }

  /**
   * For assets found below the site directory, with no backslash in any
   * path, `copy_assets` makes exactly one entry per asset, in visiting
   * order, whose key and value are both the asset's relative path.
   */
  lemma CopyOneEntryPerAsset(order: seq<Path>, siteDir: Path)
    requires forall i | 0 <= i < |order| :: RelativeTo(order[i], siteDir).Some? && ValidPath(order[i][|siteDir|..])
    requires forall i, j | 0 <= i < j < |order| :: order[i] != order[j]
    requires forall i, k | 0 <= i < |order| && 0 <= k < |order[i]| :: '\\' !in order[i][k]
    ensures FromPairs(CopyEntries(order, siteDir)) == CopyEntries(order, siteDir)
    ensures forall i | 0 <= i < |order| ::
              var rel := order[i][|siteDir|..];
              CopyEntries(order, siteDir)[i] == (PathString(rel), PathString(rel))
  {
    var entries := CopyEntries(order, siteDir);
    forall i | 0 <= i < |order|
      ensures entries[i] == (PathString(order[i][|siteDir|..]), PathString(order[i][|siteDir|..]))
    {
      CopyEntryKey(order[i], siteDir);
    }
    forall i, j | 0 <= i < j < |order| ensures entries[i].0 != entries[j].0 {
      var ri, rj := order[i][|siteDir|..], order[j][|siteDir|..];
      assert ValidPath(ri) && ValidPath(rj);
      PartsOfPathString(ri);
      PartsOfPathString(rj);
      assert order[i] == siteDir + ri && order[j] == siteDir + rj;
    }
    FromDistinctPairs(entries);
  }

  /**
   * The value normalisation of `generate_theme`: drop leading slashes, then
   * one leading `<out_dir.name>/`, then one leading `assets/`.
   */
  function NormalizeValue(v: string, outName: string): (r: string)
    ensures |r| <= |v| && r == v[|v| - |r|..]
    ensures !StartsWith(v, "/") && !StartsWith(v, outName + "/") && !StartsWith(v, "assets/") ==> r == v
  {
    var a := LStrip(v, IsSlash);
    var b := if StartsWith(a, outName + "/") then a[|outName| + 1..] else a;
    if StartsWith(b, "assets/") then b[|"assets/"|..] else b
  }

  /** One pass of the normalisation loop's body. */
  method NormalizeOne(v: string, outName: string) returns (vv: string)
    ensures vv == NormalizeValue(v, outName)
  {
    vv := LStrip(v, IsSlash);
    if StartsWith(vv, outName + "/") {
      vv := vv[|outName| + 1..];
    }
    if StartsWith(vv, "assets/") {
      vv := vv[|"assets/"|..];
    }
  }

  /** The mapping with every value normalised, keys and order kept. */
  function Normalized(mapping: Dict, outName: string): (r: Dict)
    ensures |r| == |mapping|
    ensures forall i | 0 <= i < |mapping| :: r[i].0 == mapping[i].0 && r[i].1 == NormalizeValue(mapping[i].1, outName)
  {
    seq(|mapping|, i requires 0 <= i < |mapping| => (mapping[i].0, NormalizeValue(mapping[i].1, outName)))
  }

  /** The normalisation loop of `generate_theme`: the same keys in the same order, each value normalised. */
  method NormalizeMapping(mapping: Dict, outName: string) returns (normalized: Dict)
    requires UniqueKeys(mapping)
    ensures normalized == Normalized(mapping, outName)
  {
    normalized := [];
    for i := 0 to |mapping|
      invariant |normalized| == i
      invariant forall j | 0 <= j < i :: normalized[j].0 == mapping[j].0
      invariant forall j | 0 <= j < i :: normalized[j] == (mapping[j].0, NormalizeValue(mapping[j].1, outName))
    {
      var k, v := mapping[i].0, mapping[i].1;
      var vv := NormalizeOne(v, outName);
      // `normalized[k] = vv`: the keys of `mapping` are distinct, so this appends.
      normalized := normalized + [(k, vv)];
    }
    assert |normalized| == |mapping|;
  }

  /** Every collected file lies below the site directory, at the parts of a cleaned attribute value. */
  lemma CollectedBelowSite(tags: seq<Node>, siteDir: Path, fileExists: Path -> bool, p: Path)
    requires p in LocalAssets(tags, siteDir, fileExists)
    ensures |siteDir| <= |p| && p[..|siteDir|] == siteDir && ValidPath(p[|siteDir|..])
    ensures RelativeTo(p, siteDir) == Some(p[|siteDir|..])
  {
    LocalAssetsMembers(tags, siteDir, fileExists, p);
    var j, a, val :| 0 <= j < |tags| && a in AttrNames
                     && a in Attrs(tags[j]) && Attrs(tags[j])[a] == Str(val) && !IsRemote(val)
                     && LowerAscii(Suffix(Cleaned(val))) in AssetExts
                     && p == siteDir + Parts(Cleaned(val)) && fileExists(p);
    assert p[|siteDir|..] == Parts(Cleaned(val));
  }
}
