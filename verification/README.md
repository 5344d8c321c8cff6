# Static site to WordPress theme: the asset-reference pipeline

This project models in Dafny the core of `convert_to_wordpress.py`. That
script turns a static site's `index.html` into a small WordPress theme, in
these steps:

1. Collect the local asset files the page references (`collect_local_assets`).
2. Copy them into the theme and build a path mapping (`copy_assets`).
3. Normalise the mapping values.
4. Rewrite every `src=`/`href=` attribute that resolves through the
   mapping into a `get_template_directory_uri()` reference
   (`replace_asset_paths_in_html`).
5. Cut the body into header, main and footer fragments.
6. Produce the text of `functions.php`, `header.php`, `footer.php` and
   `index.php`.

Modules, one per file:

- `wrappers.dfy`: `Option` and `Result`.
- `pystr.dfy`: the Python string operations the script relies on.
  - `strip`, `lstrip`, `rstrip`
  - `replace`, which works left to right
  - `join`
  - ASCII `lower`
  - `str(int)`
- `posixpath.dfy`: pure POSIX paths as sequences of parts.
  - parsing, `str`/`as_posix`
  - `.name`, `.suffix`
  - `relative_to`
- `ordereddict.dfy`: a Python `dict` as an insertion-ordered sequence of
  entries. Assigning to a new key appends an entry; assigning to an existing
  key updates its value where it is.
- `html.dfy`: the parsed document tree as BeautifulSoup presents it.
  - `find_all()`: preorder
  - `find(name)`: the first element so named
  - `str(node)`: a field the parser fills in
- `assets.dfy`: `is_remote`, `collect_local_assets`, `copy_assets` (its
  mapping) and the mapping normalisation loop of `generate_theme`.
- `rewriter.dfy`: `replace_asset_paths_in_html`, covering:
  - the regular expression `(?i)(src|href)=("|')([^"']+)("|')` as a
    left-to-right scan;
  - `repl`, with its exact-key lookup, its base-name fallback and the
    replacement text.
- `decompose.dfy`: the header, main and footer fragments of the body, with
  every fallback.
- `templates.dfy`:
  - the `functions.php` enqueue lines;
  - the head markup repairs;
  - the four template texts.
- `generate.dfy`: `generate_theme` as a whole. It takes the parsed page
  and returns the mapping and the template texts, or the error it raises.

Loops in the source are methods with loop invariants, each proved equal to a
function that specifies it, or to satisfy a predicate (`Enumerate`). Those methods are:

- `CollectLocalAssets`
- `CopyAssets`
- `NormalizeMapping`
- `FindByBaseName`
- `ReplaceAssetPathsInHtml`
- `CollectMainParts`
- `EnqueueLines`
- `Enumerate`, the iteration over the set of assets

Python's set iteration order is not fixed. `Enumerate` picks an order,
`GenerateTheme` returns it, and its contract holds for every such order.
`GenerateTheme` follows the code as written, including its failure on a
page without a `<head>` element (see Findings).

Points of the code that are easy to misread:

- **Remote values.** The rewriter does not call `is_remote`. So a
  scheme-relative value `//k` whose stripped form `k` is a mapping key is
  rewritten like any other (`Rewriter.RemoteValueRewritten`).
- **Base-name fallback.** The fallback compares the base names of the
  mapping keys, not the values. It takes the first matching key in
  insertion order, and gives up when that entry's value is empty.
- **`lstrip('./')`.** It removes the whole leading run of dots and slashes,
  not the prefix `./`. For example, `../img/a.png` becomes `img/a.png`.
- **Enqueueing.** Only values whose suffix is exactly `.css` or `.js` are
  enqueued, case included (`Templates.OnlyExactCssEnqueued`).

## Model

| member | source | states |
|---|---|---|
| PyStr.Strip | convert_to_wordpress.py:40 | `strip()`: definition only, whitespace removed at both ends; stated by `PyStr.StripIgnoresPadding` |
| PyStr.IsSpace | convert_to_wordpress.py:40 | the characters `str.isspace()` accepts, which `strip()` removes: definition only; stated by `PyStr.StripIgnoresPadding` and `Assets.BlankIsNotRemote` |
| PyStr.StartsWith | convert_to_wordpress.py:41 | `str.startswith`: definition only; stated by `Assets.NormalizeValue` and `Rewriter.SchemeRelativeIsRemote` |
| PyStr.Replace | convert_to_wordpress.py:96 | `str.replace`: definition only, a left-to-right scan replacing non-overlapping occurrences; stated by `PyStr.ReplaceAbsent`, `PyStr.ReplaceSkipsPrefix` and `PyStr.ReplaceSingleOccurrence` |
| PyStr.Join | convert_to_wordpress.py:279 | `sep.join(parts)`: definition only |
| PyStr.Concat | convert_to_wordpress.py:203 | `''.join(parts)`: definition only; stated by `PyStr.ConcatAppend` |
| PyStr.LStrip | convert_to_wordpress.py:59 | `lstrip` removes exactly the leading run of characters in the set: the result is a suffix of the input, does not start with such a character, and every removed character is one |
| PyStr.RStrip | convert_to_wordpress.py:40 | `rstrip` removes exactly the trailing run of characters in the set |
| PyStr.LStripStep | convert_to_wordpress.py:59 | removing one more leading stripped character keeps the result a suffix preceded only by stripped characters |
| PyStr.LStripSkips | convert_to_wordpress.py:95 | a leading run of stripped characters makes no difference to `lstrip` |
| PyStr.LStripAppend | convert_to_wordpress.py:40 | `lstrip` of a concatenation: text after a non-blank part is kept whole |
| PyStr.RStripSkips | convert_to_wordpress.py:40 | trailing stripped characters make no difference to `rstrip` |
| PyStr.StripIgnoresPadding | convert_to_wordpress.py:40 | whitespace added on either side of a value does not change `strip()` |
| PyStr.ReplaceSkipsPrefix | convert_to_wordpress.py:96 | `replace` copies a prefix in which the pattern does not start |
| PyStr.ReplaceAbsent | convert_to_wordpress.py:96 | `replace` leaves a string without the pattern unchanged |
| PyStr.ReplaceSingleOccurrence | convert_to_wordpress.py:307 | with exactly one occurrence of the pattern, `replace` substitutes that one and changes nothing else |
| PyStr.LowerAscii | convert_to_wordpress.py:61 | lower-casing maps every character and keeps the length |
| PyStr.ConcatAppend | convert_to_wordpress.py:203 | `''.join` of two lists is the concatenation of their joins |
| PyStr.DecimalString | convert_to_wordpress.py:270 | `str(i)` is a non-empty string of digits without a leading zero |
| PyStr.DecimalRoundTrip | convert_to_wordpress.py:270 | reading back `str(n)` gives `n` |
| PyStr.DecimalStringInjective | convert_to_wordpress.py:269-272 | different numbers print differently |
| PosixPath.Name | convert_to_wordpress.py:102-105 | `PurePosixPath(s).name`: definition only, the last part or `""`; stated by `PosixPath.NameOfPathString` |
| PosixPath.Suffix | convert_to_wordpress.py:61 | `PurePosixPath(s).suffix`: definition only; stated by `PosixPath.SuffixOf` |
| PosixPath.PathString | convert_to_wordpress.py:81 | `str(path)`: definition only, the parts joined by `/`; stated by `PosixPath.PartsOfPathString` |
| PosixPath.Split | convert_to_wordpress.py:61 | splitting on `/` yields at least one segment, none containing `/` |
| PosixPath.KeepParts | convert_to_wordpress.py:63 | the surviving segments are valid parts: not empty, not `.`, no `/` |
| PosixPath.Parts | convert_to_wordpress.py:63 | `PurePosixPath(s).parts` are valid parts |
| PosixPath.SplitAvoids | convert_to_wordpress.py:81 | a character absent from a string is absent from every segment |
| PosixPath.PartsAvoid | convert_to_wordpress.py:81 | a character absent from a string is absent from every part of its path |
| PosixPath.KeepPartsAvoid | convert_to_wordpress.py:81 | dropping segments adds no characters |
| PosixPath.LastIndexOf | convert_to_wordpress.py:61 | the index of the last occurrence of a character, or -1 when there is none |
| PosixPath.SuffixOf | convert_to_wordpress.py:61 | `.suffix` is the name's tail from its last dot. It is empty exactly when there is no dot after position 0, or the name ends with a dot |
| PosixPath.RelativeTo | convert_to_wordpress.py:74 | `relative_to` succeeds exactly when the base is a prefix of the path, and base + result is the path |
| PosixPath.SplitPart | convert_to_wordpress.py:81 | splitting a string that starts with a part and a slash |
| PosixPath.PartsOfPathString | convert_to_wordpress.py:81 | printing a path and parsing it again returns its parts |
| PosixPath.NameOfPathString | convert_to_wordpress.py:105 | `Path(str(p)).name` is the last part of `p` |
| OrderedDict.Get | convert_to_wordpress.py:98-99 | `key in mapping` and `mapping[key]`: definition only, the value at `IndexOf`; stated by `OrderedDict.Put` and `OrderedDict.FromPairsGet` |
| OrderedDict.IndexOf | convert_to_wordpress.py:98 | the position of a key, or -1 exactly when it is not a key, and no earlier entry has it |
| OrderedDict.IndexOfSameKeys | convert_to_wordpress.py:191 | lookups depend only on the sequence of keys |
| OrderedDict.IndexOfAppend | convert_to_wordpress.py:81 | appending a new key leaves the positions of the other keys alone |
| OrderedDict.Put | convert_to_wordpress.py:81 | after `d[k] = v`, `k` maps to `v` and every other key is unchanged. An existing key keeps its position; a new key is appended. Keys stay unique |
| OrderedDict.FromPairs | convert_to_wordpress.py:71-82 | a dict built by assignments has unique keys |
| OrderedDict.LastValue | convert_to_wordpress.py:81 | the value of the last assignment to a key, or none exactly when the key was never assigned |
| OrderedDict.FromPairsGet | convert_to_wordpress.py:81 | a key is present exactly when it was assigned, with the last value assigned |
| OrderedDict.FromDistinctPairs | convert_to_wordpress.py:71-82 | assignments to distinct keys give a dict holding exactly those entries, in order |
| OrderedDict.FromPairsNewKey | convert_to_wordpress.py:81 | a last assignment to a new key appends one entry |
| Html.Serialize | convert_to_wordpress.py:199 | `str(node)`: definition only, a field the parser fills in; stated by `Generate.SerializeAll` and `Decompose.MainPartsFilter` |
| Html.AllElements | convert_to_wordpress.py:49 | `find_all()` yields elements only |
| Html.FirstNamed | convert_to_wordpress.py:211-213 | the first element with the name, and no earlier one has it |
| Html.Find | convert_to_wordpress.py:211-213 | `find(name)` is the first element in document order with that name. It is None exactly when no element at any depth has the name |
| Assets.IsRemote | convert_to_wordpress.py:37-41 | `is_remote`: definition only, false on `""`, else the stripped value starts with `http://`, `https://`, `//`, `mailto:`, `tel:` or `#`; stated by the two lemmas below |
| Assets.HasRemotePrefix | convert_to_wordpress.py:41 | the six prefixes a stripped value is tested for: definition only; stated by `Rewriter.SchemeRelativeIsRemote` and `Assets.BlankIsNotRemote` |
| Assets.Cleaned | convert_to_wordpress.py:59 | `val.lstrip('./')`: definition only; stated by `PyStr.LStrip` |
| Assets.Reference | convert_to_wordpress.py:51-65 | the file one attribute of one element contributes: definition only; stated by `Assets.TagAssetsMembers` |
| Assets.TagAssets | convert_to_wordpress.py:50-65 | the files one element contributes: definition only; stated by `Assets.TagAssetsMembers` |
| Assets.LocalAssets | convert_to_wordpress.py:44-66 | the collected set: definition only; stated by `Assets.LocalAssetsMembers` |
| Assets.CopyEntry | convert_to_wordpress.py:73-81 | the entry for one asset, falling back to the bare name outside the site directory: definition only; stated by `Assets.CopyEntryKey` and `Assets.CopyOneEntryPerAsset` |
| Assets.IsRemoteIgnoresPadding | convert_to_wordpress.py:37-41 | surrounding whitespace never changes whether a value is remote |
| Assets.BlankIsNotRemote | convert_to_wordpress.py:38-41 | empty and whitespace-only values are not remote |
| Assets.TagAssetsMembers | convert_to_wordpress.py:50-65 | a file is collected from one element exactly when one of its `src`/`href` attributes refers to it |
| Assets.LocalAssetsMembers | convert_to_wordpress.py:44-66 | a file is collected exactly when some element's `src` or `href` refers to it. The value must be a string, not remote, with an allowed lower-cased suffix once the leading run of `.` and `/` is stripped, and name an existing file under the site directory |
| Assets.CollectLocalAssets | convert_to_wordpress.py:44-66 | the nested loop returns exactly that set |
| Assets.TagAssetsStep | convert_to_wordpress.py:50-65 | one attribute adds at most the file it refers to |
| Assets.LocalAssetsStep | convert_to_wordpress.py:49-65 | one element adds the files its attributes refer to |
| Assets.CopyEntries | convert_to_wordpress.py:72-81 | one entry per asset, in copying order |
| Assets.CopyAssets | convert_to_wordpress.py:69-82 | the copy loop builds the dict of those entries, a later equal key overwriting an earlier one |
| Assets.CopyEntryKey | convert_to_wordpress.py:81 | each key is its value with backslashes made slashes, and equals it when the path has no backslash |
| Assets.NoBackslashInPathString | convert_to_wordpress.py:81 | without backslashes in the path, none appear in the printed relative path |
| Assets.NoBackslashInJoin | convert_to_wordpress.py:81 | joining parts with `/` adds no backslash |
| Assets.CopyOneEntryPerAsset | convert_to_wordpress.py:72-81 | distinct assets under the site directory, without backslashes in their path parts, give one entry each, in order, keyed and valued by their relative path |
| Assets.NormalizeValue | convert_to_wordpress.py:184-190 | a normalised value is a suffix of the original, and equals it when no leading `/`, `<theme>/` or `assets/` is present |
| Assets.NormalizeOne | convert_to_wordpress.py:184-190 | the loop body computes that value |
| Assets.Normalized | convert_to_wordpress.py:182-192 | same keys in the same order, each value normalised |
| Assets.NormalizeMapping | convert_to_wordpress.py:182-192 | the normalisation loop returns exactly that dict |
| Assets.CollectedBelowSite | convert_to_wordpress.py:63-74 | every collected file lies below the site directory, so `relative_to` succeeds for it |
| Rewriter.LookupKey | convert_to_wordpress.py:95-96 | `val.lstrip('./').replace('\\', '/')`: definition only; stated by `Rewriter.SchemeRelativeKey` |
| Rewriter.Resolve | convert_to_wordpress.py:97-111 | the exact key, else the first same-name entry with a non-empty value, else none: definition only; stated by `Rewriter.ExactKeyRewritten`, `Rewriter.BaseNameRewritten` and `Rewriter.UnresolvedUnchanged` |
| Rewriter.Rewritten | convert_to_wordpress.py:113-117 | the replacement text for a resolved value: definition only; stated by `Rewriter.ExactKeyRewritten` |
| Rewriter.ReplOf | convert_to_wordpress.py:91-117 | `repl(match)`: definition only; stated by `Rewriter.Repl` and the three lemmas above |
| Rewriter.Render | convert_to_wordpress.py:120 | the output of the scan's pieces: definition only; stated by `Rewriter.RenderAppend` |
| Rewriter.Rewrite | convert_to_wordpress.py:85-120 | `replace_asset_paths_in_html`: definition only; stated by `Rewriter.ReplaceAssetPathsInHtml`, `Rewriter.RewriteStep` and `Rewriter.EmptyMappingUnchanged` |
| Rewriter.CharMatches | convert_to_wordpress.py:119 | one character of the name group under `(?i)`: definition only; stated by `Rewriter.MatchAt` and `Rewriter.MatchAtComplete` |
| Rewriter.IsAttrName | convert_to_wordpress.py:119 | the group `(src\|href)` under `(?i)`: definition only; stated by `Rewriter.MatchAt` and `Rewriter.MatchAtComplete` |
| Rewriter.WellFormed | convert_to_wordpress.py:119 | a text the whole pattern matches: definition only; stated by `Rewriter.MatchAt` and `Rewriter.MatchAtComplete` |
| Rewriter.MatchText | convert_to_wordpress.py:111 | `match.group(0)`: definition only; stated by `Rewriter.MatchTextParts` and `Rewriter.UnresolvedUnchanged` |
| Rewriter.NonQuoteRun | convert_to_wordpress.py:119 | the value group `[^"']+` takes the longest quote-free prefix |
| Rewriter.MatchAfterName | convert_to_wordpress.py:119 | after a name, a match is `=`, a quote, a non-empty quote-free value and a quote, all read from the text |
| Rewriter.MatchAt | convert_to_wordpress.py:119 | a match found at the front of the text is well-formed and spelled by the text |
| Rewriter.MatchAtComplete | convert_to_wordpress.py:119 | every well-formed match written at the front of the text is the one found (the pattern is unambiguous) |
| Rewriter.MatchAfterNameIs | convert_to_wordpress.py:119 | the part after the attribute name of a written match is found |
| Rewriter.MatchTextParts | convert_to_wordpress.py:119 | where the name, `=`, quotes and value sit in a match's text |
| Rewriter.NonQuoteRunIs | convert_to_wordpress.py:119 | the quote-free run stops exactly at the first quote |
| Rewriter.Tokenize | convert_to_wordpress.py:119-120 | the scan yields only well-formed matches |
| Rewriter.TokenizeLossless | convert_to_wordpress.py:119-120 | the characters and matches of the scan spell out the text again |
| Rewriter.FirstWithName | convert_to_wordpress.py:102-107 | the first entry whose key has the given base name, and no earlier entry has it |
| Rewriter.ExactKeyRewritten | convert_to_wordpress.py:95-117 | an attribute whose stripped value is a key becomes `name=q<?php echo get_template_directory_uri(); ?>/assets/<value without leading slashes>q`, with the opening quote used twice |
| Rewriter.BaseNameRewritten | convert_to_wordpress.py:100-117 | without an exact key, the first same-base-name entry in insertion order supplies the value, unless that value is empty |
| Rewriter.UnresolvedUnchanged | convert_to_wordpress.py:108-111 | an attribute with no key and no usable same-name entry is returned exactly as written |
| Rewriter.SingleAttribute | convert_to_wordpress.py:119-120 | an attribute on its own is rewritten by `repl` alone |
| Rewriter.RewriteStep | convert_to_wordpress.py:119-120 | the substitution proceeds match by match, copying other characters |
| Rewriter.NothingResolvedUnchanged | convert_to_wordpress.py:111-120 | text in which no match resolves is returned unchanged |
| Rewriter.EmptyMappingUnchanged | convert_to_wordpress.py:85-120 | with an empty mapping the rewriter is the identity |
| Rewriter.RenderAppend | convert_to_wordpress.py:120 | rewriting distributes over a split of the scanned pieces |
| Rewriter.Repl | convert_to_wordpress.py:91-117 | `repl` with its early return computes the replacement text |
| Rewriter.FindByBaseName | convert_to_wordpress.py:102-107 | the `for`/`break` scan finds the first same-name entry's value, or none |
| Rewriter.FirstWithNameAt | convert_to_wordpress.py:102-107 | the scan stops at the first same-name entry |
| Rewriter.ScanMatch | convert_to_wordpress.py:119-120 | at a match, the output continues with `repl`'s text and the scan resumes after the match |
| Rewriter.ScanPlain | convert_to_wordpress.py:119-120 | without a match, one character is copied |
| Rewriter.ScanStep | convert_to_wordpress.py:119-120 | each step of the scan emits the next piece of the rewritten text and advances |
| Rewriter.ReplaceAssetPathsInHtml | convert_to_wordpress.py:85-120 | the scan returns exactly the rewritten text |
| Rewriter.RemoteValueRewritten | convert_to_wordpress.py:95-99 | a remote scheme-relative value `//k` with `k` a mapping key is rewritten all the same |
| Rewriter.SchemeRelativeKey | convert_to_wordpress.py:95-96 | the lookup key of `//k` is `k` |
| Rewriter.SchemeRelativeIsRemote | convert_to_wordpress.py:37-41 | `//k` is remote |
| Decompose.Body | convert_to_wordpress.py:205 | `soup.body`: definition only, `find("body")` |
| Decompose.Kept | convert_to_wordpress.py:228-241 | the children the main fallback keeps: definition only; stated by `Decompose.CollectMainParts` |
| Decompose.MainParts | convert_to_wordpress.py:226-241 | the parts the main fallback joins: definition only; stated by `Decompose.MainPartsAppend` and `Decompose.MainPartsFilter` |
| Decompose.Fragment | convert_to_wordpress.py:205-249 | the three fragments: definition only; stated by `Decompose.DecomposeBody` and the fallback lemmas |
| Decompose.FirstNamedChild | convert_to_wordpress.py:219 | the first child that has a tag name; none before it has one |
| Decompose.CollectMainParts | convert_to_wordpress.py:226-241 | the fallback loop collects the kept children's markup in order |
| Decompose.MainPartsAppend | convert_to_wordpress.py:228-241 | the fallback works child by child |
| Decompose.MainPartsFilter | convert_to_wordpress.py:226-241 | at most one part per child. All children kept gives all their markup; none kept gives nothing |
| Decompose.NoBodyIsAllMain | convert_to_wordpress.py:247-249 | without a body, main is the whole rewritten document and header and footer are empty |
| Decompose.NoElementsBelow | convert_to_wordpress.py:211-213 | a leaf's children hold no elements |
| Decompose.HeaderMainFooter | convert_to_wordpress.py:210-245 | a body of `<header>`, `<main>`, `<footer>` yields exactly those three, rewritten |
| Decompose.HeaderFallsBackToFirstElement | convert_to_wordpress.py:215-221 | without a `header`, the header is the first named top-level child |
| Decompose.MainFallsBack | convert_to_wordpress.py:223-242 | without a `main`, main is the kept children joined in order, rewritten |
| Decompose.FooterFallsBack | convert_to_wordpress.py:244-245 | without a `footer`, the footer is empty |
| Decompose.DecomposeBody | convert_to_wordpress.py:205-249 | the branches compute the three fragments |
| Templates.ValuesWithSuffix | convert_to_wordpress.py:265-266 | only values with exactly the given suffix are listed, no more than there are entries; order and multiplicity are pinned by `Templates.ValuesWithSuffixInOrder` |
| Templates.ValuesWithSuffixMembers | convert_to_wordpress.py:265-266 | a value is listed exactly when some entry has it and its suffix matches |
| Templates.HasSuffix | convert_to_wordpress.py:265-266 | the test `Path(v).suffix == ext`: definition only; stated by `Templates.ValuesWithSuffixMembers` |
| Templates.Select | convert_to_wordpress.py:265-266 | a list comprehension over the mapping's values keeps only values passing the test, no more than there are entries |
| Templates.SelectMembers | convert_to_wordpress.py:265-266 | a value is kept exactly when some entry has it and it passes the test |
| Templates.SelectAppend | convert_to_wordpress.py:265-266 | the comprehension distributes over concatenation: mapping order and multiplicity are kept |
| Templates.Positions | convert_to_wordpress.py:265-266 | increasing positions of entries that pass the test |
| Templates.PositionsComplete | convert_to_wordpress.py:265-266 | every entry that passes the test has its position listed |
| Templates.SelectAtPositions | convert_to_wordpress.py:265-266 | the values kept are the values at those positions, in order |
| Templates.ValuesWithSuffixInOrder | convert_to_wordpress.py:265-266 | the `.css` (or `.js`) list is the value of every entry with that exact suffix, once each, in mapping order |
| Templates.ValuesWithSuffixAt | convert_to_wordpress.py:265-266 | the listed values, position by position |
| Templates.EnqueueListAt | convert_to_wordpress.py:267-272 | enqueue lines for values picked at given positions of the mapping |
| Templates.CssLine | convert_to_wordpress.py:270 | the stylesheet f-string: definition only; stated by `Templates.CssHandlesDistinct` and `Generate.EnqueuedInMappingOrder` |
| Templates.JsLine | convert_to_wordpress.py:272 | the script f-string: definition only; stated by `Templates.JsHandlesDistinct` and `Generate.EnqueuedInMappingOrder` |
| Templates.EnqueueList | convert_to_wordpress.py:267-272 | the theme stylesheet line, then stylesheet `i` as `rmk-extra-<i>`, then script `i` as `rmk-extra-js-<i>` |
| Templates.EnqueueLines | convert_to_wordpress.py:267-272 | the append loops build that list |
| Templates.DigitsThenQuote | convert_to_wordpress.py:270-272 | a numeral followed by a quote is read off uniquely |
| Templates.NumberedLinesDistinct | convert_to_wordpress.py:270-272 | lines that differ only in their number differ |
| Templates.CssHandlesDistinct | convert_to_wordpress.py:269-270 | stylesheet handles never collide |
| Templates.JsHandlesDistinct | convert_to_wordpress.py:271-272 | script handles never collide |
| Templates.OnlyExactCssEnqueued | convert_to_wordpress.py:265 | a file whose suffix is not exactly `.css` (such as `.CSS`) is not enqueued as a stylesheet |
| Templates.FunctionsPhp | convert_to_wordpress.py:274-279 | `functions.php`: definition only, the enqueue lines joined by newlines in the hook |
| Templates.HeadRepairs | convert_to_wordpress.py:298-305 | the four `replace` calls, only on non-empty head markup: definition only; stated by `Templates.HeadRepairsUnchanged` |
| Templates.HeaderPhp | convert_to_wordpress.py:283-310 | `header.php`: definition only; stated by `Templates.HeaderLayout` |
| Templates.FooterPhp | convert_to_wordpress.py:315-324 | `footer.php`: definition only; stated by `Templates.FooterRecovered` |
| Templates.IndexPhp | convert_to_wordpress.py:328-338 | `index.php`: definition only; stated by `Templates.IndexRecovered` |
| Templates.HeadRepairsUnchanged | convert_to_wordpress.py:298-305 | head markup with none of the repaired patterns passes through unchanged |
| Templates.HeaderLayout | convert_to_wordpress.py:283-310 | `header.php` is the template with the repaired head markup and a newline before `wp_head()`, then the header fragment between newlines |
| Templates.FooterRecovered | convert_to_wordpress.py:315-324 | the footer fragment can be read back from `footer.php`, and is empty exactly when the file is the bare template |
| Templates.FooterPhpInjective | convert_to_wordpress.py:315-324 | different footers give different `footer.php` files |
| Templates.IndexRecovered | convert_to_wordpress.py:328-338 | the main fragment can be read back from `index.php` |
| Templates.IndexPhpInjective | convert_to_wordpress.py:328-338 | different main fragments give different `index.php` files |
| Generate.HeadFragmentAsWritten | convert_to_wordpress.py:195-203 | the head step as written: it fails with a missing head exactly when the page has no `head` element |
| Generate.HeadFragment | convert_to_wordpress.py:195-203 | the head step as intended: a page without `head` gets empty head markup, and a missing head is never reported |
| Generate.ThemeMapping | convert_to_wordpress.py:179-192 | the copied and normalised mapping: definition only; stated by `Generate.MappingFollowsAssets` |
| Generate.Assemble | convert_to_wordpress.py:264-339 | the mapping and the four template texts around given head markup: definition only; stated by `Generate.IntendedThemeOf` and `Generate.HeadlessPageFails` |
| Generate.ThemeOf | convert_to_wordpress.py:179-339 | the theme as the code computes it: its mapping is the theme mapping, and it fails with a missing head exactly when the page has no `head` element |
| Generate.IntendedThemeOf | convert_to_wordpress.py:179-339 | the theme as intended: a page without `head` gets the same theme with empty head markup |
| Generate.HeadlessPageFails | convert_to_wordpress.py:195-339 | the generated theme fails exactly on pages without `head`, where the intended theme succeeds; on every other page the two are equal |
| Generate.EnqueuedInMappingOrder | convert_to_wordpress.py:265-279 | `functions.php` has exactly 1 + (entries with a `.css` value) + (entries with a `.js` value) lines: the theme stylesheet, then the stylesheets numbered from 0 in mapping order, then the scripts numbered from 0 in mapping order |
| Generate.SerializeAll | convert_to_wordpress.py:203 | `str(x)` of each child, in order |
| Generate.HeadlessDocumentFails | convert_to_wordpress.py:195-203 | as written, the head step fails exactly when the document has no `head`. The intended head markup is then empty, and the two agree otherwise |
| Generate.Enumerate | convert_to_wordpress.py:72 | iterating over a set visits each member exactly once |
| Generate.GenerateTheme | convert_to_wordpress.py:128-339 | a missing `index.html` is the error, and a page without `head` fails with a missing head. Otherwise the assets are iterated in some order, and the result is the theme, as the code computes it, that order determines |
| Generate.MappingFollowsAssets | convert_to_wordpress.py:179-192 | for collected files without backslashes, the mapping has one entry per file in copying order: the relative path, and that path normalised |
| Generate.CollectedOrderBelowSite | convert_to_wordpress.py:63-74 | every collected file in the copying order has a relative path |
| Generate.MappingOfDistinctAssets | convert_to_wordpress.py:180-192 | distinct files below the site directory, without backslashes in their path parts, give one normalised entry each |
| Generate.CssFilesEnqueued | convert_to_wordpress.py:265-270 | every mapped `.css` file gets a stylesheet line in `functions.php` |
| Generate.JsFilesEnqueued | convert_to_wordpress.py:266-272 | every mapped `.js` file gets a script line in `functions.php` |

## Left out

- File-system effects are not modelled:
  - creating directories (`mkdir`);
  - copying files (`shutil.copy2`);
  - `write_file`;
  - the copies of the other `.html` pages (lines 343-346).

  Whether a file exists is the parameter `fileExists`; a missing `index.html` is `index == None`.
- The optional npm/npx Tailwind build (lines 143-176) is not modelled. It runs external processes and only prints warnings.
- `main` is not modelled: argument parsing, the overwrite prompt, `rmtree` and the `print` calls (lines 348-374).
- `style.css` (lines 252-262) is not modelled: it is a constant text written to disk.
- BeautifulSoup parsing and serialisation are outside the model:
  - the model starts from the parsed tree after the comment extraction of lines 136-137;
  - `str(node)` is a field of each node;
  - re-parsing the rewritten head is the parameter `reparse`.
- `tools/` and `generator/` are not part of this model.
- PyStr.LowerAscii: lower-cases ASCII letters only, not all of Unicode. It is only applied to a suffix tested against an all-ASCII set, and no non-ASCII character lower-cases to an ASCII letter except the Kelvin sign and the dotted capital I, which this model does not cover.
- Templates.HeaderLayout: assumes that the template text holds `<?php wp_head(); ?>` exactly once (`SingleHeadCall`). This holds for the constant, but it is not proved here.
- Generate.MappingFollowsAssets, Generate.MappingOfDistinctAssets and Assets.CopyOneEntryPerAsset: assume that no path part contains a backslash. With a backslash, the key and value of an entry differ, as `Assets.CopyEntryKey` states.
- Assets.CopyEntry and the `PosixPath` module: paths follow POSIX `pathlib` rules only. Under Windows, `Path` is a `WindowsPath`. There `\` also separates parts, and `str(rel)` prints backslashes (hence the `replace` at line 81). Equality, `relative_to` and set membership also ignore case there. None of this is modelled.
- The model makes no claim about rewriting an already rewritten fragment a second time.
- `/assets/assets/` is collapsed in a single left-to-right pass, as `str.replace` does. A tripled `/assets/assets/assets/` is therefore not reduced to `/assets/`.

## Findings

| source | as written | input that shows it | evidently intended | confidence | as-written member | corrected member |
|---|---|---|---|---|---|---|
| convert_to_wordpress.py:195-203 | the join over `head_inner.contents` runs after the `if soup.head:` block, so `head_inner` is unset when the page has no `head` | any `index.html` without a `<head>` element, e.g. `<body><p>x</p></body>` | an empty head fragment | high; not executed | Generate.HeadlessPageFails | Generate.IntendedThemeOf |
