/**
 * The theme files `generate_theme` writes: `functions.php` with its
 * enqueue list, `header.php` with the repaired head markup, `footer.php`
 * and `index.php`. Each is fixed boilerplate around the page fragments.
 */
module Templates {
  import opened PyStr
  import opened PosixPath
  import opened OrderedDict

  /** `[v for k, v in mapping.items() if keep(v)]`: the values kept, in mapping order. */
  function Select(mapping: Dict, keep: string -> bool): (r: seq<string>)
    ensures |r| <= |mapping|
    ensures forall i | 0 <= i < |r| :: keep(r[i])
  {
    if mapping == [] then []
    else
      var rest := Select(mapping[1..], keep);
      if keep(mapping[0].1) then [mapping[0].1] + rest else rest
  }

  /** The values kept are exactly the mapping's values that pass `keep`. */
  lemma {:induction false} SelectMembers(mapping: Dict, keep: string -> bool, x: string)
    ensures x in Select(mapping, keep) <==> exists i | 0 <= i < |mapping| :: mapping[i].1 == x && keep(x)
  {
    if mapping != [] {
      SelectMembers(mapping[1..], keep, x);
      if exists i | 0 <= i < |mapping[1..]| :: mapping[1..][i].1 == x && keep(x) {
        var i :| 0 <= i < |mapping[1..]| && mapping[1..][i].1 == x && keep(x);
        assert mapping[i + 1].1 == x;
      }
      if exists i | 0 <= i < |mapping| :: mapping[i].1 == x && keep(x) {
        var i :| 0 <= i < |mapping| && mapping[i].1 == x && keep(x);
        if i > 0 {
          assert mapping[1..][i - 1].1 == x;
        }
      }
    }
  }

  /** The filter distributes over concatenation, so values keep their mapping order and multiplicity. */
  lemma {:induction false} SelectAppend(a: Dict, b: Dict, keep: string -> bool)
    ensures Select(a + b, keep) == Select(a, keep) + Select(b, keep)
  {
    if a == [] {
      assert a + b == b;
    } else {
      assert (a + b)[1..] == a[1..] + b;
      SelectAppend(a[1..], b, keep);
    }
  }

  /** The positions of the entries whose value passes `keep`, in increasing order. */
  function Positions(mapping: Dict, keep: string -> bool): (r: seq<nat>)
    ensures forall k | 0 <= k < |r| :: r[k] < |mapping| && keep(mapping[r[k]].1)
    ensures forall k, l | 0 <= k < l < |r| :: r[k] < r[l]
  {
    if mapping == [] then []
    else
      var n := |mapping| - 1;
      var rest := Positions(mapping[..n], keep);
      assert forall k | 0 <= k < |rest| :: mapping[..n][rest[k]] == mapping[rest[k]];
      if keep(mapping[n].1) then rest + [n] else rest
  }

  /** No position whose value passes `keep` is missed. */
  lemma {:induction false} PositionsComplete(mapping: Dict, keep: string -> bool, i: nat)
    requires i < |mapping| && keep(mapping[i].1)
    ensures i in Positions(mapping, keep)
  {
    var n := |mapping| - 1;
    if i < n {
      assert mapping[..n][i] == mapping[i];
      PositionsComplete(mapping[..n], keep, i);
    }
  }

  /** The values kept are the values at those positions: one per passing entry, in mapping order. */
  lemma {:induction false} SelectAtPositions(mapping: Dict, keep: string -> bool)
    ensures var p := Positions(mapping, keep);
            Select(mapping, keep) == seq(|p|, k requires 0 <= k < |p| => mapping[p[k]].1)
  {
    if mapping != [] {
      var n := |mapping| - 1;
      var init := mapping[..n];
      SelectAtPositions(init, keep);
      assert mapping == init + [mapping[n]];
      SelectAppend(init, [mapping[n]], keep);
      assert [mapping[n]][1..] == [];
    }
  }

  /** The test `Path(v).suffix == ext`: the suffix must match exactly, case included. */
  function HasSuffix(ext: string): string -> bool
  {
    v => Suffix(v) == ext
  }

  /** `[v for k, v in mapping.items() if Path(v).suffix == ext]`. */
  function ValuesWithSuffix(mapping: Dict, ext: string): (r: seq<string>)
    ensures |r| <= |mapping|
    ensures forall i | 0 <= i < |r| :: Suffix(r[i]) == ext
  {
    Select(mapping, HasSuffix(ext))
  }

  /** The values kept are exactly the mapping's values with suffix `ext`. */
  lemma ValuesWithSuffixMembers(mapping: Dict, ext: string, x: string)
    ensures x in ValuesWithSuffix(mapping, ext) <==> exists i | 0 <= i < |mapping| :: mapping[i].1 == x && Suffix(x) == ext
  {
    SelectMembers(mapping, HasSuffix(ext), x);
  }

  /**
   * The values with suffix `ext` are listed once per entry that has one,
   * in mapping order: `p` holds exactly the positions of those entries,
   * increasing.
   */
  lemma ValuesWithSuffixInOrder(mapping: Dict, ext: string)
    ensures var p := Positions(mapping, HasSuffix(ext));
            (forall k | 0 <= k < |p| :: p[k] < |mapping| && Suffix(mapping[p[k]].1) == ext)
            && (forall k, l | 0 <= k < l < |p| :: p[k] < p[l])
            && (forall i | 0 <= i < |mapping| && Suffix(mapping[i].1) == ext :: i in p)
            && ValuesWithSuffix(mapping, ext) == seq(|p|, k requires 0 <= k < |p| => mapping[p[k]].1)
  {
    var p := Positions(mapping, HasSuffix(ext));
    forall i | 0 <= i < |mapping| && Suffix(mapping[i].1) == ext
      ensures i in p
    {
      PositionsComplete(mapping, HasSuffix(ext), i);
    }
    SelectAtPositions(mapping, HasSuffix(ext));
  }

  /** The values listed for `ext`, position by position. */
  lemma ValuesWithSuffixAt(mapping: Dict, ext: string)
    ensures var p := Positions(mapping, HasSuffix(ext));
            var v := ValuesWithSuffix(mapping, ext);
            |v| == |p| && forall k | 0 <= k < |p| :: p[k] < |mapping| && v[k] == mapping[p[k]].1
  {
    SelectAtPositions(mapping, HasSuffix(ext));
  }

  const StyleLine: string := "\twp_enqueue_style('rmk-style', get_stylesheet_uri());"

  const CssLinePrefix: string := "\twp_enqueue_style('rmk-extra-"

  const JsLinePrefix: string := "\twp_enqueue_script('rmk-extra-js-"

  /** The enqueue line for the `i`-th stylesheet, whose handle is `rmk-extra-<i>`. */
  function CssLine(i: nat, css: string): string
  {
    CssLinePrefix + DecimalString(i) + CssLineRest(css)
  }

  function CssLineRest(css: string): string
  {
    "'" + ", get_template_directory_uri() . '/assets/" + css + "');"
  }

  /** The enqueue line for the `i`-th script, whose handle is `rmk-extra-js-<i>`, loaded in the footer. */
  function JsLine(i: nat, js: string): string
  {
    JsLinePrefix + DecimalString(i) + JsLineRest(js)
  }

  function JsLineRest(js: string): string
  {
    "'" + ", get_template_directory_uri() . '/assets/" + js + "', array(), null, true);"
  }

  /**
   * The enqueue lines: the theme's own stylesheet, then one line per
   * stylesheet numbered from 0, then one line per script numbered from 0.
   */
  function EnqueueList(css: seq<string>, js: seq<string>): (r: seq<string>)
    ensures |r| == 1 + |css| + |js|
    ensures r[0] == StyleLine
    ensures forall i | 0 <= i < |css| :: r[1 + i] == CssLine(i, css[i])
    ensures forall i | 0 <= i < |js| :: r[1 + |css| + i] == JsLine(i, js[i])
  {
    [StyleLine]
    + seq(|css|, i requires 0 <= i < |css| => CssLine(i, css[i]))
    + seq(|js|, i requires 0 <= i < |js| => JsLine(i, js[i]))
  }

  /** The appends that build `enqueue_lines`. */
  method EnqueueLines(css: seq<string>, js: seq<string>) returns (lines: seq<string>)
    ensures lines == EnqueueList(css, js)
  {
    lines := [StyleLine];
    for i := 0 to |css|
      invariant |lines| == 1 + i && lines[0] == StyleLine
      invariant forall j | 0 <= j < i :: lines[1 + j] == CssLine(j, css[j])
    {
      lines := lines + [CssLine(i, css[i])];
    }
    for i := 0 to |js|
      invariant |lines| == 1 + |css| + i && lines[0] == StyleLine
      invariant forall j | 0 <= j < |css| :: lines[1 + j] == CssLine(j, css[j])
      invariant forall j | 0 <= j < i :: lines[1 + |css| + j] == JsLine(j, js[j])
    {
      lines := lines + [JsLine(i, js[i])];
    }
  }

  /** The enqueue lines for stylesheets and scripts picked out of `mapping` at positions `cp` and `jp`. */
  lemma EnqueueListAt(mapping: Dict, css: seq<string>, cp: seq<nat>, js: seq<string>, jp: seq<nat>)
    requires |css| == |cp| && forall k | 0 <= k < |cp| :: cp[k] < |mapping| && css[k] == mapping[cp[k]].1
    requires |js| == |jp| && forall k | 0 <= k < |jp| :: jp[k] < |mapping| && js[k] == mapping[jp[k]].1
    ensures var lines := EnqueueList(css, js);
            |lines| == 1 + |cp| + |jp| && lines[0] == StyleLine
            && (forall k | 0 <= k < |cp| :: lines[1 + k] == CssLine(k, mapping[cp[k]].1))
            && (forall k | 0 <= k < |jp| :: lines[1 + |cp| + k] == JsLine(k, mapping[jp[k]].1))
  {
  }

  /** Two decimal numerals each followed by a quote spell the same text only if the numerals agree. */
  lemma DigitsThenQuote(d1: string, r1: string, d2: string, r2: string)
    requires forall i | 0 <= i < |d1| :: IsDigit(d1[i])
    requires forall i | 0 <= i < |d2| :: IsDigit(d2[i])
    requires r1 != [] && r1[0] == '\'' && r2 != [] && r2[0] == '\''
    requires d1 + r1 == d2 + r2
    ensures d1 == d2
  {
    if |d1| < |d2| {
      SameCharAt(d1 + r1, d2 + r2, |d1|);
      assert false;
    } else if |d2| < |d1| {
      SameCharAt(d1 + r1, d2 + r2, |d2|);
      assert false;
    }
    assert d1 == (d1 + r1)[..|d1|];
    assert d2 == (d2 + r2)[..|d2|];
  }

  /**
   * Equal strings agree at every index. Stated apart so that the
   * impossible branch of `DigitsThenQuote` closes without a contradictory
   * assumption.
   */
  lemma SameCharAt(s: string, t: string, k: nat)
    requires s == t && k < |s|
    ensures s[k] == t[k]
  {
  }

  /** Lines made of a common prefix, a decimal number and a rest starting with a quote differ when the numbers do. */
  lemma NumberedLinesDistinct(p: string, i: nat, r1: string, j: nat, r2: string)
    requires r1 != [] && r1[0] == '\'' && r2 != [] && r2[0] == '\''
    requires p + DecimalString(i) + r1 == p + DecimalString(j) + r2
    ensures i == j
  {
    assert DecimalString(i) + r1 == (p + DecimalString(i) + r1)[|p|..];
    assert DecimalString(j) + r2 == (p + DecimalString(j) + r2)[|p|..];
    DigitsThenQuote(DecimalString(i), r1, DecimalString(j), r2);
    DecimalStringInjective(i, j);
  }

  /** Every stylesheet gets its own handle: lines for different positions differ. */
  lemma CssHandlesDistinct(i: nat, a: string, j: nat, b: string)
    requires CssLine(i, a) == CssLine(j, b)
    ensures i == j
  {
    assert CssLineRest(a)[0] == '\'' && CssLineRest(b)[0] == '\'';
    NumberedLinesDistinct(CssLinePrefix, i, CssLineRest(a), j, CssLineRest(b));
  }

  /** Every script gets its own handle: lines for different positions differ. */
  lemma JsHandlesDistinct(i: nat, a: string, j: nat, b: string)
    requires JsLine(i, a) == JsLine(j, b)
    ensures i == j
  {
    assert JsLineRest(a)[0] == '\'' && JsLineRest(b)[0] == '\'';
    NumberedLinesDistinct(JsLinePrefix, i, JsLineRest(a), j, JsLineRest(b));
  }

  /**
   * A file whose suffix is `.CSS` (or any other spelling than `.css`) is
   * copied but never enqueued as a stylesheet.
   */
  lemma OnlyExactCssEnqueued(mapping: Dict, v: string)
    requires Suffix(v) != ".css"
    ensures v !in ValuesWithSuffix(mapping, ".css")
  {
    ValuesWithSuffixMembers(mapping, ".css", v);
  }

  const FunctionsTop: string := "<?php\nfunction rmk_theme_enqueue() {\n"

  const FunctionsBottom: string := "\n}\nadd_action('wp_enqueue_scripts', 'rmk_theme_enqueue');\n"

  /** `functions.php`: the enqueue lines, one per line, inside the enqueue hook. */
  function FunctionsPhp(lines: seq<string>): string
  {
    FunctionsTop + Join(lines, "\n") + FunctionsBottom
  }

  /** The head markup repairs, applied only to a non-empty head. */
  function HeadRepairs(head: string): string
  {
    if head == "" then head
    else
      var h := Replace(head, "rmk-theme/assets/css/tailwind.css", "assets/css/tailwind.css");
      var h := Replace(h, "&lt;?php", "<?php");
      var h := Replace(h, "?&gt;", "?>");
      Replace(h, "/assets/assets/", "/assets/")
  }

  predicate Absent(s: string, pat: string)
  {
    forall i: nat | i < |s| :: !OccursAt(s, pat, i)
  }

  /** Head markup holding none of the repaired patterns passes through the repairs unchanged. */
  lemma HeadRepairsUnchanged(head: string)
    requires Absent(head, "rmk-theme/assets/css/tailwind.css")
    requires Absent(head, "&lt;?php")
    requires Absent(head, "?&gt;")
    requires Absent(head, "/assets/assets/")
    ensures HeadRepairs(head) == head
  {
    if head != "" {
      ReplaceAbsent(head, "rmk-theme/assets/css/tailwind.css", "assets/css/tailwind.css");
      ReplaceAbsent(head, "&lt;?php", "<?php");
      ReplaceAbsent(head, "?&gt;", "?>");
      ReplaceAbsent(head, "/assets/assets/", "/assets/");
    }
  }

  /** The `header.php` template up to the `wp_head()` call. */
  const HeaderTop: string :=
    "<?php\n/**\n * Header for the converted theme\n */\n?><!doctype html>\n<html <?php language_attributes(); ?>>\n<head>\n"
    + "<meta charset=\"<?php bloginfo( 'charset' ); ?>\">\n<meta name=\"viewport\" content=\"width=device-width, initial-scale=1\">\n"

  const WpHeadCall: string := "<?php wp_head(); ?>"

  /** The `header.php` template after the `wp_head()` call. */
  const HeaderBottom: string := "\n</head>\n<body <?php body_class(); ?>>\n<?php wp_body_open(); ?>\n"

  const HeaderTemplate: string := HeaderTop + WpHeadCall + HeaderBottom

  /**
   * `header.php`: the repaired head markup inserted, with a newline, before
   * every `wp_head()` call of the template, then the header fragment
   * between newlines.
   */
  function HeaderPhp(head: string, header: string): string
  {
    Replace(HeaderTemplate, WpHeadCall, HeadRepairs(head) + "\n" + WpHeadCall) + "\n" + header + "\n"
  }

  /** The template calls `wp_head()` in one place only. */
  predicate SingleHeadCall()
  {
    forall i: nat | i < |HeaderTemplate| && OccursAt(HeaderTemplate, WpHeadCall, i) :: i == |HeaderTop|
  }

  /**
   * The head markup lands just before the single `wp_head()` call, and the
   * header fragment follows the template.
   */
  lemma HeaderLayout(head: string, header: string)
    requires SingleHeadCall()
    ensures HeaderPhp(head, header)
            == HeaderTop + (HeadRepairs(head) + "\n" + WpHeadCall) + HeaderBottom + "\n" + header + "\n"
  {
    var t := HeaderTemplate;
    var k := |HeaderTop|;
    assert t[k..][..|WpHeadCall|] == WpHeadCall;
    assert t[..k] == HeaderTop;
    assert t[k + |WpHeadCall|..] == HeaderBottom;
    ReplaceSingleOccurrence(t, WpHeadCall, HeadRepairs(head) + "\n" + WpHeadCall, k);
  }

  const FooterTop: string := "<?php\n/**\n * Footer for the converted theme\n */\n?>\n"

  const FooterBottom: string := "<?php wp_footer(); ?>\n</body>\n</html>\n"

  /** `footer.php`: the footer fragment, if not empty, between newlines ahead of `wp_footer()`. */
  function FooterPhp(footer: string): string
  {
    FooterTop + (if footer != "" then "\n" + footer + "\n" else "") + FooterBottom
  }

  /** The footer fragment can be read back from `footer.php`, so different fragments give different files. */
  lemma FooterRecovered(footer: string)
    ensures var f := FooterPhp(footer);
            (footer == "" <==> |f| == |FooterTop| + |FooterBottom|)
            && (footer != "" ==> f[|FooterTop| + 1..|f| - |FooterBottom| - 1] == footer)
  {
    var f := FooterPhp(footer);
    if footer != "" {
      assert f == FooterTop + "\n" + footer + "\n" + FooterBottom;
      assert f[|FooterTop| + 1..|f| - |FooterBottom| - 1] == footer;
    }
  }

  lemma FooterPhpInjective(a: string, b: string)
    requires FooterPhp(a) == FooterPhp(b)
    ensures a == b
  {
    FooterRecovered(a);
    FooterRecovered(b);
  }

  const IndexTop: string :=
    "<?php\n/*\n * Index template generated from static site. Replace with dynamic loop as needed.\n */\nget_header();\n?>\n<main>\n"

  const IndexBottom: string := "\n</main>\n<?php get_footer(); ?>\n"

  /** `index.php`: the main fragment inside `<main>`, between `get_header()` and `get_footer()`. */
  function IndexPhp(main: string): string
  {
    IndexTop + main + IndexBottom
  }

  /** The main fragment can be read back from `index.php`, so different fragments give different files. */
  lemma IndexRecovered(main: string)
    ensures var f := IndexPhp(main);
            |f| == |IndexTop| + |main| + |IndexBottom| && f[|IndexTop|..|f| - |IndexBottom|] == main
  {
    var f := IndexPhp(main);
    assert f[|IndexTop|..|f| - |IndexBottom|] == main;
  }

  lemma IndexPhpInjective(a: string, b: string)
    requires IndexPhp(a) == IndexPhp(b)
    ensures a == b
  {
    IndexRecovered(a);
    IndexRecovered(b);
  }
}
