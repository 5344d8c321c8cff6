/**
 * `replace_asset_paths_in_html`: every `src=`/`href=` attribute written in
 * the markup whose value resolves through the path mapping is replaced by a
 * reference into the theme's `assets/` directory; all other text is copied.
 */
module Rewriter {
  import opened Wrappers
  import opened PyStr
  import opened PosixPath
  import opened OrderedDict
  import Assets

  /** The PHP expression that yields the theme's base URI at run time. */
  const PhpTemplateUri: string := "<?php echo get_template_directory_uri(); ?>"

  predicate IsQuote(c: char)
  {
    c == '"' || c == '\''
  }

  /**
   * Case-insensitive comparison of one character with a lower-case ASCII
   * letter, as the regular-expression engine does it under IGNORECASE:
   * either case matches, and `s` also matches the long s (U+017F).
   */
  predicate CharMatches(c: char, lower: char)
    requires 'a' <= lower <= 'z'
  {
    c == lower || c as int == lower as int - 32 || (lower == 's' && c == '\U{017F}')
  }

  predicate MatchesWord(s: string, word: string)
    requires forall i | 0 <= i < |word| :: 'a' <= word[i] <= 'z'
  {
    |s| == |word| && forall i | 0 <= i < |s| :: CharMatches(s[i], word[i])
  }

  /**
   * One match of `(?i)(src|href)=("|')([^"']+)("|')`: the attribute name
   * as written, the opening quote, the value and the closing quote (which
   * may differ from the opening one).
   */
  datatype Match = Match(name: string, open: char, value: string, close: char)

  function MatchText(m: Match): string
  {
    m.name + "=" + [m.open] + m.value + [m.close]
  }

  predicate IsAttrName(name: string)
  {
    MatchesWord(name, "src") || MatchesWord(name, "href")
  }

  predicate WellFormed(m: Match)
  {
    IsAttrName(m.name) && IsQuote(m.open) && IsQuote(m.close)
    && m.value != [] && forall i | 0 <= i < |m.value| :: !IsQuote(m.value[i])
  }

  /** The longest prefix of `s` holding no quote. */
  function NonQuoteRun(s: string): (r: string)
    ensures |r| <= |s| && r == s[..|r|]
    ensures forall i | 0 <= i < |r| :: !IsQuote(r[i])
    ensures |r| == |s| || IsQuote(s[|r|])
  {
    if s == [] || IsQuote(s[0]) then [] else [s[0]] + NonQuoteRun(s[1..])
  }

  /** The rest of a match once an attribute name of length `n` has matched. */
  function MatchAfterName(s: string, n: nat): (r: Option<Match>)
    requires n <= |s|
    ensures r.Some? ==> r.value.name == s[..n] && IsQuote(r.value.open) && IsQuote(r.value.close)
                        && r.value.value != [] && (forall i | 0 <= i < |r.value.value| :: !IsQuote(r.value.value[i]))
                        && |MatchText(r.value)| <= |s| && MatchText(r.value) == s[..|MatchText(r.value)|]
  {
    if n + 1 < |s| && s[n] == '=' && IsQuote(s[n + 1]) then
      var run := NonQuoteRun(s[n + 2..]);
      if run != [] && n + 2 + |run| < |s| then Some(Match(s[..n], s[n + 1], run, s[n + 2 + |run|]))
      else None
    else None
  }

  /**
   * The match starting at the first character of `s`, if any. The greedy
   * value group stops only at a quote, so backtracking never yields a
   * different match; and no string starts with both attribute names.
   */
  function MatchAt(s: string): (r: Option<Match>)
    ensures r.Some? ==> WellFormed(r.value) && |MatchText(r.value)| <= |s| && MatchText(r.value) == s[..|MatchText(r.value)|]
  {
    if |s| >= 3 && MatchesWord(s[..3], "src") then MatchAfterName(s, 3)
    else if |s| >= 4 && MatchesWord(s[..4], "href") then MatchAfterName(s, 4)
    else None
  }

  /** Every well-formed match written at the start of `s` is the match found there. */
  lemma MatchAtComplete(s: string, m: Match)
    requires WellFormed(m) && |MatchText(m)| <= |s| && s[..|MatchText(m)|] == MatchText(m)
    ensures MatchAt(s) == Some(m)
  {
    var n := |m.name|;
    MatchAfterNameIs(s, m);
    if MatchesWord(m.name, "href") {
      assert !CharMatches(s[0], 's');
    }
  }

  /** Once the attribute name is in place, the rest of a written match is found. */
  lemma MatchAfterNameIs(s: string, m: Match)
    requires WellFormed(m) && |MatchText(m)| <= |s| && s[..|MatchText(m)|] == MatchText(m)
    ensures |m.name| <= |s| && s[..|m.name|] == m.name && MatchAfterName(s, |m.name|) == Some(m)
  {
    var n, k := |m.name|, |m.value|;
    var t := MatchText(m);
    MatchTextParts(m);
    assert s[..n] == m.name by { assert s[..n] == t[..n]; }
    assert s[n] == t[n] && s[n + 1] == t[n + 1] && s[n + 2 + k] == t[n + 2 + k];
    assert s[n + 2..][..k] == m.value by { assert s[n + 2..][..k] == t[n + 2..n + 2 + k]; }
    assert s[n + 2..][k] == m.close;
    NonQuoteRunIs(s[n + 2..], m.value);
  }

  lemma MatchTextParts(m: Match)
    ensures var t, n, k := MatchText(m), |m.name|, |m.value|;
            |t| == n + k + 3 && t[..n] == m.name && t[n] == '=' && t[n + 1] == m.open
            && t[n + 2..n + 2 + k] == m.value && t[n + 2 + k] == m.close
  {
  }

  lemma {:induction false} NonQuoteRunIs(s: string, v: string)
    requires |v| < |s| && s[..|v|] == v && IsQuote(s[|v|])
    requires forall i | 0 <= i < |v| :: !IsQuote(v[i])
    ensures NonQuoteRun(s) == v
  {
    if v != [] {
      assert !IsQuote(s[0]);
      NonQuoteRunIs(s[1..], v[1..]);
    }
  }

  /** The text split into characters outside any match and the matches themselves, scanning left to right. */
  datatype Piece = Plain(c: char) | Attr(m: Match)

  function Tokenize(s: string): (r: seq<Piece>)
    ensures forall i | 0 <= i < |r| && r[i].Attr? :: WellFormed(r[i].m)
    decreases |s|
  {
    if s == [] then []
    else match MatchAt(s)
      case Some(m) => [Attr(m)] + Tokenize(s[|MatchText(m)|..])
      case None => [Plain(s[0])] + Tokenize(s[1..])
  }

  function Original(pieces: seq<Piece>): string
  {
    if pieces == [] then []
    else (match pieces[0] case Plain(c) => [c] case Attr(m) => MatchText(m)) + Original(pieces[1..])
  }

  /** Splitting into pieces loses nothing: the pieces spell the text out again. */
  lemma {:induction false} TokenizeLossless(s: string)
    ensures Original(Tokenize(s)) == s
    decreases |s|
  {
    if s != [] {
      match MatchAt(s) {
        case Some(m) =>
          TokenizeLossless(s[|MatchText(m)|..]);
          assert s == MatchText(m) + s[|MatchText(m)|..];
        case None =>
          TokenizeLossless(s[1..]);
          assert s == [s[0]] + s[1..];
      }
    }
  }

  /** The mapping key looked up for an attribute value: leading `.`/`/` removed, backslashes made slashes. */
  function LookupKey(value: string): string
  {
    Replace(LStrip(value, IsDotOrSlash), "\\", "/")
  }

  /** The first entry of `mapping`, in mapping order, whose key has base name `name`. */
  function FirstWithName(mapping: Dict, name: string): (r: Option<nat>)
    ensures r.Some? ==> r.value < |mapping| && Name(mapping[r.value].0) == name
    ensures forall j | 0 <= j < |mapping| && (r.None? || j < r.value) :: Name(mapping[j].0) != name
  {
    if mapping == [] then None
    else if Name(mapping[0].0) == name then Some(0)
    else match FirstWithName(mapping[1..], name)
      case Some(i) => Some(i + 1)
      case None => None
  }

  /**
   * The mapped value an attribute value resolves to: the entry for its
   * lookup key; failing that, the first entry whose key has the same base
   * name, unless that entry's value is empty; failing that, nothing.
   */
  function Resolve(value: string, mapping: Dict): Option<string>
  {
    var key := LookupKey(value);
    match Get(mapping, key)
      case Some(v) => Some(v)
      case None =>
        match FirstWithName(mapping, Name(key))
          case Some(i) => if mapping[i].1 != "" then Some(mapping[i].1) else None
          case None => None
  }

  /** The attribute text that replaces a resolved value `v`. */
  function Rewritten(m: Match, v: string): string
  {
    var php := PhpTemplateUri + "/assets/" + LStrip(v, IsSlash);
    m.name + "=" + [m.open] + php + [m.open]
  }

  /** `repl`: the replacement text for one match. */
  function ReplOf(m: Match, mapping: Dict): string
  {
    match Resolve(m.value, mapping)
      case Some(v) => Rewritten(m, v)
      case None => MatchText(m)
  }

  function Render(pieces: seq<Piece>, mapping: Dict): string
  {
    if pieces == [] then []
    else (match pieces[0] case Plain(c) => [c] case Attr(m) => ReplOf(m, mapping)) + Render(pieces[1..], mapping)
  }

  /** `pattern.sub(repl, html)`. */
  function Rewrite(html: string, mapping: Dict): string
  {
    Render(Tokenize(html), mapping)
  }

  /** A value whose lookup key is a mapping key becomes a reference to the mapped file under `/assets/`. */
  lemma ExactKeyRewritten(m: Match, mapping: Dict, v: string)
    requires WellFormed(m)
    requires Get(mapping, LookupKey(m.value)) == Some(v)
    ensures Rewrite(MatchText(m), mapping)
            == m.name + "=" + [m.open] + (PhpTemplateUri + "/assets/" + LStrip(v, IsSlash)) + [m.open]
  {
    SingleAttribute(m, mapping);
  }

  /**
   * Without an exact key, the first entry in mapping order whose key has the
   * same base name supplies the value, provided that value is not empty.
   */
  lemma BaseNameRewritten(m: Match, mapping: Dict, i: nat)
    requires WellFormed(m)
    requires Get(mapping, LookupKey(m.value)).None?
    requires i < |mapping| && Name(mapping[i].0) == Name(LookupKey(m.value)) && mapping[i].1 != ""
    requires forall j | 0 <= j < i :: Name(mapping[j].0) != Name(LookupKey(m.value))
    ensures Rewrite(MatchText(m), mapping)
            == m.name + "=" + [m.open] + (PhpTemplateUri + "/assets/" + LStrip(mapping[i].1, IsSlash)) + [m.open]
  {
    SingleAttribute(m, mapping);
    assert FirstWithName(mapping, Name(LookupKey(m.value))) == Some(i);
  }

  /**
   * A match is left exactly as written when its key is not in the mapping
   * and either no key shares its base name or the first one that does maps
   * to the empty string.
   */
  lemma UnresolvedUnchanged(m: Match, mapping: Dict)
    requires WellFormed(m)
    requires Get(mapping, LookupKey(m.value)).None?
    requires forall j | 0 <= j < |mapping| && Name(mapping[j].0) == Name(LookupKey(m.value)) ::
               (exists j' | 0 <= j' < j :: Name(mapping[j'].0) == Name(LookupKey(m.value))) || mapping[j].1 == ""
    ensures Rewrite(MatchText(m), mapping) == MatchText(m)
  {
    SingleAttribute(m, mapping);
  }

  /** An attribute on its own is rewritten by `repl` alone. */
  lemma SingleAttribute(m: Match, mapping: Dict)
    requires WellFormed(m)
    ensures Rewrite(MatchText(m), mapping) == ReplOf(m, mapping)
  {
    var t := MatchText(m);
    MatchAtComplete(t, m);
    assert t[|t|..] == [];
    assert Tokenize(t) == [Attr(m)];
    assert Render([Attr(m)], mapping) == ReplOf(m, mapping) + Render([], mapping);
  }

  /** One step of the scan: the text at the front is either a match or a character copied as it is. */
  lemma RewriteStep(s: string, mapping: Dict)
    requires s != []
    ensures MatchAt(s).Some? ==>
              Rewrite(s, mapping) == ReplOf(MatchAt(s).value, mapping) + Rewrite(s[|MatchText(MatchAt(s).value)|..], mapping)
    ensures MatchAt(s).None? ==> Rewrite(s, mapping) == [s[0]] + Rewrite(s[1..], mapping)
  {
    var pieces := Tokenize(s);
    assert pieces[1..] == Tokenize(if MatchAt(s).Some? then s[|MatchText(MatchAt(s).value)|..] else s[1..]);
  }

  /** Text is changed only inside matches that resolve: with none resolving, the text is returned as it was. */
  lemma {:induction false} NothingResolvedUnchanged(pieces: seq<Piece>, mapping: Dict)
    requires forall i | 0 <= i < |pieces| && pieces[i].Attr? :: Resolve(pieces[i].m.value, mapping).None?
    ensures Render(pieces, mapping) == Original(pieces)
  {
    if pieces != [] {
      NothingResolvedUnchanged(pieces[1..], mapping);
    }
  }

  /** With an empty mapping the rewriter returns its input unchanged. */
  lemma EmptyMappingUnchanged(html: string)
    ensures Rewrite(html, []) == html
  {
    var pieces := Tokenize(html);
    forall i | 0 <= i < |pieces| && pieces[i].Attr?
      ensures Resolve(pieces[i].m.value, []).None?
    {
      assert FirstWithName([], Name(LookupKey(pieces[i].m.value))).None?;
    }
    NothingResolvedUnchanged(pieces, []);
    TokenizeLossless(html);
  }

  /** Rewriting distributes over the pieces of a text. */
  lemma {:induction false} RenderAppend(a: seq<Piece>, b: seq<Piece>, mapping: Dict)
    ensures Render(a + b, mapping) == Render(a, mapping) + Render(b, mapping)
  {
    if a == [] {
      assert a + b == b;
    } else {
      assert (a + b)[1..] == a[1..] + b;
      RenderAppend(a[1..], b, mapping);
    }
  }

  /**
   * `repl` as the converter runs it: the exact key first, then a scan of
   * the mapping for the first key with the same base name.
   */
  method Repl(m: Match, mapping: Dict) returns (out: string)
    ensures out == ReplOf(m, mapping)
  {
    var key := LStrip(m.value, IsDotOrSlash);
    key := Replace(key, "\\", "/");
    assert key == LookupKey(m.value);
    var newValue: string;
    match Get(mapping, key) {
      case Some(v) =>
        newValue := v;
      case None =>
        var basename := Name(key);
        var found := FindByBaseName(mapping, basename);
        if found.Some? && found.value != "" {
          newValue := found.value;
        } else {
          assert Resolve(m.value, mapping).None?;
          return MatchText(m);
        }
    }
    assert Resolve(m.value, mapping) == Some(newValue);
    newValue := LStrip(newValue, IsSlash);
    var php := PhpTemplateUri + "/assets/" + newValue;
    out := m.name + "=" + [m.open] + php + [m.open];
    assert out == Rewritten(m, Resolve(m.value, mapping).value);
  }

  /** The `for`/`break` scan for the first entry whose key has base name `basename`. */
  method FindByBaseName(mapping: Dict, basename: string) returns (found: Option<string>)
    ensures found.Some? <==> FirstWithName(mapping, basename).Some?
    ensures found.Some? ==> found.value == mapping[FirstWithName(mapping, basename).value].1
  {
    found := None;
    for i := 0 to |mapping|
      invariant found.None?
      invariant forall j | 0 <= j < i :: Name(mapping[j].0) != basename
    {
      if Name(mapping[i].0) == basename {
        found := Some(mapping[i].1);
        FirstWithNameAt(mapping, basename, i);
        return;
      }
    }
    FirstWithNameAt(mapping, basename, |mapping|);
  }

  /** The first same-name entry is the one the scan stops at. */
  lemma {:induction false} FirstWithNameAt(mapping: Dict, name: string, i: nat)
    requires i <= |mapping|
    requires forall j | 0 <= j < i :: Name(mapping[j].0) != name
    requires i < |mapping| ==> Name(mapping[i].0) == name
    ensures FirstWithName(mapping, name) == if i < |mapping| then Some(i) else None
  {
    if |mapping| > 0 && i > 0 {
      FirstWithNameAt(mapping[1..], name, i - 1);
    }
  }

  lemma ScanMatch(html: string, i: nat, m: Match, mapping: Dict)
    requires i < |html| && MatchAt(html[i..]) == Some(m)
    ensures i + |MatchText(m)| <= |html|
    ensures Rewrite(html[i..], mapping) == ReplOf(m, mapping) + Rewrite(html[i + |MatchText(m)|..], mapping)
  {
    RewriteStep(html[i..], mapping);
    assert html[i + |MatchText(m)|..] == html[i..][|MatchText(m)|..];
  }

  lemma ScanPlain(html: string, i: nat, mapping: Dict)
    requires i < |html| && MatchAt(html[i..]).None?
    ensures Rewrite(html[i..], mapping) == [html[i]] + Rewrite(html[i + 1..], mapping)
  {
    RewriteStep(html[i..], mapping);
    assert html[i + 1..] == html[i..][1..];
  }

  /**
   * One step of the regular-expression scan at position `i`: the
   * replacement of the match that starts there, or the character there
   * when no match does, and the position the scan resumes at.
   */
  method ScanStep(html: string, i: nat, mapping: Dict) returns (piece: string, next: nat)
    requires i < |html|
    ensures i < next <= |html|
    ensures Rewrite(html[i..], mapping) == piece + Rewrite(html[next..], mapping)
  {
    var found := MatchAt(html[i..]);
    if found.Some? {
      var m := found.value;
      ScanMatch(html, i, m, mapping);
      next := i + |MatchText(m)|;
      assert html[next..] == html[i + |MatchText(m)|..];
      piece := Repl(m, mapping);
    } else {
      ScanPlain(html, i, mapping);
      piece, next := [html[i]], i + 1;
    }
  }

  /** The regular-expression substitution: a left-to-right scan calling `Repl` on every match. */
  method ReplaceAssetPathsInHtml(html: string, mapping: Dict) returns (out: string)
    ensures out == Rewrite(html, mapping)
  {
    out := [];
    var i := 0;
    assert html[0..] == html;
    while i < |html|
      invariant 0 <= i <= |html|
      invariant out + Rewrite(html[i..], mapping) == Rewrite(html, mapping)
      decreases |html| - i
    {
      var piece, next := ScanStep(html, i, mapping);
      assert (out + piece) + Rewrite(html[next..], mapping) == out + (piece + Rewrite(html[next..], mapping));
      out, i := out + piece, next;
    }
    assert html[i..] == [];
  }

  /**
   * The rewriter does not consult `is_remote`: a scheme-relative value
   * `//k` loses its leading slashes in the key lookup, so when `k` is a
   * mapping key the remote reference is rewritten into the theme, as
   * `src="//a.js"` is with a mapping key `a.js`.
   */
  lemma RemoteValueRewritten(m: Match, mapping: Dict, k: string, v: string)
    requires WellFormed(m) && m.value == "//" + k
    requires k != [] && !IsDotOrSlash(k[0])
    requires forall i | 0 <= i < |k| :: k[i] != '\\'
    requires Get(mapping, k) == Some(v)
    ensures Assets.IsRemote(m.value)
    ensures Rewrite(MatchText(m), mapping)
            == m.name + "=" + [m.open] + (PhpTemplateUri + "/assets/" + LStrip(v, IsSlash)) + [m.open]
  {
    SchemeRelativeKey(k);
    ExactKeyRewritten(m, mapping, v);
    SchemeRelativeIsRemote(k);
  }

  lemma SchemeRelativeKey(k: string)
    requires k != [] && !IsDotOrSlash(k[0])
    requires forall i | 0 <= i < |k| :: k[i] != '\\'
    ensures LookupKey("//" + k) == k
  {
    LStripSkips("//", k, IsDotOrSlash);
    forall i: nat | i < |k|
      ensures !OccursAt(k, "\\", i)
    {
      assert k[i..][..1] == [k[i]];
    }
    ReplaceAbsent(k, "\\", "/");
  }

  lemma SchemeRelativeIsRemote(k: string)
    ensures Assets.IsRemote("//" + k)
  {
    var v := "//" + k;
    assert !IsSpace(v[0]) && !IsSpace(v[1]);
    assert LStrip(v, IsSpace) == v;
    var r := RStrip(v, IsSpace);
    assert |r| >= 2;
    assert StartsWith(r, "//") by { assert r[..2] == v[..2] == "//"; }
  }
}
