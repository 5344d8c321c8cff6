/**
 * The few Python `str` operations the converter relies on, with CPython's
 * semantics: `lstrip`/`rstrip`/`strip`, `startswith`, `replace`, `lower` on
 * ASCII letters and `str()` of a natural number.
 */
module PyStr {

  /** The characters for which `str.isspace()` holds; `str.strip()` with no argument removes these. */
  predicate IsSpace(c: char)
  {
    ('\t' <= c <= '\r') || ('\U{1C}' <= c <= '\U{1F}') || c == ' ' || c == '\U{85}' || c == '\U{A0}'
    || c == '\U{1680}' || ('\U{2000}' <= c <= '\U{200A}') || c == '\U{2028}' || c == '\U{2029}'
    || c == '\U{202F}' || c == '\U{205F}' || c == '\U{3000}'
  }

  /** The character set of `lstrip('./')`. */
  predicate IsDotOrSlash(c: char)
  {
    c == '.' || c == '/'
  }

  /** The character set of `lstrip('/')`. */
  predicate IsSlash(c: char)
  {
    c == '/'
  }

  /**
   * `s.lstrip(chars)`: removes the whole leading run of characters in the set,
   * not a fixed prefix. The three ensures clauses determine the result uniquely.
   */
  function LStrip(s: string, strip: char -> bool): (r: string)
    ensures |r| <= |s| && r == s[|s| - |r|..]
    ensures r == [] || !strip(r[0])
    ensures forall i | 0 <= i < |s| - |r| :: strip(s[i])
    decreases |s|
  {
    if s != [] && strip(s[0]) then
      var r := LStrip(s[1..], strip);
      LStripStep(s, r, strip);
      r
    else s
  }

  /** What one removed leading character adds to the facts about the rest. */
  lemma LStripStep(s: string, r: string, strip: char -> bool)
    requires s != [] && strip(s[0])
    requires |r| <= |s| - 1 && r == s[1..][|s| - 1 - |r|..]
    requires forall i | 0 <= i < |s| - 1 - |r| :: strip(s[1..][i])
    ensures r == s[|s| - |r|..]
    ensures forall i | 0 <= i < |s| - |r| :: strip(s[i])
  {
    assert s[1..][|s| - 1 - |r|..] == s[|s| - |r|..];
    forall i | 0 <= i < |s| - |r|
      ensures strip(s[i])
    {
      if i > 0 {
        assert s[i] == s[1..][i - 1];
      }
    }
  }

  /** `s.rstrip(chars)`: removes the whole trailing run of characters in the set. */
  function RStrip(s: string, strip: char -> bool): (r: string)
    ensures |r| <= |s| && r == s[..|r|]
    ensures r == [] || !strip(r[|r| - 1])
    ensures forall i | |r| <= i < |s| :: strip(s[i])
    decreases |s|
  {
    if s != [] && strip(s[|s| - 1]) then RStrip(s[..|s| - 1], strip) else s
  }

  /** `s.strip()`: removes leading and trailing whitespace. */
  function Strip(s: string): string
  {
    RStrip(LStrip(s, IsSpace), IsSpace)
  }

  lemma {:induction false} LStripSkips(ws: string, t: string, strip: char -> bool)
    requires forall i | 0 <= i < |ws| :: strip(ws[i])
    ensures LStrip(ws + t, strip) == LStrip(t, strip)
    decreases |ws|
  {
    if ws == [] {
      assert ws + t == t;
    } else {
      assert (ws + t)[1..] == ws[1..] + t;
      LStripSkips(ws[1..], t, strip);
    }
  }

  lemma {:induction false} LStripAppend(s: string, t: string, strip: char -> bool)
    ensures LStrip(s, strip) != [] ==> LStrip(s + t, strip) == LStrip(s, strip) + t
    ensures LStrip(s, strip) == [] ==> LStrip(s + t, strip) == LStrip(t, strip)
    decreases |s|
  {
    if s == [] {
      assert s + t == t;
    } else if strip(s[0]) {
      assert (s + t)[1..] == s[1..] + t;
      LStripAppend(s[1..], t, strip);
    }
  }

  lemma {:induction false} RStripSkips(t: string, ws: string, strip: char -> bool)
    requires forall i | 0 <= i < |ws| :: strip(ws[i])
    ensures RStrip(t + ws, strip) == RStrip(t, strip)
    decreases |ws|
  {
    if ws == [] {
      assert t + ws == t;
    } else {
      var n := |ws| - 1;
      assert (t + ws)[..|t + ws| - 1] == t + ws[..n];
      RStripSkips(t, ws[..n], strip);
    }
  }

  /** Whitespace added around a value does not change what `strip()` returns. */
  lemma StripIgnoresPadding(ws: string, s: string, ws': string)
    requires forall i | 0 <= i < |ws| :: IsSpace(ws[i])
    requires forall i | 0 <= i < |ws'| :: IsSpace(ws'[i])
    ensures Strip(ws + s + ws') == Strip(s)
  {
    assert ws + s + ws' == ws + (s + ws');
    LStripSkips(ws, s + ws', IsSpace);
    LStripAppend(s, ws', IsSpace);
    if LStrip(s, IsSpace) != [] {
      RStripSkips(LStrip(s, IsSpace), ws', IsSpace);
    } else {
      assert LStrip(ws', IsSpace) == [];
    }
  }

  /** `s.startswith(prefix)`. */
  predicate StartsWith(s: string, prefix: string)
  {
    |prefix| <= |s| && s[..|prefix|] == prefix
  }

  /** `pat` occurs in `s` starting at index `i`. */
  predicate OccursAt(s: string, pat: string, i: nat)
  {
    i <= |s| && StartsWith(s[i..], pat)
  }

  /**
   * `s.replace(pat, rep)` for a non-empty `pat`: every non-overlapping
   * occurrence, scanning left to right, is replaced; the scan resumes after
   * the replaced occurrence.
   */
  function Replace(s: string, pat: string, rep: string): string
    requires pat != []
    decreases |s|
  {
    if s == [] then []
    else if StartsWith(s, pat) then rep + Replace(s[|pat|..], pat, rep)
    else [s[0]] + Replace(s[1..], pat, rep)
  }

  /** A prefix of `a + rest` where no occurrence of `pat` starts is copied unchanged. */
  lemma {:induction false} ReplaceSkipsPrefix(a: string, rest: string, pat: string, rep: string)
    requires pat != []
    requires forall i: nat | i < |a| :: !OccursAt(a + rest, pat, i)
    ensures Replace(a + rest, pat, rep) == a + Replace(rest, pat, rep)
    decreases |a|
  {
    if a == [] {
      assert a + rest == rest;
    } else {
      var s := a + rest;
      assert !OccursAt(s, pat, 0);
      assert s[0..] == s;
      assert s[1..] == a[1..] + rest;
      forall i: nat | i < |a[1..]|
        ensures !OccursAt(a[1..] + rest, pat, i)
      {
        assert !OccursAt(s, pat, i + 1);
        assert s[i + 1..] == (a[1..] + rest)[i..];
      }
      ReplaceSkipsPrefix(a[1..], rest, pat, rep);
      assert [a[0]] + a[1..] == a;
    }
  }

  /** A string in which `pat` does not occur is left unchanged by `replace`. */
  lemma ReplaceAbsent(s: string, pat: string, rep: string)
    requires pat != []
    requires forall i: nat | i < |s| :: !OccursAt(s, pat, i)
    ensures Replace(s, pat, rep) == s
  {
    assert s + [] == s;
    ReplaceSkipsPrefix(s, [], pat, rep);
  }

  /**
   * When `pat` occurs in `s` exactly once, at `k`, `replace` substitutes
   * `rep` for that occurrence and changes nothing else.
   */
  lemma ReplaceSingleOccurrence(s: string, pat: string, rep: string, k: nat)
    requires pat != [] && OccursAt(s, pat, k)
    requires forall i: nat | i < |s| && OccursAt(s, pat, i) :: i == k
    ensures Replace(s, pat, rep) == s[..k] + rep + s[k + |pat|..]
  {
    var a, m, b := s[..k], s[k..k + |pat|], s[k + |pat|..];
    assert s == a + (m + b);
    forall i: nat | i < |a| ensures !OccursAt(a + (m + b), pat, i) {
      assert i != k;
    }
    ReplaceSkipsPrefix(a, m + b, pat, rep);
    assert StartsWith(m + b, pat) by { assert (m + b) == s[k..]; }
    assert (m + b)[|pat|..] == b;
    forall i: nat | i < |b| ensures !OccursAt(b, pat, i) {
      assert b[i..] == s[k + |pat| + i..];
      var j: nat := k + |pat| + i;
      assert OccursAt(b, pat, i) ==> OccursAt(s, pat, j);
    }
    ReplaceAbsent(b, pat, rep);
  }

  /** ASCII `str.lower()` of one character; see LowerAscii. */
  function LowerChar(c: char): char
  {
    if 'A' <= c <= 'Z' then (c as int + 32) as char else c
  }

  /**
   * `s.lower()` restricted to ASCII letters. The converter lowercases only a
   * file suffix before testing it against an all-ASCII, all-lower-case set.
   */
  function LowerAscii(s: string): (r: string)
    ensures |r| == |s| && forall i | 0 <= i < |s| :: r[i] == LowerChar(s[i])
  {
    seq(|s|, i requires 0 <= i < |s| => LowerChar(s[i]))
  }

  /** `sep.join(parts)`. */
  function Join(parts: seq<string>, sep: string): string
  {
    if parts == [] then []
    else if |parts| == 1 then parts[0]
    else parts[0] + sep + Join(parts[1..], sep)
  }

  /** `''.join(parts)`. */
  function Concat(parts: seq<string>): string
  {
    if parts == [] then [] else parts[0] + Concat(parts[1..])
  }

  lemma {:induction false} ConcatAppend(a: seq<string>, b: seq<string>)
    ensures Concat(a + b) == Concat(a) + Concat(b)
  {
    if a == [] {
      assert a + b == b;
    } else {
      assert (a + b)[1..] == a[1..] + b;
      ConcatAppend(a[1..], b);
    }
  }

  predicate IsDigit(c: char)
  {
    '0' <= c <= '9'
  }

  /** `str(n)` for a natural number: its decimal digits, most significant first, no leading zero. */
  function DecimalString(n: nat): (r: string)
    ensures r != [] && forall i | 0 <= i < |r| :: IsDigit(r[i])
    ensures |r| > 1 ==> r[0] != '0'
    decreases n
  {
    if n < 10 then [('0' as int + n) as char]
    else DecimalString(n / 10) + [('0' as int + n % 10) as char]
  }

  /** The number a string of decimal digits denotes (`int(s)`), the inverse of DecimalString. */
  function DecimalValue(s: string): nat
    requires forall i | 0 <= i < |s| :: IsDigit(s[i])
  {
    if s == [] then 0
    else
      assert IsDigit(s[|s| - 1]);
      DecimalValue(s[..|s| - 1]) * 10 + (s[|s| - 1] as int - '0' as int)
  }

  lemma {:induction false} DecimalRoundTrip(n: nat)
    ensures DecimalValue(DecimalString(n)) == n
    decreases n
  {
    if n >= 10 {
      var d := DecimalString(n / 10);
      var s := DecimalString(n);
      assert s[..|s| - 1] == d;
      DecimalRoundTrip(n / 10);
    }
  }

  /** Distinct numbers have distinct decimal strings. */
  lemma DecimalStringInjective(m: nat, n: nat)
    requires DecimalString(m) == DecimalString(n)
    ensures m == n
  {
    DecimalRoundTrip(m);
    DecimalRoundTrip(n);
  }
}
