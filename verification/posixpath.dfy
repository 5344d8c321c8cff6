/**
 * Pure POSIX paths as `pathlib.PurePosixPath` sees them. A path is the
 * sequence of its parts below the root; every path the converter builds
 * hangs below the same absolute site directory, so the root itself is left
 * implicit.
 */
module PosixPath {
  import opened PyStr
  import opened Wrappers

  type Path = seq<string>

  /** A part of a parsed path: never empty, never `.`, never containing `/`. */
  predicate ValidPart(p: string)
  {
    p != [] && p != "." && '/' !in p
  }

  predicate ValidPath(parts: Path)
  {
    forall i | 0 <= i < |parts| :: ValidPart(parts[i])
  }

  /** `s.split('/')`. */
  function Split(s: string): (r: seq<string>)
    ensures r != []
    ensures forall i | 0 <= i < |r| :: '/' !in r[i]
    decreases |s|
  {
    if s == [] then [""]
    else
      var t := Split(s[1..]);
      if s[0] == '/' then [""] + t else [[s[0]] + t[0]] + t[1..]
  }

  /** The segments that survive parsing: empty ones (from `//` or a trailing `/`) and `.` collapse. */
  function KeepParts(segments: seq<string>): (r: Path)
    requires forall i | 0 <= i < |segments| :: '/' !in segments[i]
    ensures ValidPath(r)
  {
    if segments == [] then []
    else if segments[0] == "" || segments[0] == "." then KeepParts(segments[1..])
    else [segments[0]] + KeepParts(segments[1..])
  }

  /** A character missing from `s` is missing from every segment of `s`. */
  lemma {:induction false} SplitAvoids(s: string, c: char)
    requires c !in s
    ensures forall i | 0 <= i < |Split(s)| :: c !in Split(s)[i]
    decreases |s|
  {
    if s != [] {
      assert c !in s[1..];
      SplitAvoids(s[1..], c);
    }
  }

  /** A character missing from `s` is missing from every part of `s`. */
  lemma PartsAvoid(s: string, c: char)
    requires c !in s
    ensures forall i | 0 <= i < |Parts(s)| :: c !in Parts(s)[i]
  {
    SplitAvoids(s, c);
    KeepPartsAvoid(Split(s), c);
  }

  lemma {:induction false} KeepPartsAvoid(segments: seq<string>, c: char)
    requires forall i | 0 <= i < |segments| :: '/' !in segments[i]
    requires forall i | 0 <= i < |segments| :: c !in segments[i]
    ensures forall i | 0 <= i < |KeepParts(segments)| :: c !in KeepParts(segments)[i]
  {
    if segments != [] {
      KeepPartsAvoid(segments[1..], c);
    }
  }

  /** The parts of `PurePosixPath(s)` for a relative string `s`. */
  function Parts(s: string): (r: Path)
    ensures ValidPath(r)
  {
    KeepParts(Split(s))
  }

  /** `.name` of a path given by its parts: the last part, or `""` for an empty path. */
  function NameOf(parts: Path): string
  {
    if parts == [] then "" else parts[|parts| - 1]
  }

  /** `PurePosixPath(s).name`. */
  function Name(s: string): string
  {
    NameOf(Parts(s))
  }

  /** `s.rfind(c)`: the index of the last `c`, or -1. */
  function LastIndexOf(s: string, c: char): (r: int)
    ensures -1 <= r < |s|
    ensures r >= 0 ==> s[r] == c
    ensures forall j | r < j < |s| :: s[j] != c
    decreases |s|
  {
    if s == [] then -1
    else if s[|s| - 1] == c then |s| - 1
    else LastIndexOf(s[..|s| - 1], c)
  }

  /**
   * `.suffix` of a path whose name is `name`: from the last `.` on, but only
   * when that dot is neither the first nor the last character of the name.
   */
  function SuffixOf(name: string): (r: string)
    ensures r != [] ==> 2 <= |r| < |name| && r == name[|name| - |r|..]
                        && r[0] == '.' && forall j | 1 <= j < |r| :: r[j] != '.'
    ensures r == [] <==> forall j | 0 < j < |name| - 1 :: name[j] == '.' ==> name[|name| - 1] == '.'
  {
    var i := LastIndexOf(name, '.');
    if 0 < i < |name| - 1 then name[i..] else []
  }

  /** `PurePosixPath(s).suffix`. */
  function Suffix(s: string): string
  {
    SuffixOf(Name(s))
  }

  /** `str(PurePosixPath(*parts))` for a relative path, which is also its `as_posix()`: `.` when empty. */
  function PathString(parts: Path): string
  {
    if parts == [] then "." else Join(parts, "/")
  }

  /** `p.relative_to(base)`: the remaining parts when `base` is a prefix of `p`, otherwise the ValueError. */
  function RelativeTo(p: Path, base: Path): (r: Option<Path>)
    ensures r.Some? <==> |base| <= |p| && p[..|base|] == base
    ensures r.Some? ==> base + r.value == p
  {
    if |base| <= |p| && p[..|base|] == base then Some(p[|base|..]) else None
  }

  lemma {:induction false} SplitPart(p: string, rest: string)
    requires '/' !in p
    ensures Split(p) == [p]
    ensures Split(p + "/" + rest) == [p] + Split(rest)
    decreases |p|
  {
    if p == [] {
      assert p + "/" + rest == "/" + rest;
      assert ("/" + rest)[1..] == rest;
    } else {
      SplitPart(p[1..], rest);
      assert (p + "/" + rest)[1..] == p[1..] + "/" + rest;
      assert [p[0]] + p[1..] == p;
    }
  }

  /** Printing a parsed path and parsing it again gives back the same parts. */
  lemma {:induction false} PartsOfPathString(parts: Path)
    requires ValidPath(parts)
    ensures Parts(PathString(parts)) == parts
  {
    if parts == [] {
      assert Split(".") == ["."] by { SplitPart(".", ""); }
    } else if |parts| == 1 {
      SplitPart(parts[0], "");
      assert PathString(parts) == parts[0];
      assert ValidPart(parts[0]);
      assert KeepParts([parts[0]]) == [parts[0]] + KeepParts([]);
    } else {
      var rest := parts[1..];
      assert ValidPath(rest);
      PartsOfPathString(rest);
      SplitPart(parts[0], Join(rest, "/"));
      assert PathString(parts) == parts[0] + "/" + Join(rest, "/");
      assert [parts[0]] + rest == parts;
    }
  }

  /** The name of a parsed path is its last part. */
  lemma NameOfPathString(parts: Path)
    requires ValidPath(parts)
    ensures Name(PathString(parts)) == NameOf(parts)
  {
    PartsOfPathString(parts);
  }
}
