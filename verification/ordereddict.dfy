/**
 * A Python `dict` from strings to strings as an insertion-ordered sequence of (key, value) entries.
 * Assigning to a new key appends an entry; assigning to an existing key
 * updates its value in place and keeps its position.
 */
module OrderedDict {
  import opened Wrappers

  type Dict = seq<(string, string)>

  predicate UniqueKeys(d: Dict)
  {
    forall i, j | 0 <= i < j < |d| :: d[i].0 != d[j].0
  }

  /** The position of `k` in `d`, or -1 when `k` is not a key. */
  function IndexOf(d: Dict, k: string): (r: int)
    ensures -1 <= r < |d|
    ensures r >= 0 ==> d[r].0 == k
    ensures forall j | 0 <= j < |d| && (r < 0 || j < r) :: d[j].0 != k
    decreases |d|
  {
    if d == [] then -1
    else if d[0].0 == k then 0
    else
      var i := IndexOf(d[1..], k);
      if i < 0 then -1 else i + 1
  }

  /** Lookup depends only on the sequence of keys. */
  lemma IndexOfSameKeys(d: Dict, e: Dict, k: string)
    requires |d| == |e| && forall j | 0 <= j < |d| :: d[j].0 == e[j].0
    ensures IndexOf(d, k) == IndexOf(e, k)
  {
    var a, b := IndexOf(d, k), IndexOf(e, k);
    if a >= 0 { assert e[a].0 == k; }
    if b >= 0 { assert d[b].0 == k; }
  }

  /** Appending an entry for `k` leaves the positions of the other keys alone. */
  lemma IndexOfAppend(d: Dict, k: string, v: string, k': string)
    requires IndexOf(d, k) < 0
    ensures IndexOf(d + [(k, v)], k') == if k' == k then |d| else IndexOf(d, k')
  {
    var e := d + [(k, v)];
    var a, b := IndexOf(d, k'), IndexOf(e, k');
    if b >= 0 && b < |d| { assert d[b].0 == k'; }
    if a >= 0 { assert e[a].0 == k'; }
    if k' == k { assert e[|d|].0 == k'; }
  }

  /** `k in d` followed by `d[k]`. */
  function Get(d: Dict, k: string): Option<string>
  {
    var i := IndexOf(d, k);
    if i < 0 then None else Some(d[i].1)
  }

  /** `d[k] = v`. */
  function Put(d: Dict, k: string, v: string): (r: Dict)
    ensures Get(r, k) == Some(v)
    ensures forall k' | k' != k :: Get(r, k') == Get(d, k')
    ensures Get(d, k).Some? ==> |r| == |d| && forall j | 0 <= j < |d| :: r[j].0 == d[j].0
    ensures Get(d, k).None? ==> r == d + [(k, v)]
    ensures UniqueKeys(d) ==> UniqueKeys(r)
  {
    var i := IndexOf(d, k);
    if i < 0 then
      var r := d + [(k, v)];
      assert forall k' :: IndexOf(r, k') == if k' == k then |d| else IndexOf(d, k') by {
        forall k' { IndexOfAppend(d, k, v, k'); }
      }
      r
    else
      var r := d[i := (k, v)];
      assert forall k' :: IndexOf(r, k') == IndexOf(d, k') by {
        forall k' { IndexOfSameKeys(r, d, k'); }
      }
      r
  }


  /** The dictionary built by assigning the pairs in order: `d = {}; for k, v in pairs: d[k] = v`. */
  function FromPairs(pairs: seq<(string, string)>): (r: Dict)
    ensures UniqueKeys(r)
  {
    if pairs == [] then []
    else Put(FromPairs(pairs[..|pairs| - 1]), pairs[|pairs| - 1].0, pairs[|pairs| - 1].1)
  }

  /** The value of the last pair whose key is `k`, if any. */
  function LastValue(pairs: seq<(string, string)>, k: string): (r: Option<string>)
    ensures r.None? <==> forall i | 0 <= i < |pairs| :: pairs[i].0 != k
    ensures r.Some? ==> exists i | 0 <= i < |pairs| :: pairs[i] == (k, r.value)
                                                     && forall j | i < j < |pairs| :: pairs[j].0 != k
  {
    if pairs == [] then None
    else if pairs[|pairs| - 1].0 == k then Some(pairs[|pairs| - 1].1)
    else LastValue(pairs[..|pairs| - 1], k)
  }

  /** A key is present exactly when some pair assigned it, and it holds the value of the last such pair. */
  lemma {:induction false} FromPairsGet(pairs: seq<(string, string)>, k: string)
    ensures Get(FromPairs(pairs), k) == LastValue(pairs, k)
  {
    if pairs != [] {
      FromPairsGet(pairs[..|pairs| - 1], k);
    }
  }

  /** When no key repeats, the dictionary holds exactly the pairs, in their order. */
  lemma {:induction false} FromDistinctPairs(pairs: seq<(string, string)>)
    requires UniqueKeys(pairs)
    ensures FromPairs(pairs) == pairs
  {
    if pairs != [] {
      var n := |pairs| - 1;
      var init := pairs[..n];
      UniqueKeysPrefix(pairs, n);
      FromDistinctPairs(init);
      FromPairsGet(init, pairs[n].0);
      FromPairsNewKey(pairs);
      assert pairs == init + [pairs[n]];
    }
  }

  /**
   * A prefix of a dict with unique keys has unique keys. Kept apart from
   * `FromDistinctPairs` to keep that proof small.
   */
  lemma UniqueKeysPrefix(d: Dict, n: nat)
    requires n <= |d| && UniqueKeys(d)
    ensures UniqueKeys(d[..n])
  {
  }

  /** A last pair with a new key is appended. */
  lemma FromPairsNewKey(pairs: seq<(string, string)>)
    requires pairs != [] && Get(FromPairs(pairs[..|pairs| - 1]), pairs[|pairs| - 1].0).None?
    ensures FromPairs(pairs) == FromPairs(pairs[..|pairs| - 1]) + [pairs[|pairs| - 1]]
  {
  }
}
