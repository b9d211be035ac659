/**
 * Python's `dict` as the scraper uses it: entries kept in insertion order, one entry per key,
 * and `d[k] = v` overwriting the value of an existing key in place.
 */
module OrderedDict {
  import opened Wrappers
  import opened Strings

  type Dict = seq<(String, String)>

  predicate KeysDistinct(d: Dict) {
    forall i, j :: 0 <= i < j < |d| ==> d[i].0 != d[j].0
  }

  /** The position of the first entry with key `k`. */
  function KeyIndex(d: Dict, k: String): (r: Option<nat>)
    ensures r.None? <==> forall i :: 0 <= i < |d| ==> d[i].0 != k
    ensures r.Some? ==> r.value < |d| && d[r.value].0 == k
    ensures r.Some? ==> forall i :: 0 <= i < r.value ==> d[i].0 != k
  {
    if d == [] then None
    else if d[0].0 == k then Some(0)
    else
      match KeyIndex(d[1..], k)
      case None => None
      case Some(j) => Some(j + 1)
  }

  /** The first entry with key `k` is the one found. */
  lemma KeyIndexAt(d: Dict, k: String, i: nat)
    requires i < |d| && d[i].0 == k
    requires forall j :: 0 <= j < i ==> d[j].0 != k
    ensures KeyIndex(d, k) == Some(i)
  {
  }

  /** Lookup depends only on the keys in front of the first match: `e` agrees with `d` on
      every key, is at least as long, and adds no entry for `k`. */
  lemma KeyIndexExtend(d: Dict, e: Dict, k: String)
    requires |d| <= |e|
    requires forall i :: 0 <= i < |d| ==> e[i].0 == d[i].0
    requires forall i :: |d| <= i < |e| ==> e[i].0 != k
    ensures KeyIndex(e, k) == KeyIndex(d, k)
  {
    match KeyIndex(d, k)
    case Some(i) => KeyIndexAt(e, k, i);
    case None =>
  }

  /** `d.get(k)`. */
  function Find(d: Dict, k: String): (r: Option<String>)
    ensures r.None? <==> forall i :: 0 <= i < |d| ==> d[i].0 != k
    ensures r.Some? ==> exists i :: 0 <= i < |d| && d[i] == (k, r.value)
  {
    match KeyIndex(d, k)
    case None => None
    case Some(i) => Some(d[i].1)
  }

  predicate HasKey(d: Dict, k: String) {
    Find(d, k).Some?
  }

  /** `d[k] = v`: a present key keeps its place and takes the new value; a new key goes last. */
  function Put(d: Dict, k: String, v: String): (r: Dict)
    ensures Find(r, k) == Some(v)
    ensures forall k' :: k' != k ==> Find(r, k') == Find(d, k')
    ensures |r| == if HasKey(d, k) then |d| else |d| + 1
    ensures forall i :: 0 <= i < |d| ==> r[i].0 == d[i].0
    ensures forall i :: 0 <= i < |d| && d[i].0 != k ==> r[i] == d[i]
    ensures !HasKey(d, k) ==> r[|d|] == (k, v)
  {
    match KeyIndex(d, k)
    case Some(i) =>
      PutAt(d, k, v, i);
      d[i := (k, v)]
    case None =>
      PutAppend(d, k, v);
      d + [(k, v)]
  }

  /** Overwriting the first entry for `k`. */
  lemma PutAt(d: Dict, k: String, v: String, i: nat)
    requires KeyIndex(d, k) == Some(i)
    ensures Find(d[i := (k, v)], k) == Some(v)
    ensures forall k' :: k' != k ==> Find(d[i := (k, v)], k') == Find(d, k')
  {
    var r := d[i := (k, v)];
    KeyIndexAt(r, k, i);
    forall k' | k' != k
      ensures Find(r, k') == Find(d, k')
    {
      FindOther(d, r, k, k');
    }
  }

  /** Appending an entry for a key not yet present. */
  lemma PutAppend(d: Dict, k: String, v: String)
    requires KeyIndex(d, k).None?
    ensures Find(d + [(k, v)], k) == Some(v)
    ensures forall k' :: k' != k ==> Find(d + [(k, v)], k') == Find(d, k')
  {
    var r := d + [(k, v)];
    KeyIndexAt(r, k, |d|);
    forall k' | k' != k
      ensures Find(r, k') == Find(d, k')
    {
      FindOther(d, r, k, k');
    }
  }

  /** A dictionary that changes only entries for `k`, or adds them at the end, looks up
      every other key as before. */
  lemma FindOther(d: Dict, e: Dict, k: String, k': String)
    requires k' != k && |d| <= |e|
    requires forall i :: 0 <= i < |d| ==> e[i].0 == d[i].0
    requires forall i :: 0 <= i < |d| && d[i].0 != k ==> e[i] == d[i]
    requires forall i :: |d| <= i < |e| ==> e[i].0 == k
    ensures Find(e, k') == Find(d, k')
  {
    KeyIndexExtend(d, e, k');
  }

  /** Assignment keeps the keys distinct. */
  lemma PutKeepsDistinct(d: Dict, k: String, v: String)
    requires KeysDistinct(d)
    ensures KeysDistinct(Put(d, k, v))
  {
    var r := Put(d, k, v);
    forall i, j | 0 <= i < j < |r|
      ensures r[i].0 != r[j].0
    {
      if j < |d| {
        assert r[i].0 == d[i].0 && r[j].0 == d[j].0;
      } else {
        assert r[j] == (k, v) && r[i].0 == d[i].0;
      }
    }
  }

  /** The value of the last pair whose key is `k`. */
  function LastValue(pairs: seq<(String, String)>, k: String): Option<String> {
    if pairs == [] then None
    else if pairs[|pairs| - 1].0 == k then Some(pairs[|pairs| - 1].1)
    else LastValue(pairs[..|pairs| - 1], k)
  }

  /** `for k, v in pairs: d[k] = v`. */
  function PutAll(d: Dict, pairs: seq<(String, String)>): Dict
  {
    if pairs == [] then d
    else Put(PutAll(d, pairs[..|pairs| - 1]), pairs[|pairs| - 1].0, pairs[|pairs| - 1].1)
  }

  /** Assigning pairs in order leaves each key with the value of its last pair, and keeps the
      keys distinct. */
  lemma {:induction false} PutAllLastWins(d: Dict, pairs: seq<(String, String)>)
    requires KeysDistinct(d)
    ensures KeysDistinct(PutAll(d, pairs))
    ensures forall k :: Find(PutAll(d, pairs), k) == if LastValue(pairs, k).Some? then LastValue(pairs, k) else Find(d, k)
    decreases |pairs|
  {
    if pairs != [] {
      PutAllLastWins(d, pairs[..|pairs| - 1]);
      PutKeepsDistinct(PutAll(d, pairs[..|pairs| - 1]), pairs[|pairs| - 1].0, pairs[|pairs| - 1].1);
    }
  }

  /** Every key assigned by the pairs ends up in the dictionary. */
  lemma PutAllHasKeys(d: Dict, pairs: seq<(String, String)>, i: nat)
    requires KeysDistinct(d)
    requires i < |pairs|
    ensures HasKey(PutAll(d, pairs), pairs[i].0)
  {
    PutAllLastWins(d, pairs);
    LastValueSome(pairs, i);
  }

  lemma {:induction false} LastValueSome(pairs: seq<(String, String)>, i: nat)
    requires i < |pairs|
    ensures LastValue(pairs, pairs[i].0).Some?
    decreases |pairs|
  {
    if pairs[|pairs| - 1].0 != pairs[i].0 {
      LastValueSome(pairs[..|pairs| - 1], i);
    }
  }

  /** The last pair with key `k` is one of the pairs. */
  lemma {:induction false} LastValueIn(pairs: seq<(String, String)>, k: String)
    requires LastValue(pairs, k).Some?
    ensures (k, LastValue(pairs, k).value) in pairs
    decreases |pairs|
  {
    if pairs[|pairs| - 1].0 != k {
      LastValueIn(pairs[..|pairs| - 1], k);
    }
  }

  /** Assigning distinct keys to an empty dictionary keeps them in order. */
  lemma {:induction false} PutAllDistinct(d: Dict)
    requires KeysDistinct(d)
    ensures PutAll([], d) == d
    decreases |d|
  {
    if d != [] {
      var init := d[..|d| - 1];
      assert KeysDistinct(init);
      PutAllDistinct(init);
      PutNew(init, d[|d| - 1].0, d[|d| - 1].1);
      assert init + [d[|d| - 1]] == d;
    }
  }

  /** In a dictionary, looking a key up gives the value of its last (and only) pair. */
  lemma FindIsLastValue(d: Dict, k: String)
    requires KeysDistinct(d)
    ensures Find(d, k) == LastValue(d, k)
  {
    PutAllLastWins([], d);
    PutAllDistinct(d);
  }

  lemma PutNew(d: Dict, k: String, v: String)
    requires forall i :: 0 <= i < |d| ==> d[i].0 != k
    ensures Put(d, k, v) == d + [(k, v)]
  {
    var r := Put(d, k, v);
    assert !HasKey(d, k);
    assert forall i :: 0 <= i < |r| ==> r[i] == (d + [(k, v)])[i];
  }
}
