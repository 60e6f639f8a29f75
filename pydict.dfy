/** Python's `dict` as the two core modules use it: assignment `d[k] = v`
    overwrites the value of an existing key in place and appends a new key at
    the end, so `list(d.keys())` lists keys in order of first insertion. */
module PyDict {
  import opened Wrappers

  /** Entries in insertion order. */
  datatype Dict<K, V> = Dict(entries: seq<(K, V)>)

  function Keys<K, V>(d: Dict<K, V>): (ks: seq<K>)
    ensures |ks| == |d.entries|
    ensures forall i :: 0 <= i < |ks| ==> ks[i] == d.entries[i].0
  {
    seq(|d.entries|, i requires 0 <= i < |d.entries| => d.entries[i].0)
  }

  /** No key occurs twice. */
  predicate Valid<K(==,!new), V>(d: Dict<K, V>) {
    forall i, j :: 0 <= i < j < |d.entries| ==> d.entries[i].0 != d.entries[j].0
  }

  /** Index of the entry for `k` at or after `from`. */
  function FindFrom<K(==,!new), V>(d: Dict<K, V>, k: K, from: nat): (r: Option<nat>)
    decreases |d.entries| - from
    ensures r.Some? ==> from <= r.value < |d.entries| && d.entries[r.value].0 == k
    ensures r.None? ==> forall i :: from <= i < |d.entries| ==> d.entries[i].0 != k
  {
    if from >= |d.entries| then None
    else if d.entries[from].0 == k then Some(from)
    else FindFrom(d, k, from + 1)
  }

  /** `d.get(k)` */
  function Get<K(==,!new), V>(d: Dict<K, V>, k: K): Option<V> {
    match FindFrom(d, k, 0)
    case Some(i) => Some(d.entries[i].1)
    case None => None
  }

  /** `d[k] = v` */
  function Put<K(==,!new), V>(d: Dict<K, V>, k: K, v: V): (r: Dict<K, V>)
    ensures Valid(d) ==> Valid(r)
    ensures Get(r, k) == Some(v)
    ensures |r.entries| <= |d.entries| + 1
  {
    match FindFrom(d, k, 0)
    case Some(i) =>
      var r := Dict(d.entries[i := (k, v)]);
      assert FindFrom(r, k, 0) == Some(i) by { FindSameKeys(d, r, k, 0); }
      r
    case None =>
      var r := Dict(d.entries + [(k, v)]);
      assert FindFrom(r, k, 0) == Some(|d.entries|) by { FindExtended(d, (k, v), k, 0); }
      r
  }

  /** An existing key keeps its place; a new key goes last. */
  lemma PutKeys<K(!new), V>(d: Dict<K, V>, k: K, v: V)
    ensures Keys(Put(d, k, v)) == if k in Keys(d) then Keys(d) else Keys(d) + [k]
  {
    match FindFrom(d, k, 0)
    case Some(i) =>
      assert Keys(d)[i] == k;
      assert Keys(Put(d, k, v)) == Keys(d);
    case None =>
      assert Keys(d) + [k] == Keys(Put(d, k, v));
  }

  /** Every other key keeps its value. */
  lemma PutOthers<K(!new), V>(d: Dict<K, V>, k: K, v: V)
    ensures forall k' :: k' != k ==> Get(Put(d, k, v), k') == Get(d, k')
  {
    var r := Put(d, k, v);
    forall k' | k' != k
      ensures Get(r, k') == Get(d, k')
    {
      match FindFrom(d, k, 0)
      case Some(i) =>
        FindSameKeys(d, r, k', 0);
      case None =>
        FindExtended(d, (k, v), k', 0);
    }
  }

  /** Two dicts with the same keys at the same positions find every key at the same place. */
  lemma FindSameKeys<K(!new), V>(d: Dict<K, V>, e: Dict<K, V>, k: K, from: nat)
    requires |d.entries| == |e.entries|
    requires forall i :: 0 <= i < |d.entries| ==> d.entries[i].0 == e.entries[i].0
    decreases |d.entries| - from
    ensures FindFrom(d, k, from) == FindFrom(e, k, from)
  {
    if from < |d.entries| && d.entries[from].0 != k {
      FindSameKeys(d, e, k, from + 1);
    }
  }

  /** Appending an entry does not move the keys already present. */
  lemma FindExtended<K(!new), V>(d: Dict<K, V>, kv: (K, V), k: K, from: nat)
    requires from <= |d.entries|
    decreases |d.entries| - from
    ensures FindFrom(Dict(d.entries + [kv]), k, from) ==
            if FindFrom(d, k, from).Some? then FindFrom(d, k, from)
            else if kv.0 == k then Some(|d.entries|) else None
  {
    var e := Dict(d.entries + [kv]);
    if from < |d.entries| {
      assert e.entries[from] == d.entries[from];
      if d.entries[from].0 != k {
        FindExtended(d, kv, k, from + 1);
      }
    }
  }
}
