/** BPF hash maps: bounded, and silent about it. */
module BpfMaps {
  import opened Words

  /** `bpf_map_update_elem(.., BPF_ANY)` with its result ignored: a present key is always
      overwritten, an absent one is inserted only while there is room. */
  function HashUpdate<K, V>(m: map<K, V>, maxEntries: nat, k: K, v: V): (r: map<K, V>)
    ensures |m| <= maxEntries ==> |r| <= maxEntries
    ensures m.Keys <= r.Keys <= m.Keys + {k}
    ensures k in r <==> k in m || |m| < maxEntries
    ensures k in r ==> r[k] == v
    ensures forall j :: j in m && j != k ==> r[j] == m[j]
  {
    if k in m || |m| < maxEntries then
      assert m[k := v].Keys == m.Keys + {k};
      m[k := v]
    else m
  }

  /** `bpf_map_delete_elem` with its result ignored. */
  function HashDelete<K, V>(m: map<K, V>, k: K): (r: map<K, V>)
    ensures r.Keys == m.Keys - {k}
    ensures |r| <= |m|
    ensures forall j :: j in r ==> r[j] == m[j]
  {
    var r := m - {k};
    assert |m.Keys| == |r.Keys| + |m.Keys - r.Keys|;
    r
  }

  lemma DeleteAbsent<K, V>(m: map<K, V>, k: K)
    ensures k !in m ==> HashDelete(m, k) == m
  {
  }

  /** A word map keeps the residue of `k`'s true value from its first record on, unless the map was
      full at that moment: then `k` stays out for good. */
  ghost predicate Keeps<K>(m: map<K, U64>, maxEntries: nat, k: K, recorded: bool, value: int) {
    && |m| <= maxEntries
    && (k in m ==> recorded && m[k] == ToU64(value))
    && (k !in m && recorded ==> |m| == maxEntries)
  }

  /** One update, of `k` or of another key, keeps it that way. */
  lemma UpdateKeeps<K>(m: map<K, U64>, maxEntries: nat, other: K, stored: U64, k: K, recorded: bool, value: int, newValue: int)
    requires Keeps(m, maxEntries, k, recorded, value)
    requires other == k && (k in m || !recorded) ==> stored == ToU64(newValue)
    ensures Keeps(HashUpdate(m, maxEntries, other, stored), maxEntries, k, recorded || other == k,
                  if other == k then newValue else value)
  {
    var r := HashUpdate(m, maxEntries, other, stored);
    SubsetSize(m.Keys, r.Keys);
    assert |m.Keys| == |m| && |r.Keys| == |r|;
  }

  lemma SubsetSize<T>(a: set<T>, b: set<T>)
    requires a <= b
    ensures |a| <= |b|
    ensures |a| == |b| ==> a == b
  {
    assert |b| == |a| + |b - a|;
    if |b - a| == 0 {
      assert b - a == {};
    }
  }
}
