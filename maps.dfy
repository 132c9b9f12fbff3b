/** The `if (!m.containsKey(k)) m.put(k, v)` idiom of the library's tables. */
module Maps {

  /** `m` after a put that happens only when `k` is absent. */
  function PutIfAbsent<K, V>(m: map<K, V>, k: K, v: V): map<K, V> {
    if k in m then m else m[k := v]
  }

  /** The first write wins: the key is present afterwards, holding the old value if there was one, and no other key changes. */
  lemma PutIfAbsentSpec<K, V>(m: map<K, V>, k: K, v: V)
    ensures k in PutIfAbsent(m, k, v)
    ensures PutIfAbsent(m, k, v)[k] == if k in m then m[k] else v
    ensures PutIfAbsent(m, k, v).Keys == m.Keys + {k}
    ensures forall j :: j in m && j != k ==> PutIfAbsent(m, k, v)[j] == m[j]
  {
  }

  /** A second put of the same key changes nothing, whatever its value. */
  lemma PutIfAbsentTwice<K, V>(m: map<K, V>, k: K, v: V, w: V)
    ensures PutIfAbsent(PutIfAbsent(m, k, v), k, w) == PutIfAbsent(m, k, v)
  {
  }
}
