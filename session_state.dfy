/**
 * Streamlit's `st.session_state` as the UI helpers use it: a store of
 * values under text keys that survives reruns and is changed in place.
 * The values are query results (DataFrames) and, for the helpers, opaque.
 */
module Session {

  class SessionState<V> {
    var entries: map<string, V>

    constructor (initial: map<string, V>)
      ensures entries == initial
    {
      entries := initial;
    }
  }

  /** `k.startswith(prefix)` */
  predicate StartsWith(k: string, prefix: string) {
    prefix <= k
  }

  /** The store with every entry whose key starts with `prefix` removed. */
  function WithoutPrefix<V>(m: map<string, V>, prefix: string): (r: map<string, V>)
    ensures forall k :: k in r ==> !StartsWith(k, prefix)
    ensures forall k :: k in m && !StartsWith(k, prefix) ==> k in r && r[k] == m[k]
    ensures r.Keys <= m.Keys
  {
    map k | k in m && !StartsWith(k, prefix) :: m[k]
  }

  /** Clearing a prefix a second time changes nothing. */
  lemma WithoutPrefixIdempotent<V>(m: map<string, V>, prefix: string)
    ensures WithoutPrefix(WithoutPrefix(m, prefix), prefix) == WithoutPrefix(m, prefix)
  {
  }

  /** Every key starts with the empty prefix: clearing it empties the store. */
  lemma WithoutEmptyPrefix<V>(m: map<string, V>)
    ensures WithoutPrefix(m, "") == map[]
  {
    assert forall k :: k in m ==> StartsWith(k, "");
  }

  /** Clearing `p` also clears every longer prefix that starts with `p`. */
  lemma WithoutShorterPrefix<V>(m: map<string, V>, p: string, q: string)
    requires StartsWith(q, p)
    ensures WithoutPrefix(WithoutPrefix(m, q), p) == WithoutPrefix(m, p)
    ensures WithoutPrefix(WithoutPrefix(m, p), q) == WithoutPrefix(m, p)
  {
    forall k | StartsWith(k, q) ensures StartsWith(k, p) {
      assert k[..|p|] == q[..|p|];
    }
  }

  /**
   * Clearing a dataset's prefix and then storing a result under a key with
   * that prefix leaves that result as the dataset's only entry, and the
   * other datasets' entries as they were.
   */
  lemma ClearThenSet<V>(m: map<string, V>, prefix: string, key: string, df: V)
    requires StartsWith(key, prefix)
    ensures forall k :: k in WithoutPrefix(m, prefix)[key := df] && StartsWith(k, prefix) ==> k == key
    ensures WithoutPrefix(m, prefix)[key := df][key] == df
    ensures forall k :: k in m && !StartsWith(k, prefix) ==> WithoutPrefix(m, prefix)[key := df][k] == m[k]
  {
  }
}
