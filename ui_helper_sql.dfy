/**
 * The session-state half of `UIHelperSQL` (ui_helper_sql.py): clearing a
 * dataset's stored results and storing a new one. Both are static methods
 * on the one global session state, passed here as `state`.
 */
module UiHelperSql {
  import opened Session

  /**
   * `clear_dataset_keys(prefix)`: takes a snapshot of the keys, then deletes
   * each snapshot key that starts with `prefix`. The store ends as the old
   * store without the prefixed keys, whatever order the snapshot has.
   */
  method ClearDatasetKeys<V>(state: SessionState<V>, prefix: string)
    modifies state
    ensures state.entries == WithoutPrefix(old(state.entries), prefix)
  {
    var keys := state.entries.Keys;
    while keys != {}
      invariant keys <= old(state.entries).Keys
      invariant state.entries.Keys == set k | k in old(state.entries) && (k in keys || !StartsWith(k, prefix))
      invariant forall k :: k in state.entries ==> state.entries[k] == old(state.entries)[k]
      decreases keys
    {
      var k :| k in keys;
      if StartsWith(k, prefix) {
        state.entries := state.entries - {k};
      }
      keys := keys - {k};
    }
  }

  /** `set_query_results(df, key)`: `key` now holds `df`; every other entry is unchanged. */
  method SetQueryResults<V>(state: SessionState<V>, df: V, key: string)
    modifies state
    ensures state.entries == old(state.entries)[key := df]
  {
    state.entries := state.entries[key := df];
  }
}
