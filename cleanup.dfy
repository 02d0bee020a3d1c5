/**
 * `CleanExistingRecords`: one durable delete per non-null key of the
 * stale set, each failure swallowed so that the loop goes on.
 */
module Cleanup {
  import opened Wrappers
  import opened Records
  import opened Backend

  /** The non-null keys of a key array, in array order. */
  function NonNull(keys: seq<Option<Key>>): seq<Key>
  {
    if keys == [] then []
    else (if keys[0].Some? then [keys[0].value] else []) + NonNull(keys[1..])
  }

  /** The delete requests cleanup issues: none for a null array. */
  function Deletes(keysToDelete: Option<seq<Option<Key>>>): seq<Key>
  {
    if keysToDelete.None? then [] else NonNull(keysToDelete.value)
  }

  /** The keys cleanup removes: those it asks to delete whose delete does not throw. */
  function Removed(keysToDelete: Option<seq<Option<Key>>>, failing: set<Key>): set<Key>
  {
    set k | k in Deletes(keysToDelete) && k !in failing
  }

  lemma {:induction false} NonNullSnoc(keys: seq<Option<Key>>, key: Option<Key>)
    ensures NonNull(keys + [key]) == NonNull(keys) + (if key.Some? then [key.value] else [])
  {
    if keys != [] {
      assert (keys + [key])[1..] == keys[1..] + [key];
      NonNullSnoc(keys[1..], key);
    } else {
      assert keys + [key] == [key];
    }
  }

  /** Exactly the non-null keys are asked for: `k` is deleted-requested iff it occurs in the array. */
  lemma {:induction false} NonNullMembers(keys: seq<Option<Key>>, k: Key)
    ensures k in NonNull(keys) <==> Some(k) in keys
  {
    if keys != [] {
      NonNullMembers(keys[1..], k);
      assert keys == [keys[0]] + keys[1..];
    }
  }

  /**
   * A key is removed exactly when it is a non-null entry of the array and
   * its own delete does not throw: a failing delete leaves only its own
   * key behind.
   */
  lemma RemovedIff(keys: seq<Option<Key>>, failing: set<Key>, k: Key)
    ensures k in Removed(Some(keys), failing) <==> Some(k) in keys && k !in failing
  {
    NonNullMembers(keys, k);
  }

  /**
   * The cleanup loop. A null array deletes nothing. Otherwise every
   * non-null key gets one delete request, in order, a throwing delete does
   * not stop the later ones, and the records left are the old ones minus
   * the keys whose delete went through.
   */
  method CleanExistingRecords(store: Store, keysToDelete: Option<seq<Option<Key>>>, failing: set<Key>)
    modifies store
    ensures store.deleteLog == old(store.deleteLog) + Deletes(keysToDelete)
    ensures store.records == old(store.records) - Removed(keysToDelete, failing)
  {
    if keysToDelete.None? {
      assert Removed(keysToDelete, failing) == {};
      assert store.records - {} == store.records;
      return;
    }
    var keys := keysToDelete.value;
    for i := 0 to |keys|
      invariant store.deleteLog == old(store.deleteLog) + NonNull(keys[..i])
      invariant store.records == old(store.records) - Removed(Some(keys[..i]), failing)
    {
      assert keys[..i + 1] == keys[..i] + [keys[i]];
      NonNullSnoc(keys[..i], keys[i]);
      if keys[i].Some? {
        var key := keys[i].value;
        var ok := store.Delete(key, key in failing);
        // a throwing delete is reported and skipped
      }
      assert Removed(Some(keys[..i + 1]), failing)
          == Removed(Some(keys[..i]), failing) + (if keys[i].Some? && keys[i].value !in failing then {keys[i].value} else {});
    }
    assert keys[..|keys|] == keys;
  }
}
