/**
 * The key-value backend as the program uses it, held in memory: the
 * committed records by key, transactions that buffer puts until commit,
 * and durable deletes. Whether a call throws is decided by the caller's
 * `fails` argument, which stands for the backend's failures.
 */
module Backend {
  import opened Wrappers
  import opened Records

  /** The committed record under each key, in key order, null for a missing key. */
  function Lookup(records: map<Key, Bins>, keys: seq<Key>): seq<Option<Bins>>
  {
    seq(|keys|, i requires 0 <= i < |keys| => if keys[i] in records then Some(records[keys[i]]) else None)
  }

  /** An open transaction: the puts tagged with it, by key, not yet visible. */
  class Txn {
    var writes: map<Key, Bins>

    constructor ()
      ensures writes == map[]
    {
      writes := map[];
    }
  }

  class Store {
    /** The committed records: what a read outside a transaction sees. */
    var records: map<Key, Bins>
    /** Every delete request received, in order, whether it succeeded or not. */
    var deleteLog: seq<Key>

    constructor (initial: map<Key, Bins>)
      ensures records == initial && deleteLog == []
    {
      records := initial;
      deleteLog := [];
    }

    /** `Get(null, key)`: the committed record, or null. */
    function Get(key: Key): Option<Bins>
      reads this
    {
      if key in records then Some(records[key]) else None
    }

    /** `Get(null, keys)`: one result per key, in key order, null for a missing key. */
    function BatchGet(keys: seq<Key>): (rs: seq<Option<Bins>>)
      reads this
      ensures |rs| == |keys|
      ensures forall i :: 0 <= i < |keys| ==> rs[i] == Get(keys[i])
    {
      Lookup(records, keys)
    }

    /** `Put(policy with txn, key, bins)`: buffered in the transaction unless it throws. */
    method Put(txn: Txn, key: Key, bins: Bins, fails: bool) returns (ok: bool)
      modifies txn
      ensures ok == !fails
      ensures txn.writes == if ok then old(txn.writes)[key := bins] else old(txn.writes)
    {
      ok := !fails;
      if ok {
        txn.writes := txn.writes[key := bins];
      }
    }

    /** `Commit(txn)`: every buffered put becomes visible at once, or (when it throws) none does. */
    method Commit(txn: Txn, fails: bool) returns (ok: bool)
      modifies this, txn
      ensures ok == !fails
      ensures records == if ok then old(records) + old(txn.writes) else old(records)
      ensures ok ==> txn.writes == map[]
      ensures !ok ==> txn.writes == old(txn.writes)
      ensures deleteLog == old(deleteLog)
    {
      ok := !fails;
      if ok {
        records := records + txn.writes;
        txn.writes := map[];
      }
    }

    /** `Abort(txn)`: the buffered puts are discarded. */
    method Abort(txn: Txn)
      modifies txn
      ensures txn.writes == map[]
    {
      txn.writes := map[];
    }

    /** `Delete(durable policy, key)`: logged; removes the key unless it throws; a missing key is no error. */
    method Delete(key: Key, fails: bool) returns (ok: bool)
      modifies this
      ensures ok == !fails
      ensures deleteLog == old(deleteLog) + [key]
      ensures records == if ok then old(records) - {key} else old(records)
    {
      ok := !fails;
      deleteLog := deleteLog + [key];
      if ok {
        records := records - {key};
      }
    }
  }
}
