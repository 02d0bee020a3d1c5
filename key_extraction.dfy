/**
 * `GetKeysFromList`: the metadata record's list bin, an untyped list, is
 * filtered down to its string elements and each becomes a record key.
 */
module KeyExtraction {
  import opened Wrappers
  import opened Records

  /** The string elements of a list, in list order; every other element is dropped. */
  function StringsOf(values: seq<Value>): seq<string>
  {
    if values == [] then []
    else (if values[0].Str? then [values[0].s] else []) + StringsOf(values[1..])
  }

  /** One key per user key, in order, in the given namespace and set. */
  function KeysFor(ns: string, setName: string, ids: seq<string>): seq<Key>
  {
    seq(|ids|, i requires 0 <= i < |ids| => Key(ns, setName, ids[i]))
  }

  /** Filtering distributes over concatenation: the strings keep their relative order. */
  lemma {:induction false} StringsOfAppend(a: seq<Value>, b: seq<Value>)
    ensures StringsOf(a + b) == StringsOf(a) + StringsOf(b)
  {
    if a != [] {
      assert (a + b)[1..] == a[1..] + b;
      StringsOfAppend(a[1..], b);
    } else {
      assert a + b == b;
    }
  }

  /** A string is kept exactly when it is an element of the list. */
  lemma {:induction false} StringsOfMembers(values: seq<Value>, x: string)
    ensures x in StringsOf(values) <==> Str(x) in values
  {
    if values != [] {
      StringsOfMembers(values[1..], x);
      assert values == [values[0]] + values[1..];
    }
  }

  /** A list made of strings only is kept whole. */
  lemma {:induction false} StringsOfAllStrings(ids: seq<string>)
    ensures StringsOf(seq(|ids|, i requires 0 <= i < |ids| => Str(ids[i]))) == ids
  {
    var values := seq(|ids|, i requires 0 <= i < |ids| => Str(ids[i]));
    if ids != [] {
      StringsOfAllStrings(ids[1..]);
      assert values[1..] == seq(|ids[1..]|, i requires 0 <= i < |ids[1..]| => Str(ids[1..][i]));
    }
  }

  /**
   * Null list: null. Otherwise the string elements are collected in order
   * and each becomes a key in the given namespace and set.
   */
  method GetKeysFromList(rawStoredParts: Option<seq<Value>>, ns: string, setName: string)
    returns (keys: Option<seq<Key>>)
    ensures rawStoredParts.None? ==> keys.None?
    ensures rawStoredParts.Some? ==> keys == Some(KeysFor(ns, setName, StringsOf(rawStoredParts.value)))
  {
    if rawStoredParts.None? {
      return None;
    }
    var raw := rawStoredParts.value;
    var storedParts: seq<string> := [];
    for i := 0 to |raw|
      invariant storedParts == StringsOf(raw[..i])
    {
      assert raw[..i + 1] == raw[..i] + [raw[i]];
      StringsOfAppend(raw[..i], [raw[i]]);
      if raw[i].Str? {
        storedParts := storedParts + [raw[i].s];
      }
    }
    assert raw[..|raw|] == raw;
    var keysToRead := new Key[|storedParts|];
    for i := 0 to |storedParts|
      invariant forall k :: 0 <= k < i ==> keysToRead[k] == Key(ns, setName, storedParts[k])
    {
      keysToRead[i] := Key(ns, setName, storedParts[i]);
    }
    assert keysToRead[..] == KeysFor(ns, setName, storedParts);
    keys := Some(keysToRead[..]);
  }
}
