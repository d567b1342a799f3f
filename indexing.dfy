/**
 * The index manager of index.go: an index entry at GenerateIndexKey(table,
 * indexKey) holds a JSON list of record keys. Index appends to it in one
 * read-modify-write transaction; QueryIndex reads it back.
 */
module Indexing {
  import opened Wrappers
  import opened Errors
  import opened Json
  import opened Engine
  import opened Keys

  /**
   * The list already stored at `k`, as Index reads it inside its
   * transaction: an absent entry gives the nil slice, an entry that does not
   * decode as a []string gives the decoding error.
   */
  function Existing(s: Store, k: string): (r: Result<Strings, Error>)
    ensures k !in s ==> r == Ok(None)
    ensures k in s ==> r == AsStrings(s[k].doc)
  {
    if k in s then AsStrings(s[k].doc) else Ok(None)
  }

  /** Go's append(xs, ys...): the elements in order, still nil when both are empty and xs is nil. */
  function Append(xs: Strings, ys: seq<string>): (r: Strings)
    ensures Elements(r) == Elements(xs) + ys
    ensures r.None? <==> xs.None? && ys == []
  {
    if ys == [] then xs else Some(Elements(xs) + ys)
  }

  /** The committed map after a successful Index: the extended list, with no expiry, at the index key. */
  function Indexed(s: Store, table: string, indexKey: string, recordKeys: seq<string>): (r: Store)
    requires Existing(s, GenerateIndexKey(table, indexKey)).Ok?
    ensures r.Keys == s.Keys + {GenerateIndexKey(table, indexKey)}
    ensures forall k :: k in s && k != GenerateIndexKey(table, indexKey) ==> r[k] == s[k]
  {
    var k := GenerateIndexKey(table, indexKey);
    s[k := Entry(MarshalStrings(Append(Existing(s, k).value, recordKeys)), 0)]
  }

  /** Index: read the existing list, append the new record keys, write the list back. */
  method Index(db: DB, table: string, indexKey: string, recordKeys: seq<string>, faults: Faults)
    returns (err: Option<Error>)
    modifies db
    ensures var prior := Existing(old(db.data), GenerateIndexKey(table, indexKey));
      err == if prior.Err? then Some(prior.error) else WriteOutcome(GenerateIndexKey(table, indexKey), faults)
    ensures db.data == if err == None then Indexed(old(db.data), table, indexKey, recordKeys) else old(db.data)
  {
    var txn := db.data;
    var k := GenerateIndexKey(table, indexKey);
    var existing: Strings := None;
    var item := Lookup(txn, k);
    if item.Ok? {
      var decoded := AsStrings(item.value.doc);
      if decoded.Err? {
        return Some(decoded.error);
      }
      existing := decoded.value;
    }
    var all := Append(existing, recordKeys);
    var data := MarshalStrings(all);
    var written := Put(txn, k, Entry(data, 0), faults);
    if written.Err? {
      return Some(written.error);
    }
    err := db.Commit(written.value, faults);
  }

  /** QueryIndex: the list stored at the index key; an absent entry is an error. */
  function QueryIndex(s: Store, table: string, indexKey: string): (r: Result<Strings, Error>)
    ensures GenerateIndexKey(table, indexKey) !in s <==> r == Err(KeyNotFound)
    ensures r.Ok? ==> r == Existing(s, GenerateIndexKey(table, indexKey))
  {
    var e :- Lookup(s, GenerateIndexKey(table, indexKey));
    AsStrings(e.doc)
  }

  /** The record keys an index lists before an Index call: none when the entry is absent. */
  function Previous(s: Store, table: string, indexKey: string): seq<string>
  {
    var q := QueryIndex(s, table, indexKey);
    if q.Ok? then Elements(q.value) else []
  }

  // ---- Properties ----

  /**
   * After a successful Index the stored list is the previous list followed by
   * the new record keys, in argument order and with duplicates kept.
   */
  lemma IndexAppends(s: Store, table: string, indexKey: string, recordKeys: seq<string>)
    requires Existing(s, GenerateIndexKey(table, indexKey)).Ok?
    ensures var q := QueryIndex(Indexed(s, table, indexKey, recordKeys), table, indexKey);
      q.Ok? && Elements(q.value) == Previous(s, table, indexKey) + recordKeys
  {
    var k := GenerateIndexKey(table, indexKey);
    AsStringsMarshalStrings(Append(Existing(s, k).value, recordKeys));
  }

  /** A list that was written can be extended again: the index stays readable. */
  lemma IndexedStaysReadable(s: Store, table: string, indexKey: string, recordKeys: seq<string>)
    requires Existing(s, GenerateIndexKey(table, indexKey)).Ok?
    ensures Existing(Indexed(s, table, indexKey, recordKeys), GenerateIndexKey(table, indexKey)).Ok?
  {
    var k := GenerateIndexKey(table, indexKey);
    AsStringsMarshalStrings(Append(Existing(s, k).value, recordKeys));
  }

  /** Index(t, ik, "u1") then Index(t, ik, "u2") on a fresh index: QueryIndex returns ["u1", "u2"]. */
  lemma IndexTwice(s: Store, table: string, indexKey: string)
    requires GenerateIndexKey(table, indexKey) !in s
    ensures var s1 := Indexed(s, table, indexKey, ["u1"]);
      Existing(s1, GenerateIndexKey(table, indexKey)).Ok? &&
      QueryIndex(Indexed(s1, table, indexKey, ["u2"]), table, indexKey) == Ok(Some(["u1", "u2"]))
  {
    var k := GenerateIndexKey(table, indexKey);
    var s1 := Indexed(s, table, indexKey, ["u1"]);
    AsStringsMarshalStrings(Some(["u1"]));
    AsStringsMarshalStrings(Some(["u1", "u2"]));
    assert Existing(s1, k) == Ok(Some(["u1"]));
    assert Append(Some(["u1"]), ["u2"]) == Some(["u1", "u2"]);
  }

  /** An entry that does not decode as a list makes QueryIndex fail as well as Index. */
  lemma UndecodableIndex(s: Store, table: string, indexKey: string)
    requires Existing(s, GenerateIndexKey(table, indexKey)).Err?
    ensures QueryIndex(s, table, indexKey) == Existing(s, GenerateIndexKey(table, indexKey))
  {
  }

  /** Indexing with no record keys on an absent entry stores the nil slice, which reads back as null. */
  lemma IndexNothing(s: Store, table: string, indexKey: string)
    requires GenerateIndexKey(table, indexKey) !in s
    ensures QueryIndex(Indexed(s, table, indexKey, []), table, indexKey) == Ok(None)
    ensures Indexed(s, table, indexKey, [])[GenerateIndexKey(table, indexKey)].doc == [NullTok]
  {
  }
}
