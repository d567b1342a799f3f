/**
 * The batch operations of batch.go: many records of one table written or
 * deleted in a single transaction, so that either every write is committed
 * or none is.
 *
 * A Go map is ranged over in an unspecified order, so BatchInsert and
 * BatchUpdate take that order as a parameter `order` listing the keys of
 * `records`. Which error a failing batch reports may depend on that order;
 * whether it fails, and the committed map when it succeeds, do not.
 */
module Batch {
  import opened Wrappers
  import opened Errors
  import opened Seqs
  import opened Json
  import opened Engine
  import opened Keys
  import Orm

  /** The keys listed in `ks`. */
  function Members(ks: seq<string>): (r: set<string>)
    ensures forall k :: k in r <==> k in ks
  {
    set k | k in ks
  }

  lemma MembersSnoc(ks: seq<string>, n: nat)
    requires n < |ks|
    ensures Members(ks[..n + 1]) == Members(ks[..n]) + {ks[n]}
  {
    assert ks[..n + 1] == ks[..n] + [ks[n]];
  }

  /** The physical keys of the records `ks` of `table`. */
  function RecordKeys(table: string, ks: set<string>): (r: set<string>)
    ensures forall k :: k in ks ==> RecordKey(table, k) in r
    ensures forall pk :: pk in r ==> TablePrefix(table) <= pk
  {
    set k | k in ks :: RecordKey(table, k)
  }

  lemma RecordKeyOneToOne(table: string)
    ensures forall a, b :: RecordKey(table, a) == RecordKey(table, b) ==> a == b
  {
    forall a, b | RecordKey(table, a) == RecordKey(table, b) ensures a == b {
      RecordKeyInjective(table, a, b);
    }
  }

  lemma RecordKeysAdd(table: string, ks: set<string>, x: string)
    ensures RecordKeys(table, ks + {x}) == RecordKeys(table, ks) + {RecordKey(table, x)}
  {
  }

  /** The entries of the records `ks`, placed at their physical keys. */
  function Overlay(table: string, entries: map<string, Entry>, ks: set<string>): (r: Store)
    requires ks <= entries.Keys
    ensures forall k :: k in ks ==> RecordKey(table, k) in r && r[RecordKey(table, k)] == entries[k]
    ensures r.Keys == RecordKeys(table, ks)
  {
    RecordKeyOneToOne(table);
    map k | k in ks :: RecordKey(table, k) := entries[k]
  }

  /**
   * The committed map after every entry of `entries` has been written at its
   * record's physical key in `table`: each record holds its new entry, and
   * every other key keeps its old one.
   */
  function Upserted(s: Store, table: string, entries: map<string, Entry>): (r: Store)
    ensures r.Keys == s.Keys + RecordKeys(table, entries.Keys)
    ensures forall k :: k in entries ==> RecordKey(table, k) in r && r[RecordKey(table, k)] == entries[k]
    ensures forall pk :: pk in s && pk !in RecordKeys(table, entries.Keys) ==> r[pk] == s[pk]
  {
    s + Overlay(table, entries, entries.Keys)
  }

  /** Writing one more record on top of an overlay. */
  lemma OverlaySnoc(s: Store, table: string, entries: map<string, Entry>, ks: set<string>, x: string)
    requires ks <= entries.Keys && x in entries
    ensures (s + Overlay(table, entries, ks))[RecordKey(table, x) := entries[x]] == s + Overlay(table, entries, ks + {x})
  {
    OverlayAdd(table, entries, ks, x);
    UnionUpdate(s, Overlay(table, entries, ks), RecordKey(table, x), entries[x]);
  }

  lemma OverlayAdd(table: string, entries: map<string, Entry>, ks: set<string>, x: string)
    requires ks <= entries.Keys && x in entries
    ensures Overlay(table, entries, ks + {x}) == Overlay(table, entries, ks)[RecordKey(table, x) := entries[x]]
  {
    var a := Overlay(table, entries, ks + {x});
    var b := Overlay(table, entries, ks)[RecordKey(table, x) := entries[x]];
    RecordKeysAdd(table, ks, x);
    forall pk | pk in a ensures a[pk] == b[pk] {
      if pk != RecordKey(table, x) {
        var k :| k in ks && pk == RecordKey(table, k);
      }
    }
  }

  lemma UnionUpdate(s: Store, o: Store, k: string, e: Entry)
    ensures (s + o)[k := e] == s + o[k := e]
  {
  }

  // ---- BatchInsert ----

  /** The entry BatchInsert writes for each record: the encoded value, with an expiry when ttl > 0. */
  function InsertEntries(records: map<string, Value>, ttl: int, now: nat): (r: map<string, Entry>)
    ensures r.Keys == records.Keys
    ensures forall k :: k in records ==>
      r[k].doc == Tokens(records[k]) && (r[k].expiresAt != 0 <==> ttl > 0) && (ttl > 0 ==> r[k].expiresAt == now + ttl)
  {
    map k | k in records :: NewEntry(Tokens(records[k]), ttl, now)
  }

  /** The entry of one record is the one badger.NewEntry builds for it. */
  lemma InsertEntryOf(records: map<string, Value>, ttl: int, now: nat, k: string)
    requires k in records
    ensures InsertEntries(records, ttl, now)[k] == NewEntry(Tokens(records[k]), ttl, now)
  {
  }

  /** Why BatchInsert stops at record `k`, if it does. */
  function InsertFailure(table: string, records: map<string, Value>, faults: Faults, k: string): Option<Error>
  {
    if k !in records then None
    else if !Encodable(records[k]) then Some(MarshalFailed(k, Unsupported))
    else if RecordKey(table, k) in faults.refused then Some(SetFailed(k, WriteRefused(RecordKey(table, k))))
    else None
  }

  function InsertCheck(table: string, records: map<string, Value>, faults: Faults): string -> Option<Error>
  {
    k => InsertFailure(table, records, faults, k)
  }

  /**
   * The body of BatchInsert's transaction: marshal and set each record in
   * the given order, stopping at the first failure.
   */
  method InsertBody(txn0: Store, table: string, records: map<string, Value>, order: seq<string>, ttl: int, now: nat, faults: Faults)
    returns (txn: Store, err: Option<Error>)
    requires forall k :: k in order ==> k in records
    ensures err == FirstSome(order, InsertCheck(table, records, faults))
    ensures err == None ==> txn == txn0 + Overlay(table, InsertEntries(records, ttl, now), Members(order))
  {
    ghost var check := InsertCheck(table, records, faults);
    ghost var entries := InsertEntries(records, ttl, now);
    txn := txn0;
    var i := 0;
    assert order[..0] == [];
    while i < |order|
      invariant i <= |order|
      invariant FirstSome(order[..i], check) == None
      invariant txn == txn0 + Overlay(table, entries, Members(order[..i]))
    {
      var key := order[i];
      FirstSomeStep(order, i, check);
      var data := Marshal(records[key]);
      if data.Err? {
        FirstSomePrefix(order, i + 1, check);
        return txn, Some(MarshalFailed(key, data.error));
      }
      var e := NewEntry(data.value, ttl, now);
      InsertEntryOf(records, ttl, now, key);
      var written := Put(txn, RecordKey(table, key), e, faults);
      if written.Err? {
        FirstSomePrefix(order, i + 1, check);
        return txn, Some(SetFailed(key, written.error));
      }
      OverlaySnoc(txn0, table, entries, Members(order[..i]), key);
      MembersSnoc(order, i);
      txn := written.value;
      i := i + 1;
    }
    assert order[..i] == order;
    err := None;
  }

  /**
   * BatchInsert: one transaction that writes every record of `records` at
   * `table:key`, with an expiry when ttl > 0.
   */
  method BatchInsert(db: DB, table: string, records: map<string, Value>, order: seq<string>, ttl: int, now: nat, faults: Faults)
    returns (err: Option<Error>)
    requires forall k :: k in order <==> k in records
    modifies db
    ensures err == Outcome(FirstSome(order, InsertCheck(table, records, faults)), faults)
    ensures db.data == if err == None then Upserted(old(db.data), table, InsertEntries(records, ttl, now)) else old(db.data)
  {
    var m := db.data;
    var txn, bodyErr := InsertBody(m, table, records, order, ttl, now, faults);
    if bodyErr.Some? {
      return bodyErr;
    }
    assert Members(order) == InsertEntries(records, ttl, now).Keys;
    err := db.Commit(txn, faults);
  }

  // ---- BatchUpdate ----

  /** txn.Set writes an entry without an expiry. */
  function UpdateEntries(records: map<string, Value>): (r: map<string, Entry>)
    ensures r.Keys == records.Keys
    ensures forall k :: k in records ==> r[k] == Entry(Tokens(records[k]), 0)
  {
    map k | k in records :: Entry(Tokens(records[k]), 0)
  }

  /** Why BatchUpdate stops at record `k`, if it does. */
  function UpdateFailure(table: string, records: map<string, Value>, faults: Faults, k: string): Option<Error>
  {
    if k !in records then None
    else if !Encodable(records[k]) then Some(MarshalFailed(k, Unsupported))
    else if RecordKey(table, k) in faults.refused then Some(UpdateFailed(k, WriteRefused(RecordKey(table, k))))
    else None
  }

  function UpdateCheck(table: string, records: map<string, Value>, faults: Faults): string -> Option<Error>
  {
    k => UpdateFailure(table, records, faults, k)
  }

  /** The body of BatchUpdate's transaction: marshal and set each record, with no existence check. */
  method UpdateBody(txn0: Store, table: string, records: map<string, Value>, order: seq<string>, faults: Faults)
    returns (txn: Store, err: Option<Error>)
    requires forall k :: k in order ==> k in records
    ensures err == FirstSome(order, UpdateCheck(table, records, faults))
    ensures err == None ==> txn == txn0 + Overlay(table, UpdateEntries(records), Members(order))
  {
    ghost var check := UpdateCheck(table, records, faults);
    ghost var entries := UpdateEntries(records);
    txn := txn0;
    var i := 0;
    assert order[..0] == [];
    while i < |order|
      invariant i <= |order|
      invariant FirstSome(order[..i], check) == None
      invariant txn == txn0 + Overlay(table, entries, Members(order[..i]))
    {
      var key := order[i];
      FirstSomeStep(order, i, check);
      var data := Marshal(records[key]);
      if data.Err? {
        FirstSomePrefix(order, i + 1, check);
        return txn, Some(MarshalFailed(key, data.error));
      }
      var written := Put(txn, RecordKey(table, key), Entry(data.value, 0), faults);
      if written.Err? {
        FirstSomePrefix(order, i + 1, check);
        return txn, Some(UpdateFailed(key, written.error));
      }
      OverlaySnoc(txn0, table, entries, Members(order[..i]), key);
      MembersSnoc(order, i);
      txn := written.value;
      i := i + 1;
    }
    assert order[..i] == order;
    err := None;
  }

  /** BatchUpdate: one transaction that sets every record of `records` at `table:key`, without an expiry. */
  method BatchUpdate(db: DB, table: string, records: map<string, Value>, order: seq<string>, faults: Faults)
    returns (err: Option<Error>)
    requires forall k :: k in order <==> k in records
    modifies db
    ensures err == Outcome(FirstSome(order, UpdateCheck(table, records, faults)), faults)
    ensures db.data == if err == None then Upserted(old(db.data), table, UpdateEntries(records)) else old(db.data)
  {
    var m := db.data;
    var txn, bodyErr := UpdateBody(m, table, records, order, faults);
    if bodyErr.Some? {
      return bodyErr;
    }
    assert Members(order) == UpdateEntries(records).Keys;
    err := db.Commit(txn, faults);
  }

  // ---- BatchDelete ----

  function DeleteFailure(table: string, faults: Faults, k: string): Option<Error>
  {
    if RecordKey(table, k) in faults.refused then Some(DeleteFailed(k, WriteRefused(RecordKey(table, k)))) else None
  }

  function DeleteCheck(table: string, faults: Faults): string -> Option<Error>
  {
    k => DeleteFailure(table, faults, k)
  }

  /** The body of BatchDelete's transaction: delete each listed record in order, stopping at the first failure. */
  method DeleteBody(txn0: Store, table: string, keys: seq<string>, faults: Faults)
    returns (txn: Store, err: Option<Error>)
    ensures err == FirstSome(keys, DeleteCheck(table, faults))
    ensures err == None ==> txn == txn0 - RecordKeys(table, Members(keys))
  {
    ghost var check := DeleteCheck(table, faults);
    txn := txn0;
    var i := 0;
    assert keys[..0] == [];
    while i < |keys|
      invariant i <= |keys|
      invariant FirstSome(keys[..i], check) == None
      invariant txn == txn0 - RecordKeys(table, Members(keys[..i]))
    {
      var key := keys[i];
      FirstSomeStep(keys, i, check);
      var removed := Remove(txn, RecordKey(table, key), faults);
      if removed.Err? {
        FirstSomePrefix(keys, i + 1, check);
        return txn, Some(DeleteFailed(key, removed.error));
      }
      RemoveOneMore(txn0, table, Members(keys[..i]), key);
      MembersSnoc(keys, i);
      txn := removed.value;
      i := i + 1;
    }
    assert keys[..i] == keys;
    err := None;
  }

  lemma RemoveOneMore(s: Store, table: string, ks: set<string>, x: string)
    ensures s - RecordKeys(table, ks) - {RecordKey(table, x)} == s - RecordKeys(table, ks + {x})
  {
    assert RecordKeys(table, ks + {x}) == RecordKeys(table, ks) + {RecordKey(table, x)};
  }

  /** BatchDelete: one transaction that deletes `table:key` for every listed key; absent records are not an error. */
  method BatchDelete(db: DB, table: string, keys: seq<string>, faults: Faults) returns (err: Option<Error>)
    modifies db
    ensures err == Outcome(FirstSome(keys, DeleteCheck(table, faults)), faults)
    ensures db.data == if err == None then old(db.data) - RecordKeys(table, Members(keys)) else old(db.data)
  {
    var m := db.data;
    var txn, bodyErr := DeleteBody(m, table, keys, faults);
    if bodyErr.Some? {
      return bodyErr;
    }
    err := db.Commit(txn, faults);
  }

  // ---- Properties ----

  /**
   * Whether a batch insert succeeds does not depend on the order the map is
   * ranged over: its body fails exactly when some record cannot be marshalled
   * or written, and then with that record's error.
   */
  lemma InsertFailsIff(table: string, records: map<string, Value>, order: seq<string>, faults: Faults)
    requires forall k :: k in order <==> k in records
    ensures FirstSome(order, InsertCheck(table, records, faults)).None? <==>
            forall k :: k in records ==> Encodable(records[k]) && RecordKey(table, k) !in faults.refused
    ensures forall e :: FirstSome(order, InsertCheck(table, records, faults)) == Some(e) ==>
            exists k :: k in records && InsertFailure(table, records, faults, k) == Some(e)
  {
    var check := InsertCheck(table, records, faults);
    if FirstSome(order, check).None? {
      forall k | k in records ensures Encodable(records[k]) && RecordKey(table, k) !in faults.refused {
        var i :| 0 <= i < |order| && order[i] == k;
        assert check(order[i]).None?;
      }
    }
  }

  /** The same for a batch update. */
  lemma UpdateFailsIff(table: string, records: map<string, Value>, order: seq<string>, faults: Faults)
    requires forall k :: k in order <==> k in records
    ensures FirstSome(order, UpdateCheck(table, records, faults)).None? <==>
            forall k :: k in records ==> Encodable(records[k]) && RecordKey(table, k) !in faults.refused
  {
    var check := UpdateCheck(table, records, faults);
    if FirstSome(order, check).None? {
      forall k | k in records ensures Encodable(records[k]) && RecordKey(table, k) !in faults.refused {
        var i :| 0 <= i < |order| && order[i] == k;
        assert check(order[i]).None?;
      }
    }
  }

  /** A batch delete fails exactly when one of the listed records cannot be deleted. */
  lemma DeleteFailsIff(table: string, keys: seq<string>, faults: Faults)
    ensures FirstSome(keys, DeleteCheck(table, faults)).None? <==>
            forall i :: 0 <= i < |keys| ==> RecordKey(table, keys[i]) !in faults.refused
  {
    var check := DeleteCheck(table, faults);
    if FirstSome(keys, check).None? {
      forall i | 0 <= i < |keys| ensures RecordKey(table, keys[i]) !in faults.refused {
        assert check(keys[i]).None?;
      }
    }
  }

  /** The reference: orm.go's Save applied to each record in turn. */
  function SaveAll(s: Store, table: string, records: map<string, Value>, order: seq<string>, ttl: int, now: nat): Store
    requires forall k :: k in order ==> k in records
    decreases |order|
  {
    if order == [] then s
    else
      var last := order[|order| - 1];
      Orm.Saved(SaveAll(s, table, records, order[..|order| - 1], ttl, now), table, last, records[last], ttl, now)
  }

  lemma {:induction false} SaveAllOverlay(s: Store, table: string, records: map<string, Value>, order: seq<string>, ttl: int, now: nat)
    requires forall k :: k in order ==> k in records
    ensures SaveAll(s, table, records, order, ttl, now) == s + Overlay(table, InsertEntries(records, ttl, now), Members(order))
    decreases |order|
  {
    var n := |order|;
    if n == 0 {
      assert Members(order) == {};
    } else {
      var init, x := order[..n - 1], order[n - 1];
      var entries := InsertEntries(records, ttl, now);
      var before := SaveAll(s, table, records, init, ttl, now);
      InsertEntryOf(records, ttl, now, x);
      assert SaveAll(s, table, records, order, ttl, now) == before[RecordKey(table, x) := entries[x]];
      SaveAllOverlay(s, table, records, init, ttl, now);
      OverlaySnoc(s, table, entries, Members(init), x);
      MembersSnoc(order, n - 1);
      assert order[..n] == order;
    }
  }

  /** A successful BatchInsert commits what saving the records one by one with Save would, in any order. */
  lemma BatchInsertIsSaves(s: Store, table: string, records: map<string, Value>, order: seq<string>, ttl: int, now: nat)
    requires forall k :: k in order <==> k in records
    ensures SaveAll(s, table, records, order, ttl, now) == Upserted(s, table, InsertEntries(records, ttl, now))
  {
    SaveAllOverlay(s, table, records, order, ttl, now);
    assert Members(order) == records.Keys;
  }

  /** After a successful BatchInsert every record reads back as its value. */
  lemma BatchInsertThenGet(s: Store, table: string, records: map<string, Value>, ttl: int, now: nat, key: string)
    requires key in records && Encodable(records[key])
    ensures Orm.Get(Upserted(s, table, InsertEntries(records, ttl, now)), table, key) == Ok(records[key])
  {
    UnmarshalMarshal(records[key]);
  }

  /**
   * After a successful BatchUpdate every record reads back as its value and
   * has no expiry, whether or not it existed before: the update does not
   * check for existence and drops an earlier TTL.
   */
  lemma BatchUpdateThenGet(s: Store, table: string, records: map<string, Value>, key: string)
    requires key in records && Encodable(records[key])
    ensures Orm.Get(Upserted(s, table, UpdateEntries(records)), table, key) == Ok(records[key])
    ensures Upserted(s, table, UpdateEntries(records))[RecordKey(table, key)].expiresAt == 0
  {
    UnmarshalMarshal(records[key]);
  }

  /** The reference: orm.go's Delete applied to each listed key in turn. */
  function DeleteAll(s: Store, table: string, keys: seq<string>): Store
    decreases |keys|
  {
    if keys == [] then s
    else DeleteAll(s, table, keys[..|keys| - 1]) - {RecordKey(table, keys[|keys| - 1])}
  }

  /** A successful BatchDelete commits what deleting the keys one by one would; repeated keys change nothing. */
  lemma {:induction false} BatchDeleteIsDeletes(s: Store, table: string, keys: seq<string>)
    ensures DeleteAll(s, table, keys) == s - RecordKeys(table, Members(keys))
    decreases |keys|
  {
    var n := |keys|;
    if n == 0 {
      assert Members(keys) == {};
      assert RecordKeys(table, {}) == {};
    } else {
      var init := keys[..n - 1];
      BatchDeleteIsDeletes(s, table, init);
      RemoveOneMore(s, table, Members(init), keys[n - 1]);
      MembersSnoc(keys, n - 1);
      assert keys[..n] == keys;
    }
  }

  /** After a successful BatchDelete none of the listed records is found, and every other key is untouched. */
  lemma BatchDeleteThenGet(s: Store, table: string, keys: seq<string>, key: string, other: string)
    requires key in keys
    requires other in s && other !in RecordKeys(table, Members(keys))
    ensures Orm.Get(s - RecordKeys(table, Members(keys)), table, key) == Err(KeyNotFound)
    ensures (s - RecordKeys(table, Members(keys)))[other] == s[other]
  {
  }
}
