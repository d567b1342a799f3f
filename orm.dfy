/**
 * The record store of orm.go: Save, Get and Delete of one record at the
 * physical key `table:key`.
 */
module Orm {
  import opened Wrappers
  import opened Errors
  import opened Json
  import opened Engine
  import opened Keys

  /**
   * Save: marshal the value, then one transaction that sets the entry at
   * `table:key`, with an expiry exactly when ttl > 0. A negative ttl is
   * accepted and means no expiry.
   */
  method Save(db: DB, table: string, key: string, value: Value, ttl: int, now: nat, faults: Faults)
    returns (err: Option<Error>)
    modifies db
    ensures err == if !Encodable(value) then Some(Unsupported) else WriteOutcome(RecordKey(table, key), faults)
    ensures db.data == if err == None then Saved(old(db.data), table, key, value, ttl, now) else old(db.data)
  {
    var data := Marshal(value);
    if data.Err? {
      return Some(data.error);
    }
    var txn := db.data;
    var e := NewEntry(data.value, ttl, now);
    var written := Put(txn, RecordKey(table, key), e, faults);
    if written.Err? {
      return Some(written.error);
    }
    err := db.Commit(written.value, faults);
  }

  /** The committed map after a successful Save. */
  function Saved(s: Store, table: string, key: string, value: Value, ttl: int, now: nat): (r: Store)
    ensures r.Keys == s.Keys + {RecordKey(table, key)}
    ensures forall k :: k in s && k != RecordKey(table, key) ==> r[k] == s[k]
  {
    s[RecordKey(table, key) := NewEntry(Tokens(value), ttl, now)]
  }

  /** Get: look the record up and unmarshal it into an interface{} target. */
  function Get(s: Store, table: string, key: string): (r: Result<Value, Error>)
    ensures RecordKey(table, key) !in s <==> r == Err(KeyNotFound)
  {
    var e :- Lookup(s, RecordKey(table, key));
    Unmarshal(e.doc)
  }

  /** Delete: one transaction that deletes `table:key`; an absent key is not an error. */
  method Delete(db: DB, table: string, key: string, faults: Faults) returns (err: Option<Error>)
    modifies db
    ensures err == WriteOutcome(RecordKey(table, key), faults)
    ensures db.data == if err == None then old(db.data) - {RecordKey(table, key)} else old(db.data)
  {
    var txn := db.data;
    var removed := Remove(txn, RecordKey(table, key), faults);
    if removed.Err? {
      return Some(removed.error);
    }
    err := db.Commit(removed.value, faults);
  }

  // ---- Properties ----

  /** Get after a successful Save of the same record returns the saved value, whatever the ttl. */
  lemma GetAfterSave(s: Store, table: string, key: string, value: Value, ttl: int, now: nat)
    requires Encodable(value)
    ensures Get(Saved(s, table, key, value, ttl, now), table, key) == Ok(value)
  {
    UnmarshalMarshal(value);
  }

  /** The saved entry expires exactly when ttl > 0, at now + ttl. */
  lemma SavedExpiry(s: Store, table: string, key: string, value: Value, ttl: int, now: nat)
    ensures var e := Saved(s, table, key, value, ttl, now)[RecordKey(table, key)];
      (e.expiresAt != 0 <==> ttl > 0) && (ttl > 0 ==> e.expiresAt == now + ttl)
  {
  }

  /** A second Save of the same record replaces the first: the result is as if only the second had run. */
  lemma SaveReplaces(s: Store, table: string, key: string, v1: Value, v2: Value, ttl1: int, ttl2: int, now1: nat, now2: nat)
    requires Encodable(v2)
    ensures Saved(Saved(s, table, key, v1, ttl1, now1), table, key, v2, ttl2, now2) == Saved(s, table, key, v2, ttl2, now2)
    ensures Get(Saved(Saved(s, table, key, v1, ttl1, now1), table, key, v2, ttl2, now2), table, key) == Ok(v2)
  {
    GetAfterSave(s, table, key, v2, ttl2, now2);
  }

  /** Saving one record leaves what Get returns for every other key of the table unchanged. */
  lemma SaveLeavesOthers(s: Store, table: string, key: string, other: string, value: Value, ttl: int, now: nat)
    requires other != key
    ensures Get(Saved(s, table, key, value, ttl, now), table, other) == Get(s, table, other)
  {
    RecordKeyInjective(table, key, other);
  }

  /** After Delete(t, k1), Get(t, k1) fails and Get(t, k2) is unaffected. */
  lemma DeleteThenGet(s: Store, table: string, k1: string, k2: string)
    requires k1 != k2
    ensures Get(s - {RecordKey(table, k1)}, table, k1) == Err(KeyNotFound)
    ensures Get(s - {RecordKey(table, k1)}, table, k2) == Get(s, table, k2)
  {
    RecordKeyInjective(table, k1, k2);
  }
}
