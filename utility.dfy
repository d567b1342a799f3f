/**
 * The table utilities of utility.go: counting and listing the records of a
 * table with a prefix scan over `table:`.
 */
module Utility {
  import opened Lex
  import opened Seqs
  import opened Json
  import opened Engine
  import opened Keys
  import Orm

  /** CountRecords: seek to `table:` and count the items while the key starts with it. */
  method CountRecords(db: DB, table: string) returns (count: nat)
    ensures count == |PrefixScan(db.data, TablePrefix(table))|
  {
    var m := db.data;
    var p := TablePrefix(table);
    var it := new Iterator(m);
    count := 0;
    it.Seek(p);
    ghost var keys, start := it.keys, it.pos;
    while it.ValidForPrefix(p)
      invariant it.Inv() && it.snapshot == m && it.keys == keys
      invariant SeekLoop(m, keys, p, start, it.pos) && count == it.pos - start
      decreases |keys| - it.pos
    {
      SeekLoopStep(m, keys, p, start, it.pos);
      count := count + 1;
      it.Next();
    }
    SeekLoopEnds(m, keys, p, start, it.pos);
  }

  /** GetAllKeys: seek to `table:` and collect the keys while they start with it. */
  method GetAllKeys(db: DB, table: string) returns (keys: seq<string>)
    ensures keys == PrefixScan(db.data, TablePrefix(table))
  {
    var m := db.data;
    var p := TablePrefix(table);
    var it := new Iterator(m);
    keys := [];
    it.Seek(p);
    ghost var all, start := it.keys, it.pos;
    while it.ValidForPrefix(p)
      invariant it.Inv() && it.snapshot == m && it.keys == all
      invariant SeekLoop(m, all, p, start, it.pos) && keys == all[start..it.pos]
      decreases |all| - it.pos
    {
      SeekLoopStep(m, all, p, start, it.pos);
      SliceSnoc(all, start, it.pos);
      keys := keys + [it.Key()];
      it.Next();
    }
    SeekLoopEnds(m, all, p, start, it.pos);
  }

  // ---- Properties ----

  /** The stored keys that start with `p`. */
  function PrefixKeys(s: Store, p: string): (r: set<string>)
    ensures forall k :: k in r <==> k in s && p <= k
  {
    set k | k in s && p <= k
  }

  /** A prefix scan lists each stored key with the prefix exactly once. */
  lemma PrefixScanCount(s: Store, p: string)
    ensures |PrefixScan(s, p)| == |PrefixKeys(s, p)|
  {
    ScansSorted(s, p, p, p);
    SortedKeysUnique(PrefixKeys(s, p), PrefixScan(s, p));
  }

  lemma PrefixKeysAdd(s: Store, p: string, k: string, e: Entry)
    requires p <= k
    ensures PrefixKeys(s[k := e], p) == PrefixKeys(s, p) + {k}
    ensures k !in s ==> |PrefixKeys(s[k := e], p)| == |PrefixKeys(s, p)| + 1
    ensures k in s ==> |PrefixKeys(s[k := e], p)| == |PrefixKeys(s, p)|
  {
    assert PrefixKeys(s[k := e], p) == PrefixKeys(s, p) + {k};
    if k in s {
      assert PrefixKeys(s, p) + {k} == PrefixKeys(s, p);
    }
  }

  lemma PrefixKeysRemove(s: Store, p: string, k: string)
    requires p <= k && k in s
    ensures |PrefixKeys(s - {k}, p)| == |PrefixKeys(s, p)| - 1
  {
    assert PrefixKeys(s - {k}, p) == PrefixKeys(s, p) - {k};
  }

  /** Saving a record that was not stored adds exactly one to its table's count. */
  lemma SaveNewRecordCounts(s: Store, table: string, key: string, value: Value, ttl: int, now: nat)
    requires RecordKey(table, key) !in s
    ensures |PrefixScan(Orm.Saved(s, table, key, value, ttl, now), TablePrefix(table))| == |PrefixScan(s, TablePrefix(table))| + 1
  {
    var p := TablePrefix(table);
    var after := Orm.Saved(s, table, key, value, ttl, now);
    PrefixScanCount(s, p);
    PrefixScanCount(after, p);
    PrefixKeysAdd(s, p, RecordKey(table, key), after[RecordKey(table, key)]);
  }

  /** Saving over a stored record leaves its table's count unchanged. */
  lemma SaveExistingRecordCounts(s: Store, table: string, key: string, value: Value, ttl: int, now: nat)
    requires RecordKey(table, key) in s
    ensures |PrefixScan(Orm.Saved(s, table, key, value, ttl, now), TablePrefix(table))| == |PrefixScan(s, TablePrefix(table))|
  {
    var p := TablePrefix(table);
    var after := Orm.Saved(s, table, key, value, ttl, now);
    PrefixScanCount(s, p);
    PrefixScanCount(after, p);
    PrefixKeysAdd(s, p, RecordKey(table, key), after[RecordKey(table, key)]);
  }

  /** Deleting a stored record takes exactly one off its table's count. */
  lemma DeleteRecordCounts(s: Store, table: string, key: string)
    requires RecordKey(table, key) in s
    ensures |PrefixScan(s - {RecordKey(table, key)}, TablePrefix(table))| == |PrefixScan(s, TablePrefix(table))| - 1
  {
    var p := TablePrefix(table);
    PrefixScanCount(s, p);
    PrefixScanCount(s - {RecordKey(table, key)}, p);
    PrefixKeysRemove(s, p, RecordKey(table, key));
  }

  /** The records of table `table:sub` are listed, and counted, as records of `table`. */
  lemma SubTableListed(s: Store, table: string, sub: string, key: string)
    requires RecordKey(table + ":" + sub, key) in s
    ensures RecordKey(table + ":" + sub, key) in PrefixScan(s, TablePrefix(table))
  {
    RecordKeyCollision(table, sub, key);
  }

  /** The index entries of every table are listed, and counted, as records of the table "index". */
  lemma IndexEntriesListed(s: Store, table: string, indexKey: string)
    requires GenerateIndexKey(table, indexKey) in s
    ensures GenerateIndexKey(table, indexKey) in PrefixScan(s, TablePrefix("index"))
  {
    IndexKeyIsRecordKey(table, indexKey);
  }
}
