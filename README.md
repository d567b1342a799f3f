# go-badger-orm key space, in Dafny

This project models the access layer of go-badger-orm, the `badgerorm` package, which stores records and indexes in the Badger key-value engine. The model covers:

- the two physical key encodings:
  - `table:key` for records;
  - `index:table:key`, built by `GenerateIndexKey`;
- the two record stores, each with Save, Get and Delete:
  - orm.go's, which uses `table:key`;
  - query.go's, which uses the index key and refuses a negative TTL;
- the index manager, `Index` and `QueryIndex`;
- the three iterator queries: prefix, inclusive range and skip/take pagination;
- the batch writes and deletes;
- the TTL sweep and the near-expiration query;
- the utility counts.

The engine is the class `Engine.DB` holding a finite map from keys to entries. An entry is a JSON document plus `expiresAt`, where 0 means no expiry.

- **Read-only transactions.** A read uses the committed map.
- **Read-write transactions.** The body works on a copy of the map. The copy replaces the map only when the body reports no error and the commit succeeds.
- **Iterators.** `Engine.Iterator` visits a snapshot's keys in ascending code-point order, which equals byte order on their UTF-8 encodings. Its `Seek(k)` moves to the first key that is at least `k`.
- **Engine failures.** The engine's own write and commit failures enter as a `Faults` parameter.
- **Clock.** "Now" is a parameter.
- **JSON.** Values are modelled at the level of tokens. `Json.Marshal` fails exactly on unsupported values. `Json.Unmarshal` is a parser, and `Json.UnmarshalMarshal` proves the round trip.

Each Go loop is a Dafny `while` loop. It is proved against a specification function of the committed map:

- `PrefixScan`, `RangeScan` and `ScanFrom` are the sorted key lists that a scan visits.
- `Window` is the page that a counting loop keeps.
- `Swept` is the map after the sweep.
- `Upserted` is the map after a batch.

Properties of those functions are then proved as lemmas. For a batch, Go's map-iteration order is a parameter `order`. It decides which error is reported but not whether the batch succeeds, and not the final state.

Some behaviours show up in the proofs:

- **Shared physical key.** query.go's Save writes to the same physical key as `Index`, so it overwrites the index entry: after a string record is saved there, QueryIndex fails with a type mismatch (`Query.SaveClobbersIndex`). In the other direction, an index entry reads back through query.go's Get as a JSON array (`Query.IndexVisibleAsRecord`).
- **Non-injective encodings.** The `:` separator means neither encoding is injective.
- **Sub-table records.** The records of table `t:x` are listed and counted as records of `t`.
- **Pagination scans to the end.** Pagination scans from `table:` to the end of the key space. With a negative pageSize the page bounds turn around: page -2^63 of size -1 keeps every scanned entry (`Query.NegativePageSizeKeepsAll`).
- **Which scans see query.go's records.** `QueryPrefix` never sees records saved by query.go's Save for a table without `:` other than `index`. `QueryWithPagination` does see them whenever the table name sorts before `index`.

Behaviours of the code a caller may not expect:

- **Key validation.** Neither encoding rejects an empty table or key, or one that contains `:`. So the encodings collide: see `Keys.RecordKeyCollision` and `Keys.IndexKeyCollision`.
- **Negative TTL.** Only query.go's Save refuses a negative TTL. orm.go's Save and BatchInsert treat it as no expiry.
- **Reversed range.** When `startKey > endKey`, QueryRange returns the empty list and no error (`Query.RangeEmpty`).
- **Pagination bound.** Pagination is not bounded by the table prefix (see Findings).
- **Expired entries.** This layer neither hides nor rejects expired entries. The model leaves expiry to the sweep.

## Model

| member | source | states |
|---|---|---|
| Keys.RecordKey | badgerorm/orm.go:40 | the record key of `(table, key)` starts with `table:` and is exactly one separator longer than table and key together |
| Keys.GenerateIndexKey | badgerorm/index.go:63-65 | the index key starts with `index:table:` and has length 7 + len(table) + len(indexKey) |
| Keys.RecordKeyInjective | badgerorm/orm.go:40 | for a fixed table, two record keys are equal exactly when the keys are equal |
| Keys.IndexKeyInjective | badgerorm/index.go:64 | for a fixed table, two index keys are equal exactly when the index keys are equal |
| Keys.RecordKeyOrder | badgerorm/orm.go:40 | for a fixed table, `key ↦ table:key` preserves and reflects the lexicographic order |
| Keys.IndexKeyOrder | badgerorm/index.go:64 | for a fixed table, GenerateIndexKey preserves and reflects the lexicographic order |
| Keys.RecordKeyCollision | badgerorm/orm.go:40 | `(a:b, c)` and `(a, b:c)` give the same record key |
| Keys.IndexKeyCollision | badgerorm/index.go:64 | `(a:b, c)` and `(a, b:c)` give the same index key |
| Keys.IndexKeyCollisionExample | badgerorm/index.go:64 | the distinct pairs ("a:b","c") and ("a","b:c") both give "index:a:b:c" |
| Keys.IndexKeyIsRecordKey | badgerorm/index.go:64 | every index key is also the record key of table "index" with key `table:indexKey` |
| Keys.IndexKeyOutsideTable | badgerorm/index.go:64 | for a table without `:` other than "index", no index key of that table starts with `table:` |
| Keys.IndexKeyOutsidePrefix | badgerorm/query.go:78 | under the same condition, no index key of the table starts with the prefix-scan key `table:prefix` |
| Json.UnmarshalMarshal | badgerorm/orm.go:34-37 | json.Unmarshal of the output of a successful json.Marshal gives back the original value |
| Json.AsStringsMarshalStrings | badgerorm/index.go:35 | a marshalled []string is read back as the same slice; a nil slice becomes null and reads back as nil |
| Json.AsStringMarshal | badgerorm/query.go:82-84 | a marshalled string unmarshals into a string target as itself |
| Engine.NewEntry | badgerorm/orm.go:40-43 | the new entry holds the document; it has an expiry exactly when ttl > 0, and then the expiry is now + ttl |
| Engine.DB.Commit | badgerorm/orm.go:39 | the map becomes the transaction's copy exactly when the commit succeeds; otherwise it is unchanged and CommitFailed is returned |
| Engine.Outcome | badgerorm/batch.go:13 | a transaction succeeds exactly when its body reports no error and the commit succeeds; a body error is returned as it is |
| Engine.Iterator.Seek | badgerorm/query.go:79 | after Seek(k), every key before the position is below k and the key at the position, if any, is at least k |
| Engine.SortKeys | badgerorm/query.go:75 | the iterator's key list is the unique strictly ascending listing of the snapshot's keys |
| Engine.SortedKeysSorted | badgerorm/query.go:75 | the iterator's key list is strictly ascending, so no key repeats |
| Engine.SortedKeysUnique | badgerorm/query.go:75 | any strictly ascending sequence with exactly the snapshot's keys is the iterator's list |
| Engine.PrefixScan | badgerorm/query.go:79 | a prefix scan holds exactly the stored keys that start with the prefix |
| Engine.RangeScan | badgerorm/query.go:104 | a range scan holds exactly the stored keys k with lo ≤ k ≤ hi |
| Engine.ScanFrom | badgerorm/query.go:122 | an unbounded scan from lo holds exactly the stored keys that are at least lo |
| Engine.ScansSorted | badgerorm/query.go:75 | every scan lists its keys in strictly ascending order |
| Engine.SeekLoopEnds | badgerorm/utility.go:15 | a Seek/ValidForPrefix loop that stops has visited exactly the prefix scan |
| Orm.Save | badgerorm/orm.go:33-51 | an unsupported value gives Unsupported and writes nothing; otherwise the transaction's outcome is returned, and on success the map is `Saved`, else unchanged |
| Orm.Saved | badgerorm/orm.go:40-44 | Save adds the one key `table:key`; every other entry is unchanged |
| Orm.Get | badgerorm/orm.go:54-65 | Get fails with KeyNotFound exactly when `table:key` is absent |
| Orm.Delete | badgerorm/orm.go:68-77 | the transaction's outcome is returned; on success exactly `table:key` is removed, else the map is unchanged |
| Orm.GetAfterSave | badgerorm/orm.go:40 | Get after a Save of a supported value returns that value |
| Orm.SavedExpiry | badgerorm/orm.go:41-43 | the saved entry expires exactly when ttl > 0, at now + ttl; a negative ttl means no expiry |
| Orm.SaveReplaces | badgerorm/orm.go:40-44 | a second Save to the same record replaces the first, and Get returns the second value |
| Orm.SaveLeavesOthers | badgerorm/orm.go:40 | Save leaves Get of every other key of the table unchanged |
| Orm.DeleteThenGet | badgerorm/orm.go:70 | after Delete(t, k1), Get(t, k1) fails with KeyNotFound and Get(t, k2) is unaffected |
| Query.Save | badgerorm/query.go:14-40 | a negative ttl gives InvalidTtl and writes nothing; an unsupported value gives Unsupported and writes nothing; otherwise the write's outcome is returned, and on success the map is `Saved` at the index key |
| Query.Saved | badgerorm/query.go:26-32 | Save adds the one key GenerateIndexKey(table, key); every other entry is unchanged |
| Query.Get | badgerorm/query.go:43-55 | Get fails with KeyNotFound exactly when the index key is absent |
| Query.Delete | badgerorm/query.go:58-69 | on success exactly GenerateIndexKey(table, key) is removed, else the map is unchanged |
| Query.GetAfterSave | badgerorm/query.go:27-31 | Get after Save of a supported value returns it, and the entry expires exactly when ttl > 0 |
| Query.DeleteOnlyItsKey | badgerorm/query.go:58-61 | after Delete the record is gone, and Get of every other key of the table is unaffected |
| Query.SaveVariants | badgerorm/query.go:27 | query.go's Save is orm.go's Save into table "index" under the key `table:key` |
| Query.SaveClobbersIndex | badgerorm/query.go:27 | after query.go saves a string under (t, k), QueryIndex(t, k) fails with a type mismatch, because the same physical key now holds a string |
| Query.IndexVisibleAsRecord | badgerorm/index.go:15 | after Index(t, k, ks), query.go's Get(t, k) reads the appended index list back as a JSON array (or null) |
| Query.DecodeStringsSpec | badgerorm/query.go:80-88 | decoding stops at the first value that is not a string, returns its error and the values before it; with no error every value is decoded in order |
| Query.DecodeStringsStops | badgerorm/query.go:85-87 | once a decode has failed, scanning further keys does not change the result |
| Query.QueryPrefix | badgerorm/query.go:72-93 | the results are the decoded values of exactly the prefix scan of `table:prefix`, in ascending key order, up to the first decode error |
| Query.PrefixScanMissesSaved | badgerorm/query.go:78 | for a table without `:` other than "index", query.go's Save does not change what QueryPrefix scans |
| Query.QueryRange | badgerorm/query.go:96-111 | the results are exactly the stored keys between the two index keys, inclusive at both ends, in ascending order |
| Query.RangeWithinIndex | badgerorm/query.go:102-104 | every key that QueryRange returns starts with `index:table:` |
| Query.RangeByKey | badgerorm/query.go:102-104 | an index key of the table is returned exactly when it is stored and startKey ≤ key ≤ endKey |
| Query.RangeEmpty | badgerorm/query.go:104 | the range is empty when endKey < startKey |
| Query.WrapSpec | badgerorm/query.go:120 | Go's 64-bit int arithmetic: the wrapped value is an int64 congruent to the exact one, and equal to it when it fits |
| Query.QueryWithPagination | badgerorm/query.go:114-139 | the results are the decoded values at 0-based positions start ≤ c < start + pageSize of the unbounded ascending scan from `table:`, with start = page·pageSize in 64-bit arithmetic, up to the first decode error |
| Query.PageBounds | badgerorm/query.go:120-123 | for non-negative page and pageSize with (page + 1)·pageSize < 2^63, the page is the positions page·pageSize to page·pageSize + pageSize |
| Query.PageSize | badgerorm/query.go:120-123 | for every pair of 64-bit ints with pageSize ≥ 0, overflowing ones included, a page holds at most pageSize values |
| Query.PageElement | badgerorm/query.go:120-132 | item j of a page that starts at a non-negative count is the scan's item at count start + j, and with no decode error result j is its decoded value |
| Query.NegativePageSizeKeepsAll | badgerorm/query.go:120-123 | page -2^63 of size -1 starts at -2^63 and ends at 2^63 - 1, so the page is the whole scan |
| Query.PageWraps | badgerorm/query.go:120 | page 2^62 of size 4 wraps around to positions 0 to 3 (start 0, end 4, end excluded) |
| Query.PaginationCrossesTables | badgerorm/query.go:122 | on the store {"a:1": "x", "b:1": "y"}, page 0 of size 2 of table "a" returns ["x", "y"], one of them from table "b" |
| Query.PaginationAndSavedRecords | badgerorm/query.go:122 | a record saved by query.go's Save is on the pagination scan of table "apple" but not on that of "users" |
| Query.QueryTablePage | badgerorm/query.go:114-139 | the corrected pagination with a prefix bound: the values at positions start ≤ c < start + pageSize of the prefix scan of `table:` |
| Query.TablePageWithinTable | badgerorm/query.go:122 | every key on a corrected page starts with `table:` |
| Query.TablePageStaysInTable | badgerorm/query.go:122 | on the same two-table store, the corrected page 0 of table "a" is ["x"] |
| Indexing.Append | badgerorm/index.go:32 | the elements are the old list followed by the new keys; the result is nil exactly when both are empty and the old one is nil |
| Indexing.Indexed | badgerorm/index.go:41 | Index writes only GenerateIndexKey(table, indexKey); every other entry is unchanged |
| Indexing.Index | badgerorm/index.go:12-43 | an existing entry that does not decode gives its error and writes nothing; otherwise the write's outcome is returned, and on success the map is `Indexed`, else unchanged |
| Indexing.QueryIndex | badgerorm/index.go:46-60 | QueryIndex fails with KeyNotFound exactly when no entry exists at the index key; a success is the decoded stored list |
| Indexing.IndexAppends | badgerorm/index.go:18-32 | after Index, QueryIndex returns the previous list (empty if none) followed by the new keys, in argument order with duplicates kept |
| Indexing.IndexedStaysReadable | badgerorm/index.go:35-41 | the entry Index writes always decodes as a []string again |
| Indexing.IndexTwice | badgerorm/index.go:32 | Index(t, ik, "u1") then Index(t, ik, "u2") make QueryIndex return ["u1", "u2"] |
| Indexing.UndecodableIndex | badgerorm/index.go:55-57 | QueryIndex reports the same decoding error that Index would meet |
| Indexing.IndexNothing | badgerorm/index.go:32-35 | indexing no keys into an absent entry stores null, and QueryIndex returns the nil list |
| Batch.RecordKeys | badgerorm/batch.go:20 | every named key's record key is in the set, and each member starts with `table:` |
| Batch.RecordKeyOneToOne | badgerorm/batch.go:20 | distinct map keys under one table give distinct physical keys |
| Batch.Overlay | badgerorm/batch.go:20-24 | the written entries sit at the record keys of the written keys and nowhere else |
| Batch.Upserted | badgerorm/batch.go:14-26 | after a batch, each record's key holds its new entry, and every key outside the batch keeps its entry |
| Batch.InsertEntries | badgerorm/batch.go:15-23 | each record's entry holds its encoded value and has an expiry exactly when ttl > 0, at now + ttl |
| Batch.InsertBody | badgerorm/batch.go:14-28 | the loop's error is the first failure along the iteration order; with none, the transaction holds every record at its record key |
| Batch.BatchInsert | badgerorm/batch.go:12-30 | the error is the first failure or the commit failure; on success the map is `Upserted`, whatever the iteration order; on failure it is unchanged |
| Batch.UpdateBody | badgerorm/batch.go:35-45 | as InsertBody, with plain Set and no expiry |
| Batch.BatchUpdate | badgerorm/batch.go:33-47 | all or nothing: on success every record is upserted with no expiry, including keys that did not exist; on failure the map is unchanged |
| Batch.DeleteBody | badgerorm/batch.go:52-57 | the loop's error is the first refused delete; with none, the transaction lacks exactly the named record keys |
| Batch.BatchDelete | badgerorm/batch.go:50-59 | all or nothing: on success exactly the named record keys are removed (missing or repeated keys are no error); on failure the map is unchanged |
| Batch.InsertFailsIff | badgerorm/batch.go:15-25 | the insert loop fails exactly when some record is unsupported or its write is refused, and the error is that of some record |
| Batch.UpdateFailsIff | badgerorm/batch.go:36-43 | the update loop fails exactly when some record is unsupported or its write is refused |
| Batch.DeleteFailsIff | badgerorm/batch.go:52-55 | the delete loop fails exactly when some named key's delete is refused |
| Batch.SaveAllOverlay | badgerorm/batch.go:14-26 | writing the records one by one in any order gives the map overlaid with those records |
| Batch.BatchInsertIsSaves | badgerorm/batch.go:14-26 | a batch insert leaves the map that one orm.go Save per record would, in any order |
| Batch.BatchInsertThenGet | badgerorm/batch.go:20 | after a batch insert, orm.go's Get of each supported record returns its value |
| Batch.BatchUpdateThenGet | badgerorm/batch.go:41 | after a batch update, Get of each record returns its value and the entry has no expiry |
| Batch.BatchDeleteIsDeletes | badgerorm/batch.go:52-56 | a batch delete leaves the map that one Delete per listed key would |
| Batch.BatchDeleteThenGet | badgerorm/batch.go:53 | after a batch delete, Get of a listed key fails with KeyNotFound and every unlisted entry is unchanged |
| Ttl.Swept | badgerorm/ttl_management.go:15-22 | a key survives the sweep exactly when it is stored and not expired, and survivors keep their value and expiry |
| Ttl.SweepBody | badgerorm/ttl_management.go:15-23 | the sweep loop's error is the first refused delete of an expired key in ascending key order; with none, the transaction is `Swept` |
| Ttl.CleanupExpiredRecords | badgerorm/ttl_management.go:10-25 | on success the map is `Swept`; a failed delete or commit leaves it unchanged |
| Ttl.SweepFailsIff | badgerorm/ttl_management.go:18-19 | the sweep fails exactly when some expired key's delete is refused |
| Ttl.NoExpiryKept | badgerorm/ttl_management.go:17 | an entry with expiresAt = 0 is never deleted and keeps its value |
| Ttl.SweepIdempotent | badgerorm/ttl_management.go:15-22 | a second sweep at the same time removes nothing more |
| Ttl.SweepMonotone | badgerorm/ttl_management.go:17 | a later sweep keeps no key that an earlier one removed |
| Ttl.QueryRecordsNearExpiration | badgerorm/ttl_management.go:28-46 | the result is the ascending scan filtered to the keys with an expiry less than threshold away, already-expired ones included; nothing is written |
| Ttl.NearExpiryCoversExpired | badgerorm/ttl_management.go:36-38 | for a non-negative threshold every expired key is reported, and a key with no expiry never is |
| Ttl.NearExpiryOrdered | badgerorm/ttl_management.go:34-39 | the reported keys are strictly ascending, and a larger threshold reports a superset |
| Utility.CountRecords | badgerorm/utility.go:8-21 | the count is the number of stored keys starting with `table:`; nothing is written |
| Utility.GetAllKeys | badgerorm/utility.go:24-38 | the keys are exactly the stored keys starting with `table:`, ascending and without duplicates, so CountRecords is their number |
| Utility.PrefixScanCount | badgerorm/utility.go:15-17 | the length of the prefix scan is the number of stored keys with the prefix |
| Utility.SaveNewRecordCounts | badgerorm/utility.go:15-17 | an orm.go Save of a new key adds exactly one to its table's count |
| Utility.SaveExistingRecordCounts | badgerorm/utility.go:15-17 | an orm.go Save over a stored key leaves the count unchanged |
| Utility.DeleteRecordCounts | badgerorm/utility.go:15-17 | an orm.go Delete of a stored key takes exactly one off the count |
| Utility.SubTableListed | badgerorm/utility.go:11 | a record of table `t:x` is listed and counted as a record of `t` |
| Utility.IndexEntriesListed | badgerorm/utility.go:11 | every index entry is listed and counted as a record of the table "index" |

## Left out

- Logging: the logrus calls have side effects only.
- `NewBadgerORM` and `Close` are left out: they open and close the engine.
- backup_restore.go, gc.go, the command-line tool and the example program are not part of this model. They cover file I/O, the engine's garbage collection and argument handling.
- Concurrency is left out: every public operation is one atomic step on the map. Races between concurrent `Index` calls, or between the sweep and other writers, are not modelled.
- Badger internals are left out. The LSM tree, the value log, conflict detection and Badger's own hiding of expired items from iterators are not modelled. Expired entries stay visible until the sweep removes them.
- The engine's own write and commit errors are not derived from anything. They come in as the `Faults` parameter.
- `txn.Get` errors other than a missing key are not modelled. Index treats any failed lookup as an absent list, and the model's only lookup failure is KeyNotFound.
- Units of time are left out. `now`, `ttl` and `expiresAt` are naturals in one unit. The code compares `time.Now().UnixNano()` with `ExpiresAt()`, which Badger keeps in seconds, so the units clash. The model does not reproduce that clash.
- Ttl.CleanupExpiredRecords and Ttl.QueryRecordsNearExpiration read the clock once. The code calls `time.Now` or `time.Until` once per item; the model uses a single `now` for the whole loop.
- Ttl.QueryRecordsNearExpiration, Ttl.Expired and Ttl.CleanupExpiredRecords do not model the int64 conversion of `ExpiresAt()` (ttl_management.go lines 17 and 37) or the overflow of the Duration arithmetic. They compare `now` with `expiresAt`, and `expiresAt - now` with the threshold, exactly.
- Utility.CountRecords does not model overflow of Go's int counter. The count is unbounded.
- The results are Dafny sequences. They do not model Go's distinction between a nil slice and an empty one.
- The read-only operations have no error result. This covers CountRecords, GetAllKeys, QueryRange and QueryRecordsNearExpiration. The read-only transaction's error can only come from their bodies, and their bodies never fail.
- Get decodes into a target. `Orm.Get` and `Query.Get` return the decoded JSON value itself. Go's decoding into an arbitrary typed target is reduced to the string and []string targets that the scans and the index manager use.
- Keys and values are restricted to valid UTF-8. Keys are Dafny strings, sequences of Unicode scalar values, so byte strings that are not valid UTF-8 cannot be represented. The lengths in the contracts of `Keys.RecordKey` and `Keys.GenerateIndexKey` count characters, not bytes.
- Indexing.QueryIndex does not return a partly decoded list. On a type error, Go's json.Unmarshal fills the elements it can and QueryIndex returns that slice together with the error. The model returns only the error.
- JSON is modelled at the level of tokens. Number formats, float64 conversion, escaping and whitespace are not modelled.
- The two Save/Get/Delete variants are kept as separate modules, `Orm` and `Query`. Both files declare the same methods on the same type, so Go would not compile the package as it stands.
- The order of Go map iteration in BatchInsert and BatchUpdate is the parameter `order`. The model takes it as given and does not choose it.

## Findings

| source | as written | input that shows it | evidently intended | confidence | as-written member | corrected member |
|---|---|---|---|---|---|---|
| badgerorm/query.go:122 | the pagination loop seeks to `table:` and tests only `it.Valid()`, so it pages through every key after the table, across later tables and index entries | store {"a:1": "x", "b:1": "y"}, table "a", page 0, pageSize 2: the result is ["x", "y"] | the loop stops at the end of the table (`ValidForPrefix`), as QueryPrefix, CountRecords and GetAllKeys do; the result is ["x"] | not executed | Query.PaginationCrossesTables | Query.TablePageStaysInTable |
