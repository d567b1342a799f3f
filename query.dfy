/**
 * query.go: the second variant of Save, Get and Delete, which stores a
 * record at GenerateIndexKey(table, key), and the three iterator queries
 * (prefix, inclusive range, skip/take pagination).
 */
module Query {
  import opened Wrappers
  import opened Errors
  import opened Lex
  import opened Seqs
  import opened Json
  import opened Engine
  import opened Keys
  import Orm
  import Indexing

  // ---- Save, Get, Delete at the index key ----

  /** Save: a negative ttl is refused before anything else; otherwise as in orm.go, at the index key. */
  method Save(db: DB, table: string, key: string, value: Value, ttl: int, now: nat, faults: Faults)
    returns (err: Option<Error>)
    modifies db
    ensures err == if ttl < 0 then Some(InvalidTtl(ttl))
                   else if !Encodable(value) then Some(Unsupported)
                   else WriteOutcome(GenerateIndexKey(table, key), faults)
    ensures db.data == if err == None then Saved(old(db.data), table, key, value, ttl, now) else old(db.data)
  {
    if ttl < 0 {
      return Some(InvalidTtl(ttl));
    }
    var data := Marshal(value);
    if data.Err? {
      return Some(data.error);
    }
    var txn := db.data;
    var e := NewEntry(data.value, ttl, now);
    var written := Put(txn, GenerateIndexKey(table, key), e, faults);
    if written.Err? {
      return Some(written.error);
    }
    err := db.Commit(written.value, faults);
  }

  /** The committed map after a successful Save. */
  function Saved(s: Store, table: string, key: string, value: Value, ttl: int, now: nat): (r: Store)
    ensures r.Keys == s.Keys + {GenerateIndexKey(table, key)}
    ensures forall k :: k in s && k != GenerateIndexKey(table, key) ==> r[k] == s[k]
  {
    s[GenerateIndexKey(table, key) := NewEntry(Tokens(value), ttl, now)]
  }

  function Get(s: Store, table: string, key: string): (r: Result<Value, Error>)
    ensures GenerateIndexKey(table, key) !in s <==> r == Err(KeyNotFound)
  {
    var e :- Lookup(s, GenerateIndexKey(table, key));
    Unmarshal(e.doc)
  }

  method Delete(db: DB, table: string, key: string, faults: Faults) returns (err: Option<Error>)
    modifies db
    ensures err == WriteOutcome(GenerateIndexKey(table, key), faults)
    ensures db.data == if err == None then old(db.data) - {GenerateIndexKey(table, key)} else old(db.data)
  {
    var txn := db.data;
    var removed := Remove(txn, GenerateIndexKey(table, key), faults);
    if removed.Err? {
      return Some(removed.error);
    }
    err := db.Commit(removed.value, faults);
  }

  /** Get after a successful Save returns the saved value; a Save with a non-negative ttl expires exactly when ttl > 0. */
  lemma GetAfterSave(s: Store, table: string, key: string, value: Value, ttl: int, now: nat)
    requires Encodable(value)
    ensures Get(Saved(s, table, key, value, ttl, now), table, key) == Ok(value)
    ensures Saved(s, table, key, value, ttl, now)[GenerateIndexKey(table, key)].expiresAt != 0 <==> ttl > 0
  {
    UnmarshalMarshal(value);
  }

  /** Delete removes the one entry at the index key and leaves every other entry as it was. */
  lemma DeleteOnlyItsKey(s: Store, table: string, key: string, other: string)
    requires other != key
    ensures Get(s - {GenerateIndexKey(table, key)}, table, key) == Err(KeyNotFound)
    ensures Get(s - {GenerateIndexKey(table, key)}, table, other) == Get(s, table, other)
  {
    IndexKeyInjective(table, key, other);
  }

  /** The two Save variants differ only in the key: query.go's Save(t, k) is orm.go's Save("index", t + ":" + k). */
  lemma SaveVariants(s: Store, table: string, key: string, value: Value, ttl: int, now: nat)
    ensures Saved(s, table, key, value, ttl, now) == Orm.Saved(s, "index", RecordKey(table, key), value, ttl, now)
  {
    IndexKeyIsRecordKey(table, key);
  }

  // ---- Record and index share one key ----

  /** Saving a string record at (t, k) replaces the index entry of (t, k), which no longer reads as a list. */
  lemma SaveClobbersIndex(s: Store, table: string, key: string, x: string, ttl: int, now: nat)
    ensures Indexing.QueryIndex(Saved(s, table, key, String(x), ttl, now), table, key) == Err(TypeMismatch)
    ensures Indexing.Existing(Saved(s, table, key, String(x), ttl, now), GenerateIndexKey(table, key)).Err?
  {
    AsStringMarshal(x);
  }

  /** An index entry written by Index reads back through Get as a record: the JSON list, or null. */
  lemma IndexVisibleAsRecord(s: Store, table: string, key: string, recordKeys: seq<string>)
    requires Indexing.Existing(s, GenerateIndexKey(table, key)).Ok?
    ensures var l := Indexing.Append(Indexing.Existing(s, GenerateIndexKey(table, key)).value, recordKeys);
      Get(Indexing.Indexed(s, table, key, recordKeys), table, key) ==
        Ok(if l.None? then Null else Array(StringValues(l.value)))
  {
    var l := Indexing.Append(Indexing.Existing(s, GenerateIndexKey(table, key)).value, recordKeys);
    if l.Some? {
      StringValuesEncodable(l.value);
      UnmarshalMarshal(Array(StringValues(l.value)));
    }
  }

  // ---- Decoding a scan ----

  /** One scanned item decoded into a fresh string variable (null gives ""). */
  function ItemString(s: Store, k: string): Result<string, Error>
  {
    if k in s then AsString(s[k].doc) else Err(KeyNotFound)
  }

  /**
   * The values a scan loop appends while it decodes the items at `ks` in
   * order, and the error at which it stops, if any.
   */
  function DecodeStrings(s: Store, ks: seq<string>): (r: (seq<string>, Option<Error>))
    ensures |r.0| <= |ks|
    decreases |ks|
  {
    if ks == [] then ([], None)
    else
      var (vs, err) := DecodeStrings(s, ks[..|ks| - 1]);
      if err.Some? then (vs, err)
      else match ItemString(s, ks[|ks| - 1])
        case Ok(v) => (vs + [v], None)
        case Err(e) => (vs, Some(e))
  }

  /**
   * The loop succeeds exactly when every item decodes, and then returns the
   * decoded values in scan order; otherwise it reports the error of the
   * first item that does not decode, together with the values decoded
   * before it.
   */
  lemma {:induction false} DecodeStringsSpec(s: Store, ks: seq<string>)
    ensures var r := DecodeStrings(s, ks);
      (r.1.None? <==> forall i :: 0 <= i < |ks| ==> ItemString(s, ks[i]).Ok?) &&
      (r.1.None? ==> |r.0| == |ks| && forall i :: 0 <= i < |ks| ==> ItemString(s, ks[i]) == Ok(r.0[i])) &&
      (r.1.Some? ==> exists i :: 0 <= i < |ks| && ItemString(s, ks[i]) == Err(r.1.value) &&
                       |r.0| == i && forall j :: 0 <= j < i ==> ItemString(s, ks[j]) == Ok(r.0[j]))
    decreases |ks|
  {
    if ks != [] {
      var init := ks[..|ks| - 1];
      DecodeStringsSpec(s, init);
      assert forall i :: 0 <= i < |init| ==> init[i] == ks[i];
    }
  }

  lemma DecodeStringsSnoc(s: Store, ks: seq<string>, k: string)
    requires DecodeStrings(s, ks).1.None?
    ensures DecodeStrings(s, ks + [k]) ==
      match ItemString(s, k)
      case Ok(v) => (DecodeStrings(s, ks).0 + [v], None)
      case Err(e) => (DecodeStrings(s, ks).0, Some(e))
  {
    assert (ks + [k])[..|ks|] == ks;
  }

  /** One more item of a scan loop over the run keys[a..b] that has not failed yet. */
  lemma DecodeScanStep(s: Store, keys: seq<string>, a: nat, b: nat)
    requires keys == Scan(s) && a <= b < |keys|
    requires DecodeStrings(s, keys[a..b]).1.None?
    ensures keys[b] in s
    ensures DecodeStrings(s, keys[a..b + 1]) ==
      match AsString(s[keys[b]].doc)
      case Ok(v) => (DecodeStrings(s, keys[a..b]).0 + [v], None)
      case Err(e) => (DecodeStrings(s, keys[a..b]).0, Some(e))
  {
    assert keys[b] in keys;
    SliceSnoc(keys, a, b);
    DecodeStringsSnoc(s, keys[a..b], keys[b]);
  }

  /** Once the loop has stopped at an error, the keys it did not reach do not matter. */
  lemma {:induction false} DecodeStringsStops(s: Store, ks: seq<string>, more: seq<string>)
    requires ks <= more && DecodeStrings(s, ks).1.Some?
    ensures DecodeStrings(s, more) == DecodeStrings(s, ks)
    decreases |more|
  {
    if |more| > |ks| {
      var init := more[..|more| - 1];
      assert ks <= init;
      DecodeStringsStops(s, ks, init);
    } else {
      assert ks == more;
    }
  }

  // ---- QueryPrefix ----

  /** QueryPrefix: the decoded values of the keys that start with `table:prefix`, ascending; a decode error aborts. */
  method QueryPrefix(db: DB, table: string, prefix: string) returns (results: seq<string>, err: Option<Error>)
    ensures (results, err) == DecodeStrings(db.data, PrefixScan(db.data, RecordKey(table, prefix)))
  {
    var m := db.data;
    var it := new Iterator(m);
    var p := RecordKey(table, prefix);
    it.Seek(p);
    ghost var keys, start := it.keys, it.pos;
    results, err := [], None;
    while it.ValidForPrefix(p)
      invariant it.Inv() && it.snapshot == m && it.keys == keys && start <= it.pos
      invariant PrefixLoop(m, keys, p, start, it.pos, results)
      decreases |keys| - it.pos
    {
      var v := AsString(it.Item().doc);
      if v.Err? {
        PrefixLoopStops(m, keys, p, start, it.pos, results);
        return results, Some(v.error);
      }
      PrefixLoopStep(m, keys, p, start, it.pos, results);
      results := results + [v.value];
      it.Next();
    }
    PrefixLoopEnds(m, keys, p, start, it.pos, results);
  }

  /**
   * The state of the prefix loop after visiting keys[start..n]: the seek
   * stopped at start, every visited key has the prefix, and every visited
   * item decoded into `results`.
   */
  ghost predicate PrefixLoop(s: Store, keys: seq<string>, p: string, start: nat, n: nat, results: seq<string>)
  {
    keys == Scan(s) && start <= n <= |keys|
    && (forall i :: 0 <= i < start ==> Less(keys[i], p))
    && (start < |keys| ==> LessEq(p, keys[start]))
    && (forall i :: start <= i < n ==> p <= keys[i])
    && DecodeStrings(s, keys[start..n]) == (results, None)
  }

  lemma PrefixLoopStep(s: Store, keys: seq<string>, p: string, start: nat, n: nat, results: seq<string>)
    requires PrefixLoop(s, keys, p, start, n, results)
    requires n < |keys| && p <= keys[n] && AsString(s[keys[n]].doc).Ok?
    ensures PrefixLoop(s, keys, p, start, n + 1, results + [AsString(s[keys[n]].doc).value])
  {
    DecodeScanStep(s, keys, start, n);
  }

  /** A decode error inside the prefix run is the error of the whole query. */
  lemma PrefixLoopStops(s: Store, keys: seq<string>, p: string, start: nat, n: nat, results: seq<string>)
    requires PrefixLoop(s, keys, p, start, n, results)
    requires n < |keys| && p <= keys[n] && AsString(s[keys[n]].doc).Err?
    ensures DecodeStrings(s, PrefixScan(s, p)) == (results, Some(AsString(s[keys[n]].doc).error))
  {
    SortedKeysSorted(s.Keys);
    DecodeScanStep(s, keys, start, n);
    PrefixSeen(keys, p, start, n + 1);
    DecodeStringsStops(s, keys[start..n + 1], PrefixScan(s, p));
  }

  /** Where the prefix-bounded loop stops, it has visited exactly the prefix scan. */
  lemma PrefixLoopEnds(s: Store, keys: seq<string>, p: string, start: nat, stop: nat, results: seq<string>)
    requires PrefixLoop(s, keys, p, start, stop, results)
    requires stop < |keys| ==> !(p <= keys[stop])
    ensures DecodeStrings(s, PrefixScan(s, p)) == (results, None)
  {
    SortedKeysSorted(s.Keys);
    PrefixBlock(keys, p, start, stop);
  }

  /** QueryPrefix never sees a record written by query.go's Save of the same table (unless the table is "index" or contains ':'). */
  lemma PrefixScanMissesSaved(s: Store, table: string, prefix: string, key: string, value: Value, ttl: int, now: nat)
    requires ':' !in table && table != "index"
    ensures PrefixScan(Saved(s, table, key, value, ttl, now), RecordKey(table, prefix)) == PrefixScan(s, RecordKey(table, prefix))
  {
    IndexKeyOutsidePrefix(table, prefix, key);
    PrefixScanSameKeys(Saved(s, table, key, value, ttl, now), s, RecordKey(table, prefix));
  }

  // ---- QueryRange ----

  /** QueryRange: the stored keys from index:t:start to index:t:end, both inclusive, ascending. */
  method QueryRange(db: DB, table: string, startKey: string, endKey: string) returns (results: seq<string>)
    ensures results == RangeScan(db.data, GenerateIndexKey(table, startKey), GenerateIndexKey(table, endKey))
  {
    var m := db.data;
    var it := new Iterator(m);
    var lo, hi := GenerateIndexKey(table, startKey), GenerateIndexKey(table, endKey);
    it.Seek(lo);
    ghost var keys, start := it.keys, it.pos;
    results := [];
    while it.Valid() && LessEq(it.Key(), hi)
      invariant it.Inv() && it.snapshot == m && it.keys == keys && start <= it.pos
      invariant RangeLoop(m, keys, lo, hi, start, it.pos)
      invariant results == keys[start..it.pos]
      decreases |keys| - it.pos
    {
      results := results + [it.Key()];
      it.Next();
    }
    if it.Valid() {
      Total(it.Key(), hi);
    }
    RangeLoopEnds(m, keys, lo, hi, start, it.pos);
  }

  /** The state of the range loop after visiting keys[start..n]: the seek stopped at start and no visited key is past hi. */
  ghost predicate RangeLoop(s: Store, keys: seq<string>, lo: string, hi: string, start: nat, n: nat)
  {
    keys == Scan(s) && start <= n <= |keys|
    && (forall i :: 0 <= i < start ==> Less(keys[i], lo))
    && (start < |keys| ==> LessEq(lo, keys[start]))
    && (forall i :: start <= i < n ==> LessEq(keys[i], hi))
  }

  /** Where the range loop stops, it has visited exactly the range scan. */
  lemma RangeLoopEnds(s: Store, keys: seq<string>, lo: string, hi: string, start: nat, stop: nat)
    requires RangeLoop(s, keys, lo, hi, start, stop)
    requires stop < |keys| ==> Less(hi, keys[stop])
    ensures RangeScan(s, lo, hi) == keys[start..stop]
  {
    SortedKeysSorted(s.Keys);
    RangeBlock(keys, lo, hi, start, stop);
  }

  /** Every key QueryRange returns lies in the index range of the table. */
  lemma RangeWithinIndex(s: Store, table: string, startKey: string, endKey: string)
    ensures forall k :: k in RangeScan(s, GenerateIndexKey(table, startKey), GenerateIndexKey(table, endKey)) ==> IndexPrefix(table) <= k
  {
    forall k | k in RangeScan(s, GenerateIndexKey(table, startKey), GenerateIndexKey(table, endKey))
      ensures IndexPrefix(table) <= k
    {
      BetweenHasPrefix(IndexPrefix(table), startKey, endKey, k);
    }
  }

  /** An index key of the table is returned exactly when it is stored and its key lies between the bounds. */
  lemma RangeByKey(s: Store, table: string, startKey: string, endKey: string, key: string)
    ensures GenerateIndexKey(table, key) in RangeScan(s, GenerateIndexKey(table, startKey), GenerateIndexKey(table, endKey))
        <==> GenerateIndexKey(table, key) in s && LessEq(startKey, key) && LessEq(key, endKey)
  {
    IndexKeyOrder(table, startKey, key);
    IndexKeyOrder(table, key, endKey);
    IndexKeyInjective(table, startKey, key);
    IndexKeyInjective(table, key, endKey);
  }

  /** With start > end the range is empty. */
  lemma RangeEmpty(s: Store, table: string, startKey: string, endKey: string)
    requires Less(endKey, startKey)
    ensures RangeScan(s, GenerateIndexKey(table, startKey), GenerateIndexKey(table, endKey)) == []
  {
    var lo, hi := GenerateIndexKey(table, startKey), GenerateIndexKey(table, endKey);
    IndexKeyOrder(table, endKey, startKey);
    var r := RangeScan(s, lo, hi);
    if r != [] {
      assert r[0] in r;
      LessEqTransitive(lo, r[0], hi);
      Asymmetric(hi, lo);
    }
  }

  // ---- QueryWithPagination ----

  /** Go's int is 64 bits wide: products and sums wrap around. */
  function Wrap(x: int): int
  {
    var m := x % 0x1_0000_0000_0000_0000;
    if m >= 0x8000_0000_0000_0000 then m - 0x1_0000_0000_0000_0000 else m
  }

  /** Wrap yields a 64-bit int congruent to x, and x itself when x is one. */
  lemma WrapSpec(x: int)
    ensures IsInt(Wrap(x))
    ensures IsInt(x) ==> Wrap(x) == x
    ensures (Wrap(x) - x) % 0x1_0000_0000_0000_0000 == 0
  {
  }

  predicate IsInt(x: int)
  {
    -0x8000_0000_0000_0000 <= x < 0x8000_0000_0000_0000
  }

  /** The first count that is kept: start := page * pageSize. */
  function PageStart(page: int, pageSize: int): int
  {
    Wrap(page * pageSize)
  }

  /** The first count past the page: start + pageSize. */
  function PageEnd(page: int, pageSize: int): int
  {
    Wrap(PageStart(page, pageSize) + pageSize)
  }

  /**
   * QueryWithPagination: seek to `table:`, count every item up to the end of
   * the key space, and decode the items whose count c satisfies
   * start <= c < start + pageSize.
   */
  method QueryWithPagination(db: DB, table: string, page: int, pageSize: int) returns (results: seq<string>, err: Option<Error>)
    requires IsInt(page) && IsInt(pageSize)
    ensures (results, err) == DecodeStrings(db.data, Window(ScanFrom(db.data, TablePrefix(table)), PageStart(page, pageSize), PageEnd(page, pageSize)))
  {
    var m := db.data;
    var it := new Iterator(m);
    var start := PageStart(page, pageSize);
    var end := PageEnd(page, pageSize);
    var count := 0;
    it.Seek(TablePrefix(table));
    ghost var keys, first := it.keys, it.pos;
    FromLoopStart(m, keys, TablePrefix(table), first);
    ghost var stop := |keys|;
    PageLoopBegins(m, keys, first, stop, start, end);
    results, err := [], None;
    while it.Valid()
      invariant it.Inv() && it.snapshot == m && it.keys == keys
      invariant PageLoop(m, keys, first, stop, start, end, it.pos, count, results)
      decreases |keys| - it.pos
    {
      if start <= count < end {
        var v := AsString(it.Item().doc);
        if v.Err? {
          PageLoopStops(m, keys, first, stop, start, end, it.pos, count, results);
          return results, Some(v.error);
        }
        PageLoopStep(m, keys, first, stop, start, end, it.pos, count, results);
        results := results + [v.value];
      } else {
        PageLoopSkip(m, keys, first, stop, start, end, it.pos, count, results);
      }
      count := count + 1;
      it.Next();
    }
    PageLoopEnds(m, keys, first, stop, start, end, it.pos, count, results);
  }

  /**
   * The intended pagination: the same counting loop, bounded by the table
   * prefix, so that a page only ever holds records of `table`.
   */
  method QueryTablePage(db: DB, table: string, page: int, pageSize: int) returns (results: seq<string>, err: Option<Error>)
    requires IsInt(page) && IsInt(pageSize)
    ensures (results, err) == DecodeStrings(db.data, Window(PrefixScan(db.data, TablePrefix(table)), PageStart(page, pageSize), PageEnd(page, pageSize)))
  {
    var m := db.data;
    var it := new Iterator(m);
    var p := TablePrefix(table);
    var start := PageStart(page, pageSize);
    var end := PageEnd(page, pageSize);
    var count := 0;
    it.Seek(p);
    ghost var keys, first := it.keys, it.pos;
    ghost var stop := PrefixRun(m, keys, p, first);
    PageLoopBegins(m, keys, first, stop, start, end);
    results, err := [], None;
    while it.ValidForPrefix(p)
      invariant it.Inv() && it.snapshot == m && it.keys == keys
      invariant PageLoop(m, keys, first, stop, start, end, it.pos, count, results)
      decreases |keys| - it.pos
    {
      InRun(m, keys, p, first, stop, it.pos);
      if start <= count < end {
        var v := AsString(it.Item().doc);
        if v.Err? {
          PageLoopStops(m, keys, first, stop, start, end, it.pos, count, results);
          return results, Some(v.error);
        }
        PageLoopStep(m, keys, first, stop, start, end, it.pos, count, results);
        results := results + [v.value];
      } else {
        PageLoopSkip(m, keys, first, stop, start, end, it.pos, count, results);
      }
      count := count + 1;
      it.Next();
    }
    PastRun(m, keys, p, first, stop, it.pos);
    PageLoopEnds(m, keys, first, stop, start, end, it.pos, count, results);
  }

  /**
   * The state of a pagination loop over the scan keys[first..stop]: it is at
   * position n, has counted `count` items, and the items of those inside the
   * window lo <= c < hi decoded into `results`.
   */
  ghost predicate PageLoop(s: Store, keys: seq<string>, first: nat, stop: nat, lo: int, hi: int, n: nat, count: nat, results: seq<string>)
  {
    keys == Scan(s) && first <= n <= stop <= |keys| && count == n - first
    && DecodeStrings(s, Window(keys[first..stop][..count], lo, hi)) == (results, None)
  }

  lemma PageLoopBegins(s: Store, keys: seq<string>, first: nat, stop: nat, lo: int, hi: int)
    requires keys == Scan(s) && first <= stop <= |keys|
    ensures PageLoop(s, keys, first, stop, lo, hi, first, 0, [])
  {
  }

  /** A counted item inside the page that decodes is appended to the page's values. */
  lemma PageLoopStep(s: Store, keys: seq<string>, first: nat, stop: nat, lo: int, hi: int, n: nat, count: nat, results: seq<string>)
    requires PageLoop(s, keys, first, stop, lo, hi, n, count, results) && n < stop && lo <= count < hi
    requires keys[n] in s && AsString(s[keys[n]].doc).Ok?
    ensures PageLoop(s, keys, first, stop, lo, hi, n + 1, count + 1, results + [AsString(s[keys[n]].doc).value])
  {
    var scan := keys[first..stop];
    assert scan[count] == keys[n];
    WindowSnoc(scan, count, lo, hi);
    DecodeStringsSnoc(s, Window(scan[..count], lo, hi), scan[count]);
  }

  /** A counted item outside the page is skipped without being decoded. */
  lemma PageLoopSkip(s: Store, keys: seq<string>, first: nat, stop: nat, lo: int, hi: int, n: nat, count: nat, results: seq<string>)
    requires PageLoop(s, keys, first, stop, lo, hi, n, count, results) && n < stop && !(lo <= count < hi)
    ensures PageLoop(s, keys, first, stop, lo, hi, n + 1, count + 1, results)
  {
    var scan := keys[first..stop];
    WindowSnoc(scan, count, lo, hi);
    assert Window(scan[..count], lo, hi) + [] == Window(scan[..count], lo, hi);
  }

  /** A counted item inside the page that does not decode is the error of the whole query. */
  lemma PageLoopStops(s: Store, keys: seq<string>, first: nat, stop: nat, lo: int, hi: int, n: nat, count: nat, results: seq<string>)
    requires PageLoop(s, keys, first, stop, lo, hi, n, count, results) && n < stop && lo <= count < hi
    requires keys[n] in s && AsString(s[keys[n]].doc).Err?
    ensures DecodeStrings(s, Window(keys[first..stop], lo, hi)) == (results, Some(AsString(s[keys[n]].doc).error))
  {
    var scan := keys[first..stop];
    assert scan[count] == keys[n];
    WindowSnoc(scan, count, lo, hi);
    DecodeStringsSnoc(s, Window(scan[..count], lo, hi), scan[count]);
    WindowOfPrefix(scan, count + 1, lo, hi);
    DecodeStringsStops(s, Window(scan[..count + 1], lo, hi), Window(scan, lo, hi));
  }

  /** When the scan is exhausted the page is complete. */
  lemma PageLoopEnds(s: Store, keys: seq<string>, first: nat, stop: nat, lo: int, hi: int, n: nat, count: nat, results: seq<string>)
    requires PageLoop(s, keys, first, stop, lo, hi, n, count, results) && n == stop
    ensures DecodeStrings(s, Window(keys[first..stop], lo, hi)) == (results, None)
  {
    var scan := keys[first..stop];
    assert scan[..count] == scan;
  }

  /** A loop seeked to `lo` and run to the end visits exactly ScanFrom. */
  lemma FromLoopStart(s: Store, keys: seq<string>, lo: string, start: nat)
    requires keys == Scan(s) && start <= |keys|
    requires forall i :: 0 <= i < start ==> Less(keys[i], lo)
    requires start < |keys| ==> LessEq(lo, keys[start])
    ensures ScanFrom(s, lo) == keys[start..|keys|]
  {
    SortedKeysSorted(s.Keys);
    FromBlock(keys, lo, start);
    SliceToEnd(keys, start);
  }

  lemma SliceToEnd(keys: seq<string>, start: nat)
    requires start <= |keys|
    ensures keys[start..] == keys[start..|keys|]
  {
  }

  /** Without wrap-around a page holds the items at counts page * pageSize up to page * pageSize + pageSize - 1. */
  lemma PageBounds(page: int, pageSize: int)
    requires 0 <= page && 0 <= pageSize && (page + 1) * pageSize < 0x8000_0000_0000_0000
    ensures PageStart(page, pageSize) == page * pageSize
    ensures PageEnd(page, pageSize) == page * pageSize + pageSize
  {
    assert page * pageSize <= (page + 1) * pageSize;
    WrapSpec(page * pageSize);
    WrapSpec(page * pageSize + pageSize);
  }

  /**
   * A page never holds more than pageSize values, for every pair of Go ints
   * with a non-negative pageSize: when start + pageSize wraps around, the end
   * falls below the start and the page is empty.
   */
  lemma PageSize(s: Store, table: string, page: int, pageSize: int)
    requires IsInt(page) && IsInt(pageSize) && 0 <= pageSize
    ensures |DecodeStrings(s, Window(ScanFrom(s, TablePrefix(table)), PageStart(page, pageSize), PageEnd(page, pageSize))).0| <= pageSize
  {
    var lo := PageStart(page, pageSize);
    WrapSpec(page * pageSize);
    WrapSpec(lo + pageSize);
    WindowLength(ScanFrom(s, TablePrefix(table)), lo, PageEnd(page, pageSize));
  }

  /**
   * The j-th item of a page that starts at a non-negative count is the scan's
   * item at count start + j, and with no decoding error the j-th result is
   * that item's decoded value.
   */
  lemma PageElement(s: Store, table: string, page: int, pageSize: int, j: nat)
    requires 0 <= PageStart(page, pageSize)
    requires j < |Window(ScanFrom(s, TablePrefix(table)), PageStart(page, pageSize), PageEnd(page, pageSize))|
    ensures var keys := ScanFrom(s, TablePrefix(table));
      var lo, hi := PageStart(page, pageSize), PageEnd(page, pageSize);
      var r := DecodeStrings(s, Window(keys, lo, hi));
      lo + j < |keys| && lo + j < hi && Window(keys, lo, hi)[j] == keys[lo + j] &&
      (r.1.None? ==> j < |r.0| && ItemString(s, keys[lo + j]) == Ok(r.0[j]))
  {
    var keys := ScanFrom(s, TablePrefix(table));
    var lo, hi := PageStart(page, pageSize), PageEnd(page, pageSize);
    WindowAt(keys, lo, hi, j);
    DecodeStringsSpec(s, Window(keys, lo, hi));
  }

  /**
   * A negative pageSize turns the page bounds around: page -2^63 of size -1
   * starts at count -2^63 and ends at 2^63 - 1, so every scanned item is kept.
   */
  lemma NegativePageSizeKeepsAll(keys: seq<string>)
    requires |keys| < 0x8000_0000_0000_0000
    ensures PageStart(-0x8000_0000_0000_0000, -1) == -0x8000_0000_0000_0000
    ensures PageEnd(-0x8000_0000_0000_0000, -1) == 0x7fff_ffff_ffff_ffff
    ensures Window(keys, PageStart(-0x8000_0000_0000_0000, -1), PageEnd(-0x8000_0000_0000_0000, -1)) == keys
  {
    assert PageStart(-0x8000_0000_0000_0000, -1) == -0x8000_0000_0000_0000;
    assert PageEnd(-0x8000_0000_0000_0000, -1) == 0x7fff_ffff_ffff_ffff;
    assert keys[0..|keys|] == keys;
  }

  /** A product that overflows wraps to a start of 0: page 2^62 of size 4 is the first page. */
  lemma PageWraps()
    ensures PageStart(0x4000_0000_0000_0000, 4) == 0 && PageEnd(0x4000_0000_0000_0000, 4) == 4
  {
  }

  // ---- The pagination scan is not bounded by the table ----

  /** Two records, one in table "a" and one in table "b". */
  function TwoTables(): Store
  {
    map["a:1" := Entry(Tokens(String("x")), 0), "b:1" := Entry(Tokens(String("y")), 0)]
  }

  /** The first page of size 2: counts 0 and 1. */
  lemma FirstPageOfTwo()
    ensures PageStart(0, 2) == 0 && PageEnd(0, 2) == 2
  {
    WrapSpec(0);
    WrapSpec(2);
  }

  /** A sorted two-key sequence equals every ascending scan with the same members. */
  lemma TwoKeys(r: seq<string>, a: string, b: string)
    requires StrictlySorted(r) && Less(a, b)
    requires forall k :: k in r <==> k == a || k == b
    ensures r == [a, b]
  {
    SortedKeysUnique({a, b}, r);
    SortedKeysUnique({a, b}, [a, b]);
  }

  /** The scan from lo of a two-key store whose keys both sort at or after lo. */
  lemma ScanFromTwo(s: Store, lo: string, a: string, b: string)
    requires s.Keys == {a, b} && LessEq(lo, a) && LessEq(lo, b) && Less(a, b)
    ensures ScanFrom(s, lo) == [a, b]
  {
    ScansSorted(s, lo, lo, lo);
    TwoKeys(ScanFrom(s, lo), a, b);
  }

  /** The prefix scan of a two-key store of which only the first key carries the prefix. */
  lemma PrefixScanTwo(s: Store, p: string, a: string, b: string)
    requires s.Keys == {a, b} && p <= a && !(p <= b)
    ensures PrefixScan(s, p) == [a]
  {
    ScansSorted(s, p, p, p);
    OneKey(PrefixScan(s, p), a);
  }

  /** A sorted one-key sequence with a single member is that key alone. */
  lemma OneKey(r: seq<string>, a: string)
    requires StrictlySorted(r)
    requires forall k :: k in r <==> k == a
    ensures r == [a]
  {
    SortedKeysUnique({a}, r);
    SortedKeysUnique({a}, [a]);
  }

  lemma TwoTablesFrom()
    ensures ScanFrom(TwoTables(), "a:") == ["a:1", "b:1"]
  {
    assert TwoTables().Keys == {"a:1", "b:1"};
    assert LessEq("a:", "a:1") by { PrefixIsLessEq("a:", "a:1"); }
    assert Less("a:", "b:1");
    assert Less("a:1", "b:1");
    ScanFromTwo(TwoTables(), "a:", "a:1", "b:1");
  }

  lemma TwoTablesPrefix()
    ensures PrefixScan(TwoTables(), "a:") == ["a:1"]
  {
    assert TwoTables().Keys == {"a:1", "b:1"};
    assert "a:" <= "a:1";
    assert "a:"[0] != "b:1"[0];
    PrefixScanTwo(TwoTables(), "a:", "a:1", "b:1");
  }

  lemma TwoTablesDecode()
    ensures DecodeStrings(TwoTables(), ["a:1"]) == (["x"], None)
    ensures DecodeStrings(TwoTables(), ["a:1", "b:1"]) == (["x", "y"], None)
  {
    var s := TwoTables();
    AsStringMarshal("x");
    AsStringMarshal("y");
    assert s["a:1"].doc == Tokens(String("x")) && s["b:1"].doc == Tokens(String("y"));
    assert ItemString(s, "a:1") == Ok("x");
    assert ItemString(s, "b:1") == Ok("y");
    DecodeStringsSnoc(s, [], "a:1");
    assert [] + ["a:1"] == ["a:1"] && [] + ["x"] == ["x"];
    DecodeStringsSnoc(s, ["a:1"], "b:1");
    assert ["a:1"] + ["b:1"] == ["a:1", "b:1"] && ["x"] + ["y"] == ["x", "y"];
  }

  /** The first page of size 2 of a two-key scan is the whole scan. */
  lemma WholePage(keys: seq<string>)
    requires |keys| == 2
    ensures Window(keys, PageStart(0, 2), PageEnd(0, 2)) == keys
  {
    FirstPageOfTwo();
    assert keys[0..2] == keys;
  }

  /** As written: the first page of size 2 of table "a" also holds the value of record "b:1". */
  lemma PaginationCrossesTables()
    ensures DecodeStrings(TwoTables(), Window(ScanFrom(TwoTables(), TablePrefix("a")), PageStart(0, 2), PageEnd(0, 2))) == (["x", "y"], None)
  {
    assert TablePrefix("a") == "a:";
    TwoTablesFrom();
    WholePage(ScanFrom(TwoTables(), "a:"));
    TwoTablesDecode();
  }

  /** Corrected: every key on a page of QueryTablePage belongs to the table. */
  lemma TablePageWithinTable(s: Store, table: string, page: int, pageSize: int)
    ensures forall k :: k in Window(PrefixScan(s, TablePrefix(table)), PageStart(page, pageSize), PageEnd(page, pageSize)) ==> TablePrefix(table) <= k
  {
    WindowWithin(PrefixScan(s, TablePrefix(table)), PageStart(page, pageSize), PageEnd(page, pageSize));
  }

  /** Corrected: on the same store the first page of table "a" holds only the value of "a:1". */
  lemma TablePageStaysInTable()
    ensures DecodeStrings(TwoTables(), Window(PrefixScan(TwoTables(), TablePrefix("a")), PageStart(0, 2), PageEnd(0, 2))) == (["x"], None)
  {
    var s := TwoTables();
    assert TablePrefix("a") == "a:";
    FirstPageOfTwo();
    TwoTablesPrefix();
    var w := Window(PrefixScan(s, "a:"), 0, 2);
    assert w == ["a:1"];
    TwoTablesDecode();
  }

  /**
   * The pagination scan of a table that sorts before "index" reaches the
   * records query.go's Save writes for it; for a table that sorts after
   * "index" it does not.
   */
  lemma PaginationAndSavedRecords(s: Store, key: string, value: Value, ttl: int, now: nat)
    ensures GenerateIndexKey("apple", key) in ScanFrom(Saved(s, "apple", key, value, ttl, now), TablePrefix("apple"))
    ensures GenerateIndexKey("users", key) !in ScanFrom(Saved(s, "users", key, value, ttl, now), TablePrefix("users"))
  {
    var a, u := GenerateIndexKey("apple", key), GenerateIndexKey("users", key);
    assert a[0] == 'i' && u[0] == 'i';
    assert Less(TablePrefix("apple"), a);
    assert Less(u, TablePrefix("users"));
    Asymmetric(u, TablePrefix("users"));
  }
}
